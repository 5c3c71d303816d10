/**
 * File emitter: `writeFile` over an abstract file system. The file system is
 * a map from file names to contents and a set of existing directories; an
 * oracle fixed when the file system is made says which directory creations
 * and which file writes fail (permissions, full disk, a file in the way).
 */
module Emitter {
  import opened Paths

  /** The errors of the pipeline, as returned to its caller. */
  datatype Error =
    | ReadError              // the document could not be read
    | WalkError(cause: Error) // an error returned from inside the block walk
    | MkdirError             // `os.MkdirAll` failed
    | WriteError             // `ioutil.WriteFile` failed

  /**
   * How an operation ends. `Panicked` is not an error value: the source
   * slices the file name at index -1 when it has no separator, which panics
   * and unwinds past every caller without being wrapped.
   */
  datatype Outcome = Ok | Fail(err: Error) | Panicked

  /** What the file system holds. */
  datatype FsState = FsState(files: map<string, string>, dirs: set<string>)

  /** Which directory creations and which file writes fail. */
  datatype Oracle = Oracle(mkdirFails: set<string>, writeFails: set<string>)

  /** `after` and `before` agree on every file name other than `path`. */
  ghost predicate OthersUnchanged(before: map<string, string>, after: map<string, string>, path: string) {
    forall p :: p != path ==>
      (p in after <==> p in before) && (p in before ==> after[p] == before[p])
  }

  /**
   * `writeFile(filename, content)` as a function of the file system: derive
   * the directory, create it, then write the whole content over whatever the
   * file held. A failed directory creation writes nothing; a failed write
   * keeps the directories already created.
   */
  function Write(st: FsState, oracle: Oracle, filename: string, content: string): (r: (FsState, Outcome))
    ensures r.1 == Panicked <==> Separator !in filename
    ensures r.1 == Fail(MkdirError) <==> Separator in filename && GetDir(filename) in oracle.mkdirFails
    ensures r.1 == Fail(WriteError) <==>
      Separator in filename && GetDir(filename) !in oracle.mkdirFails && filename in oracle.writeFails
    ensures r.1 == Ok <==>
      Separator in filename && GetDir(filename) !in oracle.mkdirFails && filename !in oracle.writeFails
    ensures r.1 == Ok || r.1 == Panicked || r.1 == Fail(MkdirError) || r.1 == Fail(WriteError)
    ensures r.1 == Panicked || r.1 == Fail(MkdirError) ==> r.0 == st
    ensures r.1 != Ok ==> r.0.files == st.files
    ensures st.dirs <= r.0.dirs
    ensures r.1 == Ok || r.1 == Fail(WriteError) ==>
      Separator in filename && r.0.dirs == st.dirs + DirChain(GetDir(filename))
    ensures r.1 == Ok ==> filename in r.0.files && r.0.files[filename] == content
    ensures r.1 == Ok ==> OthersUnchanged(st.files, r.0.files, filename)
  {
    if Separator !in filename then
      (st, Panicked)
    else
      var dir := GetDir(filename);
      if dir in oracle.mkdirFails then
        (st, Fail(MkdirError))
      else
        var created := st.(dirs := st.dirs + DirChain(dir));
        if filename in oracle.writeFails then
          (created, Fail(WriteError))
        else
          (created.(files := st.files[filename := content]), Ok)
  }

  /** A file system whose operations may fail as its oracle says. */
  class FileSystem {
    var files: map<string, string>
    var dirs: set<string>
    const oracle: Oracle

    constructor (files0: map<string, string>, dirs0: set<string>, oracle0: Oracle)
      ensures State() == FsState(files0, dirs0) && oracle == oracle0
    {
      files, dirs, oracle := files0, dirs0, oracle0;
    }

    function State(): FsState
      reads this
    {
      FsState(files, dirs)
    }

    /** `os.MkdirAll`: creates `dir` and its parents unless the oracle fails it. */
    method MkdirAll(dir: string) returns (ok: bool)
      modifies this
      ensures ok == (dir !in oracle.mkdirFails)
      ensures files == old(files)
      ensures dirs == if ok then old(dirs) + DirChain(dir) else old(dirs)
    {
      ok := dir !in oracle.mkdirFails;
      if ok {
        dirs := dirs + DirChain(dir);
      }
    }

    /** `ioutil.WriteFile`: replaces the file's content unless the oracle fails it. */
    method WriteFileContent(filename: string, content: string) returns (ok: bool)
      modifies this
      ensures ok == (filename !in oracle.writeFails)
      ensures dirs == old(dirs)
      ensures files == if ok then old(files)[filename := content] else old(files)
    {
      ok := filename !in oracle.writeFails;
      if ok {
        files := files[filename := content];
      }
    }

    /** `writeFile`: the new state and outcome are those `Write` describes. */
    method WriteFile(filename: string, content: string) returns (out: Outcome)
      modifies this
      ensures (State(), out) == Write(old(State()), oracle, filename, content)
    {
      var i := LastIndex(filename, Separator);
      if i < 0 {
        // The source evaluates filename[:-1] here and panics.
        return Panicked;
      }
      var dir := filename[..i];
      var made := MkdirAll(dir);
      if !made {
        return Fail(MkdirError);
      }
      var written := WriteFileContent(filename, content);
      if !written {
        return Fail(WriteError);
      }
      return Ok;
    }
  }
}
