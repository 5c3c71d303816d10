/**
 * The extraction pipeline, `parseMarkdown`: read the document, walk its
 * fenced code blocks in document order, and write every annotated block's
 * content to the file its annotation names, stopping at the first failure.
 *
 * The markdown parser is not modelled: a read document is its source text
 * together with the fenced blocks the parser found in it, in document
 * order, each with its language and its line spans. Every other kind of
 * node, and every exit event of the tree walk, does nothing and is absent.
 */
module Pipeline {
  import opened Annotation
  import opened Content
  import opened Paths
  import opened Emitter

  datatype Option<T> = None | Some(value: T)

  /**
   * A fenced code block: its language (what the parser's `Language` gives,
   * the first word of the info string) and its lines in the source.
   */
  datatype FencedBlock = FencedBlock(language: string, lines: seq<Span>)

  /** A parsed document: the source and its fenced blocks in document order. */
  datatype Document = Document(source: string, blocks: seq<FencedBlock>)

  /** The result of reading the markdown file. */
  datatype Load = Unreadable | Read(doc: Document)

  /** Every line of every block lies inside the source, as the parser ensures. */
  predicate BlocksWithin(source: string, blocks: seq<FencedBlock>) {
    forall i :: 0 <= i < |blocks| ==> SpansWithin(source, blocks[i].lines)
  }

  predicate WellFormed(load: Load) {
    load.Read? ==> BlocksWithin(load.doc.source, load.doc.blocks)
  }

  /** The content a block carries. */
  function BlockContent(source: string, block: FencedBlock): string
    requires SpansWithin(source, block.lines)
  {
    Joined(source, block.lines)
  }

  /**
   * The walk callback applied to each block in turn: an unannotated block is
   * skipped; an annotated one is written, and a write that does not end in
   * `Ok` stops the walk with its outcome. The result is the final file
   * system and how the walk ended.
   */
  function Walk(st: FsState, oracle: Oracle, source: string, blocks: seq<FencedBlock>): (r: (FsState, Outcome))
    requires BlocksWithin(source, blocks)
    ensures r.1 == Ok || r.1 == Panicked || r.1 == Fail(MkdirError) || r.1 == Fail(WriteError)
    ensures st.dirs <= r.0.dirs
    ensures blocks == [] ==> r == (st, Ok)
    decreases |blocks|
  {
    if blocks == [] then
      (st, Ok)
    else
      var decoded := ExtractFilename(blocks[0].language);
      if !decoded.1 then
        Walk(st, oracle, source, blocks[1..])
      else
        var written := Write(st, oracle, decoded.0, BlockContent(source, blocks[0]));
        if written.1 != Ok then written
        else Walk(written.0, oracle, source, blocks[1..])
  }

  /**
   * `parseMarkdown` as a function of the file system: a read failure ends
   * it before any block is looked at; an error from the walk comes back
   * wrapped; a panic passes through unwrapped.
   */
  function Run(st: FsState, oracle: Oracle, load: Load): (r: (FsState, Outcome))
    requires WellFormed(load)
    ensures load.Unreadable? ==> r == (st, Fail(ReadError))
    ensures load.Read? ==> r.1 == Ok || r.1 == Panicked ||
                           r.1 == Fail(WalkError(MkdirError)) || r.1 == Fail(WalkError(WriteError))
  {
    match load
    case Unreadable => (st, Fail(ReadError))
    case Read(doc) =>
      var walked := Walk(st, oracle, doc.source, doc.blocks);
      if walked.1.Fail? then (walked.0, Fail(WalkError(walked.1.err))) else walked
  }

  /**
   * The content of the last block annotated with `path`, or `None` when no
   * block is: the independent account of which write a path ends up with.
   */
  function LastContent(source: string, blocks: seq<FencedBlock>, path: string): Option<string>
    requires BlocksWithin(source, blocks)
    decreases |blocks|
  {
    if blocks == [] then None
    else
      var later := LastContent(source, blocks[1..], path);
      if later.Some? then later
      else if ExtractFilename(blocks[0].language) == (path, true) then Some(BlockContent(source, blocks[0]))
      else None
  }

  lemma BlocksWithinTail(source: string, blocks: seq<FencedBlock>, k: nat)
    requires BlocksWithin(source, blocks) && k <= |blocks|
    ensures BlocksWithin(source, blocks[k..])
  {
  }

  /** Blocks that carry no annotation are inert: success, nothing changes. */
  lemma {:induction false} WalkInert(st: FsState, oracle: Oracle, source: string, blocks: seq<FencedBlock>)
    requires BlocksWithin(source, blocks)
    requires forall i :: 0 <= i < |blocks| ==> !IsAnnotation(blocks[i].language)
    ensures Walk(st, oracle, source, blocks) == (st, Ok)
  {
    if blocks != [] {
      BlocksWithinTail(source, blocks, 1);
      assert forall i :: 0 <= i < |blocks| - 1 ==> blocks[1..][i] == blocks[i + 1];
      WalkInert(st, oracle, source, blocks[1..]);
    }
  }

  /** Dropping a block that carries no annotation changes nothing. */
  lemma WalkSkipsUnannotated(st: FsState, oracle: Oracle, source: string,
                                                before: seq<FencedBlock>, block: FencedBlock,
                                                after: seq<FencedBlock>)
    requires BlocksWithin(source, before) && BlocksWithin(source, after)
    requires SpansWithin(source, block.lines)
    requires !IsAnnotation(block.language)
    ensures BlocksWithin(source, before + [block] + after)
    ensures BlocksWithin(source, before + after)
    ensures Walk(st, oracle, source, before + [block] + after) == Walk(st, oracle, source, before + after)
  {
    var tail := [block] + after;
    assert forall i :: 0 <= i < |tail| ==> tail[i] == if i == 0 then block else after[i - 1];
    assert tail[1..] == after;
    assert before + [block] + after == before + tail;
    WalkConcat(st, oracle, source, before, tail);
    WalkConcat(st, oracle, source, before, after);
    var mid := Walk(st, oracle, source, before);
    if mid.1 == Ok {
      assert Walk(mid.0, oracle, source, tail) == Walk(mid.0, oracle, source, after);
    }
  }

  /**
   * Walking two runs of blocks one after the other is walking the first and,
   * only if it succeeded, the second from where it left off. In particular,
   * once a write fails no later block is processed.
   */
  lemma {:induction false} WalkConcat(st: FsState, oracle: Oracle, source: string,
                                      first: seq<FencedBlock>, second: seq<FencedBlock>)
    requires BlocksWithin(source, first) && BlocksWithin(source, second)
    ensures BlocksWithin(source, first + second)
    ensures Walk(st, oracle, source, first).1 != Ok ==>
      Walk(st, oracle, source, first + second) == Walk(st, oracle, source, first)
    ensures Walk(st, oracle, source, first).1 == Ok ==>
      Walk(st, oracle, source, first + second) == Walk(Walk(st, oracle, source, first).0, oracle, source, second)
    decreases |first|
  {
    assert forall i :: 0 <= i < |first + second| ==>
      (first + second)[i] == (if i < |first| then first[i] else second[i - |first|]);
    if first == [] {
      assert first + second == second;
    } else {
      assert (first + second)[1..] == first[1..] + second;
      BlocksWithinTail(source, first, 1);
      var decoded := ExtractFilename(first[0].language);
      if !decoded.1 {
        WalkConcat(st, oracle, source, first[1..], second);
      } else {
        var written := Write(st, oracle, decoded.0, BlockContent(source, first[0]));
        if written.1 == Ok {
          WalkConcat(written.0, oracle, source, first[1..], second);
        }
      }
    }
  }

  /** The file `path` holds after a successful walk, given its content before. */
  ghost predicate EndsWith(files: map<string, string>, before: map<string, string>, path: string, last: Option<string>) {
    match last
    case Some(c) => path in files && files[path] == c
    case None => (path in files <==> path in before) && (path in before ==> files[path] == before[path])
  }

  /**
   * After a successful walk every path holds the content of the last block
   * annotated with it, and paths no block names are as they were.
   */
  lemma {:induction false} WalkLastWriteWins(st: FsState, oracle: Oracle, source: string,
                                             blocks: seq<FencedBlock>, path: string)
    requires BlocksWithin(source, blocks)
    requires Walk(st, oracle, source, blocks).1 == Ok
    ensures EndsWith(Walk(st, oracle, source, blocks).0.files, st.files, path, LastContent(source, blocks, path))
    decreases |blocks|
  {
    if blocks != [] {
      BlocksWithinTail(source, blocks, 1);
      var decoded := ExtractFilename(blocks[0].language);
      if !decoded.1 {
        WalkLastWriteWins(st, oracle, source, blocks[1..], path);
      } else {
        var written := Write(st, oracle, decoded.0, BlockContent(source, blocks[0]));
        WalkLastWriteWins(written.0, oracle, source, blocks[1..], path);
      }
    }
  }

  /** A block annotated with `path` at the end is the last one for `path`. */
  lemma {:induction false} LastContentOfFinal(source: string, earlier: seq<FencedBlock>, final: FencedBlock,
                                              path: string)
    requires BlocksWithin(source, earlier) && SpansWithin(source, final.lines)
    requires ExtractFilename(final.language) == (path, true)
    ensures BlocksWithin(source, earlier + [final])
    ensures LastContent(source, earlier + [final], path) == Some(BlockContent(source, final))
    decreases |earlier|
  {
    var blocks := earlier + [final];
    assert forall i :: 0 <= i < |blocks| ==> blocks[i] == if i < |earlier| then earlier[i] else final;
    if earlier == [] {
      assert blocks == [final] && blocks[1..] == [];
    } else {
      assert blocks[1..] == earlier[1..] + [final];
      BlocksWithinTail(source, earlier, 1);
      LastContentOfFinal(source, earlier[1..], final, path);
    }
  }

  /**
   * Whatever blocks come before, after a successful walk the file named by
   * the final block holds that block's content: the later block wins.
   */
  lemma FinalBlockWins(st: FsState, oracle: Oracle, source: string, path: string,
                       earlier: seq<FencedBlock>, final: FencedBlock)
    requires BlocksWithin(source, earlier) && SpansWithin(source, final.lines)
    requires ExtractFilename(final.language) == (path, true)
    requires BlocksWithin(source, earlier + [final])
    requires Walk(st, oracle, source, earlier + [final]).1 == Ok
    ensures path in Walk(st, oracle, source, earlier + [final]).0.files
    ensures Walk(st, oracle, source, earlier + [final]).0.files[path] == BlockContent(source, final)
  {
    LastContentOfFinal(source, earlier, final, path);
    WalkLastWriteWins(st, oracle, source, earlier + [final], path);
  }

  /**
   * An annotation without a directory part panics at the first such block,
   * before anything is created or written for it.
   */
  lemma BareFilenamePanics(st: FsState, oracle: Oracle, source: string, name: string,
                           lines: seq<Span>, rest: seq<FencedBlock>)
    requires Separator !in name
    requires SpansWithin(source, lines) && BlocksWithin(source, rest)
    ensures BlocksWithin(source, [FencedBlock(Annotate(name), lines)] + rest)
    ensures Walk(st, oracle, source, [FencedBlock(Annotate(name), lines)] + rest) == (st, Panicked)
  {
  }

  /** A document without annotated blocks succeeds and writes nothing. */
  lemma NothingAnnotated(st: FsState, oracle: Oracle, doc: Document)
    requires BlocksWithin(doc.source, doc.blocks)
    requires forall i :: 0 <= i < |doc.blocks| ==> !IsAnnotation(doc.blocks[i].language)
    ensures Run(st, oracle, Read(doc)) == (st, Ok)
  {
    WalkInert(st, oracle, doc.source, doc.blocks);
  }

  /** A document with a `# Title` heading, an annotated block and a `python` block. */
  const HelloHead: string := "# Title\n```**src/hello.txt**:\n"
  const HelloBody: string := "hello world\n"
  const HelloTail: string := "```\n```python\nprint(1)\n```\n"
  const HelloSource: string := HelloHead + HelloBody + HelloTail
  const HelloBlocks: seq<FencedBlock> :=
    [FencedBlock("**src/hello.txt**:", [Span(30, 42)]), FencedBlock("python", [Span(56, 65)])]

  /** The example's one write: `src` is created and the file written. */
  lemma HelloWrite()
    ensures Write(FsState(map[], {}), Oracle({}, {}), "src/hello.txt", HelloBody)
            == (FsState(map["src/hello.txt" := "hello world\n"], {"src"}), Ok)
  {
    var path := "src/hello.txt";
    assert path[3] == Separator;
    assert GetDir(path) == "src";
    var chain := DirChain("src");
    forall d | d in chain ensures d == "src" {
      var i :| 0 < i <= 3 && (i == 3 || "src"[i] == Separator) && d == "src"[..i];
    }
    assert chain == {"src"};
    assert map[][path := HelloBody] == map[path := HelloBody];
    assert {} + chain == {"src"};
  }

  lemma SliceOfConcat(a: string, b: string, c: string)
    ensures (a + b + c)[|a|..|a| + |b|] == b
  {
  }

  /** The annotated block of the example holds `hello world` and its line break. */
  lemma HelloContent()
    ensures SpansWithin(HelloSource, HelloBlocks[0].lines)
    ensures BlockContent(HelloSource, HelloBlocks[0]) == HelloBody
  {
    assert |HelloHead| == 30 && |HelloBody| == 12;
    SliceOfConcat(HelloHead, HelloBody, HelloTail);
    var lines := HelloBlocks[0].lines;
    assert lines[1..] == [];
    assert Joined(HelloSource, lines) == HelloSource[30..42] + Joined(HelloSource, []);
  }

  /** A successful annotated block followed by an unannotated one. */
  lemma WriteThenSkip(st: FsState, oracle: Oracle, source: string, one: FencedBlock, two: FencedBlock,
                      after: FsState)
    requires SpansWithin(source, one.lines) && SpansWithin(source, two.lines)
    requires ExtractFilename(one.language).1 && !IsAnnotation(two.language)
    requires Write(st, oracle, ExtractFilename(one.language).0, BlockContent(source, one)) == (after, Ok)
    ensures WellFormed(Read(Document(source, [one, two])))
    ensures Run(st, oracle, Read(Document(source, [one, two]))) == (after, Ok)
  {
    var blocks := [one, two];
    assert BlocksWithin(source, blocks);
    assert blocks[1..] == [two];
    BlocksWithinTail(source, blocks, 1);
    assert Walk(st, oracle, source, blocks) == Walk(after, oracle, source, [two]);
    WalkInert(after, oracle, source, [two]);
  }

  /**
   * Run on an empty file system that never fails, the example writes exactly
   * one file, `src/hello.txt`, holding `hello world` and its line break,
   * creates `src`, and succeeds.
   */
  lemma HelloExample()
    ensures WellFormed(Read(Document(HelloSource, HelloBlocks)))
    ensures Run(FsState(map[], {}), Oracle({}, {}), Read(Document(HelloSource, HelloBlocks)))
            == (FsState(map["src/hello.txt" := HelloBody], {"src"}), Ok)
  {
    var one, two := HelloBlocks[0], HelloBlocks[1];
    assert HelloBlocks == [one, two];
    HelloContent();
    assert SpansWithin(HelloSource, two.lines) by {
      assert |HelloSource| == 69;
    }
    assert BlocksWithin(HelloSource, HelloBlocks);
    var path := "src/hello.txt";
    assert one.language == Annotate(path);
    DecodeAnnotate(path);
    NonAnnotations();
    HelloWrite();
    WriteThenSkip(FsState(map[], {}), Oracle({}, {}), HelloSource, one, two,
                  FsState(map[path := HelloBody], {"src"}));
  }

  /**
   * `parseMarkdown`: walks the blocks of the read document with a loop,
   * writing each annotated block through the file system and stopping at
   * the first write that does not succeed.
   */
  method ParseMarkdown(fs: FileSystem, load: Load) returns (out: Outcome)
    requires WellFormed(load)
    modifies fs
    ensures (fs.State(), out) == Run(old(fs.State()), fs.oracle, load)
  {
    if load.Unreadable? {
      return Fail(ReadError);
    }
    var source, blocks := load.doc.source, load.doc.blocks;
    ghost var whole := Walk(fs.State(), fs.oracle, source, blocks);
    var i := 0;
    while i < |blocks|
      invariant 0 <= i <= |blocks|
      invariant BlocksWithin(source, blocks[i..])
      invariant whole == Walk(fs.State(), fs.oracle, source, blocks[i..])
    {
      var block := blocks[i];
      ghost var rest, before := blocks[i..], fs.State();
      assert rest[0] == block && rest[1..] == blocks[i + 1..];
      BlocksWithinTail(source, rest, 1);
      var decoded := ExtractFilename(block.language);
      if decoded.1 {
        var content := ExtractCodeBlockContent(source, block.lines);
        var res := fs.WriteFile(decoded.0, content);
        assert whole == if res != Ok then (fs.State(), res) else Walk(fs.State(), fs.oracle, source, rest[1..]);
        if res != Ok {
          // The callback returns WalkStop with the error; nothing after this block runs.
          out := if res.Fail? then Fail(WalkError(res.err)) else res;
          return;
        }
      } else {
        assert whole == Walk(before, fs.oracle, source, rest[1..]);
      }
      i := i + 1;
    }
    return Ok;
  }
}
