# mdparse, modelled in Dafny

`mdparse` reads a markdown document, finds its fenced code blocks, and for
every block whose language is an annotation of the form `**<path>**:`
writes the block's content to `<path>`, creating the parent directories
first. Blocks are handled in document order, a later block for the same path
overwrites an earlier one, and the first failed write stops the whole run.

The model follows the four pieces of `mdparse/parse.go`:

- `annotation.dfy` (module `Annotation`): `extractFilename`, with Go's
  `HasPrefix`, `HasSuffix`, `TrimPrefix` and `TrimSuffix` written out. The two
  markers are trimmed one after the other, as the source does, so the short
  languages `**:`, `***:` and `****:` are accepted and decode to `:`, `*:`
  and the empty name.
- `content.dfy` (module `Content`): `extractCodeBlockContent` as a method
  with a loop that appends each line's text to a buffer. It is proved equal to
  `Joined`, the in-order concatenation of the line spans. Lemmas give its
  length, and show that contiguous lines give the verbatim source range.
- `paths.dfy` (module `Paths`): `strings.LastIndex` and `getDir`. `getDir`
  requires a `/` in the name, because the source slices at index -1 and
  panics when there is none. `DirChain` is the set of directories that
  `os.MkdirAll` leaves in place.
- `emitter.dfy` (module `Emitter`): `writeFile` over an abstract file
  system: a map from file names to contents and a set of directories. An
  oracle decides which directory creations and which writes fail. `Write`
  is the specification as a function of the file system state. The class
  `FileSystem` holds that state in fields, and its method `WriteFile` is
  proved to match `Write`. A name without `/` ends in the outcome
  `Panicked`, because there the source panics instead of returning an error.
- `pipeline.dfy` (module `Pipeline`): the walk callback of `parseMarkdown`.
  `Walk` is the specification over the document's fenced blocks.
  `ParseMarkdown` is the loop over those blocks, proved to match `Run`.
  Lemmas cover inert unannotated blocks, sequential composition and fail-fast
  behaviour, last-write-wins against an independent definition
  (`LastContent`), and the worked example of a `# Title` document.

Two behaviours of the source are kept as they are:

- An annotated name without `/` makes `getDir` slice the name at index -1
  (mdparse/parse.go:94), which panics. The model's outcome is `Panicked`,
  which is not wrapped as a walk error.
- The language `**:` passes the test at mdparse/parse.go:60 and decodes to
  the name `:`, with `ok` true. Writing that name then panics in `getDir`.

## Model

| member | source | states |
|---|---|---|
| `Annotation.HasPrefix` | mdparse/parse.go:60 | holds exactly when the prefix is a prefix of the string |
| `Annotation.HasSuffix` | mdparse/parse.go:60 | holds exactly when the string is some string followed by the suffix |
| `Annotation.IsAnnotation` | mdparse/parse.go:60 | holds exactly when the language begins with `**` and is some string followed by `**:`; the markers may overlap, so three characters are enough |
| `Annotation.TrimPrefix` | mdparse/parse.go:61 | the result with the prefix put back in front is the input when the input starts with it, and otherwise the result is the input unchanged |
| `Annotation.TrimSuffix` | mdparse/parse.go:62 | the result with the suffix appended is the input when the input ends with it, and otherwise the result is the input unchanged |
| `Annotation.ExtractFilename` | mdparse/parse.go:59-68 | `ok` holds exactly when the language starts with `**` and ends with `**:`; on `false` the name is empty; for an accepted string of 5 or more characters the name is the string without its first 2 and last 3 characters, and the string is `**` + name + `**:` |
| `Annotation.DecodeAnnotate` | mdparse/parse.go:60-64 | decoding `**` + path + `**:` gives back path with `ok` true, for every path (round trip) |
| `Annotation.ShortAnnotations` | mdparse/parse.go:60-64 | the only accepted languages shorter than 5 characters are `**:` and `***:`, and they decode to `:` and `*:` |
| `Annotation.OverlappingMarkers` | mdparse/parse.go:60-64 | `**:` gives `:`, `***:` gives `*:` and `****:` gives the empty name, each with `ok` true |
| `Annotation.NonAnnotations` | mdparse/parse.go:60-67 | `python`, the empty string, `**x**` and `src/a.txt**:` give the empty name and `ok` false |
| `Content.ValueAdjacent` | mdparse/parse.go:73-74 | the texts of two adjacent spans, one after the other, are the text of the span that covers both |
| `Content.JoinedLength` | mdparse/parse.go:70-77 | the block content is as long as the sum of its line span lengths |
| `Content.JoinedSnoc` | mdparse/parse.go:72-75 | appending a line to the block appends exactly that line's text to the content |
| `Content.JoinedContiguous` | mdparse/parse.go:70-77 | when each line starts where the previous one stopped, the content is the source range from the first line's start to the last line's stop, verbatim |
| `Content.ExtractCodeBlockContent` | mdparse/parse.go:70-77 | the buffer loop returns the in-order concatenation of the line texts; its length is the sum of the span lengths; no lines give the empty string |
| `Paths.LastIndex` | mdparse/parse.go:94 | -1 exactly when the character does not occur; otherwise the index holds the character and no later index does |
| `Paths.GetDir` | mdparse/parse.go:93-95 | for a name containing `/`, a proper prefix of the name that is followed by a `/`, with no `/` after that one |
| `Paths.DirChain` | mdparse/parse.go:81 | a non-empty requested directory is in the chain, and every member of the chain is a non-empty prefix of it |
| `Paths.DirChainMembers` | mdparse/parse.go:81 | a string is in the chain exactly when it is the directory itself or one of its parents: a non-empty prefix of the directory that is followed by a `/` |
| `Paths.NestedDir` | mdparse/parse.go:93-95 | the directory of `a/b/c.txt` is `a/b`, and creating it leaves exactly `a` and `a/b` |
| `Emitter.Write` | mdparse/parse.go:79-91 | the outcome is a panic exactly when the name has no `/`, a directory error exactly when the oracle fails its directory, a write error exactly when the directory succeeds and the oracle fails the file, and success otherwise; a panic or a failed directory creation changes nothing; on success the file holds exactly the new content, overwriting any old content, and every other file is unchanged; after success or a failed write the directories are the old ones plus the parent directory chain; a failed write changes no file |
| `Emitter.FileSystem.MkdirAll` | mdparse/parse.go:81-84 | unless the oracle fails the directory, the directory chain is added; files are unchanged |
| `Emitter.FileSystem.WriteFileContent` | mdparse/parse.go:85-88 | unless the oracle fails the file, the file's content is replaced in full; directories are unchanged |
| `Emitter.FileSystem.WriteFile` | mdparse/parse.go:79-91 | the new file system state and the outcome are those of `Write` |
| `Pipeline.Walk` | mdparse/parse.go:26-48 | the walk ends in success, a panic, or a directory or write error from the emitter; directories only grow; no blocks give success with nothing changed |
| `Pipeline.Run` | mdparse/parse.go:15-56 | a read failure returns `ReadError` with nothing changed; otherwise the outcome is success, a panic, or an emitter error wrapped as a walk error |
| `Pipeline.WalkInert` | mdparse/parse.go:31-47 | blocks whose languages are not annotations give success and leave the file system unchanged |
| `Pipeline.WalkSkipsUnannotated` | mdparse/parse.go:31-45 | removing an unannotated block anywhere from the document does not change the walk's result |
| `Pipeline.WalkConcat` | mdparse/parse.go:39-42 | walking two runs of blocks is walking the first and, only if it succeeded, the second from its end state; after a failure no later block is processed |
| `Pipeline.WalkLastWriteWins` | mdparse/parse.go:31-47 | after a successful walk each path holds the content of the last block annotated with it, and paths no block names are as they were |
| `Pipeline.LastContentOfFinal` | mdparse/parse.go:31-47 | when the final block is annotated with a path, the independent last-block definition gives that block's content for the path, whatever the earlier blocks are |
| `Pipeline.FinalBlockWins` | mdparse/parse.go:31-47 | when the final block is annotated with a path and the walk succeeds, that file holds the final block's content, whatever earlier blocks wrote to it |
| `Pipeline.BareFilenamePanics` | mdparse/parse.go:35-39 | an annotated name without `/` stops the walk with a panic before anything is created or written for it |
| `Pipeline.NothingAnnotated` | mdparse/parse.go:26-56 | a document with no annotated block succeeds and changes nothing |
| `Pipeline.HelloWrite` | mdparse/parse.go:79-91 | writing `src/hello.txt` on an empty, never-failing file system creates `src` and that one file |
| `Pipeline.HelloContent` | mdparse/parse.go:70-77 | the annotated block of the example document holds `hello world` and its line break |
| `Pipeline.WriteThenSkip` | mdparse/parse.go:26-56 | a successful annotated block followed by an unannotated one ends with the write's state and success |
| `Pipeline.HelloExample` | mdparse/parse.go:15-56 | the example document (a heading, a block annotated `src/hello.txt`, a `python` block) writes exactly `src/hello.txt` with `hello world` and a line break, creates `src`, and succeeds |
| `Pipeline.ParseMarkdown` | mdparse/parse.go:15-57 | the loop over the blocks leaves the file system state and returns the outcome that `Run` describes |

## Left out

- Markdown parsing (goldmark's parser, `ast.Walk`, node kinds, `Language`,
  `Lines`) is not part of this model. A read document is given as its source
  text plus its fenced blocks in document order, each a language and line
  spans inside the source. The language is what `Language` returns, the
  first word of the info string, so an info string such as `**a b/c**:`
  reaches the decoder as `**a` and is not an annotation. Other node kinds and the walk's exit events
  do nothing in the source and are absent here.
- Reading the file, `os.MkdirAll` and `ioutil.WriteFile` are not modelled as
  real I/O. The read is an input (`Unreadable` or a document). The file system
  is a map and a set, and an oracle fixed per file system decides which
  directory creations and writes fail. A failure that depends on earlier
  operations, or on an empty directory name, is only what the oracle says.
- Emitter.Write: a failed directory creation leaves the file system as it
  was. The real `os.MkdirAll` creates parents one at a time, so a failure
  on a deeper component keeps the parents already made.
- Emitter.Write: a failed write leaves every file as it was. The real
  `ioutil.WriteFile` truncates the file before writing, so a failed write
  can leave the old file emptied or half written.
- Emitter.FileSystem.MkdirAll: a failure adds no directory, unlike a real
  `os.MkdirAll` that fails partway.
- Emitter.FileSystem.WriteFileContent: a failure keeps the old content,
  unlike a real truncating write that fails partway.
- File names are compared as strings. `a/x`, `a/./x` and `a//x` are three
  files in the model but one file on disk. So the last-write-wins property
  of `Pipeline.WalkLastWriteWins` holds per name string, not per file.
- Permission bits (`os.ModePerm`, `0644`), OS error kinds and the error
  message texts are left out. Errors are the variants `ReadError`,
  `WalkError`, `MkdirError` and `WriteError`.
- All logging is left out; it has no effect on results.
- A panic ends the Go process. Here it is the outcome `Panicked`, with the
  file system as it was when the panic happened.
- The source works on bytes. The model uses `string` (a sequence of
  characters) for the document, the languages, the names and the contents.
  No encoding is involved.
