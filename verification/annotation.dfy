/**
 * Annotation decoder: recognises a fenced code block's language of the
 * form `**<path>**:` and extracts `<path>` from it. The language is the
 * first word of the block's info string, as the markdown parser gives it.
 *
 * The decoder trims the two markers one after the other, exactly like
 * `strings.TrimPrefix` followed by `strings.TrimSuffix`, so for very short
 * languages, where the markers overlap, the result is not simply the
 * middle of the string.
 */
module Annotation {

  /** Opening marker of an annotation. */
  const Open: string := "**"
  /** Closing marker of an annotation. */
  const Close: string := "**:"

  /** `strings.HasPrefix`: `s` begins with `prefix`. */
  predicate HasPrefix(s: string, prefix: string)
    ensures HasPrefix(s, prefix) <==> prefix <= s
  {
    |prefix| <= |s| && s[..|prefix|] == prefix
  }

  /** `strings.HasSuffix`: `s` is some string followed by `suffix`. */
  predicate HasSuffix(s: string, suffix: string)
    ensures HasSuffix(s, suffix) <==> exists t :: t + suffix == s
  {
    var ends := |suffix| <= |s| && s[|s| - |suffix|..] == suffix;
    assert ends ==> s[..|s| - |suffix|] + suffix == s;
    assert forall t :: t + suffix == s ==> (t + suffix)[|t|..] == suffix;
    ends
  }

  /** `strings.TrimPrefix`: drops `prefix` once when `s` starts with it. */
  function TrimPrefix(s: string, prefix: string): (r: string)
    ensures HasPrefix(s, prefix) ==> prefix + r == s
    ensures !HasPrefix(s, prefix) ==> r == s
  {
    if HasPrefix(s, prefix) then s[|prefix|..] else s
  }

  /** `strings.TrimSuffix`: drops `suffix` once when `s` ends with it. */
  function TrimSuffix(s: string, suffix: string): (r: string)
    ensures HasSuffix(s, suffix) ==> r + suffix == s
    ensures !HasSuffix(s, suffix) ==> r == s
  {
    if HasSuffix(s, suffix) then s[..|s| - |suffix|] else s
  }

  /**
   * The test `extractFilename` makes before trimming. The two markers may
   * overlap, so a string of three characters already passes it.
   */
  predicate IsAnnotation(language: string)
    ensures IsAnnotation(language) <==> Open <= language && exists t :: t + Close == language
    ensures IsAnnotation(language) ==> |language| >= 3
  {
    HasPrefix(language, Open) && HasSuffix(language, Close)
  }

  /**
   * `extractFilename`: the file name and `true` for an annotation, `""` and
   * `false` for anything else (a language tag, an empty language, a
   * near-miss). For an annotation long enough that the markers do not
   * overlap, the name is what lies between them.
   */
  function ExtractFilename(language: string): (r: (string, bool))
    ensures r.1 <==> HasPrefix(language, Open) && HasSuffix(language, Close)
    ensures !r.1 ==> r.0 == ""
    ensures r.1 && |language| >= |Open| + |Close| ==> language == Open + r.0 + Close
    ensures r.1 && |language| >= |Open| + |Close| ==> r.0 == language[2..|language| - 3]
  {
    if IsAnnotation(language) then
      var filename := TrimPrefix(language, Open);
      var filename := TrimSuffix(filename, Close);
      (filename, true)
    else
      ("", false)
  }

  /** The language a writer puts on a block meant for `path`. */
  function Annotate(path: string): string {
    Open + path + Close
  }

  /** Decoding an annotation written for `path` gives back `path`. */
  lemma DecodeAnnotate(path: string)
    ensures ExtractFilename(Annotate(path)) == (path, true)
  {
  }

  /**
   * Only two accepted languages are shorter than the two markers together,
   * and for them sequential trimming leaves part of a marker behind.
   */
  lemma ShortAnnotations(language: string)
    requires ExtractFilename(language).1
    requires |language| < 5
    ensures language == "**:" || language == "***:"
    ensures language == "**:" ==> ExtractFilename(language).0 == ":"
    ensures language == "***:" ==> ExtractFilename(language).0 == "*:"
  {
  }

  /** The overlapping cases pinned down: none fails, none gives the middle. */
  lemma OverlappingMarkers()
    ensures ExtractFilename("**:") == (":", true)
    ensures ExtractFilename("***:") == ("*:", true)
    ensures ExtractFilename("****:") == ("", true)
  {
  }

  /** Plain tags, the empty language and near-misses are not annotations. */
  lemma NonAnnotations()
    ensures ExtractFilename("python") == ("", false)
    ensures ExtractFilename("") == ("", false)
    ensures ExtractFilename("**x**") == ("", false)
    ensures ExtractFilename("src/a.txt**:") == ("", false)
  {
    assert "python"[0] != Open[0];
    assert "**x**"[2..] == "x**";
    assert "**x**"[|"**x**"| - 3..] != Close;
    assert "src/a.txt**:"[0] != Open[0];
  }
}
