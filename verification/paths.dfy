/**
 * Parent-directory derivation: everything before the last `/` of a file
 * name, found by a literal search for the separator (no path cleaning, no
 * platform separators).
 */
module Paths {

  const Separator: char := '/'

  /**
   * `strings.LastIndex` for a one-character needle: the position of the last
   * `c` in `s`, or -1 when `c` does not occur.
   */
  function LastIndex(s: string, c: char): (r: int)
    ensures -1 <= r < |s|
    ensures r == -1 <==> c !in s
    ensures 0 <= r ==> s[r] == c && c !in s[r + 1..]
  {
    if s == [] then -1
    else if s[|s| - 1] == c then |s| - 1
    else
      var r := LastIndex(s[..|s| - 1], c);
      assert s[r + 1..] == s[..|s| - 1][r + 1..] + [s[|s| - 1]];
      assert c !in s[..|s| - 1] ==> c !in s by {
        assert s == s[..|s| - 1] + [s[|s| - 1]];
      }
      r
  }

  /**
   * `getDir`: the directory part of a file name. The name must contain a
   * separator; the result is the prefix that the last separator ends, and
   * no separator follows that one.
   */
  function GetDir(filename: string): (dir: string)
    requires Separator in filename
    ensures |dir| < |filename| && filename[..|dir|] == dir
    ensures filename[|dir|] == Separator
    ensures Separator !in filename[|dir| + 1..]
  {
    filename[..LastIndex(filename, Separator)]
  }

  /**
   * The directories `os.MkdirAll(dir)` leaves in place: every non-empty
   * prefix of `dir` that a separator ends, and `dir` itself.
   */
  function DirChain(dir: string): (chain: set<string>)
    ensures dir != "" ==> dir in chain
    ensures forall d :: d in chain ==> d != "" && d <= dir
  {
    var chain := set i | 0 < i <= |dir| && (i == |dir| || dir[i] == Separator) :: dir[..i];
    assert dir[..|dir|] == dir;
    assert dir != "" ==> dir[..|dir|] in chain;
    chain
  }

  /**
   * Exactly the directory and its parents are in the chain: a string is in
   * it if and only if it is a non-empty prefix of the directory that is
   * either the whole directory or followed by a separator.
   */
  lemma DirChainMembers(dir: string, d: string)
    ensures d in DirChain(dir) <==>
      0 < |d| <= |dir| && d == dir[..|d|] && (|d| == |dir| || dir[|d|] == Separator)
  {
  }

  /** The directory of `a/b/c.txt` is `a/b`, and creating it creates `a` too. */
  lemma NestedDir()
    ensures GetDir("a/b/c.txt") == "a/b"
    ensures DirChain(GetDir("a/b/c.txt")) == {"a", "a/b"}
  {
    var f := "a/b/c.txt";
    assert f[3] == Separator;
    var d := GetDir(f);
    assert |d| == 3;
    assert d == "a/b";
    var chain := DirChain(d);
    assert d[..1] == "a" && d[1] == Separator;
    assert "a" in chain;
    forall x | x in chain ensures x == "a" || x == "a/b" {
      var i :| 0 < i <= |d| && (i == |d| || d[i] == Separator) && x == d[..i];
      assert i == 1 || i == 3;
    }
  }
}
