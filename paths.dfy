/**
 * The two `path` functions the scanner uses, for POSIX paths: `join`
 * taken as plain concatenation with one separator, and `basename`.
 */
module Paths {

  const Separator: char := '/'

  /** `path.join(dir, name)`, without normalisation of "." , ".." or doubled separators. */
  function Join(dir: string, name: string): (p: string)
    ensures |p| == |dir| + 1 + |name| && p[..|dir|] == dir && p[|dir|] == Separator && p[|dir| + 1..] == name
  {
    dir + [Separator] + name
  }

  /** `p` without its trailing separators. */
  function StripTrailingSeparators(p: string): (r: string)
    ensures |r| <= |p| && r == p[..|r|]
    ensures r != [] ==> r[|r| - 1] != Separator
    ensures forall i :: |r| <= i < |p| ==> p[i] == Separator
  {
    if p != [] && p[|p| - 1] == Separator then StripTrailingSeparators(p[..|p| - 1]) else p
  }

  /** The part of `p` after its last separator. */
  function LastSegment(p: string): (r: string)
    ensures |r| <= |p| && r == p[|p| - |r|..]
    ensures Separator !in r
    ensures |r| < |p| ==> p[|p| - |r| - 1] == Separator
  {
    if p == [] || p[|p| - 1] == Separator then []
    else
      var r := LastSegment(p[..|p| - 1]);
      assert Separator !in r + [p[|p| - 1]];
      r + [p[|p| - 1]]
  }

  /** `path.basename(p)` on POSIX: trailing separators are ignored; "" for "" and for "/". */
  function Basename(p: string): (r: string)
    ensures Separator !in r
  {
    LastSegment(StripTrailingSeparators(p))
  }

  /** The base name of a joined path is the name that was joined. */
  lemma BasenameOfJoin(dir: string, name: string)
    requires name != [] && Separator !in name
    ensures Basename(Join(dir, name)) == name
  {
    var p := Join(dir, name);
    assert p[|p| - 1] == name[|name| - 1];
    assert StripTrailingSeparators(p) == p;
    LastSegmentAfterSeparator(dir, name);
  }

  lemma {:induction false} LastSegmentAfterSeparator(dir: string, name: string)
    requires Separator !in name
    ensures LastSegment(dir + [Separator] + name) == name
    decreases |name|
  {
    var p := dir + [Separator] + name;
    if name == [] {
      assert p[|p| - 1] == Separator;
    } else {
      var init := name[..|name| - 1];
      assert p[..|p| - 1] == dir + [Separator] + init;
      assert name[|name| - 1] in name;
      LastSegmentAfterSeparator(dir, init);
      assert init + [name[|name| - 1]] == name;
    }
  }
}
