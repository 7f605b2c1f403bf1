/** The `posixpath` functions the library applies to paths: `isabs`,
    `dirname` and `join`, on strings, as CPython writes them. A second view
    of an absolute path as a sequence of components shows that `dirname`
    drops the last component and `join` appends one. */
module PyPath {

  /** `os.path.isabs(p)` on POSIX. */
  predicate IsAbs(p: string)
  {
    |p| > 0 && p[0] == '/'
  }

  predicate AllSlashes(s: string)
  {
    forall i :: 0 <= i < |s| ==> s[i] == '/'
  }

  predicate NoSlash(s: string)
  {
    forall i :: 0 <= i < |s| ==> s[i] != '/'
  }

  /** `p.rfind('/')`. */
  function RFindSlash(p: string): (k: int)
    ensures -1 <= k < |p|
    ensures k >= 0 ==> p[k] == '/'
    ensures forall j :: k < j < |p| ==> p[j] != '/'
  {
    if p == [] then -1
    else if p[|p| - 1] == '/' then |p| - 1
    else RFindSlash(p[..|p| - 1])
  }

  /** `p.rstrip('/')`. */
  function RStripSlashes(p: string): (r: string)
    ensures |r| <= |p| && r == p[..|r|]
    ensures r == [] || r[|r| - 1] != '/'
    ensures AllSlashes(p[|r|..])
  {
    if |p| > 0 && p[|p| - 1] == '/' then
      var r := RStripSlashes(p[..|p| - 1]);
      assert p[|r|..] == p[..|p| - 1][|r|..] + "/";
      r
    else p
  }

  /** `os.path.dirname(p)`: everything up to the last '/', with trailing
      slashes removed unless nothing but slashes is left. */
  function DirName(p: string): (d: string)
    ensures |d| <= |p|
    ensures IsAbs(p) ==> IsAbs(d)
  {
    var head := p[..RFindSlash(p) + 1];
    if head != [] && !AllSlashes(head) then
      var d := RStripSlashes(head);
      assert d != [];
      d
    else head
  }

  /** `os.path.join(a, b)`. */
  function Join(a: string, b: string): (r: string)
    ensures IsAbs(a) ==> IsAbs(r)
    ensures IsAbs(b) ==> r == b
  {
    if IsAbs(b) then b
    else if a == [] || a[|a| - 1] == '/' then a + b
    else a + "/" + b
  }

  /** A path component: a non-empty name without '/'. */
  predicate Component(c: string)
  {
    c != [] && NoSlash(c)
  }

  predicate Components(cs: seq<string>)
  {
    forall i :: 0 <= i < |cs| ==> Component(cs[i])
  }

  function Slashed(cs: seq<string>): string
  {
    if cs == [] then "" else Slashed(cs[..|cs| - 1]) + "/" + cs[|cs| - 1]
  }

  /** The canonical absolute path with the given components; the root is "/". */
  function PathOf(cs: seq<string>): (p: string)
    ensures IsAbs(p)
  {
    if cs == [] then "/"
    else
      assert Slashed(cs)[0] == '/' by { SlashedStartsWithSlash(cs); }
      Slashed(cs)
  }

  lemma {:induction false} SlashedStartsWithSlash(cs: seq<string>)
    requires cs != []
    ensures |Slashed(cs)| > 0 && Slashed(cs)[0] == '/'
  {
    var init := cs[..|cs| - 1];
    if init != [] {
      SlashedStartsWithSlash(init);
    }
  }

  lemma {:induction false} RFindSlashAfter(t: string, c: string)
    requires NoSlash(c)
    ensures RFindSlash(t + "/" + c) == |t|
  {
    var p := t + "/" + c;
    if c != [] {
      assert p[..|p| - 1] == t + "/" + c[..|c| - 1];
      RFindSlashAfter(t, c[..|c| - 1]);
    }
  }

  /** A canonical path that is not the root ends in a non-slash character. */
  lemma SlashedEnd(cs: seq<string>)
    requires cs != [] && Components(cs)
    ensures Slashed(cs) == Slashed(cs[..|cs| - 1]) + "/" + cs[|cs| - 1]
    ensures |Slashed(cs)| > 0 && Slashed(cs)[|Slashed(cs)| - 1] != '/'
  {
    var l := cs[|cs| - 1];
    assert Component(l);
  }

  /** `dirname` of a path whose last '/' is followed by a name. */
  lemma DirNameOfSlashed(t: string, last: string)
    requires NoSlash(last)
    requires t == [] || t[|t| - 1] != '/'
    ensures DirName(t + "/" + last) == if t == [] then "/" else t
  {
    var p := t + "/" + last;
    RFindSlashAfter(t, last);
    var head := p[..|t| + 1];
    assert head == t + "/";
    if t != [] {
      assert !AllSlashes(head) by { assert head[|t| - 1] != '/'; }
      assert head[..|head| - 1] == t;
      assert RStripSlashes(head) == RStripSlashes(t);
    }
  }

  /** `dirname` drops the last component of a canonical path. */
  lemma DirNameDropsLast(cs: seq<string>)
    requires cs != [] && Components(cs)
    ensures DirName(PathOf(cs)) == PathOf(cs[..|cs| - 1])
  {
    var init := cs[..|cs| - 1];
    var last := cs[|cs| - 1];
    assert Component(last);
    SlashedEnd(cs);
    if init != [] {
      assert Components(init);
      SlashedEnd(init);
    }
    DirNameOfSlashed(Slashed(init), last);
  }

  /** `join` of a canonical path and a component appends the component. */
  lemma JoinAppends(cs: seq<string>, c: string)
    requires Components(cs) && Component(c)
    ensures Join(PathOf(cs), c) == PathOf(cs + [c])
  {
    assert (cs + [c])[..|cs|] == cs;
    assert Components(cs + [c]);
    SlashedEnd(cs + [c]);
    assert !IsAbs(c);
    if cs != [] {
      SlashedEnd(cs);
    }
  }
}
