/** The parts of Python's `str` that the library leans on when it reads
    command output: `isspace`, `strip`, `splitlines`, `split()` and `in`.
    Characters are classified by code point, as CPython does. */
module PyStr {

  /** `c.isspace()`: the characters CPython treats as whitespace. */
  predicate IsSpace(c: char)
  {
    var n := c as int;
    || n == 0x20 || 0x09 <= n <= 0x0d || 0x1c <= n <= 0x1f
    || n == 0x85 || n == 0xa0 || n == 0x1680 || 0x2000 <= n <= 0x200a
    || n == 0x2028 || n == 0x2029 || n == 0x202f || n == 0x205f || n == 0x3000
  }

  /** The line boundaries of `str.splitlines` ("\r\n" counts as one, see SplitLines). */
  predicate IsLineBreak(c: char)
  {
    var n := c as int;
    || 0x0a <= n <= 0x0d || 0x1c <= n <= 0x1e
    || n == 0x85 || n == 0x2028 || n == 0x2029
  }

  predicate AllSpace(s: string)
  {
    forall i :: 0 <= i < |s| ==> IsSpace(s[i])
  }

  predicate NoSpace(s: string)
  {
    forall i :: 0 <= i < |s| ==> !IsSpace(s[i])
  }

  predicate NoLineBreak(s: string)
  {
    forall i :: 0 <= i < |s| ==> !IsLineBreak(s[i])
  }

  /** What `strip()` leaves: no whitespace at either end. */
  predicate Stripped(s: string)
  {
    s == [] || (!IsSpace(s[0]) && !IsSpace(s[|s| - 1]))
  }

  /** `s.lstrip()`: the longest suffix that does not start with whitespace. */
  function LStrip(s: string): (r: string)
    ensures |r| <= |s|
    ensures r == [] || !IsSpace(r[0])
    ensures r != [] ==> r[|r| - 1] == s[|s| - 1]
  {
    if |s| > 0 && IsSpace(s[0]) then LStrip(s[1..]) else s
  }

  /** `s.rstrip()`: the longest prefix that does not end with whitespace. */
  function RStrip(s: string): (r: string)
    ensures |r| <= |s|
    ensures r == [] || !IsSpace(r[|r| - 1])
    ensures r != [] ==> r[0] == s[0]
  {
    if |s| > 0 && IsSpace(s[|s| - 1]) then RStrip(s[..|s| - 1]) else s
  }

  /** `s.strip()`. */
  function Strip(s: string): (r: string)
    ensures Stripped(r)
    ensures |r| <= |s|
  {
    RStrip(LStrip(s))
  }

  lemma {:induction false} LStripFrame(w: string, t: string)
    requires AllSpace(w) && (t == [] || !IsSpace(t[0]))
    ensures LStrip(w + t) == t
  {
    if w != [] {
      assert (w + t)[1..] == w[1..] + t;
      LStripFrame(w[1..], t);
    }
  }

  lemma {:induction false} RStripFrame(t: string, w: string)
    requires AllSpace(w) && (t == [] || !IsSpace(t[|t| - 1]))
    ensures RStrip(t + w) == t
  {
    if w != [] {
      assert (t + w)[..|t + w| - 1] == t + w[..|w| - 1];
      RStripFrame(t, w[..|w| - 1]);
    } else {
      assert t + w == t;
    }
  }

  /** Strip removes exactly the surrounding whitespace and nothing of the
      text inside it: every string is `w1 + t + w2` in one way with `t`
      stripped, and Strip returns that `t`. */
  lemma StripFrame(w1: string, t: string, w2: string)
    requires AllSpace(w1) && AllSpace(w2) && Stripped(t)
    ensures Strip(w1 + t + w2) == t
  {
    if t == [] {
      assert w1 + t + w2 == w1 + w2 + [];
      assert AllSpace(w1 + w2);
      LStripFrame(w1 + w2, []);
      assert RStrip([]) == [];
    } else {
      assert w1 + t + w2 == w1 + (t + w2);
      LStripFrame(w1, t + w2);
      RStripFrame(t, w2);
    }
  }

  /** Text with nothing to strip is left as it is. */
  lemma StripKeepsStripped(t: string)
    requires Stripped(t)
    ensures Strip(t) == t
  {
    StripFrame([], t, []);
    assert [] + t + [] == t;
  }

  lemma StripIdempotent(s: string)
    ensures Strip(Strip(s)) == Strip(s)
  {
    StripKeepsStripped(Strip(s));
  }

  /** Index of the first line boundary in `s`, or |s|. */
  function LineEnd(s: string): (k: nat)
    ensures k <= |s|
    ensures NoLineBreak(s[..k])
    ensures k < |s| ==> IsLineBreak(s[k])
  {
    if |s| == 0 || IsLineBreak(s[0]) then 0
    else
      var k := 1 + LineEnd(s[1..]);
      assert s[..k] == [s[0]] + s[1..][..k - 1];
      k
  }

  /** `s.splitlines()`: no trailing empty line after a final boundary, and
      "\r\n" is a single boundary. */
  function SplitLines(s: string): (lines: seq<string>)
    ensures forall i :: 0 <= i < |lines| ==> NoLineBreak(lines[i])
    decreases |s|
  {
    if s == [] then []
    else
      var k := LineEnd(s);
      if k == |s| then
        assert s[..k] == s;
        [s]
      else
        var next := if s[k] == '\r' && k + 1 < |s| && s[k + 1] == '\n' then k + 2 else k + 1;
        [s[..k]] + SplitLines(s[next..])
  }

  /** The output of a command that prints one item per line, each line ended by "\n". */
  function JoinLines(lines: seq<string>): string
  {
    if lines == [] then "" else lines[0] + "\n" + JoinLines(lines[1..])
  }

  /** One step of SplitLines at a "\n" boundary. */
  lemma SplitLinesAtNewline(s: string, k: nat)
    requires k < |s| && LineEnd(s) == k && s[k] == '\n'
    ensures SplitLines(s) == [s[..k]] + SplitLines(s[k + 1..])
  {
  }

  lemma {:induction false} LineEndAt(l: string, tail: string)
    requires NoLineBreak(l)
    ensures LineEnd(l + "\n" + tail) == |l|
  {
    if l != [] {
      assert (l + "\n" + tail)[1..] == l[1..] + "\n" + tail;
      LineEndAt(l[1..], tail);
    }
  }

  /** A line ended by "\n" is split off the front of the text. */
  lemma SplitLinesFirst(l: string, tail: string)
    requires NoLineBreak(l)
    ensures SplitLines(l + "\n" + tail) == [l] + SplitLines(tail)
  {
    var s := l + "\n" + tail;
    LineEndAt(l, tail);
    assert s[|l|] == '\n';
    SplitLinesAtNewline(s, |l|);
    assert s[..|l|] == l;
    assert s[|l| + 1..] == tail;
  }

  /** Lines written out with JoinLines are read back by SplitLines, whatever follows them. */
  lemma {:induction false} SplitLinesAfterJoin(lines: seq<string>, rest: string)
    requires forall i :: 0 <= i < |lines| ==> NoLineBreak(lines[i])
    ensures SplitLines(JoinLines(lines) + rest) == lines + SplitLines(rest)
  {
    if lines == [] {
      assert JoinLines(lines) + rest == rest;
    } else {
      var l, more := lines[0], lines[1..];
      var tail := JoinLines(more) + rest;
      JoinLinesCons(lines, rest);
      SplitLinesFirst(l, tail);
      assert forall i :: 0 <= i < |more| ==> more[i] == lines[i + 1];
      SplitLinesAfterJoin(more, rest);
      SeqConsAssoc(l, more, SplitLines(rest));
      assert lines == [l] + more;
    }
  }

  lemma JoinLinesCons(lines: seq<string>, rest: string)
    requires lines != []
    ensures JoinLines(lines) + rest == lines[0] + "\n" + (JoinLines(lines[1..]) + rest)
  {
  }

  lemma SeqConsAssoc<T>(x: T, a: seq<T>, b: seq<T>)
    ensures [x] + (a + b) == ([x] + a) + b
  {
  }

  /** The round trip: splitting newline-terminated lines gives the lines back. */
  lemma SplitJoinLines(lines: seq<string>)
    requires forall i :: 0 <= i < |lines| ==> NoLineBreak(lines[i])
    ensures SplitLines(JoinLines(lines)) == lines
  {
    SplitLinesAfterJoin(lines, "");
    assert JoinLines(lines) + "" == JoinLines(lines);
  }

  /** Index of the first whitespace character in `s`, or |s|. */
  function SpaceEnd(s: string): (k: nat)
    ensures k <= |s|
    ensures NoSpace(s[..k])
    ensures k < |s| ==> IsSpace(s[k])
  {
    if |s| == 0 || IsSpace(s[0]) then 0
    else
      var k := 1 + SpaceEnd(s[1..]);
      assert s[..k] == [s[0]] + s[1..][..k - 1];
      k
  }

  /** `s.split()` with no separator: the maximal runs of non-whitespace. */
  function Fields(s: string): (fs: seq<string>)
    ensures forall i :: 0 <= i < |fs| ==> fs[i] != [] && NoSpace(fs[i])
    decreases |s|
  {
    var t := LStrip(s);
    if t == [] then []
    else
      var k := SpaceEnd(t);
      assert k > 0 by { assert !IsSpace(t[0]); }
      var field := t[..k];
      assert field != [] && NoSpace(field);
      var more := Fields(t[k..]);
      var fs := [field] + more;
      assert forall i :: 0 < i < |fs| ==> fs[i] == more[i - 1];
      fs
  }

  /** The first field of a line that starts with a word. */
  lemma FirstField(w: string, rest: string)
    requires w != [] && NoSpace(w)
    requires rest == [] || IsSpace(rest[0])
    ensures Fields(w + rest) != [] && Fields(w + rest)[0] == w
  {
    var s := w + rest;
    LStripFrame([], s);
    SpaceEndAt(w, rest);
    assert s[..|w|] == w;
  }

  lemma {:induction false} SpaceEndAt(w: string, rest: string)
    requires NoSpace(w)
    requires rest == [] || IsSpace(rest[0])
    ensures SpaceEnd(w + rest) == |w|
  {
    if w != [] {
      assert (w + rest)[1..] == w[1..] + rest;
      SpaceEndAt(w[1..], rest);
    } else {
      assert w + rest == rest;
    }
  }

  predicate OccursAt(s: string, pat: string, i: nat)
  {
    i + |pat| <= |s| && s[i..i + |pat|] == pat
  }

  /** `s.find(pat, from)`: the first occurrence at or after `from`, or -1. */
  function FindFrom(s: string, pat: string, from: nat): (k: int)
    ensures k == -1 || (from <= k && OccursAt(s, pat, k))
    ensures forall j: nat :: from <= j && (k == -1 || j < k) ==> !OccursAt(s, pat, j)
    decreases |s| - from
  {
    if from + |pat| > |s| then -1
    else if s[from..from + |pat|] == pat then from
    else FindFrom(s, pat, from + 1)
  }

  /** `s.find(pat)`. */
  function Find(s: string, pat: string): (k: int)
    ensures k == -1 <==> forall j: nat :: !OccursAt(s, pat, j)
    ensures k >= 0 ==> OccursAt(s, pat, k)
    ensures forall j: nat :: j < k ==> !OccursAt(s, pat, j)
  {
    FindFrom(s, pat, 0)
  }

  /** `pat in s`. */
  predicate Contains(s: string, pat: string)
  {
    Find(s, pat) >= 0
  }
}
