/** The readers of branch and remote listings in `GitLib`:
    `get_local_branches`, `get_local_remote_branches`, `get_remote_branches`,
    `get_remote_names`, `get_remote_name` and `get_principal_branch_name`.
    Each takes the text a git command printed (None when the command failed
    or printed nothing) and turns it into names. */
module Listing {
  import opened Wrappers
  import opened PyStr

  /** A name as git prints it on a line of its own: non-empty, no line
      boundary inside, no whitespace at either end. */
  predicate CleanName(n: string)
  {
    n != [] && NoLineBreak(n) && Stripped(n)
  }

  predicate AllClean(ns: seq<string>)
  {
    forall i :: 0 <= i < |ns| ==> CleanName(ns[i])
  }

  // ---- git branch ----

  /** `re.sub(r"^\* ", "", line)`: drop the marker of the checked-out branch. */
  function DropCurrentMarker(line: string): string
  {
    if |line| >= 2 && line[..2] == "* " then line[2..] else line
  }

  /** `get_local_branches`: one entry per output line, marker dropped and
      stripped, in output order. A None output has no `splitlines`. */
  function LocalBranches(out: Option<string>): (r: Result<seq<string>>)
    ensures r.Err? <==> out.None?
    ensures r.Err? ==> r.fault == AttributeErrorOnNone
    ensures r.Ok? ==> |r.value| == |SplitLines(out.value)|
    ensures r.Ok? ==> forall i :: 0 <= i < |r.value| ==> Stripped(r.value[i])
  {
    match out
    case None => Err(AttributeErrorOnNone)
    case Some(text) =>
      var lines := SplitLines(text);
      Ok(seq(|lines|, i requires 0 <= i < |lines| => Strip(DropCurrentMarker(lines[i]))))
  }

  /** The text `git branch` prints: every branch on a line, the checked-out
      one (index `current`, if any) marked with "* ", the others indented. */
  function BranchListingLines(names: seq<string>, current: nat): seq<string>
  {
    seq(|names|, i requires 0 <= i < |names| => (if i == current then "* " else "  ") + names[i])
  }

  /** One line of the listing reads back as its branch name. */
  lemma ListingLineReads(n: string, marked: bool)
    requires CleanName(n)
    ensures Strip(DropCurrentMarker((if marked then "* " else "  ") + n)) == n
  {
    if marked {
      MarkedLineReads(n);
    } else {
      IndentedLineReads(n);
    }
  }

  lemma MarkedLineReads(n: string)
    requires CleanName(n)
    ensures Strip(DropCurrentMarker("* " + n)) == n
  {
    var line := "* " + n;
    assert line[..2] == "* " && line[2..] == n;
    StripKeepsStripped(n);
  }

  lemma IndentedLineReads(n: string)
    requires CleanName(n)
    ensures Strip(DropCurrentMarker("  " + n)) == n
  {
    var line := "  " + n;
    assert line[0] == ' ';
    assert DropCurrentMarker(line) == line;
    StripFrame("  ", n, []);
    assert "  " + n + [] == line;
  }

  /** Reading what `git branch` prints gives back the branch names, in order. */
  lemma LocalBranchesReadsListing(names: seq<string>, current: nat)
    requires AllClean(names)
    ensures LocalBranches(Some(JoinLines(BranchListingLines(names, current)))) == Ok(names)
  {
    var lines := BranchListingLines(names, current);
    forall i | 0 <= i < |lines| ensures NoLineBreak(lines[i]) {
      assert CleanName(names[i]);
    }
    SplitJoinLines(lines);
    var r := LocalBranches(Some(JoinLines(lines)));
    forall i | 0 <= i < |names| ensures r.value[i] == names[i] {
      assert CleanName(names[i]);
      ListingLineReads(names[i], i == current);
    }
    assert r.value == names;
  }

  // ---- git branch -r ----

  const SymbolicMarker: string := "HEAD ->"

  /** A `git branch -r` entry such as "origin/HEAD -> origin/main". */
  predicate SymbolicHead(line: string)
  {
    Contains(line, SymbolicMarker)
  }

  function KeepTrackingBranches(lines: seq<string>): (r: seq<string>)
    ensures |r| <= |lines|
    ensures forall i :: 0 <= i < |r| ==> Stripped(r[i])
  {
    if lines == [] then []
    else
      var more := KeepTrackingBranches(lines[1..]);
      if SymbolicHead(lines[0]) then more
      else
        var r := [Strip(lines[0])] + more;
        assert forall i :: 0 < i < |r| ==> r[i] == more[i - 1];
        r
  }

  /** `get_local_remote_branches`: the stripped lines of `git branch -r`
      except the symbolic "HEAD -> ..." entries; nothing when the output is None. */
  function LocalRemoteBranches(out: Option<string>): (r: seq<string>)
    ensures out.None? ==> r == []
    ensures out.Some? ==> |r| <= |SplitLines(out.value)|
    ensures forall i :: 0 <= i < |r| ==> Stripped(r[i])
  {
    match out
    case None => []
    case Some(text) => KeepTrackingBranches(SplitLines(text))
  }

  lemma IndentedLacks(n: string, pat: string)
    requires |pat| > 0 && pat[0] != ' ' && !Contains(n, pat)
    ensures !Contains("  " + n, pat)
  {
    var s := "  " + n;
    forall j: nat ensures !OccursAt(s, pat, j) {
      if j < 2 {
        assert j + |pat| <= |s| ==> s[j..j + |pat|][0] == ' ';
      } else if j + |pat| <= |s| {
        assert s[j..j + |pat|] == n[j - 2..j - 2 + |pat|];
        assert !OccursAt(n, pat, j - 2);
      }
    }
  }

  /** The text `git branch -r` prints: symbolic HEAD entries first, then one
      indented remote-tracking branch per line. */
  function TrackingListingLines(heads: seq<string>, names: seq<string>): seq<string>
  {
    heads + seq(|names|, i requires 0 <= i < |names| => "  " + names[i])
  }

  lemma {:induction false} KeepTrackingDropsHeads(heads: seq<string>, rest: seq<string>)
    requires forall i :: 0 <= i < |heads| ==> SymbolicHead(heads[i])
    ensures KeepTrackingBranches(heads + rest) == KeepTrackingBranches(rest)
  {
    if heads != [] {
      var all := heads + rest;
      assert all[0] == heads[0];
      assert SymbolicHead(all[0]);
      assert all[1..] == heads[1..] + rest;
      assert KeepTrackingBranches(all) == [] + KeepTrackingBranches(all[1..]);
      KeepTrackingDropsHeads(heads[1..], rest);
    } else {
      assert heads + rest == rest;
    }
  }

  lemma {:induction false} KeepTrackingKeepsIndented(names: seq<string>)
    requires AllClean(names)
    requires forall i :: 0 <= i < |names| ==> !SymbolicHead(names[i])
    ensures KeepTrackingBranches(seq(|names|, i requires 0 <= i < |names| => "  " + names[i])) == names
  {
    var lines := seq(|names|, i requires 0 <= i < |names| => "  " + names[i]);
    if names != [] {
      assert CleanName(names[0]);
      IndentedLacks(names[0], SymbolicMarker);
      StripFrame("  ", names[0], []);
      assert "  " + names[0] + [] == lines[0];
      assert lines[1..] == seq(|names[1..]|, i requires 0 <= i < |names[1..]| => "  " + names[1..][i]);
      KeepTrackingKeepsIndented(names[1..]);
      assert names == [names[0]] + names[1..];
    }
  }

  /** Reading what `git branch -r` prints gives back the tracking branches,
      in order, without the symbolic HEAD entries. */
  lemma LocalRemoteBranchesReadsListing(heads: seq<string>, names: seq<string>)
    requires forall i :: 0 <= i < |heads| ==> SymbolicHead(heads[i]) && NoLineBreak(heads[i])
    requires AllClean(names)
    requires forall i :: 0 <= i < |names| ==> !SymbolicHead(names[i])
    ensures LocalRemoteBranches(Some(JoinLines(TrackingListingLines(heads, names)))) == names
  {
    var lines := TrackingListingLines(heads, names);
    var indented := seq(|names|, i requires 0 <= i < |names| => "  " + names[i]);
    assert lines == heads + indented;
    forall i | 0 <= i < |lines| ensures NoLineBreak(lines[i]) {
      if i >= |heads| {
        assert CleanName(names[i - |heads|]);
      }
    }
    SplitJoinLines(lines);
    KeepTrackingDropsHeads(heads, indented);
    KeepTrackingKeepsIndented(names);
  }

  /** Filtering a listing piece by piece is filtering the whole. */
  lemma {:induction false} KeepTrackingAppend(a: seq<string>, b: seq<string>)
    ensures KeepTrackingBranches(a + b) == KeepTrackingBranches(a) + KeepTrackingBranches(b)
  {
    if a == [] {
      assert a + b == b;
    } else {
      assert (a + b)[0] == a[0];
      assert (a + b)[1..] == a[1..] + b;
      KeepTrackingAppend(a[1..], b);
    }
  }

  /** A symbolic HEAD entry is dropped wherever it sits in the listing. */
  lemma KeepTrackingSkipsHead(a: seq<string>, h: string, b: seq<string>)
    requires SymbolicHead(h)
    ensures KeepTrackingBranches(a + [h] + b) == KeepTrackingBranches(a + b)
  {
    var keptA, keptB := KeepTrackingBranches(a), KeepTrackingBranches(b);
    assert KeepTrackingBranches([h]) == [] by {
      assert [h][0] == h && [h][1..] == [];
    }
    KeepTrackingAppend(a, [h]);
    assert KeepTrackingBranches(a + [h]) == keptA;
    KeepTrackingAppend(a + [h], b);
    KeepTrackingAppend(a, b);
  }

  /** One entry of a `git branch -r` listing with any number of remotes: a
      symbolic HEAD line such as "upstream/HEAD -> upstream/main", or a
      tracking branch printed indented. */
  datatype TrackingEntry = SymbolicEntry(line: string) | TrackedEntry(name: string)

  predicate WellFormedEntry(e: TrackingEntry)
  {
    match e
    case SymbolicEntry(line) => SymbolicHead(line) && NoLineBreak(line)
    case TrackedEntry(name) => CleanName(name) && !SymbolicHead(name)
  }

  function EntryLine(e: TrackingEntry): string
  {
    match e
    case SymbolicEntry(line) => line
    case TrackedEntry(name) => "  " + name
  }

  function EntryLines(es: seq<TrackingEntry>): (lines: seq<string>)
    ensures |lines| == |es|
    ensures forall i :: 0 <= i < |es| ==> lines[i] == EntryLine(es[i])
  {
    seq(|es|, i requires 0 <= i < |es| => EntryLine(es[i]))
  }

  /** The tracking branches of a listing, in order. */
  function TrackedNames(es: seq<TrackingEntry>): seq<string>
  {
    if es == [] then []
    else if es[0].TrackedEntry? then [es[0].name] + TrackedNames(es[1..])
    else TrackedNames(es[1..])
  }

  lemma {:induction false} KeepTrackingReadsEntries(es: seq<TrackingEntry>)
    requires forall i :: 0 <= i < |es| ==> WellFormedEntry(es[i])
    ensures KeepTrackingBranches(EntryLines(es)) == TrackedNames(es)
  {
    if es != [] {
      var lines := EntryLines(es);
      var more := es[1..];
      assert lines[1..] == EntryLines(more);
      assert WellFormedEntry(es[0]);
      if es[0].TrackedEntry? {
        var n := es[0].name;
        IndentedLacks(n, SymbolicMarker);
        IndentedLineReads(n);
        assert DropCurrentMarker("  " + n) == "  " + n;
        assert Strip(lines[0]) == n;
      }
      assert forall i :: 0 <= i < |more| ==> WellFormedEntry(more[i]) by {
        forall i | 0 <= i < |more| ensures WellFormedEntry(more[i]) {
          assert more[i] == es[i + 1];
        }
      }
      KeepTrackingReadsEntries(more);
    }
  }

  lemma EntryLineUnbroken(e: TrackingEntry)
    requires WellFormedEntry(e)
    ensures NoLineBreak(EntryLine(e))
  {
    if e.TrackedEntry? {
      var line := EntryLine(e);
      forall j | 0 <= j < |line| ensures !IsLineBreak(line[j]) {
        if j >= 2 {
          assert line[j] == e.name[j - 2];
        }
      }
    }
  }

  /** Reading what `git branch -r` prints for any number of remotes gives
      back the tracking branches, in listing order, and none of the
      symbolic HEAD entries, wherever they sit. */
  lemma LocalRemoteBranchesReadsEntries(es: seq<TrackingEntry>)
    requires forall i :: 0 <= i < |es| ==> WellFormedEntry(es[i])
    ensures LocalRemoteBranches(Some(JoinLines(EntryLines(es)))) == TrackedNames(es)
  {
    var lines := EntryLines(es);
    forall i | 0 <= i < |lines| ensures NoLineBreak(lines[i]) {
      EntryLineUnbroken(es[i]);
    }
    SplitJoinLines(lines);
    KeepTrackingReadsEntries(es);
  }

  // ---- git ls-remote ----

  const HeadsPrefix: string := "refs/heads/"

  /** Where the first `refs/heads/` of a line starts, or -1. */
  function HeadsAt(line: string): int
  {
    Find(line, HeadsPrefix)
  }

  /** The lines of `get_remote_branches`: the text after the first
      "refs/heads/", stripped, for each line that contains it. */
  function KeepHeads(lines: seq<string>): (r: seq<string>)
    ensures |r| <= |lines|
    ensures forall i :: 0 <= i < |r| ==> Stripped(r[i])
  {
    if lines == [] then []
    else
      var more := KeepHeads(lines[1..]);
      var k := HeadsAt(lines[0]);
      if k < 0 then more
      else
        var r := [Strip(lines[0][k + |HeadsPrefix|..])] + more;
        assert forall i :: 0 < i < |r| ==> r[i] == more[i - 1];
        r
  }

  /** `get_remote_branches` once the remote is chosen: the branch names of
      `git ls-remote` output. A None output has no `splitlines`. */
  function RemoteBranches(out: Option<string>): (r: Result<seq<string>>)
    ensures r.Err? <==> out.None?
    ensures r.Err? ==> r.fault == AttributeErrorOnNone
    ensures r.Ok? ==> |r.value| <= |SplitLines(out.value)|
    ensures r.Ok? ==> forall i :: 0 <= i < |r.value| ==> Stripped(r.value[i])
  {
    match out
    case None => Err(AttributeErrorOnNone)
    case Some(text) => Ok(KeepHeads(SplitLines(text)))
  }

  predicate IsHex(c: char)
  {
    '0' <= c <= '9' || 'a' <= c <= 'f'
  }

  /** A commit id as git prints it. */
  predicate CommitId(id: string)
  {
    forall i :: 0 <= i < |id| ==> IsHex(id[i])
  }

  /** A line of `git ls-remote` for a branch: id, tab, full ref name. */
  function BranchLine(id: string, name: string): string
  {
    id + "\t" + HeadsPrefix + name
  }

  function BranchLines(ids: seq<string>, names: seq<string>): (lines: seq<string>)
    requires |ids| == |names|
    ensures |lines| == |names|
  {
    if names == [] then [] else [BranchLine(ids[0], names[0])] + BranchLines(ids[1..], names[1..])
  }

  /** The lines `git ls-remote` prints for a remote: its HEAD, then one
      line per branch. */
  function LsRemoteLines(head: string, ids: seq<string>, names: seq<string>): seq<string>
    requires |ids| == |names|
  {
    [head + "\tHEAD"] + BranchLines(ids, names)
  }

  lemma HeadLineHasNoHeads(head: string)
    requires CommitId(head)
    ensures HeadsAt(head + "\tHEAD") == -1
  {
    var s := head + "\tHEAD";
    forall j: nat ensures !OccursAt(s, HeadsPrefix, j) {
      if j <= |head| {
        assert s[j] != 'r' by {
          if j < |head| { assert s[j] == head[j]; }
        }
        assert j + |HeadsPrefix| <= |s| ==> s[j..j + |HeadsPrefix|][0] == s[j];
      }
    }
  }

  lemma BranchLineHeads(id: string, name: string)
    requires CommitId(id) && CleanName(name)
    ensures HeadsAt(BranchLine(id, name)) == |id| + 1
  {
    var s := BranchLine(id, name);
    assert s[|id| + 1..|id| + 1 + |HeadsPrefix|] == HeadsPrefix;
    assert OccursAt(s, HeadsPrefix, |id| + 1);
    forall j: nat | j <= |id| ensures !OccursAt(s, HeadsPrefix, j) {
      assert s[j] != 'r' by {
        if j < |id| { assert s[j] == id[j]; }
      }
      assert j + |HeadsPrefix| <= |s| ==> s[j..j + |HeadsPrefix|][0] == s[j];
    }
  }

  lemma BranchLineReads(id: string, name: string, rest: seq<string>)
    requires CommitId(id) && CleanName(name)
    ensures KeepHeads([BranchLine(id, name)] + rest) == [name] + KeepHeads(rest)
  {
    var line := BranchLine(id, name);
    BranchLineHeads(id, name);
    assert line[|id| + 1 + |HeadsPrefix|..] == name;
    StripFrame([], name, []);
    assert [] + name + [] == name;
    assert ([line] + rest)[1..] == rest;
  }

  predicate CommitIds(ids: seq<string>)
  {
    forall i :: 0 <= i < |ids| ==> CommitId(ids[i])
  }

  lemma {:induction false} KeepHeadsReadsBranchLines(ids: seq<string>, names: seq<string>)
    requires |ids| == |names| && AllClean(names) && CommitIds(ids)
    ensures KeepHeads(BranchLines(ids, names)) == names
  {
    if names != [] {
      var tail := BranchLines(ids[1..], names[1..]);
      assert BranchLines(ids, names) == [BranchLine(ids[0], names[0])] + tail;
      assert CleanName(names[0]) && CommitId(ids[0]);
      BranchLineReads(ids[0], names[0], tail);
      assert AllClean(names[1..]) && CommitIds(ids[1..]);
      KeepHeadsReadsBranchLines(ids[1..], names[1..]);
      assert names == [names[0]] + names[1..];
    }
  }

  lemma {:induction false} BranchLinesUnbroken(ids: seq<string>, names: seq<string>)
    requires |ids| == |names| && AllClean(names) && CommitIds(ids)
    ensures forall i :: 0 <= i < |names| ==> NoLineBreak(BranchLines(ids, names)[i])
  {
    if names != [] {
      assert CleanName(names[0]) && CommitId(ids[0]);
      assert NoLineBreak(BranchLine(ids[0], names[0]));
      BranchLinesUnbroken(ids[1..], names[1..]);
    }
  }

  lemma KeepHeadsSkips(line: string, rest: seq<string>)
    requires HeadsAt(line) == -1
    ensures KeepHeads([line] + rest) == KeepHeads(rest)
  {
    assert ([line] + rest)[1..] == rest;
  }

  /** Reading what `git ls-remote` prints gives back the remote's branch
      names, in order; the HEAD line is not a branch. */
  lemma RemoteBranchesReadsLsRemote(head: string, ids: seq<string>, names: seq<string>)
    requires |ids| == |names| && AllClean(names)
    requires CommitId(head) && CommitIds(ids)
    ensures RemoteBranches(Some(JoinLines(LsRemoteLines(head, ids, names)))) == Ok(names)
  {
    var headLine := head + "\tHEAD";
    var branches := BranchLines(ids, names);
    var lines := LsRemoteLines(head, ids, names);
    assert lines == [headLine] + branches;
    BranchLinesUnbroken(ids, names);
    assert NoLineBreak(headLine) by {
      forall i | 0 <= i < |headLine| ensures !IsLineBreak(headLine[i]) {
        if i < |head| { assert IsHex(head[i]); }
      }
    }
    assert forall i :: 0 <= i < |lines| ==> NoLineBreak(lines[i]);
    SplitJoinLines(lines);
    HeadLineHasNoHeads(head);
    KeepHeadsSkips(headLine, branches);
    KeepHeadsReadsBranchLines(ids, names);
  }

  // ---- git remote ----

  /** `get_remote_names`: the stripped lines of `git remote`, none when the output is None. */
  function RemoteNames(out: Option<string>): (r: seq<string>)
    ensures out.None? ==> r == []
    ensures out.Some? ==> |r| == |SplitLines(out.value)|
    ensures forall i :: 0 <= i < |r| ==> Stripped(r[i])
  {
    match out
    case None => []
    case Some(text) =>
      var lines := SplitLines(text);
      seq(|lines|, i requires 0 <= i < |lines| => Strip(lines[i]))
  }

  /** Reading what `git remote` prints gives back the remote names. */
  lemma RemoteNamesReadsListing(names: seq<string>)
    requires AllClean(names)
    ensures RemoteNames(Some(JoinLines(names))) == names
  {
    forall i | 0 <= i < |names| ensures NoLineBreak(names[i]) {
      assert CleanName(names[i]);
    }
    SplitJoinLines(names);
    forall i | 0 <= i < |names| ensures Strip(names[i]) == names[i] {
      assert CleanName(names[i]);
      StripFrame([], names[i], []);
      assert [] + names[i] + [] == names[i];
    }
  }

  /** `get_remote_name`: the only remote, the default one when there is
      none, and a fatal exit asking the user to choose when there are several. */
  function RemoteName(names: seq<string>, defaultRemote: string): (r: Result<string>)
    ensures r.Err? <==> |names| >= 2
    ensures r.Err? ==> r.fault == FatalExit
    ensures |names| == 1 ==> r == Ok(names[0])
    ensures names == [] ==> r == Ok(defaultRemote)
  {
    if |names| == 0 then Ok(defaultRemote)
    else if |names| == 1 then Ok(names[0])
    else Err(FatalExit)
  }

  /** A repository with one remote uses it; one with none falls back to the default. */
  lemma RemoteNameOfListing(names: seq<string>, defaultRemote: string)
    requires AllClean(names) && |names| <= 1
    ensures RemoteName(RemoteNames(Some(JoinLines(names))), defaultRemote)
      == if names == [] then Ok(defaultRemote) else Ok(names[0])
  {
    RemoteNamesReadsListing(names);
  }

  /** `get_remote_branches` in full: without an explicit remote, the one
      `get_remote_name` picks from `remoteNames`; `lsRemote` is what
      `git ls-remote <remote>` prints for each remote. */
  function RemoteBranchesOf(remote: Option<string>, remoteNames: seq<string>, defaultRemote: string,
                            lsRemote: string -> Option<string>): (r: Result<seq<string>>)
    ensures remote.Some? ==> r == RemoteBranches(lsRemote(remote.value))
    ensures remote.None? && |remoteNames| >= 2 ==> r == Err(FatalExit)
    ensures remote.None? && remoteNames == [] ==> r == RemoteBranches(lsRemote(defaultRemote))
    ensures remote.None? && |remoteNames| == 1 ==> r == RemoteBranches(lsRemote(remoteNames[0]))
  {
    var name := if remote.Some? then Ok(remote.value) else RemoteName(remoteNames, defaultRemote);
    match name
    case Err(f) => Err(f)
    case Ok(n) => RemoteBranches(lsRemote(n))
  }

  // ---- principal branch ----

  predicate IsPrincipal(name: string)
  {
    name == "main" || name == "master"
  }

  /** The occurrences of "main" and "master" in a branch list, in order. */
  function Principals(names: seq<string>): (ps: seq<string>)
    ensures forall i :: 0 <= i < |ps| ==> IsPrincipal(ps[i])
    ensures |ps| <= |names|
  {
    if names == [] then []
    else
      var init := Principals(names[..|names| - 1]);
      if IsPrincipal(names[|names| - 1]) then init + [names[|names| - 1]] else init
  }

  lemma {:induction false} PrincipalsMembers(names: seq<string>, x: string)
    ensures x in Principals(names) <==> x in names && IsPrincipal(x)
  {
    if names != [] {
      PrincipalsMembers(names[..|names| - 1], x);
      assert names == names[..|names| - 1] + [names[|names| - 1]];
    }
  }

  /** `get_principal_branch_name` over the local branch names: the first of
      "main"/"master" seen; None if neither occurs; a fatal exit as soon as a
      second occurrence turns up. */
  method PrincipalBranch(names: seq<string>) returns (r: Result<Option<string>>)
    ensures r.Err? <==> |Principals(names)| >= 2
    ensures r.Err? ==> r.fault == FatalExit
    ensures r == Ok(None) <==> |Principals(names)| == 0
    ensures |Principals(names)| == 1 ==> r == Ok(Some(Principals(names)[0]))
  {
    var mainName: Option<string> := None;
    var i := 0;
    while i < |names|
      invariant 0 <= i <= |names|
      invariant |Principals(names[..i])| <= 1
      invariant mainName == None <==> |Principals(names[..i])| == 0
      invariant mainName.Some? ==> mainName == Some(Principals(names[..i])[0])
    {
      assert names[..i + 1][..i] == names[..i];
      var name := names[i];
      if mainName == None {
        if name == "main" {
          mainName := Some("main");
        } else if name == "master" {
          mainName := Some("master");
        }
      } else if IsPrincipal(name) {
        PrincipalsGrow(names, i + 1);
        return Err(FatalExit);
      }
      i := i + 1;
    }
    assert names[..i] == names;
    return Ok(mainName);
  }

  /** Principals only grow as the list is extended. */
  lemma {:induction false} PrincipalsGrow(names: seq<string>, k: nat)
    requires k <= |names|
    ensures |Principals(names[..k])| <= |Principals(names)|
    decreases |names| - k
  {
    if k < |names| {
      PrincipalsGrow(names, k + 1);
      assert names[..k + 1][..k] == names[..k];
    } else {
      assert names[..k] == names;
    }
  }

  /** `get_principal_branch_name` from the raw `git branch` output. */
  method PrincipalBranchName(out: Option<string>) returns (r: Result<Option<string>>)
    ensures out.None? ==> r == Err(AttributeErrorOnNone)
    ensures out.Some? ==> (r.Err? <==> |Principals(LocalBranches(out).value)| >= 2)
    ensures r.Ok? && r.value.Some? ==> IsPrincipal(r.value.value)
    ensures out.Some? ==> (r == Ok(None) <==> |Principals(LocalBranches(out).value)| == 0)
    ensures out.Some? && |Principals(LocalBranches(out).value)| == 1 ==>
      r == Ok(Some(Principals(LocalBranches(out).value)[0]))
  {
    var names := LocalBranches(out);
    if names.Err? {
      return Err(names.fault);
    }
    r := PrincipalBranch(names.value);
  }

  /** Four sample branch lists: {main, feature-x} gives main, {master} gives
      master, {main, master} is fatal, {feature-x} gives nothing. */
  lemma PrincipalExamples()
    ensures Principals(["main", "feature-x"]) == ["main"]
    ensures Principals(["master"]) == ["master"]
    ensures |Principals(["main", "master"])| == 2
    ensures Principals(["feature-x"]) == []
  {
    assert ["main", "feature-x"][..1] == ["main"];
    assert ["main", "master"][..1] == ["main"];
  }
}
