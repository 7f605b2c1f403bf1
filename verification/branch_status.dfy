/** `BranchStatus` and `GitLib.get_branch_compare_status`: how two branches
    relate, decided from three probe results (the tip of each branch from
    `git rev-parse`, and their common ancestor from `git merge-base`).
    A probe that fails yields None, and the comparisons are Python's `==`,
    under which `None == None` holds. */
module Comparator {
  import opened Wrappers

  datatype BranchStatus =
    | UpToDate
    | Pull
    | Push
    | DivergentWithCommonAncestor
    | DivergentWithoutCommonAncestor

  /** The status of `active` against `compare`. Each tag is characterised
      on its own, so the five conditions are disjoint and cover every input. */
  function CompareStatus(active: Option<string>, compare: Option<string>, ancestor: Option<string>): (r: BranchStatus)
    ensures r == UpToDate <==> active == compare
    ensures r == Pull <==> active != compare && active == ancestor
    ensures r == Push <==> active != compare && active != ancestor && compare == ancestor
    ensures r == DivergentWithCommonAncestor <==>
      active != compare && active != ancestor && compare != ancestor && Truthy(ancestor)
    ensures r == DivergentWithoutCommonAncestor <==>
      active != compare && active != ancestor && compare != ancestor && !Truthy(ancestor)
  {
    if active == compare then UpToDate
    else if active == ancestor then Pull
    else if compare == ancestor then Push
    else if Truthy(ancestor) then DivergentWithCommonAncestor
    else DivergentWithoutCommonAncestor
  }

  /** The status seen from the other branch: pull and push trade places. */
  function Mirror(s: BranchStatus): BranchStatus
  {
    match s
    case Pull => Push
    case Push => Pull
    case _ => s
  }

  /** Comparing B against A gives the mirror image of comparing A against B. */
  lemma CompareSwapped(a: Option<string>, b: Option<string>, base: Option<string>)
    ensures CompareStatus(b, a, base) == Mirror(CompareStatus(a, b, base))
  {
  }

  /** Two failed tip probes compare equal, so the result is "up to date"
      whatever the merge-base probe returned. */
  lemma FailedTipsAreUpToDate(base: Option<string>)
    ensures CompareStatus(None, None, base) == UpToDate
  {
  }

  // A history model in which to read the five tags: a branch is its
  // first-parent history, commit ids oldest first, tip last.

  predicate Distinct(h: seq<string>)
  {
    forall i, j :: 0 <= i < j < |h| ==> h[i] != h[j]
  }

  /** A well-formed history: at least one commit, ids non-empty and never repeated. */
  predicate History(h: seq<string>)
  {
    h != [] && Distinct(h) && forall i :: 0 <= i < |h| ==> h[i] != ""
  }

  /** Commit ids name their whole past: a commit shared by two histories sits
      at the same depth in both, above the same commits. */
  predicate Consistent(a: seq<string>, b: seq<string>)
  {
    forall i, j :: 0 <= i < |a| && 0 <= j < |b| && a[i] == b[j] ==> i == j && a[..i] == b[..j]
  }

  /** Length of the longest common prefix. */
  function SharedLength(a: seq<string>, b: seq<string>): (k: nat)
    ensures k <= |a| && k <= |b|
    ensures a[..k] == b[..k]
    ensures k < |a| && k < |b| ==> a[k] != b[k]
  {
    if a == [] || b == [] || a[0] != b[0] then 0
    else
      var k := 1 + SharedLength(a[1..], b[1..]);
      assert a[..k] == [a[0]] + a[1..][..k - 1];
      assert b[..k] == [b[0]] + b[1..][..k - 1];
      k
  }

  /** What `git rev-parse <branch>` prints. */
  function Tip(h: seq<string>): Option<string>
    requires h != []
  {
    Some(h[|h| - 1])
  }

  /** What `git merge-base a b` prints: the newest shared commit, if any. */
  function MergeBase(a: seq<string>, b: seq<string>): Option<string>
  {
    var k := SharedLength(a, b);
    if k == 0 then None else Some(a[k - 1])
  }

  /** The relation the tags are meant to name. */
  function Relation(a: seq<string>, b: seq<string>): BranchStatus
  {
    if a == b then UpToDate
    else if a < b then Pull
    else if b < a then Push
    else if SharedLength(a, b) > 0 then DivergentWithCommonAncestor
    else DivergentWithoutCommonAncestor
  }

  /** On well-formed histories the three probes classify the branches
      correctly: behind is pull, ahead is push, forked is divergent. */
  lemma CompareStatusClassifiesHistories(a: seq<string>, b: seq<string>)
    requires History(a) && History(b) && Consistent(a, b)
    ensures CompareStatus(Tip(a), Tip(b), MergeBase(a, b)) == Relation(a, b)
  {
    var k := SharedLength(a, b);
    var ta, tb := a[|a| - 1], b[|b| - 1];
    if a == b {
    } else if a < b {
      assert k == |a|;
      assert b[|a| - 1] == ta;
      assert ta != tb;
    } else if b < a {
      assert k == |b|;
      assert a[|b| - 1] == tb;
      assert ta != tb;
    } else {
      assert k < |a|;
      assert k < |b|;
      assert ta != tb;
      if k > 0 {
        assert a[k - 1] == b[k - 1];
        assert ta != a[k - 1];
        assert tb != b[k - 1];
      }
    }
  }
}
