/** The older helper functions of `git_dev/helpers.py`: the tri-state
    `get_quiet_arg`, which renders the flag as a suffix of a command string,
    and the `switch_dir` toggle, which scopes the working directory by the
    identity of the calling frame. Frames are an abstract type; `os.chdir`
    is total and recorded in a trail. */
module Helpers {
  import opened Wrappers

  /** `get_quiet_arg(self, quiet)`: an absent override (None) falls back to
      the handle's setting; True renders " --quiet", False renders nothing,
      and any other value is a fatal error that yields no flag. */
  function QuietArg(selfQuiet: PyFlag, quiet: PyFlag): (r: Result<string>)
    ensures r == Ok(" --quiet") <==> quiet == PTrue || (quiet == PNone && selfQuiet == PTrue)
    ensures r == Ok("") <==> quiet == PFalse || (quiet == PNone && selfQuiet == PFalse)
    ensures r.Err? <==> quiet == POther || (quiet == PNone && (selfQuiet == PNone || selfQuiet == POther))
    ensures r.Err? ==> r.fault == FatalExit
  {
    var effective := if quiet == PNone then selfQuiet else quiet;
    match effective
    case PTrue => Ok(" --quiet")
    case PFalse => Ok("")
    case _ => Err(FatalExit)
  }

  /** Passing no override is the same as passing the handle's own setting. */
  lemma QuietArgDefaults(selfQuiet: PyFlag)
    ensures QuietArg(selfQuiet, PNone) == QuietArg(selfQuiet, selfQuiet)
  {
  }

  // ---- switch_dir ----

  /** The process's working directory, the handle's root, its
      `switch_caller` and `direpa_previous`, and the directories changed
      into so far. */
  datatype Toggle<C> = Toggle(cwd: string, root: string, holder: Option<C>, previous: Option<string>, trail: seq<string>)

  /** A remembered directory only exists while some caller holds the toggle. */
  predicate Consistent<C>(t: Toggle<C>)
  {
    t.holder.None? ==> t.previous.None?
  }

  /** `switch_dir(self)` called from frame `caller`. With no holder, the
      caller takes the toggle and the process moves to the root (remembering
      where it was, unless it was there). A call from the holder moves back
      and releases. A call from any other frame does nothing. */
  function SwitchDirToggle<C(==)>(t: Toggle<C>, caller: C): (r: Toggle<C>)
    ensures r.root == t.root
    ensures t.holder.None? ==> r.holder == Some(caller) && r.cwd == t.root
    ensures t.holder.None? && t.cwd != t.root ==> r.previous == Some(t.cwd) && r.trail == t.trail + [t.root]
    ensures t.holder.None? && t.cwd == t.root ==> r.previous == t.previous && r.trail == t.trail
    ensures t.holder == Some(caller) ==> r.holder.None? && r.previous.None?
    ensures t.holder == Some(caller) && t.previous.Some? ==>
      r.cwd == t.previous.value && r.trail == t.trail + [t.previous.value]
    ensures t.holder == Some(caller) && t.previous.None? ==> r.cwd == t.cwd && r.trail == t.trail
    ensures t.holder.Some? && t.holder != Some(caller) ==> r == t
    ensures Consistent(t) ==> Consistent(r)
  {
    match t.holder
    case None =>
      var held := t.(holder := Some(caller));
      if t.cwd != t.root then held.(previous := Some(t.cwd), cwd := t.root, trail := t.trail + [t.root])
      else held
    case Some(h) =>
      if h == caller then
        var back := if t.previous.Some? then t.(cwd := t.previous.value, trail := t.trail + [t.previous.value]) else t;
        back.(previous := None, holder := None)
      else t
  }

  /** A run of `switch_dir` calls, one per frame in `callers`. */
  function SwitchDirCalls<C(==)>(t: Toggle<C>, callers: seq<C>): Toggle<C>
    decreases |callers|
  {
    if callers == [] then t else SwitchDirCalls(SwitchDirToggle(t, callers[0]), callers[1..])
  }

  /** Starting consistent (both fields None at construction), any run of
      calls stays consistent. */
  lemma {:induction false} CallsStayConsistent<C>(t: Toggle<C>, callers: seq<C>)
    requires Consistent(t)
    ensures Consistent(SwitchDirCalls(t, callers))
    decreases |callers|
  {
    if callers != [] {
      CallsStayConsistent(SwitchDirToggle(t, callers[0]), callers[1..]);
    }
  }

  /** Calls from frames other than the holder change nothing. */
  lemma {:induction false} OthersChangeNothing<C>(t: Toggle<C>, others: seq<C>)
    requires t.holder.Some?
    requires forall i :: 0 <= i < |others| ==> others[i] != t.holder.value
    ensures SwitchDirCalls(t, others) == t
    decreases |others|
  {
    if others != [] {
      OthersChangeNothing(t, others[1..]);
    }
  }

  /** A frame that calls `switch_dir` twice, with only other frames calling
      in between, returns the process to where it was and leaves the toggle
      free, whether it took the toggle or found it held. */
  lemma SameCallerRestores<C>(t: Toggle<C>, caller: C, others: seq<C>)
    requires Consistent(t) && t.holder != Some(caller)
    requires forall i :: 0 <= i < |others| ==> others[i] != caller
    requires t.holder.Some? ==> forall i :: 0 <= i < |others| ==> others[i] != t.holder.value
    ensures SwitchDirCalls(t, [caller] + others + [caller]).cwd == t.cwd
    ensures SwitchDirCalls(t, [caller] + others + [caller]).holder == t.holder
    ensures SwitchDirCalls(t, [caller] + others + [caller]).previous == t.previous
  {
    var calls := [caller] + others + [caller];
    var t1 := SwitchDirToggle(t, caller);
    assert calls[0] == caller && calls[1..] == others + [caller];
    if t.holder.None? {
      OthersChangeNothing(t1, others);
    } else {
      assert t1 == t;
      OthersChangeNothing(t, others);
    }
    SplitCalls(t1, others, [caller]);
  }

  lemma {:induction false} SplitCalls<C>(t: Toggle<C>, a: seq<C>, b: seq<C>)
    ensures SwitchDirCalls(t, a + b) == SwitchDirCalls(SwitchDirCalls(t, a), b)
    decreases |a|
  {
    if a != [] {
      assert (a + b)[1..] == a[1..] + b;
      SplitCalls(SwitchDirToggle(t, a[0]), a[1..], b);
    } else {
      assert a + b == b;
    }
  }
}
