/** The `SwitchDir` context manager: a `with` block that runs in the
    repository root and returns to the previous directory afterwards. The
    handle's `switch_root` slot records which guard owns the switch, so that
    only the outermost of several nested guards moves the process and moves
    it back. Guard identity is an abstract type; `os.chdir` is total and
    every directory change is recorded in a trail. */
module SwitchDir {
  import opened Wrappers

  /** The process's working directory, the handle's root, its
      `switch_root` slot, and the directories changed into so far. */
  datatype Dir<Id> = Dir(cwd: string, root: string, owner: Option<Id>, trail: seq<string>)

  /** One `SwitchDir` object: its identity and its `direpa_previous`. */
  datatype Guard<Id> = Guard(id: Id, previous: Option<string>)

  /** While a guard owns the switch, the process is in the root. */
  predicate InRootWhileOwned<Id>(d: Dir<Id>)
  {
    d.owner.Some? ==> d.cwd == d.root
  }

  /** `__enter__`: a guard that finds the slot empty takes it, remembers
      where the process was and moves to the root, unless it is there
      already. A guard that finds the slot taken does nothing. */
  function Enter<Id(==)>(d: Dir<Id>, g: Guard<Id>): (r: (Dir<Id>, Guard<Id>))
    ensures d.owner.Some? ==> r == (d, g)
    ensures d.owner.None? ==> r.0.owner == Some(g.id) && r.0.cwd == d.root && r.0.root == d.root
    ensures d.owner.None? && d.cwd != d.root ==> r.1.previous == Some(d.cwd) && r.0.trail == d.trail + [d.root]
    ensures d.owner.None? && d.cwd == d.root ==> r.1 == g && r.0.trail == d.trail
    ensures InRootWhileOwned(d) ==> InRootWhileOwned(r.0)
  {
    if d.owner.None? then
      var d1 := d.(owner := Some(g.id));
      if d.cwd != d.root then
        (d1.(cwd := d.root, trail := d.trail + [d.root]), g.(previous := Some(d.cwd)))
      else (d1, g)
    else (d, g)
  }

  /** `__exit__`: only the owner releases the slot and moves back to where
      it came from, if it moved at all. */
  function Exit<Id(==)>(d: Dir<Id>, g: Guard<Id>): (r: Dir<Id>)
    ensures d.owner != Some(g.id) ==> r == d
    ensures d.owner == Some(g.id) ==> r.owner.None? && r.root == d.root
    ensures d.owner == Some(g.id) && g.previous.Some? ==>
      r.cwd == g.previous.value && r.trail == d.trail + [g.previous.value]
    ensures d.owner == Some(g.id) && g.previous.None? ==> r.cwd == d.cwd && r.trail == d.trail
    ensures InRootWhileOwned(d) ==> InRootWhileOwned(r)
  {
    if d.owner == Some(g.id) then
      var d1 := d.(owner := None);
      match g.previous
      case Some(p) => d1.(cwd := p, trail := d.trail + [p])
      case None => d1
    else d
  }

  /** A `with SwitchDir(...)` block and the blocks nested inside it. */
  datatype Scope<Id> = Scope(id: Id, body: seq<Scope<Id>>)

  /** Run a block: a fresh guard enters, the nested blocks run in order, the guard exits. */
  function Run<Id(==)>(d: Dir<Id>, s: Scope<Id>): Dir<Id>
    decreases s
  {
    var entered := Enter(d, Guard(s.id, None));
    Exit(RunAll(entered.0, s.body), entered.1)
  }

  function RunAll<Id(==)>(d: Dir<Id>, ss: seq<Scope<Id>>): Dir<Id>
    decreases ss
  {
    if ss == [] then d else RunAll(Run(d, ss[0]), ss[1..])
  }

  /** No block in the tree has guard `id`: each `with` builds a new guard. */
  predicate Avoids<Id(==)>(id: Id, s: Scope<Id>)
    decreases s
  {
    s.id != id && forall i :: 0 <= i < |s.body| ==> Avoids(id, s.body[i])
  }

  predicate AvoidsAll<Id(==)>(id: Id, ss: seq<Scope<Id>>)
  {
    forall i :: 0 <= i < |ss| ==> Avoids(id, ss[i])
  }

  /** Every block's guard differs from the guards of the blocks inside it. */
  predicate FreshGuards<Id(==)>(s: Scope<Id>)
    decreases s
  {
    AvoidsAll(s.id, s.body) && forall i :: 0 <= i < |s.body| ==> FreshGuards(s.body[i])
  }

  predicate AllFreshGuards<Id(==)>(ss: seq<Scope<Id>>)
  {
    forall i :: 0 <= i < |ss| ==> FreshGuards(ss[i])
  }

  /** Blocks nested inside an owned switch change nothing, on enter or exit. */
  lemma {:induction false} RunHeld<Id>(d: Dir<Id>, s: Scope<Id>)
    requires d.owner.Some? && Avoids(d.owner.value, s)
    ensures Run(d, s) == d
    decreases s
  {
    var entered := Enter(d, Guard(s.id, None));
    assert entered.0 == d;
    RunAllHeld(d, s.body);
  }

  lemma {:induction false} RunAllHeld<Id>(d: Dir<Id>, ss: seq<Scope<Id>>)
    requires d.owner.Some? && AvoidsAll(d.owner.value, ss)
    ensures RunAll(d, ss) == d
    decreases ss
  {
    if ss != [] {
      RunHeld(d, ss[0]);
      assert AvoidsAll(d.owner.value, ss[1..]) by {
        forall i | 0 <= i < |ss[1..]| ensures Avoids(d.owner.value, ss[1..][i]) {
          assert ss[1..][i] == ss[i + 1];
        }
      }
      RunAllHeld(d, ss[1..]);
    }
  }

  /** The outermost block returns the process to where it started and
      frees the slot; it changes directory twice if it started outside the
      root, and not at all otherwise. */
  lemma RunRestores<Id>(d: Dir<Id>, s: Scope<Id>)
    requires d.owner.None? && FreshGuards(s)
    ensures Run(d, s) == d.(trail := d.trail + if d.cwd != d.root then [d.root, d.cwd] else [])
  {
    var entered := Enter(d, Guard(s.id, None));
    RunAllHeld(entered.0, s.body);
    if d.cwd != d.root {
      assert d.trail + [d.root] + [d.cwd] == d.trail + [d.root, d.cwd];
    } else {
      assert d.trail + [] == d.trail;
    }
  }

  /** A sequence of top-level blocks leaves the process where it was. */
  lemma {:induction false} RunAllRestores<Id>(d: Dir<Id>, ss: seq<Scope<Id>>)
    requires d.owner.None? && AllFreshGuards(ss)
    ensures RunAll(d, ss).cwd == d.cwd && RunAll(d, ss).owner.None? && RunAll(d, ss).root == d.root
    decreases ss
  {
    if ss != [] {
      RunRestores(d, ss[0]);
      var d1 := Run(d, ss[0]);
      assert AllFreshGuards(ss[1..]) by {
        forall i | 0 <= i < |ss[1..]| ensures FreshGuards(ss[1..][i]) {
          assert ss[1..][i] == ss[i + 1];
        }
      }
      RunAllRestores(d1, ss[1..]);
    }
  }
}
