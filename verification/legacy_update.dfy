/** The older update cascade of `git_dev/update.py`: three steps that each
    fill in part of a handle, `set_exists`, `set_remotes` and
    `set_first_commit`. The handle methods they call (`is_direpa_git`,
    `get_is_bare_repository`, `get_direpa_root`, `get_remote`,
    `is_empty_repository`, `get_first_commit`) are not in that file; their
    results are parameters here. */
module LegacyUpdate {
  import opened Wrappers
  import opened PyStr
  import Helpers
  import Listing
  import Resolver

  /** The fields the cascade reads and writes, with the directory toggle
      that `set_remotes` drives. `present` holds whether the handle's `exists`
      field is `True`. */
  datatype LegacyRepo<C> = LegacyRepo(
    direpa: string,
    root: string,
    present: bool,
    isBare: PyFlag,
    remotes: seq<Resolver.Remote>,
    firstCommit: Option<string>,
    toggle: Helpers.Toggle<C>)

  /** `set_exists`. `isGit` is what `is_direpa_git()` returned,
      `bareness` what `get_is_bare_repository()` returned, and `rootFor`
      what `get_direpa_root()` returns given the bareness the handle holds
      when it is called. */
  function SetExists<C>(r: LegacyRepo<C>, pathExists: bool, isGit: PyFlag, bareness: PyFlag,
                        rootFor: PyFlag -> string): (s: LegacyRepo<C>)
    ensures !(pathExists && isGit == PTrue) ==> s == r
    ensures pathExists && isGit == PTrue ==> s == r.(present := true, isBare := bareness, root := rootFor(bareness))
    ensures s.present == (r.present || (pathExists && isGit == PTrue))
  {
    if pathExists && isGit == PTrue then
      var bare := r.(present := true, isBare := bareness);
      bare.(root := rootFor(bare.isBare))
    else r
  }

  /** The remotes a `git remote` listing adds, one per line, names stripped. */
  function ListedRemotes(lines: seq<string>, getRemote: string -> Option<string>): (rs: seq<Resolver.Remote>)
    ensures |rs| == |lines|
    ensures forall i :: 0 <= i < |rs| ==> rs[i] == Resolver.Remote(Strip(lines[i]), getRemote(Strip(lines[i])))
  {
    if lines == [] then []
    else [Resolver.Remote(Strip(lines[0]), getRemote(Strip(lines[0])))] + ListedRemotes(lines[1..], getRemote)
  }

  /** When `get_remote` reads the remote's URL key from a config file, the
      remotes the older cascade appends are the ones `get_remotes` builds
      from the same `git remote` output. */
  lemma ListedRemotesMatchRemotes(out: string, configGet: (string, string) -> Option<string>, config: string)
    ensures ListedRemotes(SplitLines(out), name => configGet(config, Resolver.UrlKey(name)))
      == Resolver.Remotes(Listing.RemoteNames(Some(out)), configGet, config)
  {
    var lines := SplitLines(out);
    var a := ListedRemotes(lines, name => configGet(config, Resolver.UrlKey(name)));
    var b := Resolver.Remotes(Listing.RemoteNames(Some(out)), configGet, config);
    forall i | 0 <= i < |a| ensures a[i] == b[i] {
      assert Listing.RemoteNames(Some(out))[i] == Strip(lines[i]);
    }
  }

  /** `set_remotes`, called from `frame`: the `git remote` query runs
      between two `switch_dir` calls from that frame, and every listed
      remote is appended after the ones the handle already holds. */
  function SetRemotes<C(==)>(r: LegacyRepo<C>, frame: C, remoteOut: Option<string>,
                             getRemote: string -> Option<string>): (s: LegacyRepo<C>)
    ensures !r.present ==> s == r
    ensures s.(remotes := r.remotes, toggle := r.toggle) == r
    ensures r.present ==> |s.remotes| >= |r.remotes| && s.remotes[..|r.remotes|] == r.remotes
    ensures r.present && Truthy(remoteOut) ==> |s.remotes| == |r.remotes| + |SplitLines(remoteOut.value)|
    ensures r.present && !Truthy(remoteOut) ==> s.remotes == r.remotes
    ensures r.present && Truthy(remoteOut) ==> forall i :: 0 <= i < |SplitLines(remoteOut.value)| ==>
      s.remotes[|r.remotes| + i].name == Strip(SplitLines(remoteOut.value)[i])
  {
    if r.present then
      var toggled := Helpers.SwitchDirCalls(r.toggle, [frame, frame]);
      var added := if Truthy(remoteOut) then ListedRemotes(SplitLines(remoteOut.value), getRemote) else [];
      r.(toggle := toggled, remotes := r.remotes + added)
    else r
  }

  /** The two `switch_dir` calls leave the process where it was, provided
      the frame is a new one (it cannot already hold the toggle). */
  lemma SetRemotesKeepsDirectory<C>(r: LegacyRepo<C>, frame: C, remoteOut: Option<string>,
                                    getRemote: string -> Option<string>)
    requires Helpers.Consistent(r.toggle) && r.toggle.holder != Some(frame)
    ensures SetRemotes(r, frame, remoteOut, getRemote).toggle.cwd == r.toggle.cwd
    ensures SetRemotes(r, frame, remoteOut, getRemote).toggle.holder == r.toggle.holder
  {
    Helpers.SameCallerRestores(r.toggle, frame, []);
    assert [frame] + [] + [frame] == [frame, frame];
  }

  /** `set_first_commit`: `emptiness` is what `is_empty_repository()`
      returned and `first` what `get_first_commit()` returns. */
  function SetFirstCommit<C>(r: LegacyRepo<C>, emptiness: PyFlag, first: Option<string>): (s: LegacyRepo<C>)
    ensures s.(firstCommit := r.firstCommit) == r
    ensures s.firstCommit != r.firstCommit ==> r.present && emptiness == PFalse && s.firstCommit == first
    ensures r.present && emptiness == PFalse ==> s.firstCommit == first
  {
    if r.present && emptiness == PFalse then r.(firstCommit := first) else r
  }

  /** On a handle that does not exist and whose path is not a repository,
      the whole cascade leaves the handle as it was. */
  lemma CascadeIdleOutsideRepository<C>(r: LegacyRepo<C>, pathExists: bool, isGit: PyFlag, bareness: PyFlag,
                                      rootFor: PyFlag -> string, frame: C, remoteOut: Option<string>,
                                      getRemote: string -> Option<string>, emptiness: PyFlag, first: Option<string>)
    requires !r.present && !(pathExists && isGit == PTrue)
    ensures SetFirstCommit(SetRemotes(SetExists(r, pathExists, isGit, bareness, rootFor), frame, remoteOut, getRemote),
                           emptiness, first) == r
  {
  }
}
