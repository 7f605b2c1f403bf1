/** How `GitLib` reads the state of a repository from git's answers: the
    tri-state bareness, the root directory, the first commit, the emptiness
    test, the path of the config file, the remotes, and the `update` cascade
    that ties them together. Every git invocation is replaced by its output,
    passed in as a parameter. */
module Resolver {
  import opened Wrappers
  import opened PyStr
  import opened PyInt
  import opened PyPath
  import Listing

  // ---- bareness ----

  /** `get_is_bare_repository`: a failed probe reads as not bare, "true" and
      "false" as themselves, and any other answer falls off the end of the
      method, which returns None. */
  function IsBareRepository(out: Option<string>): (b: PyFlag)
    ensures b != POther
    ensures b == PTrue <==> out == Some("true")
    ensures b == PNone <==> out.Some? && out.value != "true" && out.value != "false"
  {
    match out
    case None => PFalse
    case Some(text) =>
      if text == "true" then PTrue
      else if text == "false" then PFalse
      else PNone
  }

  /** What `git rev-parse --is-bare-repository` prints. */
  function BareAnswer(bare: bool): string
  {
    if bare then "true" else "false"
  }

  /** Git's own answer is read back as the bareness it states. */
  lemma IsBareReadsAnswer(bare: bool)
    ensures IsBareRepository(Some(BareAnswer(bare))) == if bare then PTrue else PFalse
  {
  }

  // ---- root directory ----

  /** `get_direpa_root`: the root directory, from what `git rev-parse
      --git-dir` printed in `cwd`. An absolute git dir gives its parent; "."
      (we are inside the git dir) gives `cwd` for a bare repository and its
      parent otherwise; ".git" gives `cwd`. A None output makes `isabs` raise
      TypeError; any other relative answer raises NotImplementedError. */
  function DirepaRoot(out: Option<string>, bare: PyFlag, cwd: string): (r: Result<string>)
    ensures out.None? ==> r == Err(TypeErrorOnNone)
    ensures r.Err? && out.Some? <==> out.Some? && !IsAbs(out.value) && out.value != "." && out.value != ".git"
    ensures r.Err? && out.Some? ==> r.fault == NotImplemented
    ensures out.Some? && IsAbs(out.value) ==> r == Ok(DirName(out.value))
    ensures out == Some(".git") ==> r == Ok(cwd)
    ensures out == Some(".") && bare == PTrue ==> r == Ok(cwd)
    ensures out == Some(".") && bare != PTrue ==> r == Ok(DirName(cwd))
    ensures r.Ok? && IsAbs(cwd) ==> IsAbs(r.value)
  {
    match out
    case None => Err(TypeErrorOnNone)
    case Some(dir) =>
      if IsAbs(dir) then Ok(DirName(dir))
      else if dir == "." then
        if bare == PTrue then Ok(cwd) else Ok(DirName(cwd))
      else if dir == ".git" then Ok(cwd)
      else Err(NotImplemented)
  }

  /** The layouts git reports, for a repository whose root is `PathOf(top)`.
      In every one of them the root is found. */
  lemma DirepaRootFindsTop(top: seq<string>, sub: seq<string>)
    requires Components(top) && Components(sub)
    // a work tree, probed from a subdirectory: git prints the absolute git dir
    ensures DirepaRoot(Some(PathOf(top + [".git"])), PFalse, PathOf(top + sub)) == Ok(PathOf(top))
    // a work tree, probed from its root
    ensures DirepaRoot(Some(".git"), PFalse, PathOf(top)) == Ok(PathOf(top))
    // the git dir of a work tree, probed from inside it
    ensures DirepaRoot(Some("."), PFalse, PathOf(top + [".git"])) == Ok(PathOf(top))
    // a bare repository, probed from its root
    ensures DirepaRoot(Some("."), PTrue, PathOf(top)) == Ok(PathOf(top))
  {
    var withGit := top + [".git"];
    assert Components(withGit);
    assert withGit[..|withGit| - 1] == top;
    DirNameDropsLast(withGit);
  }

  /** An unrecognised bareness answer (None) is treated as "not bare" when
      the root is resolved, since only `True` selects the bare branch. */
  lemma DirepaRootUnknownIsNotBare(out: Option<string>, cwd: string)
    ensures DirepaRoot(out, PNone, cwd) == DirepaRoot(out, PFalse, cwd)
  {
  }

  /** A bare repository probed from a subdirectory (say `hooks`) reports its
      git dir as an absolute path, which is the root itself; `dirname` then
      yields the directory above the root. */
  lemma BareFromSubdirectory(top: seq<string>)
    requires Components(top) && top != []
    ensures DirepaRoot(Some(PathOf(top)), PTrue, PathOf(top + ["hooks"])) == Ok(PathOf(top[..|top| - 1]))
  {
    DirNameDropsLast(top);
  }

  // ---- first commit ----

  /** `get_first_commit`: the first line of `git rev-list --all --reverse`,
      None when the command failed; an output without lines makes
      `splitlines()[0]` raise IndexError. */
  function FirstCommit(out: Option<string>): (r: Result<Option<string>>)
    ensures out.None? ==> r == Ok(None)
    ensures r.Err? <==> out.Some? && SplitLines(out.value) == []
    ensures r.Err? ==> r.fault == IndexOutOfRange
    ensures r.Ok? && out.Some? ==> r.value == Some(SplitLines(out.value)[0])
    ensures r.Ok? && r.value.Some? ==> NoLineBreak(r.value.value)
  {
    match out
    case None => Ok(None)
    case Some(text) =>
      var lines := SplitLines(text);
      if lines == [] then Err(IndexOutOfRange) else Ok(Some(lines[0]))
  }

  /** The oldest commit is read from the list git prints, oldest first,
      whether or not the last line keeps its newline. */
  lemma FirstCommitReadsRevList(commits: seq<string>, last: string)
    requires forall i :: 0 <= i < |commits| ==> NoLineBreak(commits[i])
    requires NoLineBreak(last)
    requires commits != [] || last != ""
    ensures FirstCommit(Some(JoinLines(commits) + last)) == Ok(Some(if commits != [] then commits[0] else last))
  {
    SplitLinesAfterJoin(commits, last);
    if last != "" {
      assert SplitLines(last) == [last] by {
        assert LineEnd(last) == |last|;
      }
    }
  }

  // ---- emptiness ----

  /** `is_empty_repository`: the first field of `git count-objects`, read
      with `int`, is zero. A None output has no `split` (AttributeError),
      a blank one has no first field (IndexError), and a first field that is
      not an integer makes `int` raise ValueError. */
  function IsEmptyRepository(out: Option<string>): (r: Result<bool>)
    ensures out.None? <==> r == Err(AttributeErrorOnNone)
    ensures r == Err(IndexOutOfRange) <==> out.Some? && Fields(out.value) == []
    ensures r == Err(NotAnInteger) <==> out.Some? && Fields(out.value) != [] && ParseInt(Fields(out.value)[0]).None?
    ensures r.Ok? ==> (r.value <==> ParseInt(Fields(out.value)[0]) == Some(0))
  {
    match out
    case None => Err(AttributeErrorOnNone)
    case Some(text) =>
      var fields := Fields(text);
      if fields == [] then Err(IndexOutOfRange)
      else
        match ParseInt(fields[0])
        case None => Err(NotAnInteger)
        case Some(n) => Ok(n == 0)
  }

  /** What `git count-objects` prints for `n` loose objects taking `size` kilobytes. */
  function CountObjectsAnswer(n: nat, size: nat): string
  {
    Decimal(n) + " objects, " + Decimal(size) + " kilobytes"
  }

  /** The answer is "empty" exactly when git counts no loose objects. */
  lemma IsEmptyReadsCount(n: nat, size: nat)
    ensures IsEmptyRepository(Some(CountObjectsAnswer(n, size))) == Ok(n == 0)
  {
    var rest := " objects, " + Decimal(size) + " kilobytes";
    var d := Decimal(n);
    assert CountObjectsAnswer(n, size) == d + rest;
    assert NoSpace(d) by {
      forall i | 0 <= i < |d| ensures !IsSpace(d[i]) {
        assert IsDigit(d[i]);
      }
    }
    FirstField(d, rest);
    ParseDecimal(n);
  }

  // ---- config file ----

  /** `get_filenpa_config`: an explicit file wins; otherwise `config` in the
      root of a bare repository and `.git/config` under the root of any
      other. */
  function FilenpaConfig(explicit: Option<string>, bare: PyFlag, root: string): (f: string)
    ensures explicit.Some? ==> f == explicit.value
    ensures explicit.None? && IsAbs(root) ==> IsAbs(f)
  {
    match explicit
    case Some(f) => f
    case None =>
      if bare == PTrue then Join(root, "config") else Join(Join(root, ".git"), "config")
  }

  /** For a root in canonical form, the default config file sits in the
      repository's git dir: the root itself when bare, `.git` under it
      otherwise. */
  lemma FilenpaConfigInGitDir(top: seq<string>)
    requires Components(top)
    ensures FilenpaConfig(None, PTrue, PathOf(top)) == PathOf(top + ["config"])
    ensures FilenpaConfig(None, PFalse, PathOf(top)) == PathOf(top + [".git", "config"])
    ensures FilenpaConfig(None, PNone, PathOf(top)) == PathOf(top + [".git", "config"])
  {
    JoinAppends(top, "config");
    JoinAppends(top, ".git");
    assert Components(top + [".git"]);
    JoinAppends(top + [".git"], "config");
    assert top + [".git"] + ["config"] == top + [".git", "config"];
  }

  // ---- remotes ----

  datatype Remote = Remote(name: string, location: Option<string>)

  /** The config key that holds the URL of a remote. */
  function UrlKey(name: string): string
  {
    "remote." + name + ".url"
  }

  /** `get_remotes`: one Remote per name, in order, each located by asking
      `git config --file <config> --get remote.<name>.url`. */
  function Remotes(names: seq<string>, configGet: (string, string) -> Option<string>, config: string): (rs: seq<Remote>)
    ensures |rs| == |names|
    ensures forall i :: 0 <= i < |rs| ==> rs[i].name == names[i]
    ensures forall i :: 0 <= i < |rs| ==> rs[i].location == configGet(config, UrlKey(names[i]))
  {
    if names == [] then []
    else [Remote(names[0], configGet(config, UrlKey(names[0])))] + Remotes(names[1..], configGet, config)
  }

  // ---- update ----

  /** The fields of a `GitLib` handle that `update` reads or writes. */
  datatype Repo = Repo(
    root: string,
    present: bool,
    isBare: PyFlag,
    remotes: seq<Remote>,
    firstCommit: Option<string>)

  /** What the probes `update` runs would print: whether the root exists,
      the exit status of `git rev-parse --git-dir`, the outputs of the
      bareness, git-dir, remote, object-count and rev-list queries, and a
      config reader (file, key) to output. */
  datatype Probes = Probes(
    pathExists: bool,
    gitDirStatus: int,
    isBareOut: Option<string>,
    gitDirOut: Option<string>,
    remoteOut: Option<string>,
    configGet: (string, string) -> Option<string>,
    countObjectsOut: Option<string>,
    revListOut: Option<string>)

  /** `is_direpa_git`: the git-dir probe exits with status 0. */
  predicate IsGitDir(p: Probes)
  {
    p.gitDirStatus == 0
  }

  /** `update`. Each probe runs inside a `SwitchDir` guard, so the root probe
      sees the current root as its working directory. An exception ends the
      cascade and leaves the fields assigned so far in place. */
  function Update(r: Repo, p: Probes): (o: Outcome<Repo>)
    // not a repository: only the existence flag and the bareness change
    ensures !(p.pathExists && IsGitDir(p)) ==> o == Returned(r.(present := false, isBare := PFalse))
    // a repository: it exists, and its bareness is git's answer
    ensures p.pathExists && IsGitDir(p) ==> o.state.present && o.state.isBare == IsBareRepository(p.isBareOut)
    // an unresolvable root stops the cascade before anything else is read
    ensures p.pathExists && IsGitDir(p) && DirepaRoot(p.gitDirOut, IsBareRepository(p.isBareOut), r.root).Err? ==>
      o == Raised(r.(present := true, isBare := IsBareRepository(p.isBareOut)),
                  DirepaRoot(p.gitDirOut, IsBareRepository(p.isBareOut), r.root).fault)
    // once the root is known, the remotes are those git lists, in order, and no others
    ensures p.pathExists && IsGitDir(p) && DirepaRoot(p.gitDirOut, IsBareRepository(p.isBareOut), r.root).Ok? ==>
      && o.state.root == DirepaRoot(p.gitDirOut, IsBareRepository(p.isBareOut), r.root).value
      && |o.state.remotes| == |Listing.RemoteNames(p.remoteOut)|
      && (forall i :: 0 <= i < |o.state.remotes| ==> o.state.remotes[i].name == Listing.RemoteNames(p.remoteOut)[i])
    // each remote is located through the config file of the resolved root
    ensures p.pathExists && IsGitDir(p) && DirepaRoot(p.gitDirOut, IsBareRepository(p.isBareOut), r.root).Ok? ==>
      o.state.remotes == Remotes(Listing.RemoteNames(p.remoteOut), p.configGet,
        FilenpaConfig(None, IsBareRepository(p.isBareOut), DirepaRoot(p.gitDirOut, IsBareRepository(p.isBareOut), r.root).value))
    // an unreadable object count stops the cascade with the root and remotes set
    ensures (p.pathExists && IsGitDir(p) && DirepaRoot(p.gitDirOut, IsBareRepository(p.isBareOut), r.root).Ok? &&
             IsEmptyRepository(p.countObjectsOut).Err?) ==>
      o.Raised? && o.fault == IsEmptyRepository(p.countObjectsOut).fault && o.state.firstCommit == r.firstCommit
    // no loose objects: the cascade completes, without a first commit
    ensures (p.pathExists && IsGitDir(p) && DirepaRoot(p.gitDirOut, IsBareRepository(p.isBareOut), r.root).Ok? &&
             IsEmptyRepository(p.countObjectsOut) == Ok(true)) ==>
      o.Returned? && o.state.firstCommit == None
    // loose objects: the cascade completes exactly when rev-list has a first line, which it records
    ensures (p.pathExists && IsGitDir(p) && DirepaRoot(p.gitDirOut, IsBareRepository(p.isBareOut), r.root).Ok? &&
             IsEmptyRepository(p.countObjectsOut) == Ok(false)) ==>
      && (o.Returned? <==> FirstCommit(p.revListOut).Ok?)
      && (o.Returned? ==> Ok(o.state.firstCommit) == FirstCommit(p.revListOut))
      && (o.Raised? ==> o.fault == FirstCommit(p.revListOut).fault && o.state.firstCommit == r.firstCommit)
  {
    if !(p.pathExists && IsGitDir(p)) then
      Returned(r.(present := false, isBare := PFalse))
    else
      var bare := IsBareRepository(p.isBareOut);
      var s1 := r.(present := true, isBare := bare);
      match DirepaRoot(p.gitDirOut, bare, r.root)
      case Err(f) => Raised(s1, f)
      case Ok(root) =>
        var names := Listing.RemoteNames(p.remoteOut);
        var s2 := s1.(root := root, remotes := Remotes(names, p.configGet, FilenpaConfig(None, bare, root)));
        match IsEmptyRepository(p.countObjectsOut)
        case Err(f) => Raised(s2, f)
        case Ok(empty) =>
          if empty then Returned(s2.(firstCommit := None))
          else
            match FirstCommit(p.revListOut)
            case Err(f) => Raised(s2, f)
            case Ok(c) => Returned(s2.(firstCommit := c))
  }

  /** The remotes are rebuilt, never merged: whatever the handle held
      before, the same probes leave the same remotes. */
  lemma UpdateRebuildsRemotes(r: Repo, held: seq<Remote>, p: Probes)
    requires p.pathExists && IsGitDir(p)
    ensures Update(r, p).state.remotes == Update(r.(remotes := held), p).state.remotes
            || DirepaRoot(p.gitDirOut, IsBareRepository(p.isBareOut), r.root).Err?
  {
  }

  /** A standard non-bare repository, updated from its root: git's answers
      are read back into the repository they describe. */
  lemma UpdateReadsWorkTree(r: Repo, p: Probes, top: seq<string>, names: seq<string>,
                            commits: seq<string>, objects: nat, size: nat)
    requires Components(top) && r.root == PathOf(top)
    requires Listing.AllClean(names) && commits != []
    requires forall i :: 0 <= i < |commits| ==> NoLineBreak(commits[i])
    requires p.pathExists && IsGitDir(p)
    requires p.isBareOut == Some(BareAnswer(false)) && p.gitDirOut == Some(".git")
    requires p.remoteOut == Some(JoinLines(names))
    requires p.countObjectsOut == Some(CountObjectsAnswer(objects, size))
    requires p.revListOut == Some(JoinLines(commits))
    ensures Update(r, p) == Returned(Repo(
      PathOf(top), true, PFalse,
      Remotes(names, p.configGet, PathOf(top + [".git", "config"])),
      if objects == 0 then None else Some(commits[0])))
  {
    var bare := IsBareRepository(p.isBareOut);
    assert bare == PFalse;
    DirepaRootFindsTop(top, []);
    assert DirepaRoot(p.gitDirOut, bare, r.root) == Ok(PathOf(top));
    Listing.RemoteNamesReadsListing(names);
    FilenpaConfigInGitDir(top);
    IsEmptyReadsCount(objects, size);
    FirstCommitReadsRevList(commits, "");
    assert JoinLines(commits) + "" == JoinLines(commits);
    assert FirstCommit(p.revListOut) == Ok(Some(commits[0]));
  }

  /** `update` takes "no loose objects" for "no commits": in a work tree whose
      objects are all packed, `git count-objects` prints 0 and the first
      commit is left unset, although `git rev-list` lists commits. */
  lemma PackedRepositoryHasNoFirstCommit(r: Repo, p: Probes, top: seq<string>, names: seq<string>,
                                         commits: seq<string>, size: nat)
    requires Components(top) && r.root == PathOf(top)
    requires Listing.AllClean(names) && commits != []
    requires forall i :: 0 <= i < |commits| ==> NoLineBreak(commits[i])
    requires p.pathExists && IsGitDir(p)
    requires p.isBareOut == Some(BareAnswer(false)) && p.gitDirOut == Some(".git")
    requires p.remoteOut == Some(JoinLines(names))
    requires p.countObjectsOut == Some(CountObjectsAnswer(0, size))
    requires p.revListOut == Some(JoinLines(commits))
    ensures FirstCommit(p.revListOut) == Ok(Some(commits[0]))
    ensures Update(r, p).Returned? && Update(r, p).state.firstCommit == None
  {
    UpdateReadsWorkTree(r, p, top, names, commits, 0, size);
    FirstCommitReadsRevList(commits, "");
    assert JoinLines(commits) + "" == JoinLines(commits);
  }
}
