# gitlib core, modelled in Dafny

`gitlib` is a Python handle over the `git` command line. The handle runs
git commands inside a repository and reads their text output back into
repository state: whether the repository exists, whether it is bare, where
its root is, its remotes, its first commit, its branches, and how two
branches relate. This project models that reading logic and the two
working-directory guards the handle uses. Every git invocation is replaced
by its output, which the model takes as a parameter.

The modules follow the source:

- `Wrappers` (wrappers.dfy): `Option`, `Result`, and `Outcome` (a state
  together with the exception that ended a cascade). It also holds the
  Python faults the core can raise and `PyFlag`, the value of a
  `bool | None` parameter.
- `PyStr`, `PyInt`, `PyPath` (py_str.dfy, py_int.dfy, py_path.dfy): the
  Python built-ins the core applies to command output. These are
  `str.isspace`, `strip`, `splitlines`, `split()`, `find`/`in`, `int()`
  and POSIX `os.path.isabs`/`dirname`/`join`. Each comes with a reading
  lemma: split after join, strip of padded text, `int` of a decimal
  numeral, and `dirname` of a path built from components.
- `Comparator` (branch_status.dfy): `BranchStatus` and
  `get_branch_compare_status`.
- `Listing` (branch_listing.dfy): the readers of `git branch`,
  `git branch -r`, `git ls-remote` and `git remote` output, the choice of
  remote, and the choice of principal branch.
- `Resolver` (repo_state.dfy): bareness, root directory, first commit,
  emptiness, config-file path, remotes, and the `update` cascade.
- `SwitchDir` (switch_dir.dfy): the `SwitchDir` context manager. It uses
  owner identity, and nested guards are modelled as a tree of scopes.
- `Helpers` (helpers.dfy): the older `get_quiet_arg` and the `switch_dir`
  toggle, which uses caller identity.
- `LegacyUpdate` (legacy_update.dfy): the older `set_exists`,
  `set_remotes` and `set_first_commit` cascade.
- `Commands` (commands.dfy): the class's quiet flag, `append_quiet_arg`,
  `get_active_branch_name`, `checkout` and `checkoutb`.

Most readers have a partner lemma. The lemma builds the text git prints
for a known state and proves that the reader recovers that state.

The model follows the code in these places:

- Two failed `rev-parse` probes compare equal (`None == None`), so the
  comparator answers "up to date" rather than reporting an error.
- An unrecognised bareness answer is stored as `None`. It is not turned
  into `False`. It acts as "not bare" only where the code tests `is True`
  (`DirepaRootUnknownIsNotBare`, `FilenpaConfigInGitDir`).
- An exception in `update` leaves the fields assigned before it in place.
  `Update` returns that partial state in `Raised`.
- `is_empty_repository` reads the first number `git count-objects` prints,
  which counts loose objects only. After `update`, `first_commit` is None
  when that count is 0, which includes a repository whose objects are all
  packed (`PackedRepositoryHasNoFirstCommit`). It is also None when
  `git rev-list` fails while loose objects exist.

## Model

| member | source | states |
|---|---|---|
| Comparator.CompareStatus | dev/gitlib.py:345-355 | Equal tips give up-to-date, whatever the merge base. Otherwise: A's tip equal to the merge base gives pull; B's tip equal to it gives push; a truthy merge base gives divergent-with-ancestor; anything else gives divergent-without. Each tag is characterised by an if-and-only-if, so exactly one applies |
| Comparator.FailedTipsAreUpToDate | dev/gitlib.py:345-346 | Two failed tip probes (None, None) give up-to-date for any merge-base answer |
| Comparator.CompareSwapped | dev/gitlib.py:345-355 | Comparing B with A gives the mirror of comparing A with B: pull and push swap, the other tags stay |
| Comparator.CompareStatusClassifiesHistories | dev/gitlib.py:315-355 | Take two well-formed linear histories whose probes are read as `rev-parse` (tip) and `merge-base` (newest shared commit) would print them. Then: equal histories are up-to-date, a strict prefix is pull, a strict extension is push, and forked histories are divergent, with or without a shared root |
| Listing.LocalBranches | dev/gitlib.py:428-442 | One entry per output line, stripped, in order. A None output raises AttributeError |
| Listing.ListingLineReads | dev/gitlib.py:440-441 | A listing line, marked "* " or indented, reads back as its branch name |
| Listing.LocalBranchesReadsListing | dev/gitlib.py:428-442 | Reading the `git branch` listing of any clean names, with any branch marked current, gives exactly those names in order |
| Listing.LocalRemoteBranches | dev/gitlib.py:444-463 | A None output gives []. Otherwise the result has at most one stripped entry per line |
| Listing.KeepTrackingDropsHeads | dev/gitlib.py:458-461 | A leading run of lines containing "HEAD ->" is dropped |
| Listing.KeepTrackingAppend | dev/gitlib.py:458-462 | The filter works line by line: filtering two listings joined is joining their filtered results |
| Listing.KeepTrackingSkipsHead | dev/gitlib.py:459-460 | A line containing "HEAD ->" is dropped wherever it sits, not only at the start |
| Listing.KeepTrackingKeepsIndented | dev/gitlib.py:458-462 | Every indented tracking-branch line without "HEAD ->" is kept, stripped, in order |
| Listing.LocalRemoteBranchesReadsListing | dev/gitlib.py:444-463 | Reading a one-remote `git branch -r` listing (symbolic HEAD lines, then tracking branches) gives exactly the tracking branches in order |
| Listing.KeepTrackingReadsEntries | dev/gitlib.py:458-462 | Any mix of symbolic HEAD lines and indented tracking branches filters to exactly the tracking branches, in order |
| Listing.LocalRemoteBranchesReadsEntries | dev/gitlib.py:444-463 | Reading a `git branch -r` listing for any number of remotes, with HEAD lines anywhere (such as "upstream/HEAD -> upstream/main" after origin's branches), gives exactly the tracking branches in listing order |
| Listing.RemoteBranches | dev/gitlib.py:420-426 | A None output raises AttributeError. Otherwise the result has at most one stripped name per line |
| Listing.RemoteBranchesOf | dev/gitlib.py:405-426 | An explicit remote is listed as given. Without one: a single configured remote is listed, several remotes are fatal, and no remote falls back to the default |
| Listing.BranchLineReads | dev/gitlib.py:423-425 | An ls-remote branch line (id, tab, `refs/heads/<name>`) contributes exactly `<name>` |
| Listing.KeepHeadsReadsBranchLines | dev/gitlib.py:423-425 | A run of ls-remote branch lines reads back as its branch names, in order |
| Listing.RemoteBranchesReadsLsRemote | dev/gitlib.py:405-426 | Reading `git ls-remote` output gives exactly the remote's branch names in order. The HEAD line is skipped |
| Listing.RemoteNames | dev/gitlib.py:557-570 | A None output gives []. Otherwise the result has one stripped name per output line |
| Listing.RemoteNamesReadsListing | dev/gitlib.py:557-570 | Reading the `git remote` listing of clean names gives those names in order |
| Listing.RemoteName | dev/gitlib.py:222-230 | No remote gives the default, one remote gives that remote, and two or more are a fatal exit |
| Listing.RemoteNameOfListing | dev/gitlib.py:222-230 | From a real `git remote` listing with at most one remote, the choice is that remote or the default |
| Listing.PrincipalsMembers | dev/gitlib.py:465-477 | A name counts as a principal occurrence iff it is in the list and is "main" or "master" |
| Listing.PrincipalBranch | dev/gitlib.py:465-477 | No main/master gives None. Exactly one occurrence gives that name. Two or more occurrences are a fatal exit |
| Listing.PrincipalBranchName | dev/gitlib.py:465-477 | On raw `git branch` output: None raises AttributeError, and the exit happens iff main/master occur twice or more. None comes back iff neither occurs, and a single occurrence is the name returned |
| Listing.PrincipalExamples | dev/gitlib.py:465-477 | {main, feature-x} gives main, {master} gives master, {main, master} has two occurrences, {feature-x} gives none |
| Resolver.IsBareRepository | dev/gitlib.py:596-611 | A failed probe gives False. "true" gives True, "false" gives False, and any other answer gives None |
| Resolver.IsBareReadsAnswer | dev/gitlib.py:605-611 | Git's answer "true"/"false" reads back as that bareness |
| Resolver.DirepaRoot | dev/gitlib.py:360-382 | An absolute git dir gives its dirname. "." gives cwd if bare, else dirname(cwd). ".git" gives cwd. Any other relative answer raises NotImplementedError, and None raises TypeError. An absolute cwd gives an absolute root |
| Resolver.DirepaRootFindsTop | dev/gitlib.py:369-381 | For a repository at a canonical path, the root is found in four layouts: work tree probed from a subdirectory, work tree probed from its root, the `.git` dir probed from inside, and a bare repository probed from its root |
| Resolver.DirepaRootUnknownIsNotBare | dev/gitlib.py:373-377 | An unknown bareness (None) resolves the root as non-bare does |
| Resolver.BareFromSubdirectory | dev/gitlib.py:370-371 | A bare repository probed from a subdirectory resolves to the directory above its root |
| Resolver.FirstCommit | dev/gitlib.py:384-403 | A failed rev-list gives None. An output with no lines raises IndexError. Otherwise the result is the first line |
| Resolver.FirstCommitReadsRevList | dev/gitlib.py:393-402 | For a commit list printed oldest first, with or without a final newline, the result is the oldest commit |
| Resolver.IsEmptyRepository | dev/gitlib.py:700-713 | The result is true iff the first field of `git count-objects` (the loose-object count) parses as 0. None raises AttributeError, a blank output raises IndexError, and a non-integer field raises ValueError |
| Resolver.IsEmptyReadsCount | dev/gitlib.py:700-713 | For "N objects, K kilobytes" (N loose objects), the answer is "empty" iff N = 0 |
| Resolver.FilenpaConfig | dev/gitlib.py:848-854 | An explicit file wins. Otherwise the path is under the root, and it is absolute when the root is |
| Resolver.FilenpaConfigInGitDir | dev/gitlib.py:848-854 | For a canonical root the default file is `<root>/config` when bare, and `<root>/.git/config` when not bare or unknown |
| Resolver.Remotes | dev/gitlib.py:572-579 | One remote per name, in order. Each location is read with `git config --file <config> --get remote.<name>.url` |
| Resolver.Update | dev/gitlib.py:48-61 | Not a repository: only exists=False and bare=False change. A repository: exists=True, bareness is git's answer, an unresolvable root raises before anything else changes, and the remotes are exactly the listed names in order, each located through the resolved root's config file. After the root: an unreadable object count raises with `first_commit` untouched; a count of 0 completes with no first commit; otherwise the update completes exactly when rev-list has a first line, which it records, and raises with `first_commit` untouched when not |
| Resolver.UpdateRebuildsRemotes | dev/gitlib.py:54 | The remotes after `update` do not depend on the remotes held before |
| Resolver.UpdateReadsWorkTree | dev/gitlib.py:48-61 | On a standard work tree probed from its root, `update` records: the root, not bare, the listed remotes located through `.git/config`, and the oldest commit exactly when git counts loose objects |
| Resolver.PackedRepositoryHasNoFirstCommit | dev/gitlib.py:55-56 | In a work tree with commits but no loose objects (all packed), `update` completes with no first commit, although rev-list's first line is a commit |
| SwitchDir.Enter | dev/gitlib.py:950-958 | Only a guard that finds the slot empty becomes owner. The owner moves to the root and remembers the old cwd only if cwd differed from the root. A guard that finds the slot taken changes nothing |
| SwitchDir.Exit | dev/gitlib.py:960-966 | Only the owner frees the slot. It moves back to the remembered directory, if any. Any other guard changes nothing |
| SwitchDir.RunHeld | dev/gitlib.py:950-966 | A block entered while another guard owns the slot changes nothing, including all blocks nested in it |
| SwitchDir.RunAllHeld | dev/gitlib.py:950-966 | A sequence of blocks entered while the slot is owned changes nothing |
| SwitchDir.RunRestores | dev/gitlib.py:950-966 | The outermost block ends with the slot free and cwd as before. It changes directory twice if it started outside the root, and never otherwise |
| SwitchDir.RunAllRestores | dev/gitlib.py:950-966 | A sequence of outermost blocks leaves cwd and root unchanged and the slot free |
| Helpers.QuietArg | dev/git_dev/helpers.py:12-23 | An effective True gives " --quiet" and False gives "". Any other value is a fatal exit. None defers to the handle's setting |
| Helpers.QuietArgDefaults | dev/git_dev/helpers.py:13-17 | Passing no override equals passing the handle's own setting |
| Helpers.SwitchDirToggle | dev/git_dev/helpers.py:25-38 | With no holder, the caller takes the toggle, cwd becomes the root, and the old cwd is kept only if it differed. The holder's call restores the kept cwd and clears both fields. Any other caller's call changes nothing |
| Helpers.CallsStayConsistent | dev/git_dev/helpers.py:26-36 | Starting with no holder and nothing remembered, any run of calls keeps "no holder implies nothing remembered" |
| Helpers.OthersChangeNothing | dev/git_dev/helpers.py:37-38 | Calls from frames other than the holder leave the toggle as it is |
| Helpers.SameCallerRestores | dev/git_dev/helpers.py:26-36 | Two calls from one new frame, with only other frames calling in between, leave cwd, holder and remembered directory as before |
| LegacyUpdate.SetExists | dev/git_dev/update.py:14-19 | Nothing changes unless the path exists and is a git dir. Then exists=True, bareness is stored first, and the root is resolved with that bareness. Exists never becomes False |
| LegacyUpdate.ListedRemotes | dev/git_dev/update.py:27-29 | One remote per listed line, in order, with the name stripped and located by `get_remote` |
| LegacyUpdate.ListedRemotesMatchRemotes | dev/git_dev/update.py:25-29 | When `get_remote` reads `remote.<name>.url` from a config file, the remotes appended for a `git remote` output are exactly those `get_remotes` (dev/gitlib.py:572-579) builds from it |
| LegacyUpdate.SetRemotes | dev/git_dev/update.py:21-29 | A no-op unless exists is True. Otherwise the listed remotes are appended after the existing ones, which are kept; a None or empty output appends nothing. No other field changes |
| LegacyUpdate.SetRemotesKeepsDirectory | dev/git_dev/update.py:23-25 | The two `switch_dir` calls from the same frame leave cwd and the holder as they were |
| LegacyUpdate.SetFirstCommit | dev/git_dev/update.py:31-34 | `first_commit` changes only when exists is True and the repository reports non-empty. Then it becomes `get_first_commit()`. No other field changes |
| LegacyUpdate.CascadeIdleOutsideRepository | dev/git_dev/update.py:14-34 | On a handle that does not exist, at a path that is not a repository, the three steps together change nothing |
| Commands.GetQuietArg | dev/gitlib.py:63-70 | "--quiet" exactly when the effective value (the override, or the handle's setting for None) is True. Otherwise no flag |
| Commands.GetQuietArgAgreesWithHelper | dev/gitlib.py:63-70 | The class version gives the flag exactly when the helper version gives " --quiet". Where the helper exits, the class gives no flag |
| Commands.AppendQuietArg | dev/gitlib.py:78-81 | The command is kept, and "--quiet" is appended iff the flag is on |
| Commands.ActiveBranchName | dev/gitlib.py:281-295 | A non-empty answer is the branch name. An empty or failed answer is a fatal exit |
| Commands.CheckoutAsWritten | dev/gitlib.py:83-91 | Runs a command iff the active branch differs from the target. The command starts with `git checkout` |
| Commands.CheckoutAsWrittenDropsBranch | dev/gitlib.py:86-91 | The command run is the same for every target branch and never contains the target |
| Commands.Checkout | dev/gitlib.py:83-91 | Corrected: the same guard, with the target branch as the last argument |
| Commands.CheckoutB | dev/gitlib.py:93-105 | Runs a command iff the active branch differs. The command ends with `-b <branch>` |
| Commands.CheckoutMatchesCheckoutB | dev/gitlib.py:83-105 | The corrected `checkout` and `checkoutb` build the same command apart from `-b` |
| PyStr.SplitJoinLines | dev/gitlib.py:437 | `splitlines` gives back any lines written one per line |
| PyStr.StripFrame | dev/gitlib.py:441 | `strip` removes exactly the surrounding whitespace |
| PyInt.ParseDecimal | dev/gitlib.py:709 | `int` of git's decimal numeral is the number |
| PyPath.DirNameDropsLast | dev/gitlib.py:370-371 | `dirname` of a canonical path drops its last component |
| PyPath.JoinAppends | dev/gitlib.py:850-853 | `join` of a canonical path and a name appends the name as a component |

## Left out

- Running commands: `shell.cmd_get_value`, `cmd_devnull`, `cmd_prompt` and `execute` are not modelled. Their outputs are parameters, and a failed command is None. The `shell_helpers` module is not part of this model.
- Echoing commands (`show_cmds`, `show_only`), `print`, `prompt()` and the messages of `msg.*` are left out. `msg.error(exit=1)` and `sys.exit(1)` become the `FatalExit` fault.
- `Update` takes the handle's current root as the directory where the root probe runs. This holds because each probe runs inside a `SwitchDir` guard: the guard that takes the slot moves to the root (`SwitchDir.Enter`), and the process stays there while the slot is owned (`SwitchDir.InRootWhileOwned`). The probe outputs are fixed per call and do not depend on the directory.
- `getpath` normalisation of the constructor's path is left out. So is `os.getcwd()` for a missing path.
- A failing `os.chdir` is not modelled: directory changes are total.
- Threads sharing the process-wide cwd are not modelled.
- Comparator.CompareStatusClassifiesHistories: relates the tags to linear first-parent histories only, not to a full commit graph with merges.
- Packed objects: `is_empty_repository` reads the loose-object count of `git count-objects` as emptiness, and the model keeps that reading. What git reports about packs is not modelled, so no corrected emptiness test is given; `Resolver.PackedRepositoryHasNoFirstCommit` states the consequence for `update`.
- Resolver.IsEmptyRepository: `int` accepts only ASCII digits here, while Python also accepts other Unicode decimal digits.
- Listing.RemoteBranches: the `re.match`/`re.sub` pair is modelled as a search for the first `refs/heads/`, which is what the pattern matches on a line without "\n".
- The other argv-building methods (`clone`, `commit`, `fetch`, `pull`, `push`, `merge`, tags, config setters, `set_bare_repo_default_branch`) are command assembly and are not modelled. The same goes for the other queries (`has_head`, `is_branch_*`, `need_commit`, `get_untracked_files`, user name and email).
- The legacy handle's own methods (`is_direpa_git`, `get_is_bare_repository`, `get_direpa_root`, `get_remote`, `is_empty_repository`, `get_first_commit`) are not in update.py. Their results are parameters of `LegacyUpdate`. The handle's constructor is not modelled either, so `exists` is taken to be set.
- samples.py is a demo script, `__init__.py` only re-exports, and dev/git_dev/remote.py repeats the `Remote` record of gitlib.py. That record is modelled once, as `Resolver.Remote`.

## Findings

| source | as written | input that shows it | evidently intended | confidence | as-written member | corrected member |
|---|---|---|---|---|---|---|
| dev/gitlib.py:86-91 | `checkout(branch_name)` runs `git checkout [--quiet]` without the branch name | Active branch "main", `checkout("dev")`: the command is `git checkout`, which does not switch branches | `git checkout [--quiet] <branch_name>`, as `checkoutb` does with `-b` | high (not executed) | Commands.CheckoutAsWritten, Commands.CheckoutAsWrittenDropsBranch | Commands.Checkout, Commands.CheckoutMatchesCheckoutB |
