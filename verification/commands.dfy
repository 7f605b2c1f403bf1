/** The quiet flag of the `GitLib` class and the two branch-switching
    commands built with it. A command is its argv list; running it is not
    modelled. `checkout` as written never names the branch it is asked to
    switch to: `CheckoutAsWritten` keeps that behaviour, `Checkout` is the
    command the method evidently means. */
module Commands {
  import opened Wrappers
  import Helpers

  /** `GitLib.get_quiet_arg`: an absent override falls back to the handle's
      setting, and only an effective True gives the flag. Unlike the older
      helper, an unrecognised value is not an error. */
  function GetQuietArg(selfQuiet: PyFlag, quiet: PyFlag): (r: Option<string>)
    ensures r.Some? ==> r.value == "--quiet"
    ensures r.Some? <==> quiet == PTrue || (quiet == PNone && selfQuiet == PTrue)
  {
    var effective := if quiet == PNone then selfQuiet else quiet;
    if effective == PTrue then Some("--quiet") else None
  }

  /** The class version and the helper version agree wherever the helper
      does not fail: the flag is present in one exactly when it is in the
      other. Where the helper fails, the class version gives no flag. */
  lemma GetQuietArgAgreesWithHelper(selfQuiet: PyFlag, quiet: PyFlag)
    ensures Helpers.QuietArg(selfQuiet, quiet).Ok? ==>
      (GetQuietArg(selfQuiet, quiet).Some? <==> Helpers.QuietArg(selfQuiet, quiet) == Ok(" --quiet"))
    ensures Helpers.QuietArg(selfQuiet, quiet).Err? ==> GetQuietArg(selfQuiet, quiet).None?
  {
  }

  /** `append_quiet_arg`: the command, followed by the flag if there is one. */
  function AppendQuietArg(cmd: seq<string>, selfQuiet: PyFlag, quiet: PyFlag): (r: seq<string>)
    ensures |r| == |cmd| || |r| == |cmd| + 1
    ensures r[..|cmd|] == cmd
    ensures |r| == |cmd| + 1 <==> GetQuietArg(selfQuiet, quiet).Some?
    ensures |r| == |cmd| + 1 ==> r[|cmd|] == "--quiet"
  {
    match GetQuietArg(selfQuiet, quiet)
    case Some(flag) => cmd + [flag]
    case None => cmd
  }

  /** `get_active_branch_name`: the output of `git rev-parse --abbrev-ref
      HEAD`; an empty or failed answer is a fatal error. */
  function ActiveBranchName(out: Option<string>): (r: Result<string>)
    ensures r.Ok? <==> Truthy(out)
    ensures r.Ok? ==> r.value == out.value && r.value != ""
    ensures r.Err? ==> r.fault == FatalExit
  {
    if Truthy(out) then Ok(out.value) else Err(FatalExit)
  }

  /** `checkout` as written: when the active branch is not `branch`, it runs
      `git checkout` with the quiet flag and nothing else. The result is the
      command run, None when nothing runs. */
  function CheckoutAsWritten(activeOut: Option<string>, branch: string, selfQuiet: PyFlag, quiet: PyFlag)
    : (r: Result<Option<seq<string>>>)
    ensures r.Err? <==> !Truthy(activeOut)
    ensures r.Ok? ==> (r.value.Some? <==> activeOut.value != branch)
    ensures r.Ok? && r.value.Some? ==> |r.value.value| >= 2 && r.value.value[..2] == ["git", "checkout"]
  {
    match ActiveBranchName(activeOut)
    case Err(f) => Err(f)
    case Ok(active) =>
      if active != branch then Ok(Some(AppendQuietArg(["git", "checkout"], selfQuiet, quiet)))
      else Ok(None)
  }

  /** The command `checkout` runs does not mention the branch: two
      different targets give the same command, and a branch that is not one
      of the fixed words never appears in it. Asking for "dev" while on
      "main" runs a bare `git checkout`, which leaves HEAD where it is. */
  lemma CheckoutAsWrittenDropsBranch(activeOut: Option<string>, b1: string, b2: string, selfQuiet: PyFlag, quiet: PyFlag)
    requires Truthy(activeOut) && activeOut.value != b1 && activeOut.value != b2
    requires b1 != "git" && b1 != "checkout" && b1 != "--quiet"
    ensures CheckoutAsWritten(activeOut, b1, selfQuiet, quiet) == CheckoutAsWritten(activeOut, b2, selfQuiet, quiet)
    ensures b1 !in CheckoutAsWritten(activeOut, b1, selfQuiet, quiet).value.value
    ensures CheckoutAsWritten(Some("main"), "dev", PFalse, PNone) == Ok(Some(["git", "checkout"]))
  {
    var w := CheckoutAsWritten(activeOut, b1, selfQuiet, quiet).value.value;
    assert w == ["git", "checkout"] || w == ["git", "checkout", "--quiet"];
  }

  /** `checkout` as intended: the branch is the last argument. */
  function Checkout(activeOut: Option<string>, branch: string, selfQuiet: PyFlag, quiet: PyFlag)
    : (r: Result<Option<seq<string>>>)
    ensures r.Err? <==> !Truthy(activeOut)
    ensures r.Ok? ==> (r.value.Some? <==> activeOut.value != branch)
    ensures r.Ok? && r.value.Some? ==> |r.value.value| >= 3 && r.value.value[|r.value.value| - 1] == branch
  {
    match ActiveBranchName(activeOut)
    case Err(f) => Err(f)
    case Ok(active) =>
      if active != branch then Ok(Some(AppendQuietArg(["git", "checkout"], selfQuiet, quiet) + [branch]))
      else Ok(None)
  }

  /** `checkoutb`: when the active branch is not `branch`, create it with
      `git checkout [--quiet] -b <branch>`. */
  function CheckoutB(activeOut: Option<string>, branch: string, selfQuiet: PyFlag, quiet: PyFlag)
    : (r: Result<Option<seq<string>>>)
    ensures r.Err? <==> !Truthy(activeOut)
    ensures r.Ok? ==> (r.value.Some? <==> activeOut.value != branch)
    ensures r.Ok? && r.value.Some? ==> |r.value.value| >= 4 && r.value.value[|r.value.value| - 2..] == ["-b", branch]
  {
    match ActiveBranchName(activeOut)
    case Err(f) => Err(f)
    case Ok(active) =>
      if active != branch then Ok(Some(AppendQuietArg(["git", "checkout"], selfQuiet, quiet) + ["-b", branch]))
      else Ok(None)
  }

  /** The corrected `checkout` and `checkoutb` run the same command up to
      the `-b` option, and both keep the checkout prefix of the command as
      written. */
  lemma CheckoutMatchesCheckoutB(activeOut: Option<string>, branch: string, selfQuiet: PyFlag, quiet: PyFlag)
    requires Truthy(activeOut) && activeOut.value != branch
    ensures var c := Checkout(activeOut, branch, selfQuiet, quiet).value.value;
            var b := CheckoutB(activeOut, branch, selfQuiet, quiet).value.value;
            var w := CheckoutAsWritten(activeOut, branch, selfQuiet, quiet).value.value;
            && c == w + [branch]
            && b == w + ["-b", branch]
            && c == b[..|b| - 2] + [b[|b| - 1]]
  {
    var w := AppendQuietArg(["git", "checkout"], selfQuiet, quiet);
    assert (w + ["-b", branch])[..|w|] == w;
  }
}
