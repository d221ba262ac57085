/**
 * python/gitcc/utility.py: printing a batch of results with its verdict, and
 * checking the history of a repository or of a branch.
 */
module PyUtility {
  import opened Wrappers
  import opened Outcomes
  import opened GitRepository
  import opened PyCommitValidator

  /** `print_results` prints a result that is not Ok, and every result when `includeCorrect` is set. */
  predicate Shows(r: Result<GitCommit>, includeCorrect: bool) {
    r.status != Ok || includeCorrect
  }

  /** The results `print_results` prints, in their order. */
  function Shown(checks: seq<Result<GitCommit>>, includeCorrect: bool): (shown: seq<Result<GitCommit>>)
    ensures |shown| <= |checks|
    ensures forall r :: r in shown <==> r in checks && Shows(r, includeCorrect)
    decreases |checks|
  {
    if checks == [] then []
    else
      var init, last := checks[..|checks| - 1], checks[|checks| - 1];
      assert checks == init + [last];
      Shown(init, includeCorrect) + (if Shows(last, includeCorrect) then [last] else [])
  }

  /** With `includeCorrect` every result is printed. */
  lemma {:induction false} ShownAll(checks: seq<Result<GitCommit>>)
    ensures Shown(checks, true) == checks
    decreases |checks|
  {
    if checks != [] {
      var init := checks[..|checks| - 1];
      ShownAll(init);
      assert checks == init + [checks[|checks| - 1]];
    }
  }

  /** The shown results of one more result. */
  lemma ShownPrefix(checks: seq<Result<GitCommit>>, i: nat, includeCorrect: bool)
    requires i < |checks|
    ensures Shown(checks[..i + 1], includeCorrect)
      == Shown(checks[..i], includeCorrect) + (if Shows(checks[i], includeCorrect) then [checks[i]] else [])
  {
    assert checks[..i + 1][..i] == checks[..i];
  }

  /**
   * `print_results`: prints the texts of the shown results and returns true
   * when no result is a Failure (warnings do not fail the run).
   */
  method PrintResults(checks: seq<Result<GitCommit>>, includeCorrect: bool) returns (allOk: bool, printed: seq<string>)
    ensures allOk <==> NoFailure(checks)
    ensures |printed| == |Shown(checks, includeCorrect)|
    ensures forall k :: 0 <= k < |printed| ==> printed[k] == ResultText(Shown(checks, includeCorrect)[k])
  {
    allOk, printed := true, [];
    ghost var shown: seq<Result<GitCommit>> := [];
    var render: Result<GitCommit> -> string := ResultText;
    for i := 0 to |checks|
      invariant allOk <==> NoFailure(checks[..i])
      invariant shown == Shown(checks[..i], includeCorrect)
      invariant |printed| == |shown|
      invariant forall k :: 0 <= k < |printed| ==> printed[k] == render(shown[k])
    {
      var check := checks[i];
      ShownPrefix(checks, i, includeCorrect);
      if check.status != Ok || includeCorrect {
        printed := printed + [render(check)];
        shown := shown + [check];
      }
      NoFailurePrefix(checks, i);
      allOk := allOk && check.status != Failure;
    }
    assert checks[..|checks|] == checks;
  }

  /** The results of a history walk: one per commit before the exit commit, in order. */
  function HistoryChecks(check: Validator, commits: seq<GitCommit>, exitSha: string): (checks: seq<Result<GitCommit>>)
    ensures |checks| == StopIndex(commits, exitSha)
    ensures forall i :: 0 <= i < |checks| ==> checks[i] == Validate(check, commits[i])
  {
    if commits == [] || commits[0].hexsha == exitSha then []
    else [Validate(check, commits[0])] + HistoryChecks(check, commits[1..], exitSha)
  }

  /** A result sequence of the right length with the right elements is the history walk. */
  lemma HistoryChecksUnique(check: Validator, commits: seq<GitCommit>, exitSha: string, checks: seq<Result<GitCommit>>)
    requires |checks| == StopIndex(commits, exitSha)
    requires forall i :: 0 <= i < |checks| ==> checks[i] == Validate(check, commits[i])
    ensures checks == HistoryChecks(check, commits, exitSha)
  {
  }

  /** `check_history`: validate the commits from HEAD on, stopping before the one named `exitSha`. */
  method CheckHistory(check: Validator, repo: Repo, exitSha: string) returns (checks: seq<Result<GitCommit>>)
    ensures checks == HistoryChecks(check, repo.history, exitSha)
  {
    var commits := repo.history;
    checks := [];
    var i := 0;
    while i < |commits| && commits[i].hexsha != exitSha
      invariant i <= |commits|
      invariant forall j :: 0 <= j < i ==> commits[j].hexsha != exitSha
      invariant |checks| == i
      invariant forall j :: 0 <= j < i ==> checks[j] == Validate(check, commits[j])
    {
      checks := checks + [Validate(check, commits[i])];
      i := i + 1;
    }
    HistoryChecksUnique(check, commits, exitSha, checks);
  }

  /** When no commit has the empty hash, the default `exit_sha=""` checks the whole history. */
  lemma {:induction false} WholeHistory(commits: seq<GitCommit>)
    requires forall i :: 0 <= i < |commits| ==> commits[i].hexsha != ""
    ensures StopIndex(commits, "") == |commits|
    decreases |commits|
  {
    if commits != [] {
      WholeHistory(commits[1..]);
    }
  }

  /**
   * `check_branch`: without a common ancestor of the two branches a single
   * Failure; otherwise the history walk of HEAD down to the first ancestor.
   */
  method CheckBranch(check: Validator, repo: Repo, sourceBranch: string, targetBranch: string)
    returns (checks: seq<Result<GitCommit>>)
    ensures var ancestors := repo.mergeBase(sourceBranch, targetBranch);
      && (ancestors == [] ==> checks == [Result(Failure, NoAncestorMessage, None)])
      && (ancestors != [] ==> checks == HistoryChecks(check, repo.history, ancestors[0].hexsha))
  {
    var ancestors := repo.mergeBase(sourceBranch, targetBranch);
    if ancestors == [] {
      checks := [Result(Failure, NoAncestorMessage, None)];
      return;
    }
    checks := CheckHistory(check, repo, ancestors[0].hexsha);
  }
}
