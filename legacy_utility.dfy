/**
 * gitcc/utility.py, the first version of the checker: `RxSummary` parses a
 * summary once and answers three questions about it; the functions around it
 * turn the answers into report lines.
 */
module LegacyUtility {
  import opened Wrappers
  import opened Lines
  import opened Outcomes
  import opened GitRepository
  import opened SummaryGrammar

  const LegacyFormatMessage: string := "Invalid format. It should be '[<tag>] <Good Description>'"

  /** A summary split into its category tag and description text by `\[(.*)] (.*)`. */
  class RxSummary {
    var categoryTag: string
    var descriptionText: string
    /** The summary the object was built from. */
    ghost var summary: string

    /** The parts are those of the format match of `summary`, or both empty when it does not match. */
    ghost predicate Valid()
      reads this
    {
      match Parse(Python, summary)
      case None => categoryTag == "" && descriptionText == ""
      case Some(parts) => (categoryTag, descriptionText) == parts
    }

    /** Both parts stay empty unless the whole summary matches the format pattern. */
    constructor (summary: string)
      ensures this.summary == summary && Valid()
      ensures Parse(Python, summary).None? ==> categoryTag == "" && descriptionText == ""
      ensures Parse(Python, summary).Some? ==>
        && (categoryTag, descriptionText) == Parse(Python, summary).value
        && Compose(categoryTag, descriptionText) == summary
    {
      categoryTag := "";
      descriptionText := "";
      this.summary := summary;
      var parsed := Parse(Python, summary);
      if parsed.Some? {
        categoryTag := parsed.value.0;
        descriptionText := parsed.value.1;
      }
    }

    /**
     * `valid_format`: both parts are non-empty, that is, the summary has a
     * greedy split whose tag and description are both non-empty.
     */
    predicate ValidFormat()
      reads this
      requires Valid()
      ensures ValidFormat() <==>
        exists k :: GreedySplit(Python, summary, k) && summary[1..k] != "" && summary[k + 2..] != ""
    {
      ParseIsGreedy(Python, summary);
      categoryTag != "" && descriptionText != ""
    }

    /** `valid_category_tag`: the tag fully matches `\*|(?:[a-z0-9]{2,}[\s|-]?)+`. */
    predicate ValidCategoryTag()
      reads this
      ensures ValidCategoryTag() <==> TagLanguage(Python, categoryTag)
      ensures ValidCategoryTag() ==> categoryTag != ""
    {
      TagFullMatchSound(Python, categoryTag);
      TagFullMatch(Python, categoryTag)
    }

    /**
     * `valid_description`: the description fully matches `[A-Z0-9].+[^.!?,\s]`;
     * every description the packaged `SimpleTag` accepts passes.
     */
    predicate ValidDescription()
      reads this
      ensures AllDot(Python, descriptionText) && DescriptionOk(descriptionText) ==> ValidDescription()
      ensures ValidDescription() ==> |descriptionText| >= 3
    {
      if AllDot(Python, descriptionText) then
        DescriptionRuleNarrowed(descriptionText);
        LegacyDescriptionOk(descriptionText)
      else
        LegacyDescriptionOk(descriptionText)
    }
  }

  /** What `check_summary` answers: the message of the first failing check, or "". */
  function SummaryProblem(summary: string): (msg: string)
    ensures msg == "" || msg == LegacyFormatMessage || msg == InvalidTagMessage || msg == InvalidDescriptionMessage
    ensures Parse(Python, summary).None? ==> msg == LegacyFormatMessage
  {
    match Parse(Python, summary)
    case None => LegacyFormatMessage
    case Some((tag, text)) =>
      if tag == "" || text == "" then LegacyFormatMessage
      else if !TagFullMatch(Python, tag) then InvalidTagMessage
      else if !LegacyDescriptionOk(text) then InvalidDescriptionMessage
      else ""
  }

  /** `check_summary`, specified by `SummaryProblem`. */
  method CheckSummary(summary: string) returns (msg: string)
    ensures msg == SummaryProblem(summary)
  {
    var check := new RxSummary(summary);
    if !check.ValidFormat() {
      return LegacyFormatMessage;
    }
    if !check.ValidCategoryTag() {
      return InvalidTagMessage;
    }
    if !check.ValidDescription() {
      return InvalidDescriptionMessage;
    }
    return "";
  }

  /** The summaries the first version accepts. */
  ghost predicate LegacyLanguage(summary: string) {
    exists k :: GreedySplit(Python, summary, k) && TagLanguage(Python, summary[1..k])
             && LegacyDescriptionOk(summary[k + 2..])
  }

  /** The first version's format message differs from the two messages it shares with `SimpleTag`. */
  lemma LegacyMessagesDistinct()
    ensures LegacyFormatMessage != InvalidTagMessage && LegacyFormatMessage != InvalidDescriptionMessage
    ensures LegacyFormatMessage != ""
  {
    MessagesDistinct();
    assert |LegacyFormatMessage| == 57;
  }

  /**
   * `check_summary` returns "" exactly for summaries in the accepted language;
   * otherwise the format message when the pattern does not match or leaves a
   * part empty, then the tag message, then the description message.
   */
  lemma SummaryProblemOutcome(summary: string)
    ensures SummaryProblem(summary) == "" <==> LegacyLanguage(summary)
    ensures SummaryProblem(summary) == LegacyFormatMessage <==>
      forall k :: GreedySplit(Python, summary, k) ==> summary[1..k] == "" || summary[k + 2..] == ""
    ensures SummaryProblem(summary) == InvalidTagMessage <==>
      exists k :: && GreedySplit(Python, summary, k) && summary[1..k] != "" && summary[k + 2..] != ""
                  && !TagLanguage(Python, summary[1..k])
    ensures SummaryProblem(summary) == InvalidDescriptionMessage <==>
      exists k :: && GreedySplit(Python, summary, k) && summary[k + 2..] != ""
                  && TagLanguage(Python, summary[1..k]) && !LegacyDescriptionOk(summary[k + 2..])
  {
    SummaryProblemPasses(summary);
    SummaryProblemFormat(summary);
    SummaryProblemTag(summary);
    SummaryProblemDescription(summary);
  }

  lemma SummaryProblemPasses(summary: string)
    ensures SummaryProblem(summary) == "" <==> LegacyLanguage(summary)
  {
    match SplitIndex(Python, summary)
    case None =>
      SummaryProblemNoSplit(summary);
    case Some(k) =>
      OnlySplit(summary, k);
      SummaryProblemAtSplit(summary, k);
  }

  lemma SummaryProblemFormat(summary: string)
    ensures SummaryProblem(summary) == LegacyFormatMessage <==>
      forall k :: GreedySplit(Python, summary, k) ==> summary[1..k] == "" || summary[k + 2..] == ""
  {
    match SplitIndex(Python, summary)
    case None =>
      SummaryProblemNoSplit(summary);
    case Some(k) =>
      OnlySplit(summary, k);
      SummaryProblemAtSplit(summary, k);
  }

  lemma SummaryProblemTag(summary: string)
    ensures SummaryProblem(summary) == InvalidTagMessage <==>
      exists k :: && GreedySplit(Python, summary, k) && summary[1..k] != "" && summary[k + 2..] != ""
                  && !TagLanguage(Python, summary[1..k])
  {
    match SplitIndex(Python, summary)
    case None =>
      SummaryProblemNoSplit(summary);
    case Some(k) =>
      OnlySplit(summary, k);
      SummaryProblemAtSplit(summary, k);
  }

  lemma SummaryProblemDescription(summary: string)
    ensures SummaryProblem(summary) == InvalidDescriptionMessage <==>
      exists k :: && GreedySplit(Python, summary, k) && summary[k + 2..] != ""
                  && TagLanguage(Python, summary[1..k]) && !LegacyDescriptionOk(summary[k + 2..])
  {
    match SplitIndex(Python, summary)
    case None =>
      SummaryProblemNoSplit(summary);
    case Some(k) =>
      OnlySplit(summary, k);
      SummaryProblemAtSplit(summary, k);
  }

  /** The greedy split found is the only one. */
  lemma OnlySplit(summary: string, k: int)
    requires GreedySplit(Python, summary, k)
    ensures forall k' :: GreedySplit(Python, summary, k') ==> k' == k
  {
    forall k' | GreedySplit(Python, summary, k') ensures k' == k {
      GreedySplitUnique(Python, summary, k, k');
    }
  }

  /** Without a split point, `check_summary` gives the format message, which is none of the others. */
  lemma SummaryProblemNoSplit(summary: string)
    requires SplitIndex(Python, summary).None?
    ensures SummaryProblem(summary) == LegacyFormatMessage
    ensures forall k :: !GreedySplit(Python, summary, k)
    ensures LegacyFormatMessage != "" && LegacyFormatMessage != InvalidTagMessage
    ensures LegacyFormatMessage != InvalidDescriptionMessage
  {
    LegacyMessagesDistinct();
  }

  /** `check_summary`'s answer, given the greedy split of the summary. */
  lemma SummaryProblemAtSplit(summary: string, k: int)
    requires GreedySplit(Python, summary, k)
    ensures SummaryProblem(summary) == "" <==>
      TagLanguage(Python, summary[1..k]) && LegacyDescriptionOk(summary[k + 2..])
    ensures SummaryProblem(summary) == LegacyFormatMessage <==> summary[1..k] == "" || summary[k + 2..] == ""
    ensures SummaryProblem(summary) == InvalidTagMessage <==>
      summary[1..k] != "" && summary[k + 2..] != "" && !TagLanguage(Python, summary[1..k])
    ensures SummaryProblem(summary) == InvalidDescriptionMessage <==>
      summary[k + 2..] != "" && TagLanguage(Python, summary[1..k]) && !LegacyDescriptionOk(summary[k + 2..])
  {
    MessagesDistinct();
    LegacyMessagesDistinct();
    ParseIsGreedy(Python, summary);
    TagFullMatchSound(Python, summary[1..k]);
  }

  /** The line `check_commit` writes for a commit, given what `check_summary` answered about it. */
  function ReportLine(commit: GitCommit, problem: string): (text: string)
    ensures ReadStatus(text) == Some(if problem == "" then Ok else Failure)
  {
    if problem == "" then
      var text := "Correct | " + commit.hexsha + " - " + commit.summary;
      assert text[..7] == "Correct";
      ReadStatusPrefix(Ok, text);
      text
    else
      var text := "Failure | " + commit.hexsha + " - " + commit.summary + ("\n    Summary: " + problem);
      assert text[..7] == "Failure";
      ReadStatusPrefix(Failure, text);
      text
  }

  /**
   * The report of one commit: whether it passed, and its line, which starts
   * with the verdict's status and " | <hexsha> - <summary>".
   */
  function CommitReport(commit: GitCommit): (report: (bool, string))
    ensures report.0 <==> SummaryProblem(commit.summary) == ""
    ensures ReadStatus(report.1) == Some(if report.0 then Ok else Failure)
  {
    var problem := SummaryProblem(commit.summary);
    (problem == "", ReportLine(commit, problem))
  }

  /** The line names the verdict, then the hash and the summary. */
  lemma ReportLinePrefix(commit: GitCommit, problem: string)
    ensures (if problem == "" then "Correct | " else "Failure | ") + commit.hexsha + " - " + commit.summary
            <= ReportLine(commit, problem)
  {
    var head := (if problem == "" then "Correct | " else "Failure | ") + commit.hexsha + " - " + commit.summary;
    if problem != "" {
      assert ReportLine(commit, problem) == head + ("\n    Summary: " + problem);
    }
  }

  /** A commit's report line starts with its verdict's status word, its hash and its summary. */
  lemma CommitReportPrefix(commit: GitCommit)
    ensures (if CommitReport(commit).0 then "Correct | " else "Failure | ") + commit.hexsha + " - " + commit.summary
            <= CommitReport(commit).1
  {
    ReportLinePrefix(commit, SummaryProblem(commit.summary));
  }

  /** What a report line names after the "    Summary: " label of its second line, if it has one. */
  function ReadProblem(text: string): Option<string>
  {
    var k := NewlineIndex(text);
    if k + 14 <= |text| && text[k..k + 14] == "\n    Summary: " then Some(text[k + 14..]) else None
  }

  /** A passing commit's line is a single line: the status, the hash and the summary. */
  lemma PassLine(commit: GitCommit)
    requires '\n' !in commit.hexsha && '\n' !in commit.summary
    ensures FirstLine(ReportLine(commit, "")) == "Correct | " + commit.hexsha + " - " + commit.summary
    ensures ReadProblem(ReportLine(commit, "")) == None
    ensures '\n' !in ReportLine(commit, "")
  {
    FirstLineWhole("Correct | " + commit.hexsha + " - " + commit.summary);
  }

  /** The problem is read back from after the label that follows the first line. */
  lemma ReadProblemAfter(head: string, problem: string)
    requires '\n' !in head
    ensures FirstLine(head + ("\n    Summary: " + problem)) == head
    ensures ReadProblem(head + ("\n    Summary: " + problem)) == Some(problem)
  {
    var tail := "    Summary: " + problem;
    var text := head + ("\n    Summary: " + problem);
    FirstLineBefore(head, tail);
    assert text == head + "\n" + tail;
    assert text[|head|..|head| + 14] == "\n    Summary: ";
    assert text[|head| + 14..] == problem;
  }

  /** A failure line is the status, the hash and the summary, then the problem after its label. */
  lemma FailLine(commit: GitCommit, problem: string)
    requires '\n' !in commit.hexsha && '\n' !in commit.summary && problem != ""
    ensures FirstLine(ReportLine(commit, problem)) == "Failure | " + commit.hexsha + " - " + commit.summary
    ensures ReadProblem(ReportLine(commit, problem)) == Some(problem)
    ensures '\n' in ReportLine(commit, problem)
  {
    var head := "Failure | " + commit.hexsha + " - " + commit.summary;
    ReadProblemAfter(head, problem);
    assert ReportLine(commit, problem)[|head|] == '\n';
  }

  /**
   * The first line of a report is the verdict's status, the hash and the
   * summary; a failure report names the failing check on its second line; a
   * commit that passes gets a single line.
   */
  lemma CommitReportProblem(commit: GitCommit)
    requires '\n' !in commit.hexsha && '\n' !in commit.summary
    ensures FirstLine(CommitReport(commit).1)
      == (if CommitReport(commit).0 then "Correct | " else "Failure | ") + commit.hexsha + " - " + commit.summary
    ensures ReadProblem(CommitReport(commit).1)
      == if CommitReport(commit).0 then None else Some(SummaryProblem(commit.summary))
    ensures CommitReport(commit).0 <==> '\n' !in CommitReport(commit).1
  {
    var problem := SummaryProblem(commit.summary);
    if problem == "" {
      PassLine(commit);
    } else {
      FailLine(commit, problem);
    }
  }

  /** `check_commit`, specified by `CommitReport`. */
  method CheckCommit(commit: GitCommit) returns (ok: bool, msg: string)
    ensures (ok, msg) == CommitReport(commit)
  {
    var problem := CheckSummary(commit.summary);
    if problem == "" {
      return true, "Correct | " + commit.hexsha + " - " + commit.summary;
    }
    return false, "Failure | " + commit.hexsha + " - " + commit.summary + ("\n    Summary: " + problem);
  }

  /** What a history walk reports about one commit: whether it passed and its line. */
  type Reporter = GitCommit -> (bool, string)

  /** A commit's line is reported when it failed, or always with `includeCorrect`. */
  predicate Reported(report: Reporter, commit: GitCommit, includeCorrect: bool) {
    !report(commit).0 || includeCorrect
  }

  /**
   * The verdict and report lines of a history walk that stops before `exitSha`;
   * `check_history` uses `CommitReport` as `report`.
   */
  function HistoryReport(report: Reporter, commits: seq<GitCommit>, exitSha: string, includeCorrect: bool)
    : (r: (bool, seq<string>))
    ensures r.0 <==> forall i :: 0 <= i < StopIndex(commits, exitSha) ==> report(commits[i]).0
    ensures |r.1| <= StopIndex(commits, exitSha)
  {
    if commits == [] || commits[0].hexsha == exitSha then (true, [])
    else
      var (ok, msg) := report(commits[0]);
      var (success, msgs) := HistoryReport(report, commits[1..], exitSha, includeCorrect);
      assert forall i :: 1 <= i < StopIndex(commits, exitSha) ==> commits[i] == commits[1..][i - 1];
      (ok && success, (if Reported(report, commits[0], includeCorrect) then [msg] else []) + msgs)
  }

  /**
   * The report lines are exactly the lines of the commits before the exit
   * commit that failed, plus those that passed when `includeCorrect` is set.
   */
  lemma {:induction false} HistoryReportLines(report: Reporter, commits: seq<GitCommit>, exitSha: string,
                                              includeCorrect: bool)
    ensures forall m :: m in HistoryReport(report, commits, exitSha, includeCorrect).1 <==>
      exists i :: && 0 <= i < StopIndex(commits, exitSha) && Reported(report, commits[i], includeCorrect)
                  && m == report(commits[i]).1
    decreases |commits|
  {
    if commits == [] || commits[0].hexsha == exitSha {
    } else {
      var rest := commits[1..];
      HistoryReportLines(report, rest, exitSha, includeCorrect);
      var here := if Reported(report, commits[0], includeCorrect) then [report(commits[0]).1] else [];
      var all := HistoryReport(report, commits, exitSha, includeCorrect).1;
      assert all == here + HistoryReport(report, rest, exitSha, includeCorrect).1;
      forall m | m in all
        ensures exists i :: && 0 <= i < StopIndex(commits, exitSha) && Reported(report, commits[i], includeCorrect)
                            && m == report(commits[i]).1
      {
        if m in here {
          assert Reported(report, commits[0], includeCorrect) && m == report(commits[0]).1;
        } else {
          var j :| 0 <= j < StopIndex(rest, exitSha) && Reported(report, rest[j], includeCorrect) && m == report(rest[j]).1;
          assert rest[j] == commits[j + 1];
        }
      }
      forall i | 0 <= i < StopIndex(commits, exitSha) && Reported(report, commits[i], includeCorrect)
        ensures report(commits[i]).1 in all
      {
        if i > 0 {
          assert commits[i] == rest[i - 1];
        }
      }
    }
  }

  /** One step of the history walk from position `i`. */
  lemma HistoryReportStep(report: Reporter, commits: seq<GitCommit>, i: nat, exitSha: string, includeCorrect: bool)
    requires i < |commits|
    ensures commits[i].hexsha == exitSha ==> HistoryReport(report, commits[i..], exitSha, includeCorrect) == (true, [])
    ensures commits[i].hexsha != exitSha ==>
      var rest := HistoryReport(report, commits[i + 1..], exitSha, includeCorrect);
      HistoryReport(report, commits[i..], exitSha, includeCorrect) ==
        (report(commits[i]).0 && rest.0,
         (if Reported(report, commits[i], includeCorrect) then [report(commits[i]).1] else []) + rest.1)
  {
    assert commits[i..][1..] == commits[i + 1..];
  }

  /** What the walk has gathered after the first `i` commits, combined with the rest, is the whole report. */
  ghost predicate HistoryInvariant(report: Reporter, commits: seq<GitCommit>, i: nat, exitSha: string,
                                   includeCorrect: bool, success: bool, msgs: seq<string>)
    requires i <= |commits|
  {
    && (success && HistoryReport(report, commits[i..], exitSha, includeCorrect).0)
       == HistoryReport(report, commits, exitSha, includeCorrect).0
    && msgs + HistoryReport(report, commits[i..], exitSha, includeCorrect).1
       == HistoryReport(report, commits, exitSha, includeCorrect).1
  }

  /** Checking commit `i` keeps `HistoryInvariant`. */
  lemma HistoryAdvance(report: Reporter, commits: seq<GitCommit>, i: nat, exitSha: string, includeCorrect: bool,
                       success: bool, msgs: seq<string>, res: bool, msg: string)
    requires i < |commits| && commits[i].hexsha != exitSha && (res, msg) == report(commits[i])
    requires HistoryInvariant(report, commits, i, exitSha, includeCorrect, success, msgs)
    ensures HistoryInvariant(report, commits, i + 1, exitSha, includeCorrect, success && res,
                             if !res || includeCorrect then msgs + [msg] else msgs)
  {
    HistoryReportStep(report, commits, i, exitSha, includeCorrect);
  }

  /** At the exit commit or at the end of the history the walk has gathered the whole report. */
  lemma HistoryDone(report: Reporter, commits: seq<GitCommit>, i: nat, exitSha: string, includeCorrect: bool,
                    success: bool, msgs: seq<string>)
    requires i <= |commits| && HistoryInvariant(report, commits, i, exitSha, includeCorrect, success, msgs)
    requires i == |commits| || commits[i].hexsha == exitSha
    ensures (success, msgs) == HistoryReport(report, commits, exitSha, includeCorrect)
  {
    if i < |commits| {
      HistoryReportStep(report, commits, i, exitSha, includeCorrect);
    } else {
      assert commits[i..] == [];
    }
    assert HistoryReport(report, commits[i..], exitSha, includeCorrect) == (true, []);
    assert msgs + [] == msgs;
  }

  /** `check_history`. */
  method CheckHistory(repo: Repo, exitSha: string, includeCorrect: bool) returns (success: bool, msgs: seq<string>)
    ensures (success, msgs) == HistoryReport(CommitReport, repo.history, exitSha, includeCorrect)
  {
    var commits := repo.history;
    success, msgs := true, [];
    var report: Reporter := CommitReport;
    var i := 0;
    while i < |commits|
      invariant i <= |commits|
      invariant HistoryInvariant(report, commits, i, exitSha, includeCorrect, success, msgs)
    {
      var commit := commits[i];
      if commit.hexsha == exitSha {
        break;
      }
      var res, msg := CheckCommit(commit);
      HistoryAdvance(report, commits, i, exitSha, includeCorrect, success, msgs, res, msg);
      if !res || includeCorrect {
        msgs := msgs + [msg];
      }
      success := success && res;
      i := i + 1;
    }
    HistoryDone(report, commits, i, exitSha, includeCorrect, success, msgs);
  }

  /** `check_branch`: no common ancestor is a failed run with one error line. */
  method CheckBranch(repo: Repo, sourceBranch: string, targetBranch: string, includeCorrect: bool)
    returns (success: bool, msgs: seq<string>)
    ensures var ancestors := repo.mergeBase(sourceBranch, targetBranch);
      && (ancestors == [] ==> !success && msgs == [NoAncestorMessage])
      && (ancestors != [] ==>
            (success, msgs) == HistoryReport(CommitReport, repo.history, ancestors[0].hexsha, includeCorrect))
  {
    var ancestors := repo.mergeBase(sourceBranch, targetBranch);
    if ancestors == [] {
      return false, [NoAncestorMessage];
    }
    success, msgs := CheckHistory(repo, ancestors[0].hexsha, includeCorrect);
  }
}
