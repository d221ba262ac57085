/** typescript/src/utility.ts: the validator lookup of the action and the logging of results. */
module TsUtility {
  import opened Wrappers
  import opened Outcomes
  import opened TsCommit
  import opened TsCommitValidator
  import opened TsValidation
  import opened TsUtils

  /** `get_shipped_validator`: only the exact name "SimpleTag" yields a validator. */
  function GetShippedValidator(name: string): (r: Throws<Validator>)
    ensures r.Returns? <==> name == "SimpleTag"
    ensures r.Returns? ==> forall s, d :: r.value(s, d) == SimpleTagValidateMessage(s, d)
    ensures r.Thrown? ==> r.error == InvalidValidatorName
  {
    if name == "SimpleTag" then Returns(SimpleTagValidateMessage) else Thrown(InvalidValidatorName)
  }

  /** The `@actions/core` log call a result goes to. */
  datatype LogLevel = CoreInfo | CoreWarning | CoreError

  datatype LogEntry = LogEntry(level: LogLevel, text: string)

  /** Ok is logged with `info`, Warning with `warning`, Failure with `error`. */
  function LevelOf(s: Status): (level: LogLevel)
    ensures level == CoreError <==> s == Failure
    ensures level == CoreWarning <==> s == Warning
    ensures level == CoreInfo <==> s == Ok
  {
    match s
    case Ok => CoreInfo
    case Warning => CoreWarning
    case Failure => CoreError
  }

  /**
   * `print_results`: one log entry per result, at the level of its status;
   * true when no result is a Failure, that is, when nothing was logged as an error.
   */
  method PrintResults(checks: seq<Result<Commit>>) returns (allOk: bool, logs: seq<LogEntry>)
    ensures allOk <==> NoFailure(checks)
    ensures |logs| == |checks|
    ensures forall i :: 0 <= i < |logs| ==> logs[i] == LogEntry(LevelOf(checks[i].status), ResultText(checks[i]))
    ensures allOk <==> forall i :: 0 <= i < |logs| ==> logs[i].level != CoreError
  {
    allOk, logs := true, [];
    var render: Result<Commit> -> string := ResultText;
    for i := 0 to |checks|
      invariant allOk <==> forall j :: 0 <= j < i ==> checks[j].status != Failure
      invariant |logs| == i
      invariant forall j :: 0 <= j < i ==> logs[j].level == LevelOf(checks[j].status)
      invariant forall j :: 0 <= j < i ==> logs[j].text == render(checks[j])
    {
      var check := checks[i];
      var msg := render(check);
      var level: LogLevel;
      match check.status {
        case Ok => level := CoreInfo;
        case Warning => level := CoreWarning;
        case Failure => level := CoreError;
      }
      logs := logs + [LogEntry(level, msg)];
      allOk := allOk && check.status != Failure;
    }
    ErrorLogsAreFailures(checks, logs);
  }

  /** A log has an error entry exactly where the results have a Failure. */
  lemma ErrorLogsAreFailures(checks: seq<Result<Commit>>, logs: seq<LogEntry>)
    requires |logs| == |checks|
    requires forall i :: 0 <= i < |logs| ==> logs[i].level == LevelOf(checks[i].status)
    ensures NoFailure(checks) <==> forall i :: 0 <= i < |logs| ==> logs[i].level != CoreError
  {
  }
}
