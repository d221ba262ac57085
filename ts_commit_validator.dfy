/**
 * typescript/src/commit-validator.ts: the text form of a Result, splitting a
 * message and the base validator.
 */
module TsCommitValidator {
  import opened Wrappers
  import opened Lines
  import opened Outcomes
  import opened TsCommit

  /** A validator, represented by its `validate_message(summary, description)`. */
  type Validator = (string, string) -> Result<Commit>

  const EmptyMessage: string := "commit message was empty."

  /** The commit part " | <hexsha> - <summary()>" of a rendered result. */
  function CommitPart(c: Commit): string {
    " | " + c.hexsha + " - " + Summary(c)
  }

  /** `Result.toString`: " |" closes the first line only when no commit is attached. */
  function ResultText(r: Result<Commit>): (text: string)
    ensures StatusText(r.status) <= text
  {
    var head := StatusText(r.status) + (if r.commit.Some? then CommitPart(r.commit.value) else "");
    if r.message == "" then head
    else (if r.commit.None? then head + " |" else head) + "\n" + MessageIndent + r.message
  }

  predicate SingleLineHash(r: Result<Commit>) {
    r.commit.Some? ==> '\n' !in r.commit.value.hexsha
  }

  /** The status can be read back from the text. */
  lemma ResultTextStatus(r: Result<Commit>)
    ensures ReadStatus(ResultText(r)) == Some(r.status)
  {
    ReadStatusPrefix(r.status, ResultText(r));
  }

  /** The message can be read back from the text, and an empty message leaves no trace. */
  lemma ResultTextMessage(r: Result<Commit>)
    requires SingleLineHash(r)
    ensures ReadMessage(ResultText(r)) == if r.message == "" then None else Some(r.message)
    ensures r.message != "" ==> ResultText(r) == FirstLine(ResultText(r)) + "\n" + MessageIndent + r.message
    ensures r.message == "" ==> ResultText(r) == FirstLine(ResultText(r))
  {
    var head := StatusText(r.status) + (if r.commit.Some? then CommitPart(r.commit.value) else "");
    assert '\n' !in head;
    if r.message != "" {
      var line := if r.commit.None? then head + " |" else head;
      assert ResultText(r) == line + "\n" + (MessageIndent + r.message);
      ReadMessageAfter(line, r.message);
      FirstLineBefore(line, MessageIndent + r.message);
    } else {
      ReadMessageNone(head);
      FirstLineWhole(head);
    }
  }

  /**
   * The first line is the status followed by the commit part when a commit is
   * attached, and by " |" when instead only a message follows; so it is longer
   * than "<status> |" exactly when a commit is attached.
   */
  lemma ResultTextCommit(r: Result<Commit>)
    requires SingleLineHash(r)
    ensures FirstLine(ResultText(r)) ==
      StatusText(r.status) + (if r.commit.Some? then CommitPart(r.commit.value)
                              else if r.message != "" then " |" else "")
    ensures r.commit.Some? <==> |FirstLine(ResultText(r))| > 9
    ensures r.commit.Some? ==> FirstLine(ResultText(r)) == StatusText(r.status) + CommitPart(r.commit.value)
  {
    var head := StatusText(r.status) + (if r.commit.Some? then CommitPart(r.commit.value) else "");
    assert '\n' !in head;
    var line := if r.message != "" && r.commit.None? then head + " |" else head;
    if r.message != "" {
      assert ResultText(r) == line + "\n" + (MessageIndent + r.message);
      FirstLineBefore(line, MessageIndent + r.message);
    } else {
      FirstLineWhole(line);
    }
  }

  /**
   * `split_message`: `split('\n', 1)` keeps only the first piece, so the
   * description is always empty.
   */
  function SplitMessage(message: string): (parts: (string, string))
    ensures parts.1 == ""
    ensures '\n' !in parts.0 && parts.0 <= message
    ensures |parts.0| < |message| ==> message[|parts.0|] == '\n'
  {
    (FirstLine(message), "")
  }

  /** `validate`: an absent message fails without consulting the check. */
  function Validate(check: Validator, commit: Commit): (r: Result<Commit>)
    ensures commit.message.None? ==> r == Result(Failure, EmptyMessage, None)
    ensures commit.message.Some? ==> r == check(Summary(commit), "")
  {
    match commit.message
    case None => Result(Failure, EmptyMessage, None)
    case Some(m) =>
      var (summary, description) := SplitMessage(m);
      check(summary, description)
  }

  /** The base `validate_message`: every message is accepted. */
  function BaseValidateMessage(summary: string, description: string): (r: Result<Commit>)
    ensures r.status == Ok && r.message == "" && r.commit == None
  {
    Result(Ok, "", None)
  }

  /**
   * An undefined message and an empty one have the same summary, but only the
   * undefined one fails regardless of the validator.
   */
  lemma UndefinedMessageFails(check: Validator, c: Commit)
    requires c.message.None?
    ensures Summary(c) == Summary(c.(message := Some("")))
    ensures Validate(check, c).status == Failure
    ensures Validate(BaseValidateMessage, c.(message := Some(""))).status == Ok
  {
  }
}
