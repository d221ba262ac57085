/**
 * python/gitcc/commit_validator.py: splitting a message, the base validator's
 * template method and the text form of a Result.
 */
module PyCommitValidator {
  import opened Wrappers
  import opened Lines
  import opened Outcomes
  import opened GitRepository

  /** A validator, represented by its `validate_message(summary, description)`. */
  type Validator = (string, string) -> Result<GitCommit>

  /** `Result()`: every field at its default. */
  function DefaultResult(): (r: Result<GitCommit>)
    ensures r.status == Failure && r.message == "" && r.commit == None
  {
    Result()
  }

  /** `message.split('\n', 1)`: the first line and everything after the first line break. */
  function SplitMessage(message: string): (parts: (string, string))
    ensures '\n' !in parts.0
    ensures '\n' in message ==> parts.0 + "\n" + parts.1 == message
    ensures '\n' !in message ==> parts == (message, "")
  {
    var k := NewlineIndex(message);
    if k == |message| then
      assert message[..k] == message;
      (message, "")
    else
      assert message == message[..k] + "\n" + message[k + 1..];
      (FirstLine(message), message[k + 1..])
  }

  /** The summary `SplitMessage` returns is the first line of the message. */
  lemma SplitMessageSummary(message: string)
    ensures SplitMessage(message).0 == FirstLine(message)
  {
    var k := NewlineIndex(message);
    if k == |message| {
      assert message[..k] == message;
    }
  }

  /**
   * `CommitValidator.validate`: check the split message, then attach the commit,
   * replacing whatever commit the check put in its result.
   */
  function Validate(check: Validator, commit: GitCommit): (r: Result<GitCommit>)
    ensures r.commit == Some(commit)
    ensures var (summary, description) := SplitMessage(commit.message);
      r.status == check(summary, description).status && r.message == check(summary, description).message
  {
    var (summary, description) := SplitMessage(commit.message);
    check(summary, description).(commit := Some(commit))
  }

  /** The base class's `validate_message`: a warning whatever the message. */
  function DefaultValidateMessage(summary: string, description: string): (r: Result<GitCommit>)
    ensures r.status == Warning && r.commit == None
    ensures r.message == "A separate message check was not provided."
  {
    Result(Warning, "A separate message check was not provided.", None)
  }

  /** A validator that keeps the base `validate_message` warns about every commit. */
  lemma DefaultValidatorWarns(commit: GitCommit)
    ensures Validate(DefaultValidateMessage, commit)
      == Result(Warning, "A separate message check was not provided.", Some(commit))
  {
  }

  /** The commit part " | <hexsha> - <summary>" of a rendered result. */
  function CommitPart(c: GitCommit): string {
    " | " + c.hexsha + " - " + c.summary
  }

  /** `Result.__str__`. */
  function ResultText(r: Result<GitCommit>): (text: string)
    ensures StatusText(r.status) <= text
  {
    var head := StatusText(r.status) + (if r.commit.Some? then CommitPart(r.commit.value) else "");
    if r.message != "" then head + " |\n" + MessageIndent + r.message else head
  }

  /** A commit whose hash and summary are single lines, as Git's are. */
  predicate SingleLineCommit(r: Result<GitCommit>) {
    r.commit.Some? ==> '\n' !in r.commit.value.hexsha && '\n' !in r.commit.value.summary
  }

  /** The status can be read back from the text. */
  lemma ResultTextStatus(r: Result<GitCommit>)
    ensures ReadStatus(ResultText(r)) == Some(r.status)
  {
    ReadStatusPrefix(r.status, ResultText(r));
  }

  /** The message can be read back from the text, and an empty message leaves no trace. */
  lemma ResultTextMessage(r: Result<GitCommit>)
    requires SingleLineCommit(r)
    ensures ReadMessage(ResultText(r)) == if r.message == "" then None else Some(r.message)
    ensures r.message != "" ==> ResultText(r) == FirstLine(ResultText(r)) + "\n" + MessageIndent + r.message
    ensures r.message == "" ==> ResultText(r) == FirstLine(ResultText(r))
  {
    var head := StatusText(r.status) + (if r.commit.Some? then CommitPart(r.commit.value) else "");
    assert '\n' !in head;
    if r.message != "" {
      assert ResultText(r) == (head + " |") + "\n" + (MessageIndent + r.message);
      ReadMessageAfter(head + " |", r.message);
      FirstLineBefore(head + " |", MessageIndent + r.message);
    } else {
      ReadMessageNone(head);
      FirstLineWhole(head);
    }
  }

  /**
   * The first line is the status, then the commit part when a commit is attached,
   * then " |" when a message follows; so it is longer than "<status> |" exactly
   * when a commit is attached.
   */
  lemma ResultTextCommit(r: Result<GitCommit>)
    requires SingleLineCommit(r)
    ensures FirstLine(ResultText(r)) ==
      StatusText(r.status) + (if r.commit.Some? then CommitPart(r.commit.value) else "")
      + (if r.message != "" then " |" else "")
    ensures r.commit.Some? <==> |FirstLine(ResultText(r))| > 9
    ensures r.commit.Some? ==> StatusText(r.status) + CommitPart(r.commit.value) <= FirstLine(ResultText(r))
  {
    var head := StatusText(r.status) + (if r.commit.Some? then CommitPart(r.commit.value) else "");
    assert '\n' !in head;
    var line := if r.message != "" then head + " |" else head;
    if r.message != "" {
      assert ResultText(r) == line + "\n" + (MessageIndent + r.message);
      FirstLineBefore(line, MessageIndent + r.message);
    } else {
      FirstLineWhole(line);
    }
  }
}
