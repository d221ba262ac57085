/**
 * The three-state outcome of a check and the Result record that carries it.
 * Both implementations define the same enumeration with the same text values
 * (python/gitcc/commit_validator.py and typescript/src/commit-validator.ts);
 * the Result record is generic in the commit type each implementation uses.
 */
module Outcomes {
  import opened Wrappers
  import opened Lines

  /** Only `Ok` counts as a success. */
  datatype Status = Failure | Warning | Ok

  /** The enumeration's text value: `Ok` is written "Correct". */
  function StatusText(s: Status): (text: string)
    ensures |text| == 7
    ensures s == Ok <==> text == "Correct"
    ensures s == Failure <==> text == "Failure"
    ensures s == Warning <==> text == "Warning"
  {
    match s
    case Failure => "Failure"
    case Warning => "Warning"
    case Ok => "Correct"
  }

  /** Distinct statuses are written differently, so a rendered line names its status. */
  lemma StatusTextInjective(a: Status, b: Status)
    ensures StatusText(a) == StatusText(b) ==> a == b
  {
    if a != b {
      assert StatusText(a)[0] != StatusText(b)[0];
    }
  }

  /** Outcome of checking one commit; `commit` is absent when only a message was checked. */
  datatype Result<+C> = Result(status: Status := Failure, message: string := "", commit: Option<C> := None)

  /** A run is good when no check is a Failure; warnings do not fail it. */
  predicate NoFailure<C>(checks: seq<Result<C>>) {
    forall i :: 0 <= i < |checks| ==> checks[i].status != Failure
  }

  /** The verdict over one more result. */
  lemma NoFailurePrefix<C>(checks: seq<Result<C>>, i: nat)
    requires i < |checks|
    ensures NoFailure(checks[..i + 1]) <==> NoFailure(checks[..i]) && checks[i].status != Failure
  {
    assert checks[..i + 1] == checks[..i] + [checks[i]];
    if NoFailure(checks[..i + 1]) {
      forall j | 0 <= j < i ensures checks[..i][j].status != Failure {
        assert checks[..i][j] == checks[..i + 1][j];
      }
    }
  }

  /** What both renderings put between the line break and the message. */
  const MessageIndent: string := "        : "

  /** The status named by the first seven characters of a rendered result. */
  function ReadStatus(text: string): (r: Option<Status>)
    ensures r.Some? ==> StatusText(r.value) <= text
  {
    if |text| < 7 then None
    else if text[..7] == "Correct" then Some(Ok)
    else if text[..7] == "Warning" then Some(Warning)
    else if text[..7] == "Failure" then Some(Failure)
    else None
  }

  lemma ReadStatusPrefix(s: Status, text: string)
    requires StatusText(s) <= text
    ensures ReadStatus(text) == Some(s)
  {
    assert text[..7] == StatusText(s);
  }

  /** The message of a rendered result: what follows the indent on the second line, if any. */
  function ReadMessage(text: string): (r: Option<string>)
    ensures r.Some? ==> exists k :: 0 <= k < |text| && text[k] == '\n' && text[k + 1..] == MessageIndent + r.value
  {
    var k := NewlineIndex(text);
    if k + 11 <= |text| && text[k + 1..k + 11] == MessageIndent then
      assert text[k + 1..] == text[k + 1..k + 11] + text[k + 11..];
      Some(text[k + 11..])
    else None
  }

  lemma ReadMessageAfter(a: string, m: string)
    requires '\n' !in a
    ensures ReadMessage(a + "\n" + (MessageIndent + m)) == Some(m)
  {
    var text := a + "\n" + (MessageIndent + m);
    FirstLineBefore(a, MessageIndent + m);
    assert text[|a| + 1..] == MessageIndent + m;
    assert text[|a| + 1..|a| + 11] == MessageIndent;
    assert text[|a| + 11..] == m;
  }

  lemma ReadMessageNone(a: string)
    requires '\n' !in a
    ensures ReadMessage(a) == None
  {
    FirstLineWhole(a);
  }
}
