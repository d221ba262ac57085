/**
 * python/gitcc/validation.py: the shipped `SimpleTag` validator and the
 * configurable `Regex` validator.
 */
module PyValidation {
  import opened Wrappers
  import opened Lines
  import opened Outcomes
  import opened GitRepository
  import opened SummaryGrammar
  import opened PyCommitValidator

  // ---------------------------------------------------------------------------
  // SimpleTag

  /**
   * `SimpleTag.validate_message`: format, then tag, then description; the first
   * check that fails decides the message. The description argument is not read.
   */
  function SimpleTagValidateMessage(summary: string, description: string): (r: Result<GitCommit>)
    ensures r.status != Warning && r.commit == None
    ensures r.status == Ok <==> r.message == ""
    ensures r.status == Failure ==>
      r.message in {InvalidFormatMessage, InvalidTagMessage, InvalidDescriptionMessage}
  {
    match Parse(Python, summary)
    case None => Result(Failure, InvalidFormatMessage, None)
    case Some((tag, text)) =>
      if !TagFullMatch(Python, tag) then Result(Failure, InvalidTagMessage, None)
      else if !DescriptionOk(text) then Result(Failure, InvalidDescriptionMessage, None)
      else Result(Ok, "", None)
  }

  /** The summaries the three patterns accept together. */
  ghost predicate SimpleTagLanguage(d: Dialect, summary: string) {
    exists k :: GreedySplit(d, summary, k) && TagLanguage(d, summary[1..k]) && DescriptionLanguage(summary[k + 2..])
  }

  /** The format pattern matches somewhere in the summary. */
  ghost predicate FormatMatches(d: Dialect, summary: string) {
    exists k :: SplitsAt(d, summary, k)
  }

  /**
   * Each outcome of `SimpleTag` in terms of the three regular languages: a
   * summary is accepted exactly when it is in the combined language, and
   * every failure names the first pattern that rejects it.
   */
  lemma SimpleTagOutcome(summary: string, description: string)
    ensures var r := SimpleTagValidateMessage(summary, description);
      && (r.status == Ok <==> SimpleTagLanguage(Python, summary))
      && (r.message == InvalidFormatMessage <==> !FormatMatches(Python, summary))
      && (r.message == InvalidTagMessage <==>
            exists k :: GreedySplit(Python, summary, k) && !TagLanguage(Python, summary[1..k]))
      && (r.message == InvalidDescriptionMessage <==>
            exists k :: GreedySplit(Python, summary, k) && TagLanguage(Python, summary[1..k])
                     && !DescriptionLanguage(summary[k + 2..]))
  {
    MessagesDistinct();
    var r := SimpleTagValidateMessage(summary, description);
    match Parse(Python, summary)
    case None =>
      assert !FormatMatches(Python, summary);
      assert forall k :: !GreedySplit(Python, summary, k);
    case Some((tag, text)) =>
      var k := SplitIndex(Python, summary).value;
      assert GreedySplit(Python, summary, k);
      ParseIsGreedy(Python, summary);
      assert forall k' :: GreedySplit(Python, summary, k') ==> summary[1..k'] == tag && summary[k' + 2..] == text;
      assert FormatMatches(Python, summary);
      TagFullMatchSound(Python, tag);
      DescriptionOkIffLanguage(text);
  }

  /** The description argument never changes the outcome. */
  lemma SimpleTagIgnoresDescription(summary: string, d1: string, d2: string)
    ensures SimpleTagValidateMessage(summary, d1) == SimpleTagValidateMessage(summary, d2)
  {
  }

  /** Checking a whole commit: only the first line of its message matters. */
  lemma SimpleTagValidate(commit: GitCommit)
    ensures var r := Validate(SimpleTagValidateMessage, commit);
      && r.commit == Some(commit)
      && (r.status == Ok <==> SimpleTagLanguage(Python, FirstLine(commit.message)))
  {
    SplitMessageSummary(commit.message);
    var (summary, description) := SplitMessage(commit.message);
    SimpleTagOutcome(summary, description);
  }

  // ---------------------------------------------------------------------------
  // Regex

  /** A configured pattern constrains its part; an absent one accepts everything. */
  predicate Conforms(fullMatch: (string, string) -> bool, pattern: Option<string>, text: string) {
    pattern.None? || fullMatch(pattern.value, text)
  }

  function SummaryMismatch(pattern: string): string {
    "Summary does not match the pattern '" + pattern + "'"
  }

  function DescriptionMismatch(pattern: string): string {
    "Description does not match the pattern '" + pattern + "'"
  }

  /**
   * A `Regex` validator: `Regex(summary_pattern, description_pattern)`. The
   * regex engine is the parameter `fullMatch(pattern, text)`, true when
   * `re.compile(pattern).fullmatch(text)` finds a match.
   */
  datatype Regex = Regex(summaryPattern: Option<string>, descriptionPattern: Option<string>) {

    /** `Regex.validate_message`: the summary is checked first, the description only after it passes. */
    function ValidateMessage(fullMatch: (string, string) -> bool, summary: string, description: string)
      : (r: Result<GitCommit>)
      ensures r.status != Warning && r.commit == None
      ensures r.status == Ok <==>
        Conforms(fullMatch, summaryPattern, summary) && Conforms(fullMatch, descriptionPattern, description)
      ensures r.status == Ok ==> r.message == ""
      ensures !Conforms(fullMatch, summaryPattern, summary) ==>
        r.message == SummaryMismatch(summaryPattern.value)
      ensures Conforms(fullMatch, summaryPattern, summary) && !Conforms(fullMatch, descriptionPattern, description) ==>
        r.message == DescriptionMismatch(descriptionPattern.value)
    {
      if summaryPattern.Some? && !fullMatch(summaryPattern.value, summary) then
        Result(Failure, SummaryMismatch(summaryPattern.value), None)
      else if descriptionPattern.Some? && !fullMatch(descriptionPattern.value, description) then
        Result(Failure, DescriptionMismatch(descriptionPattern.value), None)
      else
        Result(Ok, "", None)
    }
  }

  /** Without patterns every message is accepted, whatever the engine does. */
  lemma RegexWithoutPatterns(fullMatch: (string, string) -> bool, summary: string, description: string)
    ensures Regex(None, None).ValidateMessage(fullMatch, summary, description) == Result(Ok, "", None)
  {
  }

  /**
   * A rejected summary decides the result: neither the description nor what
   * the engine would say about it makes a difference.
   */
  lemma RegexSummaryFirst(rx: Regex, m1: (string, string) -> bool, m2: (string, string) -> bool,
                          summary: string, d1: string, d2: string)
    requires rx.summaryPattern.Some?
    requires !m1(rx.summaryPattern.value, summary) && !m2(rx.summaryPattern.value, summary)
    ensures rx.ValidateMessage(m1, summary, d1) == rx.ValidateMessage(m2, summary, d2)
    ensures rx.ValidateMessage(m1, summary, d1).status == Failure
  {
  }
}
