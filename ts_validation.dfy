/** typescript/src/validation.ts: the `SimpleTag` validator of the GitHub action. */
module TsValidation {
  import opened Wrappers
  import opened Outcomes
  import opened SummaryGrammar
  import opened TsCommit
  import opened TsCommitValidator

  /**
   * `SimpleTag.validate_message`: format (`^\[(.*)] (.*)$`), then the tag
   * (`rx_category.test`), then the description; the first failure decides.
   */
  function SimpleTagValidateMessage(summary: string, description: string): (r: Result<Commit>)
    ensures r.status != Warning && r.commit == None
    ensures r.status == Ok <==> r.message == ""
  {
    match Parse(JavaScript, summary)
    case None => Result(Failure, InvalidFormatMessage, None)
    case Some((tag, text)) =>
      if !TagTest(tag) then Result(Failure, InvalidTagMessage, None)
      else if !DescriptionOk(text) then Result(Failure, InvalidDescriptionMessage, None)
      else Result(Ok)
  }

  /** The summaries the action accepts. */
  ghost predicate TsSimpleTagLanguage(summary: string) {
    exists k :: GreedySplit(JavaScript, summary, k) && TagSearchLanguage(summary[1..k])
             && DescriptionLanguage(summary[k + 2..])
  }

  /** Each outcome in terms of the regular languages, first failure first. */
  lemma SimpleTagOutcome(summary: string, description: string)
    ensures var r := SimpleTagValidateMessage(summary, description);
      && (r.status == Ok <==> TsSimpleTagLanguage(summary))
      && (r.message == InvalidFormatMessage <==> forall k :: !SplitsAt(JavaScript, summary, k))
      && (r.message == InvalidTagMessage <==>
            exists k :: GreedySplit(JavaScript, summary, k) && !TagSearchLanguage(summary[1..k]))
      && (r.message == InvalidDescriptionMessage <==>
            exists k :: GreedySplit(JavaScript, summary, k) && TagSearchLanguage(summary[1..k])
                     && !DescriptionLanguage(summary[k + 2..]))
  {
    MessagesDistinct();
    match Parse(JavaScript, summary)
    case None =>
      assert forall k :: !GreedySplit(JavaScript, summary, k);
    case Some((tag, text)) =>
      var k := SplitIndex(JavaScript, summary).value;
      assert GreedySplit(JavaScript, summary, k);
      ParseIsGreedy(JavaScript, summary);
      assert forall k' :: GreedySplit(JavaScript, summary, k') ==> summary[1..k'] == tag && summary[k' + 2..] == text;
      TagTestSound(tag);
      DescriptionOkIffLanguage(text);
  }

  /**
   * Checking a commit: it passes exactly when it has a message whose first
   * line is in the language, and the result never carries the commit.
   */
  lemma SimpleTagValidate(c: Commit)
    ensures var r := Validate(SimpleTagValidateMessage, c);
      && r.commit == None
      && (r.status == Ok <==> c.message.Some? && TsSimpleTagLanguage(Summary(c)))
  {
    if c.message.Some? {
      SimpleTagOutcome(Summary(c), "");
    }
  }
}
