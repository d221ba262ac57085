/**
 * How the three versions of the checker relate: the first Python version in
 * gitcc/utility.py, the packaged Python validators and the GitHub action.
 */
module Versions {
  import opened Wrappers
  import opened Outcomes
  import opened SummaryGrammar
  import Legacy = LegacyUtility
  import PyV = PyValidation
  import Py = PyCommitValidator
  import Ts = TsCommitValidator

  /**
   * An empty tag is a format error for the first version (`valid_format`)
   * but a tag error for `SimpleTag`, which has no such check.
   */
  lemma EmptyTagReported()
    ensures Legacy.SummaryProblem("[] X y") == Legacy.LegacyFormatMessage
    ensures PyV.SimpleTagValidateMessage("[] X y", "").message == InvalidTagMessage
  {
    assert Compose("", "X y") == "[] X y";
    assert !HasCloseSpace("X y") by {
      assert !CloseSpaceAt("X y", 0) && !CloseSpaceAt("X y", 1);
    }
    ParseCompose(Python, "", "X y");
  }

  /**
   * Every summary `SimpleTag` accepts is accepted by the first version too:
   * the later description rule only adds the demand for a word break.
   */
  lemma SimpleTagNarrowsLegacy(summary: string)
    ensures PyV.SimpleTagValidateMessage(summary, "").status == Ok ==> Legacy.SummaryProblem(summary) == ""
  {
    match Parse(Python, summary)
    case None =>
    case Some((tag, text)) =>
      DescriptionRuleNarrowed(text);
  }

  /** "[ab] Abc" shows the narrowing is strict. */
  lemma SingleWordDescription()
    ensures Legacy.SummaryProblem("[ab] Abc") == ""
    ensures PyV.SimpleTagValidateMessage("[ab] Abc", "").message == InvalidDescriptionMessage
  {
    AbcParts();
    DescriptionRuleNarrowed("Abc");
    assert LegacyDescriptionOk("Abc");
  }

  /** "[ab] Abc" splits into the tag "ab", which passes, and the description "Abc". */
  lemma AbcParts()
    ensures Parse(Python, "[ab] Abc") == Some(("ab", "Abc"))
    ensures TagFullMatch(Python, "ab")
  {
    assert Compose("ab", "Abc") == "[ab] Abc";
    assert !HasCloseSpace("Abc") by {
      assert !CloseSpaceAt("Abc", 0) && !CloseSpaceAt("Abc", 1) && !CloseSpaceAt("Abc", 2);
    }
    ParseCompose(Python, "ab", "Abc");
    AbTag();
  }

  /** "ab" is a single block, so it passes the tag pattern. */
  lemma AbTag()
    ensures TagFullMatch(Python, "ab")
  {
    var w := "ab";
    assert w[0] == 'a' && w[1] == 'b';
    assert HasTagNeighbour(w, 0) && HasTagNeighbour(w, 1);
    assert TagBody(Python, w);
  }

  /**
   * Both splitters agree on the summary; only the Python one keeps the rest
   * of the message as the description.
   */
  lemma SplittersAgreeOnSummary(message: string)
    ensures Ts.SplitMessage(message).0 == Py.SplitMessage(message).0
    ensures Py.SplitMessage("a\nb") == ("a", "b") && Ts.SplitMessage("a\nb") == ("a", "")
  {
    Py.SplitMessageSummary(message);
    assert "a\nb" == "a" + "\n" + "b";
    Lines.FirstLineBefore("a", "b");
    assert "a\nb"[2..] == "b";
  }

  /**
   * The action's tag test accepts every tag the anchored pattern accepts, and
   * more: a tag only has to start with '*' or end with a block. A tag ending
   * in a tab passes in Python but not in the action.
   */
  lemma TagTestVersusFullMatch(tag: string)
    ensures TagFullMatch(JavaScript, tag) ==> TagTest(tag)
    ensures TagTest("*abc") && !TagFullMatch(Python, "*abc") && !TagFullMatch(JavaScript, "*abc")
    ensures TagTest("Fix ab") && !TagFullMatch(Python, "Fix ab")
    ensures TagFullMatch(Python, "ab\t") && !TagTest("ab\t")
  {
    if TagFullMatch(JavaScript, tag) && tag != "*" {
      TagBodyIffBlocks(JavaScript, tag);
      BlocksEndWithBlock(JavaScript, tag);
    }
    assert HasTagNeighbour("ab\t", 0) && HasTagNeighbour("ab\t", 1);
    assert TagFullMatch(Python, "ab\t");
  }
}
