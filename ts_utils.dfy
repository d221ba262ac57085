/** typescript/src/utils.ts: the registry of shipped validator classes and `check_commits`. */
module TsUtils {
  import opened Wrappers
  import opened Outcomes
  import opened TsCommit
  import opened TsCommitValidator

  /** The validator classes the registry can hand out. */
  datatype ShippedClass = SimpleTagClass | RegExClass

  /** `toLowerCase` on one character, restricted to ASCII. */
  function LowerChar(c: char): char {
    if 'A' <= c <= 'Z' then (c as int + 32) as char else c
  }

  function LowerAscii(s: string): (t: string)
    ensures |t| == |s|
    ensures forall i :: 0 <= i < |s| ==> t[i] == LowerChar(s[i])
  {
    seq(|s|, i requires 0 <= i < |s| => LowerChar(s[i]))
  }

  /** Equal up to the case of ASCII letters. */
  predicate SameIgnoringCase(a: string, b: string) {
    |a| == |b| && forall i :: 0 <= i < |a| ==> LowerChar(a[i]) == LowerChar(b[i])
  }

  /** Lower-casing a name yields a lower-case word exactly when the name is that word up to case. */
  lemma LowerAsciiIsWord(name: string, word: string)
    requires forall i :: 0 <= i < |word| ==> LowerChar(word[i]) == word[i]
    ensures LowerAscii(name) == word <==> SameIgnoringCase(name, word)
  {
    if SameIgnoringCase(name, word) {
      assert forall i :: 0 <= i < |word| ==> LowerAscii(name)[i] == word[i];
    }
  }

  const InvalidValidatorName: string := "Invalid validator name!"

  /** `get_shipped_validator_cls`: the name is compared case-insensitively. */
  function GetShippedValidatorCls(name: string): (r: Throws<ShippedClass>)
    ensures r == Returns(SimpleTagClass) <==> SameIgnoringCase(name, "simpletag")
    ensures r == Returns(RegExClass) <==> SameIgnoringCase(name, "regex")
    ensures r.Thrown? ==> r.error == InvalidValidatorName
  {
    assert forall i :: 0 <= i < 9 ==> LowerChar("simpletag"[i]) == "simpletag"[i];
    assert forall i :: 0 <= i < 5 ==> LowerChar("regex"[i]) == "regex"[i];
    LowerAsciiIsWord(name, "simpletag");
    LowerAsciiIsWord(name, "regex");
    match LowerAscii(name)
    case "simpletag" => Returns(SimpleTagClass)
    case "regex" => Returns(RegExClass)
    case _ => Thrown(InvalidValidatorName)
  }

  /**
   * `check_commits`: validates each commit, fills in the commit of that result
   * when it is missing, and then pushes the result of a second `validate`, so
   * the filled-in result is dropped; `validate` runs twice per commit.
   */
  method CheckCommits(commits: seq<Commit>, check: Validator) returns (checks: seq<Result<Commit>>)
    ensures |checks| == |commits|
    ensures forall i :: 0 <= i < |checks| ==> checks[i] == Validate(check, commits[i])
  {
    checks := [];
    for i := 0 to |commits|
      invariant |checks| == i
      invariant forall j :: 0 <= j < i ==> checks[j] == Validate(check, commits[j])
    {
      var commit := commits[i];
      var res := Validate(check, commit);
      if res.commit.None? {
        res := res.(commit := Some(commit));
      }
      checks := checks + [Validate(check, commit)];
    }
  }
}
