# gitcc commit-message checker, modelled in Dafny

gitcc checks Git commit messages against a convention, `[<tag>] <Good Description>`.
It ships in three forms:

- the first Python version, `gitcc/utility.py`, with the `RxSummary` class, `check_summary`, `check_commit`, `check_history` and `check_branch`;
- the packaged Python library, `python/gitcc/`:
  - `Status` and `Result`;
  - the `CommitValidator` template method;
  - the `SimpleTag` and `Regex` validators;
  - `print_results`, `check_history` and `check_branch`;
- the GitHub action, `typescript/src/`:
  - `User` and `Commit` built from a push payload;
  - `Result.toString`;
  - `CommitValidator` and `SimpleTag`;
  - the validator registries, `check_commits` and `print_results`.

This project models all three and proves the properties listed under "## Model" about each.

- **The fixed regular languages** (`summary_grammar.dfy`). The three patterns of `SimpleTag` (format `\[(.*)] (.*)`, tag, description) are hand-written recognizers over `string`. Each recognizer is proved equal to a ghost predicate that transcribes the regular expression's structure:
  - the greedy split at the *last* `"] "`;
  - `+` repetition of tag blocks;
  - the `(?:\s\S*)+` word sequence.

  The Python and JavaScript engines differ in what `.` matches and in the tag separator class; both are modelled by a `Dialect` parameter. The TypeScript tag pattern is applied with `test` to an alternation that binds loosest, so it accepts a tag that *starts* with `*` or *ends* with a block. That unanchored search language is modelled and proved separately.
- **Outcomes and rendering** (`outcomes.dfy`, `py_commit_validator.dfy`, `ts_commit_validator.dfy`).
  - `Status` and `Result` are datatypes; `Result`'s constructor defaults are those of the Python dataclass.
  - `__str__` and `toString` are functions. Each is paired with a reader (`ReadStatus`, `ReadMessage`, `FirstLine`), and lemmas prove that the status, the message and the commit part can be read back.
- **Validators.** A validator is its `validate_message`, a function value `(summary, description) -> Result`. `Validate` is the base class's template method: the Python one attaches the commit; the TypeScript one does not. The Python `Regex` validator takes the regex engine as a parameter `fullMatch(pattern, text)`.
- **Batch runners.** The loops are methods with loop invariants, each proved against a specification function:
  - `check_history` (both Python versions);
  - `print_results` (Python and TypeScript);
  - `check_commits`.

  A repository is its commit history together with its `merge_base` function. `RxSummary`, whose constructor assigns fields conditionally, is a class.
- **Across versions** (`versions.dfy`). Lemmas with concrete witnesses show where the versions disagree:
  - an empty tag: a format error in the first version, a tag error in `SimpleTag`;
  - a single-word description: accepted by the first version, rejected later;
  - the TypeScript splitter drops the description;
  - the TypeScript tag test is looser than, and not comparable with, Python's `fullmatch`.

Where the code and its design differ, the model follows the code:

- **TypeScript `split_message`.** `split('\n', 1)` returns at most one element, so the description is always `''` and the two-element branch (typescript/src/commit-validator.ts:41) never runs.
- **`check_commits`.** It fills in the commit on a first `validate` result and then pushes a second, fresh one, so the fill-in is lost. typescript/src/utility.ts:47-57 has the same body as typescript/src/utils.ts:24-34; both are modelled by `TsUtils.CheckCommits`.
- **`check_branch`.** Both Python versions walk the history from HEAD (`repo.iter_commits()`) down to the first common ancestor. The source branch is used only to find that ancestor.

## Model

| member | source | states |
|---|---|---|
| Lines.FirstLine | typescript/src/commit.ts:40 | the first line is a prefix of the text and has no line break; when it is shorter than the text, a line break follows it |
| Lines.FirstLineWhole | python/gitcc/commit_validator.py:44-45 | a text without a line break is its own first line |
| Lines.FirstLineBefore | python/gitcc/commit_validator.py:43 | the first line of `a + "\n" + b` is `a` when `a` has no line break |
| Outcomes.StatusText | python/gitcc/commit_validator.py:9-17 | the text value is "Correct" for Ok, "Failure" for Failure and "Warning" for Warning, each if and only if |
| Outcomes.StatusTextInjective | typescript/src/commit-validator.ts:3-7 | distinct statuses have distinct text values |
| Outcomes.NoFailurePrefix | python/gitcc/utility.py:35 | the verdict over one more result is the old verdict and "this result is not a Failure" |
| PyCommitValidator.DefaultResult | python/gitcc/commit_validator.py:26-28 | a default Result is a Failure with an empty message and no commit |
| PyCommitValidator.SplitMessage | python/gitcc/commit_validator.py:39-46 | the summary has no line break; with a line break, summary + "\n" + description is the message; without one, the result is (message, "") |
| PyCommitValidator.SplitMessageSummary | python/gitcc/commit_validator.py:43-45 | the summary is the first line of the message |
| PyCommitValidator.Validate | python/gitcc/commit_validator.py:54-60 | the result carries the checked commit, overriding the check's, and takes status and message from the check of the split message |
| PyCommitValidator.DefaultValidateMessage | python/gitcc/commit_validator.py:62-66 | any message gives a Warning with "A separate message check was not provided." and no commit |
| PyCommitValidator.DefaultValidatorWarns | python/gitcc/commit_validator.py:54-66 | validating any commit with the base class gives that Warning carrying the commit |
| PyCommitValidator.ResultText | python/gitcc/commit_validator.py:30-36 | the text starts with the status value |
| PyCommitValidator.ResultTextStatus | python/gitcc/commit_validator.py:31 | the status is read back from the text |
| PyCommitValidator.ResultTextMessage | python/gitcc/commit_validator.py:34-35 | the message is read back from the indented second line when it is non-empty; the text is then the first line, a line break, the indent and the message; an empty message leaves the first line alone |
| PyCommitValidator.ResultTextCommit | python/gitcc/commit_validator.py:31-35 | the first line is exactly the status, then the commit part (hash and summary) when a commit is set, then a closing bar only when the message is non-empty; it is longer than the status and a bar if and only if a commit is set |
| PyValidation.SimpleTagValidateMessage | python/gitcc/validation.py:16-36 | never a Warning and never a commit; Ok if and only if the message is empty; a Failure carries one of the three messages |
| PyValidation.SimpleTagOutcome | python/gitcc/validation.py:16-36 | Ok if and only if the summary is in the combined language; the format message if and only if the format matches nowhere; the tag message if and only if the format matches and the tag is outside the tag language; the description message if and only if the tag passes and the description is outside its language |
| PyValidation.SimpleTagIgnoresDescription | python/gitcc/validation.py:16 | the description argument never changes the result |
| PyValidation.SimpleTagValidate | python/gitcc/validation.py:16-36 | validating a commit keeps the commit and passes if and only if the first line of its message is in the language |
| PyValidation.Regex.ValidateMessage | python/gitcc/validation.py:52-65 | Ok if and only if every configured pattern fully matches its part; a failing summary gives the summary message, otherwise a failing description gives the description message; never a Warning or a commit |
| PyValidation.RegexWithoutPatterns | python/gitcc/validation.py:44-50 | without patterns every message is Ok, whatever the engine |
| PyValidation.RegexSummaryFirst | python/gitcc/validation.py:57-60 | a rejected summary decides a Failure, whatever the description and whatever the engine says about it |
| SummaryGrammar.LastCloseSpace | python/gitcc/validation.py:12 | finds the last "] " at or before a position, or reports that there is none |
| SummaryGrammar.CloseSpacesAreSplits | python/gitcc/validation.py:12 | on a summary starting with '[' whose characters `.` all matches, every "] " after the bracket is a split point |
| SummaryGrammar.SplitIndex | python/gitcc/validation.py:12 | the split point found is the greedy one; there is none if and only if the format matches nowhere |
| SummaryGrammar.Parse | python/gitcc/validation.py:20 | a match recomposes to the summary as "[" + tag + "] " + description, with a description holding no "] "; no match if and only if there is no split point |
| SummaryGrammar.GreedySplitUnique | python/gitcc/validation.py:12 | a summary has at most one greedy split |
| SummaryGrammar.ParseIsGreedy | python/gitcc/validation.py:20 | the format matches if and only if there is a greedy split, and its parts are then those of that split |
| SummaryGrammar.MessagesDistinct | python/gitcc/validation.py:22-34 | the three failure messages have lengths 69, 177 and 134, so they are distinct and non-empty |
| SummaryGrammar.ParseCompose | python/gitcc/validation.py:12 | parsing a composed summary returns its tag and description when the description holds no "] " |
| SummaryGrammar.TagBodyIsBlocks | python/gitcc/validation.py:13 | a text the tag recognizer accepts is a sequence of blocks |
| SummaryGrammar.BlocksIsTagBody | python/gitcc/validation.py:13 | every sequence of blocks is accepted by the tag recognizer |
| SummaryGrammar.TagBodyIffBlocks | python/gitcc/validation.py:13 | the tag recognizer accepts exactly the block sequences |
| SummaryGrammar.TagFullMatchSound | python/gitcc/validation.py:13 | the tag passes if and only if it is "*" or a block sequence; a passing tag is "*" or at least two characters long, so the empty tag fails |
| SummaryGrammar.BlocksEndWithBlock | typescript/src/validation.ts:5 | every block sequence ends with a block |
| SummaryGrammar.EndsWithBlockIffSuffixBlocks | typescript/src/validation.ts:5 | a text ends with a block if and only if some suffix of it is a block sequence |
| SummaryGrammar.TagTestSound | typescript/src/validation.ts:16 | the action's tag test succeeds if and only if the tag starts with '*' or some suffix is a block sequence |
| SummaryGrammar.DescriptionOkIffLanguage | python/gitcc/validation.py:14 | the description recognizer accepts exactly the language of `[A-Z0-9]\S*(?:\s\S*)+[^.!?,\s]` |
| SummaryGrammar.DescriptionRuleNarrowed | gitcc/utility.py:15 | on text that `.` matches, every description the later rule accepts is accepted by the first version's rule, and "Abc" passes only the first |
| GitRepository.StopIndex | python/gitcc/utility.py:44-46 | the walk stops at the first commit whose hash is the exit hash, or at the end |
| PyUtility.Shown | python/gitcc/utility.py:32-34 | a result is printed if and only if it is in the batch and is not Ok or correct results are included |
| PyUtility.ShownAll | python/gitcc/utility.py:33 | with `include_correct` every result is printed |
| PyUtility.ShownPrefix | python/gitcc/utility.py:32-34 | the printed results of one more result |
| PyUtility.PrintResults | python/gitcc/utility.py:27-36 | true if and only if no result is a Failure; prints the texts of exactly the shown results, in order |
| PyUtility.HistoryChecks | python/gitcc/utility.py:39-48 | one result per commit before the exit commit, each the validation of that commit |
| PyUtility.HistoryChecksUnique | python/gitcc/utility.py:43-47 | a sequence with those elements and that length is the history walk |
| PyUtility.CheckHistory | python/gitcc/utility.py:39-48 | the loop with its early break yields the history walk |
| PyUtility.WholeHistory | python/gitcc/utility.py:39 | with the default exit hash "" and no commit with an empty hash, every commit is checked |
| PyUtility.CheckBranch | python/gitcc/utility.py:51-63 | without a common ancestor exactly one Failure "ERROR: No common ancestor found"; otherwise the walk down to the first ancestor |
| LegacyUtility.RxSummary.constructor | gitcc/utility.py:17-25 | both parts are empty unless the format matches; then they are the greedy split and recompose to the summary |
| LegacyUtility.RxSummary.ValidFormat | gitcc/utility.py:27-31 | true if and only if the summary has a greedy split leaving a non-empty tag and a non-empty description |
| LegacyUtility.RxSummary.ValidCategoryTag | gitcc/utility.py:33-37 | true if and only if the tag is in the tag language ("*" or a block sequence); an empty tag fails |
| LegacyUtility.RxSummary.ValidDescription | gitcc/utility.py:39-43 | every description the packaged rule accepts (on text `.` matches) passes; a passing description has at least three characters |
| LegacyUtility.SummaryProblem | gitcc/utility.py:46-66 | the answer is "", the format message, the tag message or the description message, and the format message whenever the format pattern does not match |
| LegacyUtility.CheckSummary | gitcc/utility.py:46-66 | the answer of `check_summary` for the summary |
| LegacyUtility.LegacyMessagesDistinct | gitcc/utility.py:52-63 | the first version's format message differs from the tag and description messages and is non-empty |
| LegacyUtility.SummaryProblemAtSplit | gitcc/utility.py:46-66 | given the greedy split, the answer is "" for a valid tag and description, the format message for an empty part, then the tag message, then the description message |
| LegacyUtility.SummaryProblemOutcome | gitcc/utility.py:46-66 | "" if and only if the summary is in the language; the format message if and only if no split leaves both parts non-empty; the tag message if and only if the tag fails after a valid format; the description message if and only if only the description fails |
| LegacyUtility.ReportLine | gitcc/utility.py:74-76 | the status read back from the line is Ok when there is no problem and Failure otherwise |
| LegacyUtility.ReportLinePrefix | gitcc/utility.py:74-76 | the line starts with "Correct " when there is no problem and "Failure " otherwise, followed by a bar, the hash, " - " and the summary |
| LegacyUtility.CommitReport | gitcc/utility.py:69-76 | the commit passes if and only if `check_summary` is empty; the status read back from its line is Ok for a pass and Failure otherwise |
| LegacyUtility.CommitReportPrefix | gitcc/utility.py:69-76 | a commit's line starts with the status word of its verdict, a bar, the hash, " - " and the summary |
| LegacyUtility.PassLine | gitcc/utility.py:75 | a passing commit gets the single line "Correct ", bar, hash, " - ", summary, with no problem to read back |
| LegacyUtility.ReadProblemAfter | gitcc/utility.py:76 | after a line without a break, the label "\n    Summary: " and a problem, the first line is that line and the problem is read back |
| LegacyUtility.FailLine | gitcc/utility.py:76 | a failing commit's first line is "Failure ", bar, hash, " - ", summary, and the labelled second line reads back as the problem |
| LegacyUtility.CommitReportProblem | gitcc/utility.py:69-76 | the first line is the status word, bar, hash, " - " and summary; no problem is read back from a passing report and `check_summary`'s answer from a failing one; the report is a single line if and only if the commit passed |
| LegacyUtility.CheckCommit | gitcc/utility.py:69-76 | the verdict and line of the commit report |
| LegacyUtility.HistoryReport | gitcc/utility.py:79-92 | success if and only if every commit before the exit commit passed; at most one line per such commit |
| LegacyUtility.HistoryReportLines | gitcc/utility.py:89-90 | a line is reported if and only if it belongs to a commit before the exit commit that failed, or passed while correct ones are included |
| LegacyUtility.HistoryReportStep | gitcc/utility.py:85-91 | one step of the walk: stop at the exit commit, otherwise combine this commit's report with the rest |
| LegacyUtility.HistoryAdvance | gitcc/utility.py:88-91 | checking one commit keeps the loop invariant |
| LegacyUtility.HistoryDone | gitcc/utility.py:85-92 | at the exit commit or the end, the gathered verdict and lines are the whole report |
| LegacyUtility.CheckHistory | gitcc/utility.py:79-92 | the loop with its early break yields the history report |
| LegacyUtility.CheckBranch | gitcc/utility.py:95-107 | without a common ancestor (False, ["ERROR: No common ancestor found"]); otherwise the history report down to the first ancestor |
| TsCommit.Get | typescript/src/commit.ts:8-10 | a key reads as its value when present and as undefined otherwise |
| TsCommit.NewUser | typescript/src/commit.ts:1-12 | each of email, name and username is defined if and only if the payload has it, and is then its value |
| TsCommit.NewCommit | typescript/src/commit.ts:22-33 | users from the payload; distinct only when the payload says true; hexsha is the payload id or else the sha argument; the message is copied as is |
| TsCommit.Summary | typescript/src/commit.ts:36-41 | "" for an undefined message; otherwise the text before the first line break, or the whole message |
| TsCommitValidator.ResultText | typescript/src/commit-validator.ts:20-32 | the text starts with the status value |
| TsCommitValidator.ResultTextStatus | typescript/src/commit-validator.ts:21 | the status is read back from the text |
| TsCommitValidator.ResultTextMessage | typescript/src/commit-validator.ts:25-30 | the message is read back after "\n        : " when it is non-empty; the text is then the first line, a line break, the indent and the message; an empty message leaves the first line alone |
| TsCommitValidator.ResultTextCommit | typescript/src/commit-validator.ts:21-28 | the first line is the status followed by the commit part (hash and `summary()`) when a commit is set, and otherwise by a closing bar only when the message is non-empty; it is longer than the status and a bar if and only if a commit is set |
| TsCommitValidator.SplitMessage | typescript/src/commit-validator.ts:36-42 | the summary is the first line and the description is always empty |
| TsCommitValidator.Validate | typescript/src/commit-validator.ts:44-49 | an undefined message fails with "commit message was empty." and no commit, without the check; otherwise the check's result on the summary, unchanged |
| TsCommitValidator.BaseValidateMessage | typescript/src/commit-validator.ts:51-53 | every message is Ok with an empty message and no commit |
| TsCommitValidator.UndefinedMessageFails | typescript/src/commit-validator.ts:44-48 | an undefined message and "" have the same summary, yet only the undefined one fails under the base validator |
| TsValidation.SimpleTagValidateMessage | typescript/src/validation.ts:8-31 | never a Warning and never a commit; Ok if and only if the message is empty |
| TsValidation.SimpleTagOutcome | typescript/src/validation.ts:8-31 | Ok if and only if the summary is in the action's language; each failure message if and only if its check is the first to fail |
| TsValidation.SimpleTagValidate | typescript/src/validation.ts:8-31 | validating a commit never attaches it, and passes if and only if its message is defined and its summary is in the language |
| TsUtils.LowerAscii | typescript/src/utils.ts:6 | lower-casing keeps the length and maps each character |
| TsUtils.LowerAsciiIsWord | typescript/src/utils.ts:6 | a name lower-cases to a lower-case word if and only if it equals that word up to case |
| TsUtils.GetShippedValidatorCls | typescript/src/utils.ts:5-14 | SimpleTag if and only if the name is "simpletag" up to case; RegEx if and only if it is "regex" up to case; otherwise throws "Invalid validator name!" |
| TsUtils.CheckCommits | typescript/src/utils.ts:24-34 | one result per commit, in order, each a fresh validation of its commit, so the filled-in first result is dropped |
| TsUtility.GetShippedValidator | typescript/src/utility.ts:9-16 | a validator if and only if the name is exactly "SimpleTag", and then it is SimpleTag; otherwise throws "Invalid validator name!" |
| TsUtility.LevelOf | typescript/src/utility.ts:31-39 | Ok is logged as info, Warning as warning and Failure as error, each if and only if |
| TsUtility.PrintResults | typescript/src/utility.ts:27-45 | one log entry per result, in order, at its status's level with its text; true if and only if no result is a Failure, that is if and only if nothing was logged as an error |
| TsUtility.ErrorLogsAreFailures | typescript/src/utility.ts:36-41 | the logs have an error entry exactly where the results have a Failure |
| Versions.EmptyTagReported | gitcc/utility.py:27-31 | "[] X y" is a format error in the first version but a tag error in `SimpleTag` |
| Versions.SimpleTagNarrowsLegacy | python/gitcc/validation.py:14 | every summary `SimpleTag` accepts passes the first version's checks |
| Versions.SingleWordDescription | python/gitcc/validation.py:14 | "[ab] Abc" passes the first version but fails `SimpleTag` on its description |
| Versions.SplittersAgreeOnSummary | typescript/src/commit-validator.ts:36-42 | both splitters give the same summary; only the Python one keeps the rest as the description |
| Versions.TagTestVersusFullMatch | typescript/src/validation.ts:5 | every tag the anchored pattern accepts passes the action's test; "*abc" and "Fix ab" pass only the test; "ab\t" passes only Python's |

## Left out

- Git and GitHub access.
  - GitPython's `Repo` is its history sequence plus its `merge_base` function.
  - GitPython computes `Commit.summary`, which is a field here.
  - Fetching commits from the GitHub API (network I/O) is not part of this model.
- Validator loading is left out, because it runs code the model cannot see:
  - `import_validator`, `import_validator_from_file` and `import_validator_cls` (dynamic import and `exec`);
  - `download_validator_file` (network and file writes).
- The command-line programs, exit codes, Git hook installation and packaging are not part of this model.
- Printing and logging are outputs, not side effects. `PyUtility.PrintResults` returns the printed texts, and `TsUtility.PrintResults` returns the log entries.
- The regex engine for user patterns is the `fullMatch` parameter of `PyValidation.Regex.ValidateMessage`. `re.compile` raising on a malformed pattern is not modelled.
- `\s`, `.` and `toLowerCase` are modelled on ASCII classes. The model's `\s` is the six characters space, tab, line feed, vertical tab, form feed and carriage return, which is Python's class under `re.ASCII`. On `str` patterns without that flag, Python's `\s` also matches U+001C to U+001F and non-ASCII whitespace, and JavaScript's `\s` matches non-ASCII whitespace. Descriptions and Python tag separators with those characters are judged differently here.
- TsUtils.LowerAscii: lower-cases ASCII letters only and keeps the length, while `toLowerCase` also maps non-ASCII letters and can lengthen the text (U+0130 becomes two characters). No registry verdict changes: the Kelvin sign U+212A lower-cases to "k", which neither "simpletag" nor "regex" contains, and U+0130 lower-cases to two characters, so no non-ASCII name lower-cases to either key.
- The TypeScript `RegEx` class is referenced by the registry but defined nowhere, so `TsUtils.GetShippedValidatorCls` returns a tag for it and nothing more.
- `Commit.timestamp` and its `Date` construction are not modelled.
- TsCommit.NewCommit: the payload's author and committer are required objects, because `new User(undefined)` throws.
- `Promise` and `async` wrappers are left out; the functions return their values directly.
- PyCommitValidator.Validate: the assignment `res.commit = commit` is a record update on the value the check returned. A Result shared with other code, and so changed for that code too, is not modelled.
- TsUtils.CheckCommits: the fill-in of the first result is a record update on a local value. Because the value is dropped, aliasing with a validator that hands out a shared Result is not modelled.
