/**
 * The fixed regular languages behind the `[<tag>] <Description>` checkers.
 *
 * Each pattern is recognized by a hand-written predicate over `string`, and each
 * recognizer is proved equal to a ghost predicate that transcribes the regular
 * expression's structure (concatenation, `+` repetition, optional parts).
 *
 * Character classes follow ASCII: `\s` is space, tab, '\n', '\r', vertical tab
 * and form feed. The two regex engines differ in `.` (Python excludes only
 * '\n'; JavaScript also excludes '\r', U+2028 and U+2029) and the TypeScript
 * separator class is `[ |-]` where Python's is `[\s|-]`.
 */
module SummaryGrammar {
  import opened Wrappers

  /** Which regex engine interprets the pattern. */
  datatype Dialect = Python | JavaScript

  /** The messages shared by every version of the checker. */
  const InvalidFormatMessage: string := "Summary has invalid format. It should be '[<tag>] <Good Description>'"
  const InvalidTagMessage: string :=
    "Invalid category tag. It should be either a single '*' or completely lowercase " +
    "letters or numbers, at least 2 characters long, other allowed characters are: '|', '-' and spaces."
  const InvalidDescriptionMessage: string :=
    "Invalid description. It should start with an uppercase letter or number, " +
    "should be not to short and should not end with a punctuation."

  // ---------------------------------------------------------------------------
  // Character classes

  /** `\s` (ASCII). */
  predicate IsSpace(c: char) {
    c == ' ' || c == '\t' || c == '\n' || c == '\r' || c == '\U{0B}' || c == '\U{0C}'
  }

  /** `.` without the DOTALL flag. */
  predicate DotMatches(d: Dialect, c: char) {
    match d
    case Python => c != '\n'
    case JavaScript => c != '\n' && c != '\r' && c != '\U{2028}' && c != '\U{2029}'
  }

  predicate AllDot(d: Dialect, s: string) {
    forall i :: 0 <= i < |s| ==> DotMatches(d, s[i])
  }

  /** `[a-z0-9]` */
  predicate IsTagChar(c: char) {
    'a' <= c <= 'z' || '0' <= c <= '9'
  }

  /** `[\s|-]` in Python, `[ |-]` in TypeScript. */
  predicate IsTagSeparator(d: Dialect, c: char) {
    match d
    case Python => IsSpace(c) || c == '|' || c == '-'
    case JavaScript => c == ' ' || c == '|' || c == '-'
  }

  /** `[A-Z0-9]` */
  predicate IsLeadChar(c: char) {
    'A' <= c <= 'Z' || '0' <= c <= '9'
  }

  /** `[^.!?,\s]` */
  predicate IsFinalChar(c: char) {
    !IsSpace(c) && c != '.' && c != '!' && c != '?' && c != ','
  }

  // ---------------------------------------------------------------------------
  // Format: `\[(.*)] (.*)`, matched against the whole summary

  /** The summary shape `[<tag>] <description>`. */
  function Compose(tag: string, description: string): string {
    "[" + tag + "] " + description
  }

  /** The two characters "] " stand at `j`. */
  predicate CloseSpaceAt(s: string, j: int) {
    0 <= j && j + 1 < |s| && s[j] == ']' && s[j + 1] == ' '
  }

  /** The pattern matches with group 1 = `s[1..k]` and group 2 = `s[k+2..]`. */
  predicate SplitsAt(d: Dialect, s: string, k: int) {
    && 1 <= k && |s| >= 1 && s[0] == '[' && CloseSpaceAt(s, k)
    && AllDot(d, s[1..k]) && AllDot(d, s[k + 2..])
  }

  /** The split a backtracking engine picks: the greedy first group is as long as possible. */
  ghost predicate GreedySplit(d: Dialect, s: string, k: int) {
    SplitsAt(d, s, k) && forall k' :: SplitsAt(d, s, k') ==> k' <= k
  }

  /** `s` contains the two characters "] ". */
  predicate HasCloseSpace(s: string) {
    exists j :: 0 <= j < |s| && CloseSpaceAt(s, j)
  }

  /** Largest `j` in `1..k` with `s[j..j+2] == "] "`. */
  function LastCloseSpace(s: string, k: nat): (r: Option<nat>)
    requires k + 2 <= |s|
    ensures r.Some? ==> 1 <= r.value <= k && CloseSpaceAt(s, r.value)
    ensures r.Some? ==> forall j :: r.value < j <= k ==> !CloseSpaceAt(s, j)
    ensures r.None? ==> forall j :: 1 <= j <= k ==> !CloseSpaceAt(s, j)
    decreases k
  {
    if k < 1 then None
    else if CloseSpaceAt(s, k) then Some(k)
    else LastCloseSpace(s, k - 1)
  }

  lemma AllDotSlice(d: Dialect, s: string, lo: int, hi: int)
    requires AllDot(d, s) && 0 <= lo <= hi <= |s|
    ensures AllDot(d, s[lo..hi])
  {
    forall i | 0 <= i < hi - lo ensures DotMatches(d, s[lo..hi][i]) {
      assert s[lo..hi][i] == s[lo + i];
    }
  }

  lemma SplitsAtAllDot(d: Dialect, s: string, k: int)
    requires SplitsAt(d, s, k)
    ensures AllDot(d, s)
  {
    forall i | 0 <= i < |s| ensures DotMatches(d, s[i]) {
      if 1 <= i < k {
        assert s[i] == s[1..k][i - 1];
      } else if k + 2 <= i {
        assert s[i] == s[k + 2..][i - k - 2];
      }
    }
  }

  /** On text that `.` matches throughout, every "] " after the opening '[' is a split. */
  lemma CloseSpaceSplits(d: Dialect, s: string, j: int)
    requires AllDot(d, s) && |s| >= 1 && s[0] == '[' && 1 <= j
    ensures CloseSpaceAt(s, j) ==> SplitsAt(d, s, j)
  {
    if CloseSpaceAt(s, j) {
      AllDotSlice(d, s, 1, j);
      AllDotSlice(d, s, j + 2, |s|);
    }
  }

  lemma CloseSpacesAreSplits(d: Dialect, s: string)
    requires AllDot(d, s) && |s| >= 1 && s[0] == '['
    ensures forall j :: 1 <= j ==> (CloseSpaceAt(s, j) <==> SplitsAt(d, s, j))
  {
    forall j | 1 <= j ensures CloseSpaceAt(s, j) ==> SplitsAt(d, s, j) {
      CloseSpaceSplits(d, s, j);
    }
  }

  /** Where the format pattern splits `s`, if it matches at all. */
  function SplitIndex(d: Dialect, s: string): (r: Option<nat>)
    ensures r.Some? ==> GreedySplit(d, s, r.value)
    ensures r.None? <==> forall k :: !SplitsAt(d, s, k)
  {
    if |s| < 3 || s[0] != '[' || !AllDot(d, s) then
      assert forall k :: SplitsAt(d, s, k) ==> AllDot(d, s) by {
        forall k | SplitsAt(d, s, k) ensures AllDot(d, s) { SplitsAtAllDot(d, s, k); }
      }
      None
    else
      CloseSpacesAreSplits(d, s);
      LastCloseSpace(s, |s| - 2)
  }

  /** `rx_parser`: the tag and the description, or `None` when the summary does not match. */
  function Parse(d: Dialect, s: string): (r: Option<(string, string)>)
    ensures r.Some? ==> Compose(r.value.0, r.value.1) == s
    ensures r.Some? ==> AllDot(d, r.value.0) && AllDot(d, r.value.1) && !HasCloseSpace(r.value.1)
    ensures r.None? <==> forall k :: !SplitsAt(d, s, k)
  {
    match SplitIndex(d, s)
    case None => None
    case Some(k) =>
      var tag, description := s[1..k], s[k + 2..];
      assert Compose(tag, description) == s by {
        assert s[..1] == "[" && s[k..k + 2] == "] ";
        assert s[..k] == s[..1] + s[1..k];
        assert s[..k + 2] == s[..k] + s[k..k + 2];
        assert s == s[..k + 2] + s[k + 2..];
      }
      assert !HasCloseSpace(description) by {
        SplitsAtAllDot(d, s, k);
        forall j | 0 <= j < |description| - 1 ensures !CloseSpaceAt(description, j) {
          assert description[j] == s[k + 2 + j] && description[j + 1] == s[k + 3 + j];
          CloseSpaceSplits(d, s, k + 2 + j);
        }
      }
      Some((tag, description))
  }

  /** A summary has at most one greedy split. */
  lemma GreedySplitUnique(d: Dialect, s: string, k: int, k': int)
    requires GreedySplit(d, s, k) && GreedySplit(d, s, k')
    ensures k == k'
  {
  }

  /** `Parse` matches exactly when there is a greedy split, and then returns its two parts. */
  lemma ParseIsGreedy(d: Dialect, s: string)
    ensures Parse(d, s).Some? <==> exists k :: GreedySplit(d, s, k)
    ensures forall k :: GreedySplit(d, s, k) ==> Parse(d, s) == Some((s[1..k], s[k + 2..]))
  {
    match SplitIndex(d, s)
    case None =>
    case Some(k0) =>
      forall k | GreedySplit(d, s, k) ensures Parse(d, s) == Some((s[1..k], s[k + 2..])) {
        GreedySplitUnique(d, s, k0, k);
      }
  }

  /** The three messages differ in length, so they are distinct and non-empty. */
  lemma MessagesDistinct()
    ensures |InvalidFormatMessage| == 69 && |InvalidTagMessage| == 177 && |InvalidDescriptionMessage| == 134
    ensures InvalidFormatMessage != InvalidTagMessage
    ensures InvalidFormatMessage != InvalidDescriptionMessage
    ensures InvalidTagMessage != InvalidDescriptionMessage
  {
  }

  /** `Parse` undoes `Compose` whenever the parts could have come out of `Parse`. */
  lemma {:induction false} ParseCompose(d: Dialect, tag: string, description: string)
    requires AllDot(d, tag) && AllDot(d, description) && !HasCloseSpace(description)
    ensures Parse(d, Compose(tag, description)) == Some((tag, description))
  {
    var s := Compose(tag, description);
    var k0 := |tag| + 1;
    assert s[0] == '[' && s[k0] == ']' && s[k0 + 1] == ' ';
    assert s[1..k0] == tag && s[k0 + 2..] == description;
    assert SplitsAt(d, s, k0);
    var k := SplitIndex(d, s).value;
    forall j | k0 + 2 <= j ensures !CloseSpaceAt(s, j) {
      if j + 1 < |s| {
        assert s[j] == description[j - k0 - 2] && s[j + 1] == description[j - k0 - 1];
        assert !CloseSpaceAt(description, j - k0 - 2);
      }
    }
    assert CloseSpaceAt(s, k);
    assert k == k0;
  }

  // ---------------------------------------------------------------------------
  // Tag: `(?:[a-z0-9]{2,}<sep>?)+`

  predicate AllTagChars(b: string) {
    forall i :: 0 <= i < |b| ==> IsTagChar(b[i])
  }

  /** One repetition `[a-z0-9]{2,}<sep>?`. */
  ghost predicate IsBlock(d: Dialect, b: string) {
    || (|b| >= 2 && AllTagChars(b))
    || (|b| >= 3 && AllTagChars(b[..|b| - 1]) && IsTagSeparator(d, b[|b| - 1]))
  }

  /** One or more blocks: `(?:[a-z0-9]{2,}<sep>?)+`. */
  ghost predicate Blocks(d: Dialect, w: string)
    decreases |w|
  {
    exists k :: 2 <= k <= |w| && IsBlock(d, w[..k]) && (k == |w| || Blocks(d, w[k..]))
  }

  /**
   * Recognizer for one or more blocks: the text starts with a tag character,
   * holds only tag characters and separators, never two separators in a row,
   * and every run of tag characters is at least two long (each tag character
   * has a tag character beside it).
   */
  predicate TagBody(d: Dialect, w: string) {
    && |w| >= 2 && IsTagChar(w[0])
    && (forall i :: 0 <= i < |w| ==> IsTagChar(w[i]) || IsTagSeparator(d, w[i]))
    && (forall i :: 0 <= i < |w| - 1 && IsTagSeparator(d, w[i]) ==> FollowedByTagChar(w, i))
    && (forall i :: 0 <= i < |w| && IsTagChar(w[i]) ==> HasTagNeighbour(w, i))
  }

  predicate FollowedByTagChar(w: string, i: int) {
    0 <= i && i + 1 < |w| && IsTagChar(w[i + 1])
  }

  predicate HasTagNeighbour(w: string, i: int) {
    (0 < i <= |w| && IsTagChar(w[i - 1])) || (0 <= i && i + 1 < |w| && IsTagChar(w[i + 1]))
  }

  /** Length of the leading run of tag characters. */
  function TagRun(w: string): (n: nat)
    ensures n <= |w|
    ensures forall i :: 0 <= i < n ==> IsTagChar(w[i])
    ensures n < |w| ==> !IsTagChar(w[n])
  {
    if w == [] || !IsTagChar(w[0]) then 0 else 1 + TagRun(w[1..])
  }

  /** What follows a separator inside a recognized tag is itself a recognized tag. */
  lemma TagBodyAfterSeparator(d: Dialect, w: string, k: int)
    requires TagBody(d, w) && 1 <= k < |w| && IsTagSeparator(d, w[k - 1])
    ensures TagBody(d, w[k..])
  {
    var rest := w[k..];
    assert FollowedByTagChar(w, k - 1);
    assert HasTagNeighbour(w, k);
    assert !IsTagChar(w[k - 1]);
    assert rest[0] == w[k] && rest[1] == w[k + 1];
    forall i | 0 <= i < |rest| ensures IsTagChar(rest[i]) || IsTagSeparator(d, rest[i]) {
      assert rest[i] == w[k + i];
    }
    forall i | 0 <= i < |rest| - 1 && IsTagSeparator(d, rest[i]) ensures FollowedByTagChar(rest, i) {
      assert rest[i] == w[k + i] && rest[i + 1] == w[k + i + 1];
      assert FollowedByTagChar(w, k + i);
    }
    forall i | 0 <= i < |rest| && IsTagChar(rest[i]) ensures HasTagNeighbour(rest, i) {
      assert rest[i] == w[k + i];
      assert HasTagNeighbour(w, k + i);
      if i > 0 {
        assert rest[i - 1] == w[k + i - 1];
      }
      if i + 1 < |rest| {
        assert rest[i + 1] == w[k + i + 1];
      }
    }
  }

  lemma {:induction false} TagBodyIsBlocks(d: Dialect, w: string)
    requires TagBody(d, w)
    ensures Blocks(d, w)
    decreases |w|
  {
    var n := TagRun(w);
    assert HasTagNeighbour(w, 0);
    assert n >= 2;
    if n == |w| {
      assert w[..n] == w;
      assert IsBlock(d, w[..n]);
    } else {
      var k := n + 1;
      assert IsTagSeparator(d, w[n]);
      var b := w[..k];
      assert b[..k - 1] == w[..n];
      assert AllTagChars(b[..k - 1]) by {
        forall i | 0 <= i < n ensures IsTagChar(w[..n][i]) { assert w[..n][i] == w[i]; }
      }
      assert b[k - 1] == w[n];
      assert IsBlock(d, b);
      if k < |w| {
        TagBodyAfterSeparator(d, w, k);
        TagBodyIsBlocks(d, w[k..]);
      } else {
        assert b == w;
      }
    }
  }

  /** A single block is recognized. */
  lemma BlockIsTagBody(d: Dialect, b: string)
    requires IsBlock(d, b)
    ensures TagBody(d, b)
  {
    var m := if AllTagChars(b) then |b| else |b| - 1;
    assert m >= 2;
    forall i | 0 <= i < m ensures IsTagChar(b[i]) {
      if m < |b| {
        assert b[i] == b[..|b| - 1][i];
      }
    }
    forall i | 0 <= i < |b| - 1 && IsTagSeparator(d, b[i]) ensures FollowedByTagChar(b, i) {
      assert i < m;
    }
    forall i | 0 <= i < |b| && IsTagChar(b[i]) ensures HasTagNeighbour(b, i) {
      if m < |b| {
        assert !IsTagChar(b[|b| - 1]);
      }
      assert i < m;
      if i + 1 < m {
        assert IsTagChar(b[i + 1]);
      } else {
        assert IsTagChar(b[i - 1]);
      }
    }
    forall i | 0 <= i < |b| ensures IsTagChar(b[i]) || IsTagSeparator(d, b[i]) {
      if m < |b| && i == |b| - 1 {
        assert IsTagSeparator(d, b[|b| - 1]);
      }
    }
  }

  /** Recognized tags stay recognized when concatenated. */
  lemma ConcatTagBody(d: Dialect, u: string, v: string)
    requires TagBody(d, u) && TagBody(d, v)
    ensures TagBody(d, u + v)
  {
    var w := u + v;
    forall i | 0 <= i < |w| ensures IsTagChar(w[i]) || IsTagSeparator(d, w[i]) {
      if i < |u| {
        assert w[i] == u[i];
      } else {
        assert w[i] == v[i - |u|];
      }
    }
    forall i | 0 <= i < |w| - 1 && IsTagSeparator(d, w[i]) ensures FollowedByTagChar(w, i) {
      if i + 1 < |u| {
        assert w[i] == u[i] && w[i + 1] == u[i + 1];
        assert FollowedByTagChar(u, i);
      } else if i + 1 == |u| {
        assert w[i + 1] == v[0];
      } else {
        assert w[i] == v[i - |u|] && w[i + 1] == v[i + 1 - |u|];
        assert FollowedByTagChar(v, i - |u|);
      }
    }
    forall i | 0 <= i < |w| && IsTagChar(w[i]) ensures HasTagNeighbour(w, i) {
      if i < |u| {
        assert w[i] == u[i];
        assert HasTagNeighbour(u, i);
        if 0 < i {
          assert w[i - 1] == u[i - 1];
        }
        if i + 1 < |u| {
          assert w[i + 1] == u[i + 1];
        }
      } else {
        var j := i - |u|;
        assert w[i] == v[j];
        assert HasTagNeighbour(v, j);
        if 0 < j {
          assert w[i - 1] == v[j - 1];
        }
        if j + 1 < |v| {
          assert w[i + 1] == v[j + 1];
        }
      }
    }
  }

  lemma {:induction false} BlocksIsTagBody(d: Dialect, w: string)
    requires Blocks(d, w)
    ensures TagBody(d, w)
    decreases |w|
  {
    var k :| 2 <= k <= |w| && IsBlock(d, w[..k]) && (k == |w| || Blocks(d, w[k..]));
    BlockIsTagBody(d, w[..k]);
    if k < |w| {
      BlocksIsTagBody(d, w[k..]);
      ConcatTagBody(d, w[..k], w[k..]);
      assert w[..k] + w[k..] == w;
    } else {
      assert w[..k] == w;
    }
  }

  /** The recognizer accepts exactly the block language. */
  lemma TagBodyIffBlocks(d: Dialect, w: string)
    ensures TagBody(d, w) <==> Blocks(d, w)
  {
    if TagBody(d, w) { TagBodyIsBlocks(d, w); }
    if Blocks(d, w) { BlocksIsTagBody(d, w); }
  }

  /** Python `rx_category.fullmatch`: `\*|(?:[a-z0-9]{2,}[\s|-]?)+` against the whole tag. */
  predicate TagFullMatch(d: Dialect, tag: string) {
    tag == "*" || TagBody(d, tag)
  }

  /** The language of the whole tag pattern. */
  ghost predicate TagLanguage(d: Dialect, tag: string) {
    tag == "*" || Blocks(d, tag)
  }

  /** The empty tag never passes; a passing tag is `*` or at least two characters long. */
  lemma TagFullMatchSound(d: Dialect, tag: string)
    ensures TagFullMatch(d, tag) <==> TagLanguage(d, tag)
    ensures TagFullMatch(d, tag) ==> tag == "*" || |tag| >= 2
  {
    TagBodyIffBlocks(d, tag);
  }

  /** The tag ends with a complete block: two tag characters, optionally followed by one separator. */
  predicate EndsWithBlock(d: Dialect, w: string) {
    || (|w| >= 2 && IsTagChar(w[|w| - 1]) && IsTagChar(w[|w| - 2]))
    || (|w| >= 3 && IsTagSeparator(d, w[|w| - 1]) && IsTagChar(w[|w| - 2]) && IsTagChar(w[|w| - 3]))
  }

  /** `(?:[a-z0-9]{2,}<sep>?)+$` found by an unanchored search: some suffix is a block sequence. */
  ghost predicate SuffixBlocks(d: Dialect, w: string) {
    exists j :: 0 <= j <= |w| && Blocks(d, w[j..])
  }

  lemma {:induction false} BlocksEndWithBlock(d: Dialect, w: string)
    requires Blocks(d, w)
    ensures EndsWithBlock(d, w)
    decreases |w|
  {
    var k :| 2 <= k <= |w| && IsBlock(d, w[..k]) && (k == |w| || Blocks(d, w[k..]));
    if k == |w| {
      assert w[..k] == w;
      if !AllTagChars(w) {
        assert w[..k - 1][k - 2] == w[k - 2] && w[..k - 1][k - 3] == w[k - 3];
      }
    } else {
      var rest := w[k..];
      BlocksEndWithBlock(d, rest);
      assert rest[|rest| - 1] == w[|w| - 1] && rest[|rest| - 2] == w[|w| - 2];
      if |rest| >= 3 {
        assert rest[|rest| - 3] == w[|w| - 3];
      }
    }
  }

  /** A single block is a block sequence. */
  lemma SingleBlock(d: Dialect, b: string)
    requires IsBlock(d, b)
    ensures Blocks(d, b)
  {
    assert b[..|b|] == b;
  }

  lemma EndsWithBlockIffSuffixBlocks(d: Dialect, w: string)
    ensures EndsWithBlock(d, w) <==> SuffixBlocks(d, w)
  {
    if EndsWithBlock(d, w) {
      if |w| >= 2 && IsTagChar(w[|w| - 1]) && IsTagChar(w[|w| - 2]) {
        var u := w[|w| - 2..];
        assert AllTagChars(u) by { assert u[0] == w[|w| - 2] && u[1] == w[|w| - 1]; }
        SingleBlock(d, u);
      } else {
        var u := w[|w| - 3..];
        assert u[..2][0] == w[|w| - 3] && u[..2][1] == w[|w| - 2] && u[2] == w[|w| - 1];
        assert IsBlock(d, u);
        SingleBlock(d, u);
        assert Blocks(d, w[|w| - 3..]);
      }
    }
    if SuffixBlocks(d, w) {
      var j :| 0 <= j <= |w| && Blocks(d, w[j..]);
      var u := w[j..];
      BlocksEndWithBlock(d, u);
      assert u[|u| - 1] == w[|w| - 1] && u[|u| - 2] == w[|w| - 2];
      if |u| >= 3 {
        assert u[|u| - 3] == w[|w| - 3];
      }
    }
  }

  /**
   * TypeScript `rx_category.test`: `^\*|(?:[a-z0-9]{2,}[ |-]?)+$`. The alternation
   * binds loosest, so the test succeeds when the tag starts with '*' or ends
   * with a block.
   */
  predicate TagTest(tag: string) {
    (|tag| > 0 && tag[0] == '*') || EndsWithBlock(JavaScript, tag)
  }

  /** The language searched for by the TypeScript tag pattern. */
  ghost predicate TagSearchLanguage(tag: string) {
    (|tag| > 0 && tag[0] == '*') || SuffixBlocks(JavaScript, tag)
  }

  lemma TagTestSound(tag: string)
    ensures TagTest(tag) <==> TagSearchLanguage(tag)
  {
    EndsWithBlockIffSuffixBlocks(JavaScript, tag);
  }

  // ---------------------------------------------------------------------------
  // Description: `[A-Z0-9]\S*(?:\s\S*)+[^.!?,\s]` against the whole text

  /**
   * Recognizer: starts with an upper-case letter or digit, ends with a character
   * that is neither `.!?,` nor whitespace, and has whitespace strictly between.
   */
  predicate DescriptionOk(w: string) {
    && |w| >= 3 && IsLeadChar(w[0]) && IsFinalChar(w[|w| - 1])
    && exists i :: 1 <= i < |w| - 1 && IsSpace(w[i])
  }

  ghost predicate NoSpaces(u: string) {
    forall i :: 0 <= i < |u| ==> !IsSpace(u[i])
  }

  /** `(?:\s\S*)+` */
  ghost predicate SpacedWords(u: string)
    decreases |u|
  {
    && |u| >= 1 && IsSpace(u[0])
    && exists k :: 1 <= k <= |u| && NoSpaces(u[1..k]) && (k == |u| || SpacedWords(u[k..]))
  }

  /** `[A-Z0-9]\S*(?:\s\S*)+[^.!?,\s]` */
  ghost predicate DescriptionLanguage(w: string) {
    && |w| >= 2 && IsLeadChar(w[0]) && IsFinalChar(w[|w| - 1])
    && exists j :: 1 <= j <= |w| - 1 && NoSpaces(w[1..j]) && SpacedWords(w[j..|w| - 1])
  }

  /** Index of the first whitespace character, or `|u|`. */
  function SpaceIndex(u: string): (k: nat)
    ensures k <= |u|
    ensures forall i :: 0 <= i < k ==> !IsSpace(u[i])
    ensures k < |u| ==> IsSpace(u[k])
  {
    if u == [] || IsSpace(u[0]) then 0 else 1 + SpaceIndex(u[1..])
  }

  lemma {:induction false} SpaceStartsWords(u: string)
    requires |u| >= 1 && IsSpace(u[0])
    ensures SpacedWords(u)
    decreases |u|
  {
    var k := 1 + SpaceIndex(u[1..]);
    assert forall i :: 0 <= i < k - 1 ==> u[1..k][i] == u[1..][i];
    assert NoSpaces(u[1..k]);
    if k < |u| {
      assert u[k..][0] == u[1..][k - 1];
      SpaceStartsWords(u[k..]);
    }
  }

  lemma DescriptionOkIffLanguage(w: string)
    ensures DescriptionOk(w) <==> DescriptionLanguage(w)
  {
    if DescriptionOk(w) {
      var m := w[1..|w| - 1];
      var i :| 1 <= i < |w| - 1 && IsSpace(w[i]);
      assert IsSpace(m[i - 1]);
      var k := SpaceIndex(m);
      var j := 1 + k;
      assert w[1..j] == m[..k];
      assert NoSpaces(w[1..j]);
      assert w[j..|w| - 1] == m[k..];
      SpaceStartsWords(m[k..]);
    }
    if DescriptionLanguage(w) {
      var j :| 1 <= j <= |w| - 1 && NoSpaces(w[1..j]) && SpacedWords(w[j..|w| - 1]);
      assert IsSpace(w[j..|w| - 1][0]);
      assert IsSpace(w[j]);
    }
  }

  /** `[A-Z0-9].+[^.!?,\s]`, the rule of the first Python version. */
  predicate LegacyDescriptionOk(w: string) {
    |w| >= 3 && IsLeadChar(w[0]) && IsFinalChar(w[|w| - 1]) && AllDot(Python, w[1..|w| - 1])
  }

  /**
   * On text that `.` matches, the later rule is strictly narrower than the first
   * one: it adds the demand for an inner word break.
   */
  lemma DescriptionRuleNarrowed(w: string)
    requires AllDot(Python, w)
    ensures DescriptionOk(w) ==> LegacyDescriptionOk(w)
    ensures LegacyDescriptionOk("Abc") && !DescriptionOk("Abc")
  {
    if DescriptionOk(w) {
      AllDotSlice(Python, w, 1, |w| - 1);
    }
    assert !IsSpace("Abc"[1]);
  }
}
