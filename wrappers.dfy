/** Optional values and thrown errors, shared by every module of the model. */
module Wrappers {

  /** An optional value: Python's `None`, TypeScript's `undefined`. */
  datatype Option<+T> = None | Some(value: T) {

    /** The value, or `default` when absent (TypeScript's `??`). */
    function GetOr(default: T): T {
      match this
      case Some(v) => v
      case None => default
    }
  }

  /** The outcome of a call that may throw: a returned value or the thrown error's message. */
  datatype Throws<+T> = Returns(value: T) | Thrown(error: string)
}

/** Line handling shared by the message splitters and `Commit.summary()`. */
module Lines {

  /** Index of the first '\n' in `s`, or `|s|` when `s` has no line break. */
  function NewlineIndex(s: string): (k: nat)
    ensures k <= |s|
    ensures forall i :: 0 <= i < k ==> s[i] != '\n'
    ensures k < |s| ==> s[k] == '\n'
  {
    if s == [] || s[0] == '\n' then 0 else 1 + NewlineIndex(s[1..])
  }

  /** The text before the first line break (the whole text when there is none). */
  function FirstLine(s: string): (line: string)
    ensures line <= s
    ensures '\n' !in line
    ensures |line| < |s| ==> s[|line|] == '\n'
  {
    var k := NewlineIndex(s);
    assert forall i :: 0 <= i < k ==> s[..k][i] != '\n';
    s[..k]
  }

  /** A text without line breaks is its own first line. */
  lemma FirstLineWhole(a: string)
    requires '\n' !in a
    ensures NewlineIndex(a) == |a|
    ensures FirstLine(a) == a
  {
    assert a[..|a|] == a;
  }

  /** The first line break of `a + "\n" + b` is the one after `a`. */
  lemma FirstLineBefore(a: string, b: string)
    requires '\n' !in a
    ensures NewlineIndex(a + "\n" + b) == |a|
    ensures FirstLine(a + "\n" + b) == a
  {
    var s := a + "\n" + b;
    var k := NewlineIndex(s);
    assert s[|a|] == '\n';
    assert s[..|a|] == a;
  }
}
