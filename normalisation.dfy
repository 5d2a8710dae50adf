/**
 * The normalisation `addNewWord` applies to the typed text before checking it:
 * `lowercased()` followed by `trimmingCharacters(in: .whitespacesAndNewlines)`.
 * Lowercasing is modelled for ASCII letters only; trimming uses the full
 * whitespace-and-newline set of Foundation.
 */
module Normalisation {

  /** Foundation's `.whitespacesAndNewlines`: Unicode White_Space, by code point. */
  predicate IsWhitespace(c: char) {
    var n := c as int;
    (0x09 <= n <= 0x0D) || n == 0x20 || n == 0x85 || n == 0xA0 || n == 0x1680 ||
    (0x2000 <= n <= 0x200A) || n == 0x2028 || n == 0x2029 || n == 0x202F ||
    n == 0x205F || n == 0x3000
  }

  predicate IsUpper(c: char) {
    'A' <= c <= 'Z'
  }

  /** Lowercase one letter (ASCII letters only). */
  function Lower(c: char): (d: char)
    ensures !IsUpper(d)
    ensures IsUpper(c) ==> 'a' <= d <= 'z' && d as int - c as int == 32
    ensures !IsUpper(c) ==> d == c
  {
    if IsUpper(c) then (c as int + 32) as char else c
  }

  /** `lowercased()`: letter by letter. */
  function Lowercased(s: string): (r: string)
    ensures |r| == |s|
  {
    seq(|s|, i requires 0 <= i < |s| => Lower(s[i]))
  }

  /** Lowercasing keeps every position and leaves no upper-case letter. */
  lemma LowercasedSpec(s: string)
    ensures forall i :: 0 <= i < |s| ==> Lowercased(s)[i] == Lower(s[i])
    ensures forall i :: 0 <= i < |s| ==> !IsUpper(Lowercased(s)[i])
    ensures forall i :: 0 <= i < |s| ==> (IsWhitespace(Lowercased(s)[i]) <==> IsWhitespace(s[i]))
  {
  }

  /** Drop leading whitespace. */
  function TrimStart(s: string): (r: string)
    ensures |r| <= |s|
    decreases |s|
  {
    if |s| > 0 && IsWhitespace(s[0]) then TrimStart(s[1..]) else s
  }

  /** `TrimStart` keeps a suffix, drops only whitespace, and leaves none in front. */
  lemma {:induction false} TrimStartSpec(s: string)
    ensures var r := TrimStart(s);
      && r == s[|s| - |r|..]
      && (forall i :: 0 <= i < |s| - |r| ==> IsWhitespace(s[i]))
      && (r == [] || !IsWhitespace(r[0]))
    decreases |s|
  {
    if |s| > 0 && IsWhitespace(s[0]) {
      TrimStartSpec(s[1..]);
      var r := TrimStart(s);
      assert s[1..][|s| - 1 - |r|..] == s[|s| - |r|..];
    }
  }

  /** Drop trailing whitespace. */
  function TrimEnd(s: string): (r: string)
    ensures |r| <= |s|
    decreases |s|
  {
    if |s| > 0 && IsWhitespace(s[|s| - 1]) then TrimEnd(s[..|s| - 1]) else s
  }

  /** `TrimEnd` keeps a prefix, drops only whitespace, and leaves none at the end. */
  lemma {:induction false} TrimEndSpec(s: string)
    ensures var r := TrimEnd(s);
      && r == s[..|r|]
      && (forall i :: |r| <= i < |s| ==> IsWhitespace(s[i]))
      && (r == [] || !IsWhitespace(r[|r| - 1]))
    decreases |s|
  {
    if |s| > 0 && IsWhitespace(s[|s| - 1]) {
      TrimEndSpec(s[..|s| - 1]);
      var r := TrimEnd(s);
      assert s[..|s| - 1][..|r|] == s[..|r|];
    }
  }

  /** The shape of every normalised answer: no upper-case letter, no surrounding whitespace. */
  predicate IsNormal(s: string) {
    (forall i :: 0 <= i < |s| ==> !IsUpper(s[i])) &&
    (s == [] || (!IsWhitespace(s[0]) && !IsWhitespace(s[|s| - 1])))
  }

  /** `newWord.lowercased().trimmingCharacters(in: .whitespacesAndNewlines)`. */
  function Normalise(s: string): (r: string)
    ensures IsNormal(r)
    ensures |r| <= |s|
  {
    var low := Lowercased(s);
    LowercasedSpec(s);
    TrimStartSpec(low);
    TrimEndSpec(TrimStart(low));
    TrimEnd(TrimStart(low))
  }

  /** Lowercasing leaves a string without upper-case letters as it is. */
  lemma LowercasedFixed(s: string)
    requires forall i :: 0 <= i < |s| ==> !IsUpper(s[i])
    ensures Lowercased(s) == s
  {
    var low := Lowercased(s);
    forall i | 0 <= i < |s| ensures low[i] == s[i] {
      assert !IsUpper(s[i]);
    }
  }

  /** Normalising leaves an already normal string as it is. */
  lemma NormalIsFixed(s: string)
    requires IsNormal(s)
    ensures Normalise(s) == s
  {
    LowercasedFixed(s);
    if s != [] {
      assert TrimStart(s) == s;
      assert TrimEnd(s) == s;
    }
  }

  /**
   * What the answer is: the lowercased text with only its surrounding whitespace
   * removed. Everything cut off either end of the typed text is whitespace.
   */
  lemma NormaliseIsTrimmedLowercase(s: string)
    ensures exists a, b ::
      && 0 <= a <= b <= |s|
      && Normalise(s) == Lowercased(s)[a..b]
      && (forall i :: 0 <= i < a || b <= i < |s| ==> IsWhitespace(s[i]))
  {
    var low := Lowercased(s);
    LowercasedSpec(s);
    var start := TrimStart(low);
    TrimStartSpec(low);
    TrimEndSpec(start);
    var a := |s| - |start|;
    var b := a + |TrimEnd(start)|;
    assert start == low[a..];
    assert Normalise(s) == low[a..b];
    forall i | 0 <= i < a || b <= i < |s| ensures IsWhitespace(s[i]) {
      if b <= i {
        assert low[i] == start[i - a];
      }
      assert IsWhitespace(low[i]);
    }
  }

  /** Normalisation is idempotent. */
  lemma NormaliseIdempotent(s: string)
    ensures Normalise(Normalise(s)) == Normalise(s)
  {
    NormalIsFixed(Normalise(s));
  }

  /** The answer is empty, and the submission ignored, exactly when the input is all whitespace. */
  lemma NormaliseEmptyIffBlank(s: string)
    ensures Normalise(s) == [] <==> forall i :: 0 <= i < |s| ==> IsWhitespace(s[i])
  {
    var low := Lowercased(s);
    LowercasedSpec(s);
    var start := TrimStart(low);
    TrimStartSpec(low);
    TrimEndSpec(start);
    if start != [] {
      assert !IsWhitespace(start[0]);
      assert TrimEnd(start) != [];
      assert !IsWhitespace(s[|s| - |start|]);
    }
  }
}
