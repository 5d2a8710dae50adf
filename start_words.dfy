/**
 * The root-word choice of `startGame`: the word list is split on line breaks
 * (`components(separatedBy: "\n")`) and one element is picked at random
 * (`randomElement() ?? "silkworm"`). Reading the bundled file is not modelled:
 * its text is a parameter, and so is the random choice.
 */
module StartWords {
  import opened Options
  import opened Letters

  /** `components(separatedBy:)` for a one-letter separator. */
  function Split(s: string, sep: char): (parts: seq<string>)
    ensures |parts| == Count(s, sep) + 1
    ensures forall k :: 0 <= k < |parts| ==> sep !in parts[k]
    decreases |s|
  {
    if |s| == 0 then [""]
    else
      var rest := Split(s[1..], sep);
      if s[0] == sep then [""] + rest
      else [[s[0]] + rest[0]] + rest[1..]
  }

  /** The inverse of `Split`: the parts with the separator between each two. */
  function Join(parts: seq<string>, sep: char): string
    decreases |parts|
  {
    if |parts| == 0 then ""
    else if |parts| == 1 then parts[0]
    else parts[0] + [sep] + Join(parts[1..], sep)
  }

  lemma JoinPrepend(c: char, parts: seq<string>, sep: char)
    requires |parts| >= 1
    ensures Join([[c] + parts[0]] + parts[1..], sep) == [c] + Join(parts, sep)
  {
    var q := [[c] + parts[0]] + parts[1..];
    if |parts| > 1 {
      assert q[1..] == parts[1..];
    }
  }

  /** Splitting loses nothing: joining the lines back gives the text. */
  lemma {:induction false} JoinSplit(s: string, sep: char)
    ensures Join(Split(s, sep), sep) == s
    decreases |s|
  {
    if |s| > 0 {
      var rest := Split(s[1..], sep);
      JoinSplit(s[1..], sep);
      if s[0] == sep {
        assert ([""] + rest)[1..] == rest;
        assert s == [sep] + s[1..];
      } else {
        JoinPrepend(s[0], rest, sep);
        assert s == [s[0]] + s[1..];
      }
    }
  }

  /** A text that ends in a line break splits into a list whose last line is empty. */
  lemma {:induction false} TrailingBreakGivesEmptyLine(s: string, sep: char)
    requires |s| > 0 && s[|s| - 1] == sep
    ensures var parts := Split(s, sep); parts[|parts| - 1] == ""
    decreases |s|
  {
    if |s| > 1 {
      var t := s[1..];
      assert t[|t| - 1] == sep;
      TrailingBreakGivesEmptyLine(t, sep);
      assert sep in t;
    }
  }

  /** `randomElement()`, with the random draw as the parameter `choice`. */
  function RandomElement(xs: seq<string>, choice: nat): (r: Option<string>)
    ensures r.None? <==> xs == []
    ensures r.Some? ==> r.value in xs
  {
    if xs == [] then None else Some(xs[choice % |xs|])
  }

  /**
   * `startGame`'s choice of root word from the text of the word list. The draw
   * always succeeds, so the fallback "silkworm" is never taken.
   */
  function PickRoot(startWords: string, choice: nat): (root: string)
    ensures RandomElement(Split(startWords, '\n'), choice).Some?
    ensures root in Split(startWords, '\n')
    ensures '\n' !in root
  {
    RandomElement(Split(startWords, '\n'), choice).GetOr("silkworm")
  }

  /** Every line of the word list can be drawn. */
  lemma EveryLineCanBePicked(startWords: string, k: nat)
    requires k < |Split(startWords, '\n')|
    ensures PickRoot(startWords, k) == Split(startWords, '\n')[k]
  {
    var lines := Split(startWords, '\n');
    SmallRemainder(k, |lines|);
    assert RandomElement(lines, k) == Some(lines[k]);
  }

  /** Kept apart so that the nonlinear fact does not enter the proof above. */
  lemma SmallRemainder(k: nat, n: nat)
    requires k < n
    ensures k % n == k
  {
  }

  /** A word list ending in a line break can hand out the empty string as the root word. */
  lemma EmptyRootAfterTrailingBreak(startWords: string)
    requires |startWords| > 0 && startWords[|startWords| - 1] == '\n'
    ensures PickRoot(startWords, Count(startWords, '\n')) == ""
  {
    TrailingBreakGivesEmptyLine(startWords, '\n');
    EveryLineCanBePicked(startWords, Count(startWords, '\n'));
  }
}
