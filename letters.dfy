/**
 * The letter arithmetic behind `isPossible`: a candidate can be spelled from the
 * root word when each letter of the candidate can be struck out of a scratch copy
 * of the root, one occurrence at a time.
 */
module Letters {
  import opened Options

  /** Occurrences of `c` in `s`, counted letter by letter. */
  function Count(s: string, c: char): (n: nat)
    ensures n <= |s|
    ensures n == 0 <==> c !in s
  {
    if |s| == 0 then 0 else (if s[0] == c then 1 else 0) + Count(s[1..], c)
  }

  /** The letter-by-letter count agrees with Dafny's multiset multiplicity. */
  lemma {:induction false} CountIsMultiplicity(s: string, c: char)
    ensures multiset(s)[c] == Count(s, c)
  {
    if |s| > 0 {
      assert s == [s[0]] + s[1..];
      CountIsMultiplicity(s[1..], c);
    }
  }

  /** The specification of `isPossible`: the candidate's letters form a sub-multiset of the root's. */
  predicate Spellable(word: string, root: string) {
    multiset(word) <= multiset(root)
  }

  /** Sub-multiset inclusion read as "no letter is used more often than the root has it". */
  lemma SpellableIffCounts(word: string, root: string)
    ensures Spellable(word, root) <==> forall c :: Count(word, c) <= Count(root, c)
  {
    if Spellable(word, root) {
      forall c ensures Count(word, c) <= Count(root, c) {
        CountIsMultiplicity(word, c);
        CountIsMultiplicity(root, c);
        assert multiset(word)[c] <= multiset(root)[c];
      }
    } else {
      var c :| multiset(word)[c] > multiset(root)[c];
      CountIsMultiplicity(word, c);
      CountIsMultiplicity(root, c);
    }
  }

  /** Swift's `String.firstIndex(of:)`: the position of the first occurrence of `c`, if any. */
  method FirstIndexOf(s: string, c: char) returns (pos: Option<nat>)
    ensures pos.None? <==> c !in s
    ensures pos.Some? ==> pos.value < |s| && s[pos.value] == c && c !in s[..pos.value]
  {
    var i := 0;
    while i < |s|
      invariant 0 <= i <= |s|
      invariant c !in s[..i]
    {
      if s[i] == c {
        return Some(i);
      }
      assert s[..i + 1] == s[..i] + [s[i]];
      i := i + 1;
    }
    assert s[..i] == s;
    return None;
  }

  /** Swift's `String.remove(at:)`: the string without the letter at `pos`. */
  function RemoveAt(s: string, pos: nat): (r: string)
    requires pos < |s|
    ensures |r| == |s| - 1
    ensures multiset(r) == multiset(s) - multiset{s[pos]}
  {
    assert s == s[..pos] + [s[pos]] + s[pos + 1..];
    s[..pos] + s[pos + 1..]
  }

  /** A letter the scratch copy no longer has cannot be struck out: the candidate is not spellable. */
  lemma MissingLetter(root: string, word: string, i: nat, tempWord: string)
    requires i < |word|
    requires multiset(tempWord) + multiset(word[..i]) == multiset(root)
    requires word[i] !in tempWord
    ensures !Spellable(word, root)
  {
    var letter := word[i];
    assert word == word[..i] + [letter] + word[i + 1..];
    assert multiset(word)[letter] >= multiset(word[..i])[letter] + 1;
    assert multiset(root)[letter] == multiset(word[..i])[letter];
  }

  /**
   * `isPossible`: strike each letter of `word`, in order, out of a scratch copy of
   * `root` (its first occurrence), failing as soon as a letter has no occurrence left.
   * The scratch copy plus the letters consumed so far is always exactly the root,
   * so no root letter is ever consumed twice.
   */
  method IsPossible(root: string, word: string) returns (ok: bool)
    ensures ok <==> Spellable(word, root)
  {
    var tempWord := root;
    var i := 0;
    while i < |word|
      invariant 0 <= i <= |word|
      invariant multiset(tempWord) + multiset(word[..i]) == multiset(root)
    {
      var letter := word[i];
      var pos := FirstIndexOf(tempWord, letter);
      if pos.None? {
        MissingLetter(root, word, i, tempWord);
        return false;
      }
      assert word[..i + 1] == word[..i] + [letter];
      tempWord := RemoveAt(tempWord, pos.value);
      i := i + 1;
    }
    assert word[..i] == word;
    return true;
  }
}
