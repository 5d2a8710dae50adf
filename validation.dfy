/**
 * The three checks `addNewWord` applies to a normalised answer, in their fixed
 * order, and the invariant they keep on the list of accepted words.
 * The spell checker is the oracle `isKnownWord`.
 */
module Validation {
  import opened Letters
  import opened Normalisation

  /** The three ways a submission is turned down, in the order they are checked. */
  datatype Rejection = UsedAlready | NotPossible | NotRecognized

  /** What one submission does: nothing, an error banner, or a new accepted word. */
  datatype Outcome = Ignored | Rejected(reason: Rejection) | Accepted(word: string)

  /** `isOriginal`: the word has not been accepted before. */
  function IsOriginal(usedWords: seq<string>, word: string): (r: bool)
    ensures r <==> forall i :: 0 <= i < |usedWords| ==> usedWords[i] != word
  {
    word !in usedWords
  }

  /**
   * `isReal`: words shorter than three letters and the root itself are refused
   * whatever the spell checker says; otherwise the spell checker decides.
   */
  function IsReal(rootWord: string, word: string, isKnownWord: string -> bool): (r: bool)
    ensures |word| < 3 || word == rootWord ==> !r
    ensures |word| >= 3 && word != rootWord ==> (r <==> isKnownWord(word))
  {
    if |word| < 3 || word == rootWord then false else isKnownWord(word)
  }

  /** The banner title `wordError` is given for each rejection. */
  function Title(reason: Rejection): (t: string)
    ensures t != []
  {
    match reason
    case UsedAlready => "Word used already"
    case NotPossible => "Word not possible"
    case NotRecognized => "Word not recognized"
  }

  /**
   * The banner message `wordError` is given for each rejection; the message for
   * an unspellable word quotes the root word.
   */
  function Message(reason: Rejection, rootWord: string): (m: string)
    ensures m != []
    ensures reason == NotPossible ==>
      |m| == |rootWord| + 34 && m[32..32 + |rootWord|] == rootWord
  {
    match reason
    case UsedAlready => "Be more original"
    case NotPossible => "You can't spell that word from '" + rootWord + "'!"
    case NotRecognized => "You can't just make them up, you know!"
  }

  /** What `addNewWord` decides for the normalised answer `answer`: the first failing check wins. */
  function Judge(rootWord: string, usedWords: seq<string>, answer: string,
                 isKnownWord: string -> bool): (o: Outcome)
    ensures o == Ignored <==> answer == []
    ensures answer != [] && answer in usedWords ==> o == Rejected(UsedAlready)
    ensures o.Accepted? ==>
      o.word == answer && answer !in usedWords && |answer| >= 3 && answer != rootWord
  {
    if |answer| == 0 then Ignored
    else if !IsOriginal(usedWords, answer) then Rejected(UsedAlready)
    else if !Spellable(answer, rootWord) then Rejected(NotPossible)
    else if !IsReal(rootWord, answer, isKnownWord) then Rejected(NotRecognized)
    else Accepted(answer)
  }

  /**
   * The guard chain of `addNewWord`, run on the normalised answer: the empty
   * answer is ignored, then `isOriginal`, `isPossible` and `isReal` are tried in
   * that order and the first that fails names the rejection.
   */
  method Check(rootWord: string, usedWords: seq<string>, answer: string,
               isKnownWord: string -> bool) returns (o: Outcome)
    ensures o == Judge(rootWord, usedWords, answer, isKnownWord)
  {
    if |answer| == 0 {
      return Ignored;
    }
    if !IsOriginal(usedWords, answer) {
      return Rejected(UsedAlready);
    }
    var possible := IsPossible(rootWord, answer);
    if !possible {
      return Rejected(NotPossible);
    }
    if !IsReal(rootWord, answer, isKnownWord) {
      return Rejected(NotRecognized);
    }
    return Accepted(answer);
  }

  /** What every accepted word satisfied when it was accepted. */
  predicate Admissible(rootWord: string, word: string, isKnownWord: string -> bool) {
    IsNormal(word) && Spellable(word, rootWord) && |word| >= 3 && word != rootWord &&
    isKnownWord(word)
  }

  predicate NoDuplicates(words: seq<string>) {
    forall i, j :: 0 <= i < j < |words| ==> words[i] != words[j]
  }

  /** The invariant of the accepted-word list under one root word. */
  predicate WellFormed(rootWord: string, usedWords: seq<string>, isKnownWord: string -> bool) {
    NoDuplicates(usedWords) &&
    forall i :: 0 <= i < |usedWords| ==> Admissible(rootWord, usedWords[i], isKnownWord)
  }

  /** The verdict, case by case, in terms of the three checks and their order. */
  lemma JudgeCases(rootWord: string, usedWords: seq<string>, answer: string,
                   isKnownWord: string -> bool)
    ensures var o := Judge(rootWord, usedWords, answer, isKnownWord);
      && (o == Ignored <==> answer == [])
      && (o == Rejected(UsedAlready) <==> answer != [] && answer in usedWords)
      && (o == Rejected(NotPossible) <==>
            answer != [] && answer !in usedWords && !Spellable(answer, rootWord))
      && (o == Rejected(NotRecognized) <==>
            answer != [] && answer !in usedWords && Spellable(answer, rootWord) &&
            (|answer| < 3 || answer == rootWord || !isKnownWord(answer)))
      && (o.Accepted? <==>
            answer !in usedWords && Spellable(answer, rootWord) && |answer| >= 3 &&
            answer != rootWord && isKnownWord(answer))
      && (o.Accepted? ==> o.word == answer)
  {
  }

  /** The accepted-word list after one submission of the raw text `newWord`. */
  function Submit(rootWord: string, usedWords: seq<string>, newWord: string,
                  isKnownWord: string -> bool): (after: seq<string>)
    ensures after == usedWords || (|after| == |usedWords| + 1 && after[1..] == usedWords)
  {
    match Judge(rootWord, usedWords, Normalise(newWord), isKnownWord)
    case Accepted(w) => [w] + usedWords
    case _ => usedWords
  }

  /** Prepending a fresh admissible word keeps the invariant. */
  lemma PrependKeepsWellFormed(rootWord: string, usedWords: seq<string>, word: string,
                               isKnownWord: string -> bool)
    requires WellFormed(rootWord, usedWords, isKnownWord)
    requires Admissible(rootWord, word, isKnownWord) && word !in usedWords
    ensures WellFormed(rootWord, [word] + usedWords, isKnownWord)
  {
    var after := [word] + usedWords;
    forall i, j | 0 <= i < j < |after| ensures after[i] != after[j] {
      assert after[j] == usedWords[j - 1];
      if i > 0 {
        assert after[i] == usedWords[i - 1];
      }
    }
    forall i | 0 <= i < |after| ensures Admissible(rootWord, after[i], isKnownWord) {
      if i > 0 {
        assert after[i] == usedWords[i - 1];
      }
    }
  }

  /** An accepted answer passed every check, so it is admissible and new. */
  lemma AcceptedIsAdmissible(rootWord: string, usedWords: seq<string>, answer: string,
                             isKnownWord: string -> bool)
    requires IsNormal(answer)
    requires Judge(rootWord, usedWords, answer, isKnownWord).Accepted?
    ensures Admissible(rootWord, answer, isKnownWord) && answer !in usedWords
  {
  }

  lemma SubmitCases(rootWord: string, usedWords: seq<string>, newWord: string,
                    isKnownWord: string -> bool)
    ensures var accepted := Judge(rootWord, usedWords, Normalise(newWord), isKnownWord).Accepted?;
      Submit(rootWord, usedWords, newWord, isKnownWord) ==
        if accepted then [Normalise(newWord)] + usedWords else usedWords
  {
  }

  /** One submission keeps the invariant. */
  lemma SubmitKeepsWellFormed(rootWord: string, usedWords: seq<string>, newWord: string,
                              isKnownWord: string -> bool)
    requires WellFormed(rootWord, usedWords, isKnownWord)
    ensures WellFormed(rootWord, Submit(rootWord, usedWords, newWord, isKnownWord), isKnownWord)
  {
    var answer := Normalise(newWord);
    SubmitCases(rootWord, usedWords, newWord, isKnownWord);
    if Judge(rootWord, usedWords, answer, isKnownWord).Accepted? {
      AcceptedIsAdmissible(rootWord, usedWords, answer, isKnownWord);
      PrependKeepsWellFormed(rootWord, usedWords, answer, isKnownWord);
    }
  }

  /** The accepted-word list after a run of submissions under one root word. */
  function SubmitAll(rootWord: string, usedWords: seq<string>, inputs: seq<string>,
                     isKnownWord: string -> bool): seq<string>
    decreases |inputs|
  {
    if inputs == [] then usedWords
    else SubmitAll(rootWord, Submit(rootWord, usedWords, inputs[0], isKnownWord),
                   inputs[1..], isKnownWord)
  }

  /** Any run of submissions keeps the invariant. */
  lemma {:induction false} SubmitAllKeepsWellFormed(rootWord: string, usedWords: seq<string>,
                                                    inputs: seq<string>,
                                                    isKnownWord: string -> bool)
    requires WellFormed(rootWord, usedWords, isKnownWord)
    ensures WellFormed(rootWord, SubmitAll(rootWord, usedWords, inputs, isKnownWord), isKnownWord)
    decreases |inputs|
  {
    if inputs != [] {
      SubmitKeepsWellFormed(rootWord, usedWords, inputs[0], isKnownWord);
      SubmitAllKeepsWellFormed(rootWord, Submit(rootWord, usedWords, inputs[0], isKnownWord),
                               inputs[1..], isKnownWord);
    }
  }

  /** `older` survives, in order, at the end of `newer`. */
  predicate EndsWith(newer: seq<string>, older: seq<string>) {
    |older| <= |newer| && newer[|newer| - |older|..] == older
  }

  lemma EndsWithTransitive(a: seq<string>, b: seq<string>, c: seq<string>)
    requires EndsWith(a, b) && EndsWith(b, c)
    ensures EndsWith(a, c)
  {
    assert a[|a| - |c|..] == a[|a| - |b|..][|b| - |c|..];
  }

  /**
   * A run of submissions only ever prepends: the old list survives, in order, as
   * the tail of the new one, which has grown by at most one word per submission.
   */
  lemma {:induction false} SubmitAllOnlyPrepends(rootWord: string, usedWords: seq<string>,
                                                 inputs: seq<string>,
                                                 isKnownWord: string -> bool)
    ensures EndsWith(SubmitAll(rootWord, usedWords, inputs, isKnownWord), usedWords)
    ensures |SubmitAll(rootWord, usedWords, inputs, isKnownWord)| <= |usedWords| + |inputs|
    decreases |inputs|
  {
    if inputs != [] {
      var next := Submit(rootWord, usedWords, inputs[0], isKnownWord);
      var after := SubmitAll(rootWord, next, inputs[1..], isKnownWord);
      assert SubmitAll(rootWord, usedWords, inputs, isKnownWord) == after;
      SubmitAllOnlyPrepends(rootWord, next, inputs[1..], isKnownWord);
      assert EndsWith(next, usedWords);
      EndsWithTransitive(after, next, usedWords);
    }
  }

  /** The empty list satisfies the invariant: a new game starts well formed. */
  lemma EmptyIsWellFormed(rootWord: string, isKnownWord: string -> bool)
    ensures WellFormed(rootWord, [], isKnownWord)
  {
  }
}
