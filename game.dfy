/**
 * The state of the word-game screen and the actions that change it: submitting
 * the typed word, showing the error banner, and choosing a new root word.
 * Layout, animation and the alert itself are presentation and are not modelled.
 */
module Game {
  import opened Letters
  import opened Normalisation
  import opened StartWords
  import opened Validation

  class ContentView {
    /** Accepted words, most recent first. */
    var usedWords: seq<string>
    var rootWord: string
    /** The text field's contents. */
    var newWord: string
    var errorTitle: string
    var errorMessage: string
    var showingError: bool
    /** The spell checker, as an injected oracle. */
    const isKnownWord: string -> bool

    /** Every accepted word passed the checks against the current root, and none repeats. */
    ghost predicate Valid()
      reads this
    {
      WellFormed(rootWord, usedWords, isKnownWord)
    }

    constructor (isKnownWord: string -> bool)
      ensures this.isKnownWord == isKnownWord
      ensures usedWords == [] && rootWord == "" && newWord == ""
      ensures errorTitle == "" && errorMessage == "" && !showingError
      ensures Valid()
    {
      this.isKnownWord := isKnownWord;
      usedWords, rootWord, newWord := [], "", "";
      errorTitle, errorMessage, showingError := "", "", false;
    }

    /** `wordError`: raise the error banner. */
    method WordError(title: string, message: string)
      modifies this`errorTitle, this`errorMessage, this`showingError
      ensures errorTitle == title && errorMessage == message && showingError
    {
      errorTitle := title;
      errorMessage := message;
      showingError := true;
    }

    /**
     * The effect of a verdict on the screen: a rejection raises the banner with
     * that check's title and message; an acceptance prepends the word and clears
     * the text field; an ignored submission changes nothing.
     */
    method Apply(outcome: Outcome)
      modifies this`usedWords, this`newWord, this`errorTitle, this`errorMessage, this`showingError
      ensures match outcome
        case Ignored =>
          && usedWords == old(usedWords) && newWord == old(newWord)
          && errorTitle == old(errorTitle) && errorMessage == old(errorMessage)
          && showingError == old(showingError)
        case Rejected(reason) =>
          && usedWords == old(usedWords) && newWord == old(newWord)
          && errorTitle == Title(reason) && errorMessage == Message(reason, rootWord)
          && showingError
        case Accepted(word) =>
          && usedWords == [word] + old(usedWords) && newWord == ""
          && errorTitle == old(errorTitle) && errorMessage == old(errorMessage)
          && showingError == old(showingError)
    {
      match outcome
      case Ignored =>
      case Rejected(reason) =>
        WordError(Title(reason), Message(reason, rootWord));
      case Accepted(word) =>
        usedWords := [word] + usedWords;
        newWord := "";
    }

    /**
     * `addNewWord`: normalise the typed text; ignore it when empty; otherwise run
     * the originality, spelling and real-word checks in that order, raising the
     * banner of the first that fails, or prepend the word and clear the field.
     */
    method AddNewWord()
      modifies this`usedWords, this`newWord, this`errorTitle, this`errorMessage, this`showingError
      ensures match Judge(rootWord, old(usedWords), Normalise(old(newWord)), isKnownWord)
        case Ignored =>
          && usedWords == old(usedWords) && newWord == old(newWord)
          && errorTitle == old(errorTitle) && errorMessage == old(errorMessage)
          && showingError == old(showingError)
        case Rejected(reason) =>
          && usedWords == old(usedWords) && newWord == old(newWord)
          && errorTitle == Title(reason) && errorMessage == Message(reason, rootWord)
          && showingError
        case Accepted(word) =>
          && usedWords == [word] + old(usedWords) && newWord == ""
          && errorTitle == old(errorTitle) && errorMessage == old(errorMessage)
          && showingError == old(showingError)
      ensures usedWords == Submit(rootWord, old(usedWords), old(newWord), isKnownWord)
      ensures old(Valid()) ==> Valid()
    {
      var answer := Normalise(newWord);
      var verdict := Check(rootWord, usedWords, answer, isKnownWord);
      SubmitCases(rootWord, usedWords, newWord, isKnownWord);
      if Valid() {
        SubmitKeepsWellFormed(rootWord, usedWords, newWord, isKnownWord);
      }
      Apply(verdict);
    }

    /** `startGame`: draw the root word from the word list's lines. */
    method StartGame(startWords: string, choice: nat)
      modifies this`rootWord
      ensures rootWord == PickRoot(startWords, choice)
      ensures rootWord in Split(startWords, '\n')
    {
      rootWord := PickRoot(startWords, choice);
    }

    /** The "New word" button: a fresh root word and an empty list of accepted words. */
    method NewGame(startWords: string, choice: nat)
      modifies this`rootWord, this`usedWords
      ensures rootWord == PickRoot(startWords, choice) && usedWords == []
      ensures Valid()
    {
      StartGame(startWords, choice);
      usedWords := [];
      EmptyIsWellFormed(rootWord, isKnownWord);
    }
  }
}
