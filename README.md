# WordScramble word-submission model

WordScramble is a one-screen word game. The player gets a root word and types
words made from its letters. Each submission is lowercased and trimmed, and
empty input is ignored. The word then goes through three checks in a fixed
order, and the first one that fails raises an error banner:

1. it must not have been accepted already (`isOriginal`);
2. it must be spellable from the root's letters, each letter used at most once (`isPossible`);
3. it must have at least three letters, differ from the root, and pass the spell checker (`isReal`).

An accepted word is put at the front of the list of used words, and the text
field is cleared. The "New word" button draws a new root from the bundled word
list and empties the list.

The model has six modules:

- `Letters` has the letter arithmetic of `isPossible`. Its loop strikes each
  letter out of a scratch copy of the root. It is proved equal to multiset
  inclusion, and to per-letter counts.
- `Normalisation` models `lowercased()` and `trimmingCharacters(in: .whitespacesAndNewlines)`.
- `StartWords` models the split of the word list on `"\n"` and the random pick.
- `Validation` has `isOriginal`, `isReal`, and the verdict of the three ordered
  checks: `Judge` specifies it and the method `Check` runs the guard chain. It also has the invariant of the accepted list: no
  duplicates, and every word admissible against the root. Lemmas show the
  invariant survives any run of submissions.
- `Game` has the class `ContentView` with the screen's state fields. Its
  methods are `AddNewWord`, `WordError`, `StartGame` and `NewGame`.
  `AddNewWord` runs `Check` on the normalised answer, and then `Apply` makes
  the state change for that verdict.
- `Options` holds a small Option datatype.

In the source, `isOriginal`, `isPossible` and `isReal` read `rootWord` and
`usedWords` from the view. Here they take those values as parameters, and
`AddNewWord` passes them the class's fields. The spell checker is the oracle
`isKnownWord`. It is given to the constructor and is a total function from
strings to booleans. The random draw of `randomElement()` is the parameter
`choice`.

Three facts about `startGame` shape the model:

- `components(separatedBy: "\n")` always returns at least one element.
  So the `?? "silkworm"` fallback in `startGame` can never be taken.
- A word list that ends in a line break yields an empty last line, and that
  empty line can be drawn as the root word (`StartWords.EmptyRootAfterTrailingBreak`).
- A word list that cannot be read ends the process through `fatalError`.
  It does not fall back to a default word.

## Model

| member | source | states |
|---|---|---|
| `Letters.Count` | Shared/ContentView.swift:152-153 | Occurrence count of a letter. It is at most the length, and zero exactly when the letter is absent. |
| `Letters.CountIsMultiplicity` | Shared/ContentView.swift:150-160 | The letter count agrees with the multiset multiplicity, which is what the `isPossible` specification uses. |
| `Letters.SpellableIffCounts` | Shared/ContentView.swift:150-160 | A word is spellable from the root exactly when no letter occurs in it more often than in the root. |
| `Letters.FirstIndexOf` | Shared/ContentView.swift:153 | `firstIndex(of:)` returns nothing exactly when the letter is absent. Otherwise it returns an index holding the letter with no earlier occurrence. |
| `Letters.RemoveAt` | Shared/ContentView.swift:154 | `remove(at:)` shortens the scratch copy by one and takes exactly that one letter out of its multiset. |
| `Letters.MissingLetter` | Shared/ContentView.swift:153-156 | Once the scratch copy lacks the current letter, the candidate uses that letter more often than the root has it, so it is not spellable. |
| `Letters.IsPossible` | Shared/ContentView.swift:150-160 | The loop returns true exactly when the candidate's letters form a sub-multiset of the root's. The loop invariant is that the scratch copy plus the consumed letters equals the root, so no letter is used twice. |
| `Normalisation.Lower` | Shared/ContentView.swift:108 | An upper-case ASCII letter becomes its lower-case partner. Any other character is unchanged. |
| `Normalisation.Lowercased` | Shared/ContentView.swift:108 | `lowercased()` keeps the length of the text. |
| `Normalisation.TrimStart` | Shared/ContentView.swift:108 | Trimming the front never lengthens the text. |
| `Normalisation.TrimEnd` | Shared/ContentView.swift:108 | Trimming the end never lengthens the text. |
| `Normalisation.LowercasedSpec` | Shared/ContentView.swift:108 | `lowercased()` keeps the length and lowercases each letter in place. No upper-case letter remains, and whitespace stays whitespace. |
| `Normalisation.TrimStartSpec` | Shared/ContentView.swift:108 | Trimming the front keeps a suffix of the input. Everything dropped is whitespace, and the result does not start with whitespace. |
| `Normalisation.TrimEndSpec` | Shared/ContentView.swift:108 | Trimming the end keeps a prefix of the input. Everything dropped is whitespace, and the result does not end with whitespace. |
| `Normalisation.Normalise` | Shared/ContentView.swift:108 | The answer has no upper-case letter and no surrounding whitespace, and it is no longer than the typed text. |
| `Normalisation.NormaliseIsTrimmedLowercase` | Shared/ContentView.swift:108 | The answer is the lowercased typed text with only its surrounding whitespace cut off: a slice of it, and everything outside the slice is whitespace. |
| `Normalisation.LowercasedFixed` | Shared/ContentView.swift:108 | Lowercasing a string without upper-case letters changes nothing. |
| `Normalisation.NormalIsFixed` | Shared/ContentView.swift:108 | A string already lowercase and trimmed is left unchanged. |
| `Normalisation.NormaliseIdempotent` | Shared/ContentView.swift:108 | Normalising twice gives the same answer as normalising once. |
| `Normalisation.NormaliseEmptyIffBlank` | Shared/ContentView.swift:108-109 | The answer is empty, so the submission is ignored, exactly when the typed text is all whitespace. |
| `StartWords.Split` | Shared/ContentView.swift:137 | There is one more line than there are line breaks, and no line contains a line break. |
| `StartWords.JoinSplit` | Shared/ContentView.swift:137 | Joining the lines with line breaks gives back the word list text. |
| `StartWords.TrailingBreakGivesEmptyLine` | Shared/ContentView.swift:137 | A text ending in a line break splits into lines whose last one is empty. |
| `Options.Option.GetOr` | Shared/ContentView.swift:139 | `x ?? default` is the wrapped value when there is one, and the default otherwise. |
| `StartWords.RandomElement` | Shared/ContentView.swift:139 | `randomElement()` is nil exactly for an empty list. Otherwise it is an element of the list. |
| `StartWords.PickRoot` | Shared/ContentView.swift:137-139 | The random draw always succeeds, so the `"silkworm"` fallback is never taken. The root word is always one of the lines of the word list, and it has no line break. |
| `StartWords.EveryLineCanBePicked` | Shared/ContentView.swift:139 | Every line of the word list is drawn by some choice. |
| `StartWords.EmptyRootAfterTrailingBreak` | Shared/ContentView.swift:137-139 | With a trailing line break, some draw yields the empty root word. |
| `Validation.IsOriginal` | Shared/ContentView.swift:147-149 | True exactly when no accepted word equals the candidate. |
| `Validation.IsReal` | Shared/ContentView.swift:161-169 | False for words under three letters or equal to the root, whatever the spell checker says. Otherwise it is the spell checker's verdict. |
| `Validation.Judge` | Shared/ContentView.swift:109-124 | The verdict is "ignored" exactly for an empty answer. An answer already used is always rejected as used. An accepted word is the answer itself, new, at least three letters long and different from the root. |
| `Validation.Title` | Shared/ContentView.swift:112-122 | Every rejection has a non-empty banner title: "Word used already", "Word not possible" or "Word not recognized". |
| `Validation.Message` | Shared/ContentView.swift:112-122 | Every rejection has a non-empty banner message. The message for an unspellable word quotes the root word between its fixed text. |
| `Validation.Check` | Shared/ContentView.swift:109-124 | The guard chain returns exactly the verdict `Judge` specifies. It is ignored when empty, then the first of `isOriginal`, `isPossible` and `isReal` to fail names the rejection. |
| `Validation.JudgeCases` | Shared/ContentView.swift:107-124 | Each verdict holds exactly when its check is the first to fail. A used word always gives "used already". An unspellable unused word gives "not possible" before the real-word check. Acceptance means all three checks pass. |
| `Validation.Submit` | Shared/ContentView.swift:107-130 | One submission either leaves the accepted list unchanged or prepends exactly one word to it. |
| `Validation.AcceptedIsAdmissible` | Shared/ContentView.swift:111-127 | A normalised answer that is accepted is new and passes every check against the root. |
| `Validation.PrependKeepsWellFormed` | Shared/ContentView.swift:127 | Inserting a new admissible word at the front keeps the list duplicate-free and admissible. |
| `Validation.SubmitKeepsWellFormed` | Shared/ContentView.swift:111-129 | One submission keeps the list duplicate-free. Every word in it stays normalised, spellable from the root, at least three letters long, different from the root and known to the spell checker. |
| `Validation.SubmitAllKeepsWellFormed` | Shared/ContentView.swift:107-130 | Any sequence of submissions under a fixed root keeps that invariant. |
| `Validation.SubmitAllOnlyPrepends` | Shared/ContentView.swift:126-128 | After any sequence of submissions, the old list survives in order as the tail of the new one. The list grows by at most one word per submission. |
| `Validation.EmptyIsWellFormed` | Shared/ContentView.swift:86-89 | The emptied list of a new game satisfies the invariant. |
| `Game.ContentView.constructor` | Shared/ContentView.swift:32-37 | The screen starts with no accepted words, an empty root and field, and no banner. |
| `Game.ContentView.WordError` | Shared/ContentView.swift:171-175 | Sets the banner's title and message and shows it. Nothing else changes. |
| `Game.ContentView.Apply` | Shared/ContentView.swift:111-129 | A rejection sets only the banner fields, to that check's title and message. An acceptance prepends the word, clears the field and leaves the banner alone. An ignored submission changes nothing. |
| `Game.ContentView.AddNewWord` | Shared/ContentView.swift:107-130 | Empty input changes nothing. A rejection sets only the banner fields, to the failing check's title and message. An acceptance prepends the answer, clears the field and leaves the banner alone. The root never changes, and the list invariant is preserved. |
| `Game.ContentView.StartGame` | Shared/ContentView.swift:131-146 | The new root is the word drawn from the lines of the word list. Only the root changes. |
| `Game.ContentView.NewGame` | Shared/ContentView.swift:86-89 | The "New word" button draws a new root and empties the accepted list, which restores the invariant. |

## Left out

- SwiftUI presentation is not modelled. This covers `TextFieldClearButton`, `body`, the list, toolbar and alert layout, the gradient, `withAnimation`, the `UITableView` appearance set in `init`, and the previews. None of it has behaviour beyond the state changes above.
- Reading `start.txt` from the bundle, and the `fatalError` when that fails, are not modelled. They are file I/O and process termination. The file's text is a parameter of `StartGame` and `NewGame`.
- `UITextChecker` is a platform call. It is the oracle `isKnownWord`, which is assumed to give the same answer for the same word.
- The randomness of `randomElement()` is the parameter `choice`. The model does not capture uniformity.
- `Normalisation.Normalise`: only ASCII letters are lowercased, because Unicode case mapping is library behaviour the model cannot see. Trimming does use the full whitespace-and-newline set.
- `Validation.IsOriginal`, `Validation.IsReal`, `Letters.IsPossible`: strings are sequences of Unicode scalar values, not Swift `Character`s (grapheme clusters). So the length test `word.count < 3` in `isReal` counts scalars: "e\u0301e\u0301" is two `Character`s, which Swift rejects as too short, but four scalars, which the model passes to the spell checker. `firstIndex(of:)` and `remove(at:)` in `isPossible` also act on one scalar at a time. The emptiness test `answer.count > 0` in `addNewWord` is the same under either reading.
- `Validation.IsOriginal`, `Validation.IsReal`, `Letters.IsPossible`: Swift compares strings and `Character`s up to canonical equivalence, in `contains`, in `word == rootWord` and inside `firstIndex(of:)`. The model compares scalar by scalar, so a precomposed "é" and "e\u0301" differ here but are equal in Swift.
- Who calls `StartGame` is not modelled. In the source, `onAppear` calls it and the "New word" button calls it; `NewGame` models the button.
