# wordScramble game rules in Dafny

The wordScramble app shows a root word (for example "silkworm"). The player
types words built from its letters. Each submitted answer is lower-cased and
trimmed. It then goes through four checks in a fixed order:

1. it must have more than two letters;
2. it must not have been used already;
3. it must be spellable from the root word's letters, each letter used at most as often as it occurs there;
4. the spell checker must accept it.

The first check that fails raises an error alert with that check's title and
message. An answer that passes all four goes to the front of the used-word list,
and its length is added to the score. Either way, the input field is reset to
a single space. "New game" picks a root word from the lines of a word-list
file and clears the used words and the score.

The model is purely functional:

- `Letters`: letter counts, first-occurrence search and removal, and the
  spelling test `IsPossible`. The test is written as the game's
  remove-first-occurrence walk, once as a recursive function and once as the
  loop itself. Both are proved equal to multiset inclusion and to the
  per-letter count definition.
- `Text`: the answer's normalisation, meaning lower-casing followed by
  trimming whitespace and newlines. It also holds the split of the word-list
  file into lines, proved lossless against `Join`.
- `Game`: the screen state is the `GameState` datatype. `AddNewWord` and
  `StartGame` are pure transitions over it. `Validate` gives the rejection
  reason. `Consistent` is the session invariant: the used words are distinct,
  normalised, longer than two letters, spellable and real, and the score is
  the sum of their lengths. The spell checker is the function parameter
  `isReal`. The random pick is an index chosen by the caller.

Splitting the file at `"\n"` always yields at least one line. So once the
file has loaded, the `?? "silkworm"` fallback is never taken (see
`Game.StartGameFromFile`). A file ending in a newline contributes an empty
last line, which can become the root word.

## Model

| member | source | states |
|---|---|---|
| Letters.IndexOf | wordScramble/wordScramble/ContentView.swift:110 | `firstIndex(of:)`: `None` exactly when the letter is absent. Otherwise the position holds the letter and no earlier position does. |
| Letters.RemoveAt | wordScramble/wordScramble/ContentView.swift:111 | `remove(at:)`: one character shorter. Its letters are the original letters minus exactly the one removed. |
| Letters.IsPossible | wordScramble/wordScramble/ContentView.swift:107-117 | The remove-first-occurrence walk over a copy of the root word succeeds exactly when the candidate's letters form a sub-multiset of the root word's. It succeeds for the empty word and for the root word itself. The root word is a value and is not changed. |
| Letters.IsPossibleIffFitsIn | wordScramble/wordScramble/ContentView.swift:107-117 | The walk succeeds exactly when every character occurs in the candidate no more often than in the root word. |
| Letters.MissingLetterIsImpossible | wordScramble/wordScramble/ContentView.swift:110-113 | A candidate with a letter the root word lacks is rejected. |
| Letters.IsPossibleLoop | wordScramble/wordScramble/ContentView.swift:107-117 | The for-loop with a mutable clone and early `return false` returns true exactly when the candidate is a sub-multiset of the root word. |
| Text.Lowercase | wordScramble/wordScramble/ContentView.swift:60 | `lowercased()` keeps the length, lower-cases each letter, and leaves no upper-case letter. |
| Text.Trim | wordScramble/wordScramble/ContentView.swift:60 | `trimmingCharacters(in: .whitespacesAndNewlines)`: the result is the slice `s[a..b]` of the input where everything before `a` and from `b` on is whitespace. It neither starts nor ends with whitespace, so it keeps every character between the first and last non-whitespace ones. All-whitespace text becomes empty. Text with no whitespace at either end is returned unchanged. |
| Text.ToLowerChar | wordScramble/wordScramble/ContentView.swift:60 | An upper-case ASCII letter becomes the letter 32 code points above it (its lower-case form). Any other character is kept. No upper-case letter is produced. |
| Text.Normalize | wordScramble/wordScramble/ContentView.swift:60 | The answer is the lower-cased typed text cut to a slice `[a..b]`, where everything before `a` and from `b` on in the typed text is whitespace. It contains no upper-case letter and has no whitespace at either end. |
| Text.NormalizeIsTrimOfLowercase | wordScramble/wordScramble/ContentView.swift:60 | The normalised answer is exactly `Trim(Lowercase(text))`: lower-casing first, then trimming, as the game does. |
| Text.NormalizeIdempotent | wordScramble/wordScramble/ContentView.swift:60 | Normalising an already normalised answer changes nothing. |
| Text.NormalizeResetValue | wordScramble/wordScramble/ContentView.swift:60-63 | The reset value `" "` of the input field normalises to the empty answer. |
| Text.Split | wordScramble/wordScramble/ContentView.swift:93 | `components(separatedBy: "\n")` yields at least one part, and no part contains the separator. |
| Text.JoinSplit | wordScramble/wordScramble/ContentView.swift:93 | Joining the lines with `"\n"` gives back the file text. |
| Text.SplitJoin | wordScramble/wordScramble/ContentView.swift:93 | Splitting the join of separator-free lines gives back the lines. |
| Game.IsOriginal | wordScramble/wordScramble/ContentView.swift:103-105 | The linear scan is true exactly when the word is not among the used words. |
| Game.TitleIdentifiesCheck | wordScramble/wordScramble/ContentView.swift:62-80 | The four alert titles are pairwise different, so the title shown names the check that failed. |
| Game.MessageQuotesRoot | wordScramble/wordScramble/ContentView.swift:74 | Only the "not possible" message depends on the root word. Two root words give the same message exactly when they are equal. |
| Game.Validate | wordScramble/wordScramble/ContentView.swift:61-83 | Each rejection reason holds exactly when every earlier check passed and its own check fails: length ≤ 2, then already used, then not a sub-multiset of the root word, then refused by the spell checker. No reason means all four checks pass. |
| Game.AddNewWord | wordScramble/wordScramble/ContentView.swift:59-88 | The input is always reset to one space, and the root word never changes. On acceptance, the normalised answer is at index 0, the rest of the list is the old list, the score grows by the answer's length, and the alert is untouched. On rejection, the list and score are unchanged and the alert is shown with the first failing check's title and message. |
| Game.StartGame | wordScramble/wordScramble/ContentView.swift:94-96 | The root word is an entry of the list, or `"silkworm"` only when the list is empty. The used words and score are cleared. The input field and alert are untouched. |
| Game.StartGameFromFile | wordScramble/wordScramble/ContentView.swift:91-97 | From loaded file text, the root word is a whole line of the file, so it contains no newline and the fallback is not needed. The used words and score are cleared. |
| Game.StartGameEstablishesConsistency | wordScramble/wordScramble/ContentView.swift:94-96 | A new game satisfies the session invariant, including score = sum of lengths of used words. |
| Game.AddNewWordPreservesConsistency | wordScramble/wordScramble/ContentView.swift:59-88 | A submission keeps the invariant: the originality guard keeps the list duplicate-free, and score = sum of lengths survives the prepend. |
| Game.ShortAnswerRejected | wordScramble/wordScramble/ContentView.swift:61-65 | An answer of at most two letters gets the "less than 3 letter" alert with the list and score unchanged. |
| Game.RealnessConsultedLast | wordScramble/wordScramble/ContentView.swift:73-83 | When the length, originality or spelling check fails, the outcome does not depend on the spell checker. |
| Game.ResubmittingResetInputIsTooShort | wordScramble/wordScramble/ContentView.swift:60-63 | Submitting the untouched input right after a submission gives the length error. |
| Game.Play | wordScramble/wordScramble/ContentView.swift:48 | Repeated type-and-submit never changes the root word, and the list never gets shorter. |
| Game.Submit | wordScramble/wordScramble/ContentView.swift:48 | Typing a text and submitting it keeps the root word, and the previous used words stay, in order, at the back of the new list. |
| Game.PlayPreservesConsistency | wordScramble/wordScramble/ContentView.swift:59-88 | Any sequence of submissions keeps the session invariant. |
| Game.SilkwormExample | wordScramble/wordScramble/ContentView.swift:59-88 | With root "silkworm": "Silk " is accepted as "silk" with score 4 (given a spell checker that knows "silk"). Submitting "silk" again is a duplicate. "silkworms" is not possible. |

## Left out

- The SwiftUI `body`, layout, `@State` property wrappers, alert presentation and previews are presentation only. The `onSubmit` hookup appears only as `Game.Submit` and `Game.Play`.
- `isReal` and `UITextChecker` form an external spell checker whose behaviour is not visible. It is the uninterpreted parameter `isReal`.
- Loading `start.txt` from the bundle and the `fatalError` on failure are file I/O. The model starts from the file's text (`Game.StartGameFromFile`) or from a list of words (`Game.StartGame`).
- `randomElement()` is randomness. The pick is a caller-chosen index into the list.
- Text.Lowercase: only the ASCII letters A–Z are mapped, because Unicode case mapping (which can also change the length) is not modelled.
- Text.Trim: the whitespace set is listed character by character. It does not follow every Unicode revision of Foundation's `whitespacesAndNewlines`.
- Game.AddNewWord: the score is an unbounded integer and a word's length is its number of Unicode scalars. Swift's `Int` overflow trap and grapheme-cluster `count` are not modelled.
- `wordError` is the helper `Game.WordError`. Its effect is stated in the contract of `Game.AddNewWord`.
- Game.Type: the `$newWord` text-field binding (line 25) is a plain field update with no contract of its own. It is used only by `Game.Submit`.
- Letters.IsPossible, Letters.IsPossibleLoop, Game.IsOriginal: characters are Unicode scalars compared exactly. Swift compares `Character`s, which are grapheme clusters equal up to canonical equivalence. So the source treats "café" written with U+00E9 and "cafe" followed by U+0301 as the same word, and the model does not.
- Game.Play: for a whole run, only the length bound is stated. The exact "old list stays at the back" property is stated per submission, on `Game.Submit` and `Game.AddNewWord`.
