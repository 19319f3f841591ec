# WordScramble: the word-submission engine, in Dafny

WordScramble is a one-screen word game. The player sees a root word. They type
candidate words built from its letters. Each accepted word scores its length plus
one. All of the game's logic sits in `ContentView` (`WordScramble/ContentView.swift`),
and this project models that logic:

- `addNewWord` normalises the text field and ignores an empty answer. It then runs
  six checks in a fixed order: already used, not possible from the root's letters,
  not a real word, shorter than three, equal to the root, and a piece of the root.
  The first check that fails raises an alert with that check's title and message.
  An answer that passes every check goes to the front of the used words, adds its
  length plus one to the score and clears the text field.
- `isPossible` copies the root word and strikes off the first matching occurrence
  of each letter of the answer. It fails as soon as a letter is missing.
- `isOriginal` and `wordError` are the two helpers that `addNewWord` uses.
- `startGame` clears the session. It then splits the bundled word list at newlines
  and picks a random line as the new root word.

Files:

- `wrappers.dfy`: module `Wrappers`, the `Option` type (Swift's optionals).
- `text.dfy`: module `Text`, the string operations the game borrows from Swift and
  Foundation. These are lower-casing, trimming whitespace, substring search
  (`contains`) and splitting at newlines (`components(separatedBy: .newlines)`).
  Each one comes with the lemmas that pin down what it does.
- `game.dfy`: module `WordScramble`. It holds the rejection reasons with their
  alert strings, the pure specification of the check chain (`Verdict`), and the
  session invariant. It also holds class `Game`, whose fields are the view's
  `@State` variables and whose methods are the view's functions.

The spell checker is the `const isReal: string -> bool` field of `Game`. It holds
of a word that the checker does not flag as misspelled, and it is given to the
constructor. `Game.Valid()` is the session invariant. Every accepted word is
distinct, normalised, admissible for the current root word and passed the spell
checker, and the score is the sum of length plus one over the accepted words.
`AddNewWord` keeps this invariant and `StartGame` establishes it.

Two behaviours of the code are worth knowing. Both are proved, and the model
follows the code in both:

- Submitting the root word is not always reported as "the root word". The spell
  check and the length check come first, so a root word the checker does not know
  is reported as not a real word. `RootWordVerdict` gives the exact outcome.
  `SubstringVerdict` does the same for a proper piece of the root.
- The `"silkworm"` fallback after `randomElement()` cannot be reached. Splitting at
  newlines always yields at least one line (`SplitLines`). A word list that ends
  with a newline does offer the empty string as a root word (`LastPieceEmpty`).
  With the empty root, every answer is rejected as impossible (`EmptyRootRejectsAll`).

## Model

| member | source | states |
|---|---|---|
| `WordScramble.Game.constructor` | WordScramble/ContentView.swift:11-19 | The session starts with no used words, empty root word, text field and alert strings, no alert, score 0, and the invariant holds. |
| `WordScramble.Game.IsOriginal` | WordScramble/ContentView.swift:114-116 | True exactly when no used word equals the given word. |
| `WordScramble.Game.IsPossible` | WordScramble/ContentView.swift:118-129 | The strike-off loop over a copy of the root word returns true exactly when `multiset(word) <= multiset(rootWord)`: no letter occurs more often in the word than in the root. |
| `WordScramble.FirstIndexOf` | WordScramble/ContentView.swift:122 | `firstIndex(of:)`: `None` exactly when the letter is absent, otherwise an in-range position holding the letter with no earlier occurrence. |
| `WordScramble.StrikeOff` | WordScramble/ContentView.swift:121-123 | One loop step when the letter is found: striking an occurrence of the next letter out of the copy keeps "copy = root minus the letters so far", and those letters stay within the root. |
| `WordScramble.StrikeOffFails` | WordScramble/ContentView.swift:121-125 | One loop step when the letter is missing from the copy: the whole word needs more of that letter than the root has, so `false` is the right answer. |
| `WordScramble.StrikeFound` | WordScramble/ContentView.swift:122-123 | Removing a letter still left in the copy keeps the letters used so far within the root. |
| `WordScramble.StrikeMissing` | WordScramble/ContentView.swift:124-125 | A letter no longer left in the copy cannot be taken from the root. |
| `WordScramble.Game.WordError` | WordScramble/ContentView.swift:138-142 | Sets the alert title and message to the arguments and shows the alert. The frame leaves every other field untouched. |
| `WordScramble.Game.Reject` | WordScramble/ContentView.swift:60-88 | Raises the alert with the rejection's own title and message. The messages of three rejections quote the current root word. |
| `WordScramble.Verdict` | WordScramble/ContentView.swift:60-88 | The reported rejection is one whose check fails on the answer. |
| `WordScramble.VerdictIsFirstFailure` | WordScramble/ContentView.swift:60-88 | The verdict is rejection `c` if and only if check `c` fails and every check ranked before it passes. The rank order is: used, possible, real, length, root, substring. |
| `WordScramble.AcceptedIffNoCheckFails` | WordScramble/ContentView.swift:60-88 | An answer is accepted if and only if none of the six checks fails. |
| `WordScramble.AcceptedIffAdmissible` | WordScramble/ContentView.swift:60-88 | Accepted if and only if the answer is unused and admissible: possible from the root, real, at least 3 long, not the root, and not a substring of it. |
| `WordScramble.Game.FirstFailedCheck` | WordScramble/ContentView.swift:60-88 | Running the guards in source order yields exactly `Verdict` of the current state. |
| `WordScramble.Submit` | WordScramble/ContentView.swift:55-96 | The effect of one submission on the session as a value. It never changes the root word and never lowers the score. |
| `WordScramble.SubmitOutcome` | WordScramble/ContentView.swift:55-96 | The three outcomes. An empty normalised answer changes nothing, not even the text field. A rejection leaves the used words, score and text field alone and shows the first failing check's title and message. An acceptance puts the answer in front of the used words, adds `|answer| + 1` to the score, clears the text field and leaves the alert fields alone. |
| `WordScramble.SubmitKeepsInvariant` | WordScramble/ContentView.swift:55-96 | Every submission, whatever its outcome, keeps the session invariant. |
| `WordScramble.SubmitTwice` | WordScramble/ContentView.swift:60-63 | Typing an accepted answer again is rejected as already used. Only the alert changes. |
| `WordScramble.Game.AddNewWord` | WordScramble/ContentView.swift:55-96 | The new state of the view is exactly `Submit` of the old state, with the outcomes `SubmitOutcome` lists, and the session invariant is kept. |
| `WordScramble.AcceptKeepsInvariant` | WordScramble/ContentView.swift:90-95 | Putting a new, normalised, admissible answer in front and adding its length plus one keeps the session invariant. The used words stay duplicate-free, normalised and admissible, and the score stays the sum of `|w| + 1`. |
| `WordScramble.PrependKeepsDistinct` | WordScramble/ContentView.swift:92-94 | Inserting a word that is not yet used at the front of a duplicate-free list keeps it duplicate-free. |
| `WordScramble.ResubmissionRejected` | WordScramble/ContentView.swift:60-63 | Whatever the earlier verdict was, a word that sits in front of the used words, as accepting it puts it, is rejected as already used when it is submitted again. |
| `WordScramble.RootWordVerdict` | WordScramble/ContentView.swift:70-83 | An unused root word is rejected as not real if the checker flags it, as too short if shorter than 3, and otherwise as the root word. |
| `WordScramble.SubstringVerdict` | WordScramble/ContentView.swift:70-88 | A new proper substring of the root is always possible. It is rejected as not real, too short or too obvious, in that order. |
| `WordScramble.EmptyRootRejectsAll` | WordScramble/ContentView.swift:65-68 | With an empty root word every new non-empty answer is rejected as impossible. |
| `WordScramble.ScoreAtLeastFourPerWord` | WordScramble/ContentView.swift:75-90 | Words of length at least 3 score at least 4 points each. |
| `WordScramble.SessionScoreBound` | WordScramble/ContentView.swift:75-90 | In every session that keeps the invariant, the score is at least four points per accepted word, because every accepted word has at least 3 characters. |
| `WordScramble.ScoreOfAppend` | WordScramble/ContentView.swift:90 | The score of two lists of words together is the sum of their scores. |
| `WordScramble.Reversed` | WordScramble/ContentView.swift:93 | The accepted words in submission order: position `k` holds the word `k` places from the end of the newest-first list. |
| `WordScramble.ScoreInSubmissionOrder` | WordScramble/ContentView.swift:90-93 | Summing the used words in submission order (oldest first) gives the same score as the newest-first list. |
| `WordScramble.RandomElement` | WordScramble/ContentView.swift:106 | `randomElement()`: `None` exactly for an empty list, otherwise some element of the list. |
| `WordScramble.Game.StartGame` | WordScramble/ContentView.swift:98-112 | Always clears the used words, text field and score, and the invariant holds. If the list was read, the root word is one of its lines and contains no newline. If it could not be read, where the app stops with a fatal error, the root word is unchanged. |
| `Text.ToLower` | WordScramble/ContentView.swift:56 | The result is never a capital and keeps whitespace-ness. Non-capitals are left alone. A-Z and А-Я move up by 32 code points to their lower case, and Ё becomes ё. |
| `Text.Lower` | WordScramble/ContentView.swift:56 | `lowercased()`: same length and no capital left. Every character that was not a capital stays as it was, and a character is whitespace afterwards exactly when it was before. A capital other than Ё moves up by 32 code points to its lower case, and Ё becomes ё. |
| `Text.LeadingSpaces` | WordScramble/ContentView.swift:56 | The count covers only whitespace, and the character after it, if any, is not whitespace. |
| `Text.TrailingSpaces` | WordScramble/ContentView.swift:56 | The count covers only whitespace at the back, and the character before it, if any, is not whitespace. |
| `Text.Trim` | WordScramble/ContentView.swift:56 | The result is a slice `s[i..j]` with only whitespace outside it, and it neither starts nor ends with whitespace. |
| `Text.Normalize` | WordScramble/ContentView.swift:56 | The normalised answer has no capitals and no whitespace at either end. |
| `Text.NormalizeFixes` | WordScramble/ContentView.swift:56 | A lower-case string without surrounding whitespace is its own normal form. |
| `Text.NormalizeIdempotent` | WordScramble/ContentView.swift:56 | Normalising twice equals normalising once, so stored answers are in normal form. |
| `Text.TrimPadded` | WordScramble/ContentView.swift:56 | Trimming whitespace padding around a word with non-space ends gives back exactly that word. |
| `Text.NormalizeKeepsInterior` | WordScramble/ContentView.swift:56 | Normalising a word padded with whitespace gives back the word, lower-cased. |
| `Text.IsSubstring` | WordScramble/ContentView.swift:85 | `rootWord.contains(answer)`: holds exactly when the needle occurs at some position of the haystack as a contiguous slice. It holds for the empty needle, which never gets here because the empty answer is ignored first (line 58). |
| `Text.SliceIsSubstring` | WordScramble/ContentView.swift:85 | Every contiguous slice of the root counts as contained in it. |
| `Text.SubstringIsSlice` | WordScramble/ContentView.swift:85 | Anything contained in the root occurs at some position as a contiguous slice. |
| `Text.SubstringLettersAvailable` | WordScramble/ContentView.swift:65-88 | A substring of the root only uses letters the root has, so it always passes the possibility check. |
| `Text.SplitLines` | WordScramble/ContentView.swift:105 | `components(separatedBy: .newlines)` yields one more piece than there are newline characters, so never zero pieces, and no piece contains a newline. |
| `Text.SplitLinesRoundTrip` | WordScramble/ContentView.swift:105 | Putting the pieces back together with the newline characters they were cut at rebuilds the text. |
| `Text.LastPieceEmpty` | WordScramble/ContentView.swift:105-106 | A word list that ends with a newline has the empty string as its last line, which the random pick can choose. |

## Left out

- The SwiftUI view (`body`, the list, the text field, the toolbar, the alert, `withAnimation`, `#Preview`) is left out as presentation. Typing into the text field and dismissing the alert write `newWord` and `showingError` directly; the model lets a caller assign those fields.
- `isReal` and `UITextChecker` are left out: the spell checker is the function-valued field `Game.isReal`. The model treats it as fixed for the session, so accepted words stay real in the invariant. A real checker that learns new words could change its answers over time.
- Reading `start.txt` from the bundle is file I/O. It becomes the parameter `startWords: Option<string>`, where `None` means the file is missing or unreadable.
- `Game.StartGame`: models `fatalError` only as returning `loaded == false` after the reset. The model does not capture that the process stops.
- `WordScramble.RandomElement`: states only that the pick is some element. The uniform distribution of `randomElement()` is not modelled.
- `Text.ToLower`: lower-cases only Latin A-Z and the basic Cyrillic capitals (А-Я, Ё). Full Unicode lower-casing, including mappings that change a string's length, is not modelled.
- `Text.Normalize`: works on Unicode scalar values. Swift counts and compares grapheme clusters with canonical equivalence. It does so in `answer.count`, in `for letter in word`, in `firstIndex(of:)`, in `answer != rootWord` (line 80), in `usedWords.contains(word)` (line 115) and in `rootWord.contains(answer)` (line 85). The model compares sequences of scalars in all of these places. A word with combining marks can therefore have a different length here than in Swift, and two canonically equivalent spellings count as different words.
- `WordScramble.Game.AddNewWord`: the score is an unbounded integer. Swift's `Int` would trap on overflow, which is far beyond any real game.
