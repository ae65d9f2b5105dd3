# Spellworks review scheduler, in Dafny

Spellworks is a browser spelling drill. The user keeps a list of words. A word
that is due is read aloud and spelled into one input box per letter. A correct
spelling doubles the word's review interval. A wrong one sends it back to the
default interval of one minute (`DEFAULT_INTERVAL = 60000` ms, scripts.js:51).

This project models the review scheduler in `scripts.js`. In the source it is
spread over DOM event handlers; here it is a set of pure functions. Each one
takes the current time `now` as a parameter instead of reading `Date.now()`.

- `text.dfy` (module `Text`): an ASCII model of `toLowerCase` and `trim`, and
  the joining of the letter boxes into one attempt.
- `words.dfy` (module `Words`): the `WordRecord {word, interval, nextReview}`
  datatype, the due test `nextReview <= now`, and adding a word.
- `selection.dfy` (module `Selection`): `loadNextWord`'s choice. It filters
  the due records, sorts them with a stable sort, and takes the first.
  Records are referred to by their index, because grading updates the exact
  record that was selected, and equal records may appear twice.
- `grading.dfy` (module `Grading`): `checkSpelling`. It does the
  case-insensitive whole-word check, updates the interval, and computes the
  per-letter highlighting vector.
- `session.dfy` (module `Session`): the add, reset and check handlers, plus
  the counters `wordsCompleted` and `totalWordsForSession`.

Behaviour of `scripts.js` worth noting:

- The counters are never reset when the due queue runs empty. They are reset
  only by the reset button.
- `totalWordsForSession` is not captured when a session starts. Every
  selection recomputes it as the number of due records plus `wordsCompleted`.
- A freshly added word is not always presented at once. It is presented
  exactly when no other record is due (`Session.AddShowsNewWordIffIdle`).
  Any other due record has an earlier or equal review time, and it wins a tie
  because it comes first in the collection.
- `scripts.js` has no remove-word operation, so none is modelled.

Some members are plain definitions. Their laws are stated on the members in
the table below:

- `Text.SameIgnoringCase` is the case-insensitive equality (scripts.js:311).
- `Text.Join` joins the letter boxes (scripts.js:309).
- `Words.IsDue` is the due test (scripts.js:137).
- `Grading.Marked` and `Grading.LetterMarks` compute the per-letter flags (scripts.js:329-334).
- `Grading.Reinforce` is the correct-answer update (scripts.js:317-320).
- `Grading.Relearn` is the wrong-answer update (scripts.js:336-337).

Their laws are stated on `Grading.Grade`, `Session.CheckStep`,
`Selection.DueIndices` and the lemmas that use them.

## Model

| member | source | states |
|---|---|---|
| `Text.Lower` | scripts.js:311 | The folded character is never an ASCII upper-case letter. A character changes only if it is an upper-case ASCII letter, and then it becomes a lower-case one. |
| `Text.LowerFolds` | scripts.js:330 | Folding twice is folding once. An upper-case and a lower-case ASCII letter fold to the same character exactly when they are the two forms of one letter. |
| `Text.Trim` | scripts.js:101 | The result is empty exactly when the input is all white space. Otherwise it starts and ends with a non-space character and is a contiguous piece of the input with only white space around it. |
| `Text.TrimIdempotent` | scripts.js:101 | Trimming an already trimmed text changes nothing. |
| `Text.JoinSingletons` | scripts.js:309 | Joining one-character boxes gives a string as long as the number of boxes, with box k's character at position k. |
| `Words.AddWord` | scripts.js:100-107 | Blank input leaves the collection unchanged. Otherwise exactly one record `{Trim(input), DEFAULT_INTERVAL, now}` is appended, and every earlier record is untouched. The stored word is non-empty, with no white space at either end. |
| `Words.AddedWordStaysDue` | scripts.js:103-107 | The added record is due at every time from its adding time onwards. |
| `Words.AddPreservesWellFormed` | scripts.js:101-107 | Adding keeps every record's word non-empty and every interval at least the default. |
| `Selection.DueIndices` | scripts.js:136-138 | The result holds exactly the indices of the due records, in increasing collection order. |
| `Selection.SortByDue` | scripts.js:153 | The result is a permutation of its input, sorted by ascending review time. |
| `Selection.InsertKeepsSorted` | scripts.js:153 | Inserting one entry into a list sorted by review time keeps it sorted. |
| `Selection.SortByDueHead` | scripts.js:153-154 | Sort an increasing list of indices. Its first entry has the least review time, and no other entry with that time has a smaller index. This is the stable-sort tie-break. |
| `Selection.SelectNext` | scripts.js:136-154 | The result is "no word" exactly when no record is due. Otherwise it is a due record with the least review time, and no earlier record ties with it. |
| `Selection.SelectNextIsLeastDue` | scripts.js:136-154 | Selection picks index i exactly when i satisfies the independent least-due, earliest-index definition. |
| `Grading.Grade` | scripts.js:308-340 | The verdict is Correct exactly when the joined boxes equal the word ignoring case. On Correct, a nonzero interval doubles and a zero interval becomes the default. On Incorrect, the interval becomes the default, the flags follow the per-letter rule, and at least one box is flagged. In both cases `nextReview = now + interval`. Only the graded record changes: its word, every other record and the length stay the same. |
| `Grading.NoMarkMeansMatch` | scripts.js:309-330 | If no box is flagged, the whole-word comparison succeeds, even when some boxes could be empty or longer. |
| `Grading.MatchIffNoMark` | scripts.js:309-330 | If every box holds one character, the whole word matches exactly when no box is flagged. |
| `Grading.CorrectRunDoubles` | scripts.js:317-320 | n consecutive correct answers multiply a nonzero interval by 2^n and keep the word. The next review is one interval after the last answer. |
| `Grading.DoublingFromDefault` | scripts.js:317-320 | Starting from the default interval, n correct answers give `DEFAULT_INTERVAL * 2^n`. |
| `Grading.GradePreservesWellFormed` | scripts.js:317-337 | Grading keeps the collection well-formed. Right or wrong, the graded word is not due again before `now + DEFAULT_INTERVAL`. |
| `Session.DueCount` | scripts.js:136-141 | The count equals the number of collection positions whose record is due. |
| `Session.LoadNext` | scripts.js:134-156 | The collection and `wordsCompleted` are unchanged. The total becomes the number of due records plus `wordsCompleted`. The presented record is chosen as in `SelectNext`. |
| `Session.AddStep` | scripts.js:100-111 | Blank input is ignored and no selection follows. Otherwise the word is appended and the total is recomputed. A word is always presented, because the new record is due. The presented record is the least-due record of the new collection, with ties going to the earlier record. |
| `Session.AddShowsNewWordIffIdle` | scripts.js:103-110 | The added word is the one presented exactly when no earlier record is due at that time. |
| `Session.CheckStep` | scripts.js:308-340 | The collection and verdict are those of `Grade`. A correct answer doubles a nonzero interval, turns a zero interval into the default, and increments `wordsCompleted` by exactly one. A wrong answer sets the default interval and leaves `wordsCompleted` unchanged. In both cases `nextReview = now + interval`. The total is unchanged. Only the graded record changes, and its word is kept. |
| `Session.ResetStep` | scripts.js:115-125 | Without confirmation nothing happens. With it, the collection is emptied, both counters are zero, and the following selection presents no word. |
| `Session.ResetThenNoWord` | scripts.js:117-123 | After a reset, every selection at any time finds no word and leaves the counters at zero. |
| `Session.StepsPreserveWellFormed` | scripts.js:100-340 | Adding, selecting, checking and resetting all keep every word non-empty and every interval at least the default. |
| `Session.CheckedWordNotShownSoon` | scripts.js:317-337 | After a check, right or wrong, no selection within the default interval presents the checked record. That includes the selection that runs 1500 ms after a correct answer. |
| `Session.DoubleCheckOvercounts` | scripts.js:321-326 | A concrete run: the same word checked correct twice before the delayed selection gives `wordsCompleted` = 2 against a total of 1. So `wordsCompleted <= totalWordsForSession` is not an invariant. |

## Left out

- Remove-word: `scripts.js` has no such operation.
- Persistence: `localStorage` loading and saving, JSON encoding (scripts.js:60-71, 118) and page load (scripts.js:128-131) are foreign calls. A stored collection enters the model only as an argument, with no save/load round trip.
- DOM rendering, the word-list panel, outside-click and Escape handling, mobile viewport handling, focus movement and Backspace navigation (scripts.js:1-44, 73-97, 159-276, 343-347) are UI glue.
- The live per-box colouring while typing, and the automatic check after the last box (scripts.js:174-199), are UI. They call the same per-letter comparison and `checkSpelling`, which are modelled.
- Speech synthesis (`readWord`, scripts.js:279-288) is a browser API.
- Timers: the 1500 ms delay before the next selection and the highlight timeouts (scripts.js:270-275, 326, 332). A delayed selection is just a later `Session.LoadNext` call with a later `now`.
- Display arithmetic: the progress percentage and the rounded seconds shown per word (scripts.js:85-89, 295-305) use floating point.
- `Session.AddStep`: appending the word and the selection that follows use the same `now`. In the source, two separate clock reads can differ by a few milliseconds.
- `Text.Trim`, `Text.Lower`: JavaScript's `trim` and `toLowerCase` follow Unicode. The model trims ASCII white space and folds only ASCII upper-case letters, mapping one character to one character.
- `Grading.Grade`: intervals and times are unbounded integers. JavaScript numbers are doubles, and repeated doubling is exact only until it overflows. A missing or NaN interval read from storage counts as falsy in the source. Those values are not modelled; only zero is.
- `Grading.Grade` requires one input box per letter of the word, which is how `startTestForWord` builds them (scripts.js:168). Each box is any string, not limited to one character. JavaScript counts the word's length and indexes `word[index]` in UTF-16 code units. A Dafny `char` is a whole Unicode scalar value. So a word with a character outside the Basic Multilingual Plane, such as an emoji, gets two boxes in the source but one in the model.
