# Word-puzzle engine (PuzzleService) in Dafny

This project models the engine of a letter-pool word game. A student's session
gets a puzzle: a pool of fourteen letters. Three letters come from `AEIOU` and
eleven come from `ETAOINSHRDLUCMFWY`, and then the pool is shuffled. The student
submits words made from the letters still left. Each word is normalised
(`strtoupper(trim(...))`) and judged by a fixed chain of checks. An accepted word
scores its length and uses up its letters. After each acceptance the puzzle checks
whether it is complete, meaning no letters remain or no dictionary word can still
be formed. An accepted word may also enter a Top-10 table of high-scoring words.
Ending a game lists the words that could still have been formed and deactivates
the puzzle.

Modules:

- `Letters`: the constants, the shape of a generated pool, `trim`/`strtoupper`
  and PHP's `empty`/`ctype_alpha`, and the multiset "contains" test.
- `WordList`: the dictionary the engine consults. Its contract is given by a
  reference scan over a word list.
- `Entities`: the `Puzzle` class and the `Submission` record. The behaviour of
  the Puzzle entity is stated as assumed contracts.
- `Generation`: `generatePuzzleString`, with two append loops and an in-place
  shuffle of a `char` array.
- `Ranking`: rows of the scores table, the order score DESC, createdAt ASC, the
  ranked read-back, the first ten rows, and the fact that a sorted arrangement of
  rows with distinct creation times is unique.
- `Service`: the ordered chain of rejections, the completion check, the
  top-scorer update, and the `PuzzleService` class. The class has sessions mapped
  to puzzles, the scores table and a model clock.

Model choices:

- All random choices (`array_rand`, `shuffle`) are arbitrary choices (`:|`). What
  is proved therefore holds for every outcome.
- The database is replaced by in-memory state:
  - `sessions: map<string, Puzzle>` stands for each student's row;
  - `board: seq<Entry>` holds the rows of the `scores` table in insertion order;
  - `clock: nat` stands for every timestamp and auto-increment id.
- Doctrine sorts at query time. The model matches this: `Ranked(board)` is the
  table read back in rank order, and `limitLeaderboard` is specified by the
  multiset of rows it keeps.
- An accepted submission takes the current tick for three things: its
  `submittedAt`, its id, and the `createdAt` of the new scores row. The clock then
  advances by one.

## Model

| member | source | states |
|---|---|---|
| Letters.PoolShape | src/Service/PuzzleService.php:190-213 | A string is a pool (a rearrangement of 3 draws from VOWELS then 11 from COMMON_LETTERS) exactly when it has 14 letters, all from COMMON_LETTERS, and at least 3 of them are vowels |
| Letters.PoolIsCommonWithVowels | src/Service/PuzzleService.php:190-213 | Every pool has length PUZZLE_LENGTH, every letter is in COMMON_LETTERS (which contains every vowel), and at least three letters are vowels |
| Letters.CommonWithVowelsIsPool | src/Service/PuzzleService.php:190-213 | Conversely, any 14 common letters with three or more vowels can be split into three vowel draws and eleven common draws |
| Letters.TrimIsSlice | src/Service/PuzzleService.php:74 | `trim` returns a contiguous slice of its input; everything cut off on either side is a trim character, and a non-empty result starts and ends with a non-trim character |
| Letters.TrimEnds | src/Service/PuzzleService.php:74 | Neither end of a trimmed string is a trim character |
| Letters.ToUpperMapsLetters | src/Service/PuzzleService.php:74 | `strtoupper` leaves no ASCII lower-case letter; it maps letters to letters and trim characters to trim characters, and keeps every other byte |
| Letters.NormalizeIdempotent | src/Service/PuzzleService.php:74 | Normalising an already normalised word changes nothing |
| Letters.NormalizePadded | src/Service/PuzzleService.php:74 | A word surrounded by blanks normalises to the upper-cased word (so " ace\n" is judged as `ToUpper("ace")`) |
| Letters.NormalizePaddedZero | src/Service/PuzzleService.php:74-78 | A "0" surrounded by blanks normalises to "0", which PHP's `empty` counts as empty |
| Letters.Trim | src/Service/PuzzleService.php:74 | Defines PHP `trim` with its default characters (space, tab, line feed, carriage return, NUL, vertical tab): the slice between the leading and the trailing run of those characters |
| Letters.ToUpper | src/Service/PuzzleService.php:74 | Defines PHP `strtoupper` on bytes: ASCII a-z become A-Z, every other byte is kept; the length is unchanged |
| Letters.Normalize | src/Service/PuzzleService.php:74 | Defines the word the judge sees: `strtoupper(trim($word))` |
| Letters.PhpEmpty | src/Service/PuzzleService.php:77 | Defines PHP `empty` on a string: true exactly for "" and "0" |
| Letters.CtypeAlpha | src/Service/PuzzleService.php:85 | Defines PHP `ctype_alpha`: true exactly for a non-empty string of ASCII letters |
| Letters.AceIsACE | tests/Service/PuzzleServiceTest.php:150-152 | The test's own example: "ace" normalises to "ACE" |
| Letters.AcceptedWordIsUpper | src/Service/PuzzleService.php:74-87 | A normalised word that passes the empty, length and `ctype_alpha` checks consists of 1 to 14 upper-case letters |
| WordList.IsValidWord | src/Service/PuzzleService.php:100 | Defines `isValidWord` as membership in the dictionary's word list |
| WordList.Search | src/Service/PuzzleService.php:225 | Every word returned is a dictionary word that can be formed from the letters; at most `limit` words are returned; the result is empty iff the limit is 0 or no such word exists; with no limit, every such word is returned |
| WordList.CalculateRemainingWords | src/Service/PuzzleService.php:225 | The same guarantees over the dictionary: valid, formable, bounded by the limit, empty iff nothing is formable, and complete when unlimited |
| Entities.WasSubmitted | src/Service/PuzzleService.php:90-95 | Defines the duplicate lookup: true exactly when some submission in the puzzle's log has the word |
| Entities.ScoreSumCountsLetters | src/Service/PuzzleService.php:110 | When every submission scores its word's length, the total score equals the number of letters consumed |
| Entities.RecordKeepsInvariant | src/Service/PuzzleService.php:105-119 | Recording a new, distinct, upper-case word scored by its length and formed from the remaining letters keeps the invariant: pool letters are conserved, the log holds distinct upper-case words, and each word is scored by its length |
| Entities.Puzzle.constructor | src/Service/PuzzleService.php:46-47 | A new puzzle over a pool string is active, has no submissions, and its remaining letters are the letters of the pool |
| Entities.Puzzle.CanUseLetters | src/Service/PuzzleService.php:105 | `canUseLetters(w)` holds iff every letter of `w` occurs at least as often among the remaining letters |
| Entities.Puzzle.UseLetters | src/Service/PuzzleService.php:119 | `useLetters(w)` removes exactly the letters of `w` from the remaining letters; the pool, the log and the active flag are unchanged |
| Entities.Puzzle.AddSubmission | src/Service/PuzzleService.php:113-116 | Attaching a submission appends it to the log and changes nothing else |
| Entities.Puzzle.SetIsActive | src/Service/PuzzleService.php:124-126 | Sets the active flag and changes nothing else |
| Entities.Puzzle.TotalScore | src/Service/PuzzleService.php:137 | Defines the assumed `getTotalScore`: the sum of the scores in the log |
| Entities.Puzzle.ScoreIsConsumedLetters | src/Service/PuzzleService.php:137 | In a valid puzzle, the total score plus the number of remaining letters is the pool length |
| Generation.Shuffle | src/Service/PuzzleService.php:209-210 | The in-place shuffle permutes the array: its multiset of letters is unchanged |
| Generation.GeneratePuzzleString | src/Service/PuzzleService.php:190-213 | The generated string is a pool: 14 letters, all in COMMON_LETTERS, with at least three vowels |
| Ranking.OnBoard | src/Service/PuzzleService.php:234 | Defines the lookup `findOneBy(['word' => $word])`: true exactly when some row of the table has the word |
| Ranking.MinScore | src/Service/PuzzleService.php:238 | The lowest score is the score of some row and is no greater than the score of any row |
| Ranking.Insert | src/Service/PuzzleService.php:256 | Inserting a row into the ranked sequence adds exactly that row |
| Ranking.InsertSorted | src/Service/PuzzleService.php:256 | Inserting into a sorted sequence keeps it sorted by score DESC, createdAt ASC |
| Ranking.Ranked | src/Service/PuzzleService.php:256 | Defines the `findBy` read-back in the order score DESC, createdAt ASC, by insertion of each row; it has as many rows as the table |
| Ranking.RankedIsSortedPermutation | src/Service/PuzzleService.php:256 | The ranked read-back of the table is sorted and is a permutation of its rows |
| Ranking.TopN | src/Service/PuzzleService.php:256-262 | Defines the rows kept: the first 10 rows of the ranked read-back (all of them when there are at most 10), the complement of `array_slice($allEntries, 10)` |
| Ranking.TopNKeepsBest | src/Service/PuzzleService.php:256-265 | The rows kept are min(10, n) rows of the table, sorted, with no dropped row ranking before a kept one; a table of at most 10 rows is kept whole |
| Ranking.RemoveOne | src/Service/PuzzleService.php:262 | Removing a row deletes exactly one copy of it |
| Ranking.SortedUnique | src/Service/PuzzleService.php:256 | Two sorted arrangements of the same rows, with distinct creation times, are equal, so the rank order is total |
| Ranking.RankedOfTopN | src/Service/PuzzleService.php:256-265 | A table holding exactly the kept rows reads back in rank order as exactly the first 10 of the ranked old table |
| Ranking.InsertLast | src/Service/PuzzleService.php:256 | A row that ranks after every other row is placed last |
| Service.IsPuzzleComplete | src/Service/PuzzleService.php:215-229 | True when no letters remain; otherwise true iff no dictionary word can be formed from the remaining letters (the search limited to 10 words comes back empty) |
| Service.Validate | src/Service/PuzzleService.php:69-107 | A rejection is reported iff some check fails, and the reported check is the first failing one in the order: no active puzzle, empty, longer than 14, not alphabetic, already submitted, not in dictionary, letters unavailable |
| Service.PassesEveryCheck | src/Service/PuzzleService.php:69-107 | An attempt with no rejection has an active puzzle and a non-empty alphabetic word of at most 14 letters; the word is new, in the dictionary, and formable from the remaining letters |
| Service.FirstFailureUnique | src/Service/PuzzleService.php:69-107 | Only one rejection can be the first failing check |
| Service.StuckOnDuplicates | src/Service/PuzzleService.php:215-229 | When letters remain and every formable dictionary word is already in the log, the puzzle is not complete, yet every attempt on it is refused |
| Service.DuplicateAlwaysRefused | src/Service/PuzzleService.php:89-97 | A well-formed word already in the log is refused as a duplicate, whatever letters remain and whatever the dictionary says |
| Service.ZeroIsEmptyWord | src/Service/PuzzleService.php:74-79 | A "0" padded with blanks, on an active puzzle, is refused as an empty word |
| Service.UpdateKeepsInvariant | src/Service/PuzzleService.php:231-252 | After the top-scorer update, the table has at most 10 rows, its words are unique, and its creation times are unique and in the past |
| Service.RankedViewAfterUpdate | src/Service/PuzzleService.php:231-267 | When the word qualifies, the table read in rank order is exactly the first 10 of the ranked old rows plus the new row |
| Service.RoomKeepsNewEntry | src/Service/PuzzleService.php:236-249 | On a board with room, a qualifying word is added and no row is removed |
| Service.MinimumTieEvicted | src/Service/PuzzleService.php:240-265 | On a full board, a new word that only ties the minimum is inserted and then evicted as the latest of the tied rows; the table ends as it was |
| Service.BelowMinimumIgnoredDespiteRoom | src/Service/PuzzleService.php:240 | A score below the minimum is not recorded, even when the board has fewer than 10 rows |
| Service.RemoveEntries | src/Service/PuzzleService.php:259-265 | The removal loop deletes exactly the listed rows |
| Service.CreatePuzzleTwice | src/Service/PuzzleService.php:36-40 | Calling createPuzzle twice for one session returns the same active puzzle with the same pool |
| Service.PuzzleService.constructor | src/Service/PuzzleService.php:23-31 | The service starts with no sessions, an empty scores table and the clock at 0, and it is valid |
| Service.PuzzleService.AttemptFor | src/Service/PuzzleService.php:67-74 | Defines what the judge looks at for a session: whether it has an active puzzle (a missing session counts as none), the normalised word, and that puzzle's log and remaining letters |
| Service.PuzzleService.CreatePuzzle | src/Service/PuzzleService.php:33-63 | An active puzzle of the session is returned with nothing changed. Otherwise a fresh puzzle over a newly generated pool becomes the session's active puzzle, with all letters remaining and no submissions. The scores table is untouched |
| Service.PuzzleService.StartPuzzle | src/Service/PuzzleService.php:42-62 | A fresh puzzle over a generated pool is installed for the session; the other sessions and the table are unchanged |
| Service.PuzzleService.SubmitWord | src/Service/PuzzleService.php:65-143 | Rejects iff some check fails on the normalised word, with the first failing check as the reason, and a rejection changes no state. An acceptance records the upper-case word scored by its length and consumes exactly its letters. The puzzle is deactivated iff it is now complete, and the reported isComplete is that value. The total score is the log's sum and, with the letters left, makes up all 14 pool letters. The top scorers are updated as `TopScorersUpdated` prescribes. The service invariant is kept |
| Service.PuzzleService.AcceptWord | src/Service/PuzzleService.php:109-142 | Once every check has passed, the word is accepted with the effects described for SubmitWord |
| Service.PuzzleService.RecordWord | src/Service/PuzzleService.php:109-142 | Records the word on its puzzle and on the scores table and reports the outcome; the clock advances by one |
| Service.PuzzleService.ApplyToPuzzle | src/Service/PuzzleService.php:112-126 | The submission joins the log and its letters leave the remaining ones. The puzzle stays active iff it is not complete. Total score plus remaining letters is 14, and every session stays valid |
| Service.PuzzleService.RecordScore | src/Service/PuzzleService.php:131-132 | Applies the top-scorer update at the current tick, keeps the table invariant, and advances the clock |
| Service.PuzzleService.UpdateTopScorers | src/Service/PuzzleService.php:231-252 | A word already on the board, or below the current minimum, leaves the table unchanged; otherwise the table holds the first 10 in rank order of the old rows plus the new one; the table invariant is kept |
| Service.PuzzleService.LimitLeaderboard | src/Service/PuzzleService.php:254-267 | The table ends up holding exactly the first 10 rows in rank order |
| Service.PuzzleService.EndGame | src/Service/PuzzleService.php:269-281 | Returns every dictionary word still formable from the remaining letters and the total score, deactivates the puzzle, and changes nothing else; total score plus remaining letters is 14 |

Notes where the model departs from the source text, or where the source text departs from its tests:

- On line 240 the code inserts a new word only when the table is empty or the
  score reaches the current minimum. It never checks whether the table has fewer
  than ten rows. The model follows the code, and `BelowMinimumIgnoredDespiteRoom`
  shows the consequence.
- `testSubmitWordAcceptsValidWordAndReturnsResult`
  (tests/Service/PuzzleServiceTest.php:129-157) stubs `calculateRemainingWords`
  to return `[]` and the remaining letters to be non-empty. It then expects
  `isComplete` to be false. By lines 220-228 the code reports true in that
  situation. The model follows the code.
- The completion check (line 225) asks the dictionary for any formable word,
  including words already in the log, which lines 90-97 refuse as duplicates.
  A puzzle whose only formable words were already submitted therefore stays
  active although no word can be accepted any more. The model follows the code,
  and `StuckOnDuplicates` shows the consequence.
- `RecordWord` updates the scores table first and the puzzle second. The source
  does it the other way round (lines 113-132). The two steps touch disjoint state
  and read nothing the other writes, so the outcome is the same.

## Left out

- `getPuzzleState` and `getLeaderboard` (lines 145-188) are read-only projections. `getLeaderboard` is an ORM aggregate (sum per session) that does not read the scores table; neither is modelled.
- Persistence (`persist`, `flush`, `remove`, `findOneBy`, `findBy`) is replaced by in-memory fields. Database-assigned ids and timestamps are the model clock `clock`.
- IsPuzzleComplete is a function of the remaining letters. It stands for the Puzzle entity's `getRemainingLetters` string, and the string's order of letters is not modelled.
- The Puzzle and Submission entity classes are not part of this model. `canUseLetters`, `useLetters`, `getTotalScore`, `setIsActive` and the initial state of a new puzzle are assumed contracts (see `Entities`). `getTotalScore` is assumed to include the new submission.
- Student: the `Student` row is folded into the `sessions` map. `updateLastActivity` and the student timestamps are not modelled.
- The controller (HTTP/JSON plumbing) is not modelled.
- Randomness: `array_rand` and `shuffle` are arbitrary choices, not a uniform distribution.
- WordListService is not part of this model. Only the contract of `isValidWord` and `calculateRemainingWords` is kept, realised by a scan over `Dictionary.words`.
- Service.PuzzleService.EndGame: requires that the session exists. The source dereferences a null student there and crashes; that crash is not modelled. The default `$limit` of calculateRemainingWords (line 273 passes none) is assumed to mean no limit, because WordListService is not part of this model.
- Strings are sequences of `char`. They stand for PHP byte strings, and `strtoupper`/`ctype_alpha` act on ASCII only, as PHP 8 does.
- Concurrency: each service call is treated as atomic, and races on the scores table are not modelled.
- The `Reject` reasons stand for the PHP exceptions (`NotFoundHttpException` for a missing or inactive puzzle, `BadRequestHttpException` otherwise); their messages are not modelled.
