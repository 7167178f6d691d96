/** PuzzleService: the engine that creates puzzles, judges submitted words,
    detects completion, ends games and maintains the Top-10 scores table.
    The repositories and the entity manager are replaced by in-memory state:
    `sessions` maps a session id to its student's puzzle, `board` holds the
    rows of the scores table, and `clock` is a strictly increasing counter
    standing for the timestamps and identifiers the database assigns. */
module Service {
  import opened Letters
  import opened WordList
  import opened Entities
  import opened Ranking
  import Generation

  /** How many words the in-play completion check asks the dictionary for. */
  const COMPLETION_SEARCH_LIMIT: nat := 10

  // ---------------------------------------------------------------------
  // Completion check (isPuzzleComplete).

  /** A puzzle is complete when no letters remain (decided without the
      dictionary) or when the bounded dictionary search finds nothing, which
      by the search's contract means no dictionary word can be formed. */
  function IsPuzzleComplete(d: Dictionary, remaining: multiset<char>): (complete: bool)
    ensures remaining == multiset{} ==> complete
    ensures complete <==> remaining == multiset{} || forall w :: IsValidWord(d, w) ==> !Constructible(w, remaining)
  {
    if remaining == multiset{} then true
    else CalculateRemainingWords(d, remaining, AtMost(COMPLETION_SEARCH_LIMIT)) == []
  }

  // ---------------------------------------------------------------------
  // Judging a submission: the ordered chain of rejections.

  datatype Reject =
    | NoActivePuzzle
    | EmptyWord
    | WordTooLong
    | NotAlphabetic
    | AlreadySubmitted
    | NotInDictionary
    | LettersUnavailable

  /** Position of each check in the order submitWord applies them. */
  function CheckOrder(e: Reject): nat {
    match e
    case NoActivePuzzle => 0
    case EmptyWord => 1
    case WordTooLong => 2
    case NotAlphabetic => 3
    case AlreadySubmitted => 4
    case NotInDictionary => 5
    case LettersUnavailable => 6
  }

  /** What the judge looks at: whether the session has an active puzzle, the
      normalised word, and that puzzle's log and remaining letters. */
  datatype Attempt = Attempt(hasActivePuzzle: bool, word: string, submissions: seq<Submission>, remaining: multiset<char>)

  /** The condition under which each check throws. */
  predicate Fails(e: Reject, a: Attempt, d: Dictionary) {
    match e
    case NoActivePuzzle => !a.hasActivePuzzle
    case EmptyWord => PhpEmpty(a.word)
    case WordTooLong => |a.word| > PUZZLE_LENGTH
    case NotAlphabetic => !CtypeAlpha(a.word)
    case AlreadySubmitted => WasSubmitted(a.submissions, a.word)
    case NotInDictionary => !IsValidWord(d, a.word)
    case LettersUnavailable => !Constructible(a.word, a.remaining)
  }

  /** `e` is the error reported: its check fails and every earlier one passes. */
  ghost predicate IsFirstFailure(e: Reject, a: Attempt, d: Dictionary) {
    Fails(e, a, d) && forall e' :: CheckOrder(e') < CheckOrder(e) ==> !Fails(e', a, d)
  }

  datatype Option<T> = None | Some(value: T)

  /** The chain of checks of submitWord, in order: the first failing check
      is the error reported, and there is none exactly when every check
      passes. */
  function Validate(a: Attempt, d: Dictionary): (v: Option<Reject>)
    ensures v.Some? <==> exists e :: Fails(e, a, d)
    ensures v.Some? ==> IsFirstFailure(v.value, a, d)
  {
    if !a.hasActivePuzzle then
      assert Fails(NoActivePuzzle, a, d); Some(NoActivePuzzle)
    else if PhpEmpty(a.word) then
      assert Fails(EmptyWord, a, d); Some(EmptyWord)
    else if |a.word| > PUZZLE_LENGTH then
      assert Fails(WordTooLong, a, d); Some(WordTooLong)
    else if !CtypeAlpha(a.word) then
      assert Fails(NotAlphabetic, a, d); Some(NotAlphabetic)
    else if WasSubmitted(a.submissions, a.word) then
      assert Fails(AlreadySubmitted, a, d); Some(AlreadySubmitted)
    else if !IsValidWord(d, a.word) then
      assert Fails(NotInDictionary, a, d); Some(NotInDictionary)
    else if !Constructible(a.word, a.remaining) then
      assert Fails(LettersUnavailable, a, d); Some(LettersUnavailable)
    else
      None
  }

  /** A word the judge lets through passes every check. */
  lemma PassesEveryCheck(a: Attempt, d: Dictionary)
    requires Validate(a, d).None?
    ensures a.hasActivePuzzle && !PhpEmpty(a.word) && |a.word| <= PUZZLE_LENGTH && CtypeAlpha(a.word)
    ensures !WasSubmitted(a.submissions, a.word) && IsValidWord(d, a.word) && Constructible(a.word, a.remaining)
  {
    assert !Fails(NoActivePuzzle, a, d) && !Fails(EmptyWord, a, d) && !Fails(WordTooLong, a, d);
    assert !Fails(NotAlphabetic, a, d) && !Fails(AlreadySubmitted, a, d);
    assert !Fails(NotInDictionary, a, d) && !Fails(LettersUnavailable, a, d);
  }

  /** At most one error can be the first failing check. */
  lemma FirstFailureUnique(e1: Reject, e2: Reject, a: Attempt, d: Dictionary)
    requires IsFirstFailure(e1, a, d) && IsFirstFailure(e2, a, d)
    ensures e1 == e2
  {
    assert CheckOrder(e1) == CheckOrder(e2);
  }

  /** A word already in the log is refused as a duplicate whatever letters
      remain, once it passes the shape checks. */
  lemma DuplicateAlwaysRefused(a: Attempt, d: Dictionary)
    requires a.hasActivePuzzle && !PhpEmpty(a.word) && |a.word| <= PUZZLE_LENGTH && CtypeAlpha(a.word)
    requires WasSubmitted(a.submissions, a.word)
    ensures IsFirstFailure(AlreadySubmitted, a, d)
  {
  }

  /** The completion check does not look at the log: when every word still
      formable has already been submitted, the puzzle is not complete, yet
      every attempt on it is refused. */
  lemma StuckOnDuplicates(d: Dictionary, subs: seq<Submission>, remaining: multiset<char>, w: string)
    requires remaining != multiset{}
    requires IsValidWord(d, w) && Constructible(w, remaining)
    requires forall v :: IsValidWord(d, v) && Constructible(v, remaining) ==> WasSubmitted(subs, v)
    ensures !IsPuzzleComplete(d, remaining)
    ensures forall v :: Validate(Attempt(true, v, subs, remaining), d).Some?
  {
    forall v ensures Validate(Attempt(true, v, subs, remaining), d).Some? {
      if Validate(Attempt(true, v, subs, remaining), d).None? {
        PassesEveryCheck(Attempt(true, v, subs, remaining), d);
      }
    }
  }

  /** PHP's `empty("0")` is true, so a "0" padded with blanks is refused as
      an empty word. */
  lemma ZeroIsEmptyWord(p: string, q: string, subs: seq<Submission>, remaining: multiset<char>, d: Dictionary)
    requires AllTrim(p) && AllTrim(q)
    ensures IsFirstFailure(EmptyWord, Attempt(true, Normalize(p + "0" + q), subs, remaining), d)
  {
    var a := Attempt(true, Normalize(p + "0" + q), subs, remaining);
    NormalizePaddedZero(p, q);
    assert Fails(EmptyWord, a, d);
    forall e | CheckOrder(e) < CheckOrder(EmptyWord) ensures !Fails(e, a, d) {
      assert e == NoActivePuzzle;
    }
  }

  /** What an accepted submission reports. */
  datatype Outcome =
    | Accepted(word: string, score: int, totalScore: int, remainingLetters: multiset<char>,
               isComplete: bool, submissionId: nat, puzzleString: string)
    | Rejected(reason: Reject)

  // ---------------------------------------------------------------------
  // Top scorers (updateTopScorers followed by limitLeaderboard).

  /** The effect of updateTopScorers on the scores table: a word already on
      the board, or a score below the current minimum, leaves the table
      unchanged; otherwise the table ends up holding the first BOARD_SIZE rows,
      in rank order, of the old rows plus the new one. As in the source, a
      table with free room still refuses a score below its minimum. */
  ghost predicate TopScorersUpdated(rows: seq<Entry>, rows': seq<Entry>, word: string, score: int, now: nat) {
    if OnBoard(rows, word) || (rows != [] && score < MinScore(rows)) then rows' == rows
    else multiset(rows') == multiset(TopN(rows + [Entry(word, score, now)]))
  }

  /** The table's invariant: at most BOARD_SIZE rows, words unique (the
      UNIQUE index on scores.word), creation times unique and in the past. */
  ghost predicate BoardInvariant(rows: seq<Entry>, clock: nat) {
    && |rows| <= BOARD_SIZE
    && KeysDistinct(rows, WordOf)
    && KeysDistinct(rows, TimeOf)
    && forall i :: 0 <= i < |rows| ==> rows[i].createdAt < clock
  }

  lemma AppendNewEntry(rows: seq<Entry>, e: Entry, now: nat)
    requires BoardInvariant(rows, now) && !OnBoard(rows, e.word) && e.createdAt == now
    ensures KeysDistinct(rows + [e], WordOf) && KeysDistinct(rows + [e], TimeOf)
    ensures forall i :: 0 <= i < |rows + [e]| ==> (rows + [e])[i].createdAt <= now
  {
  }

  /** updateTopScorers keeps the table's invariant. */
  lemma UpdateKeepsInvariant(rows: seq<Entry>, rows': seq<Entry>, word: string, score: int, now: nat)
    requires BoardInvariant(rows, now)
    requires TopScorersUpdated(rows, rows', word, score, now)
    ensures BoardInvariant(rows', now + 1)
  {
    if !(OnBoard(rows, word) || (rows != [] && score < MinScore(rows))) {
      var e := Entry(word, score, now);
      var t := rows + [e];
      AppendNewEntry(rows, e, now);
      TopNKeepsBest(t);
      SubKeepsKeysDistinct(t, rows', WordOf);
      SubKeepsKeysDistinct(t, rows', TimeOf);
      assert |rows'| == |multiset(rows')| == |TopN(t)|;
      forall i | 0 <= i < |rows'| ensures rows'[i].createdAt < now + 1 {
        assert rows'[i] in multiset(t);
      }
    }
  }

  /** Read back in rank order, the table after updateTopScorers is exactly
      the first BOARD_SIZE of the ranked old rows plus the new one. */
  lemma RankedViewAfterUpdate(rows: seq<Entry>, rows': seq<Entry>, word: string, score: int, now: nat)
    requires BoardInvariant(rows, now)
    requires TopScorersUpdated(rows, rows', word, score, now)
    requires !OnBoard(rows, word) && (rows == [] || score >= MinScore(rows))
    ensures Ranked(rows') == TopN(rows + [Entry(word, score, now)])
  {
    AppendNewEntry(rows, Entry(word, score, now), now);
    RankedOfTopN(rows + [Entry(word, score, now)], rows');
  }

  /** With room on the board, a qualifying word is kept. */
  lemma RoomKeepsNewEntry(rows: seq<Entry>, rows': seq<Entry>, word: string, score: int, now: nat)
    requires |rows| < BOARD_SIZE
    requires TopScorersUpdated(rows, rows', word, score, now)
    requires !OnBoard(rows, word) && (rows == [] || score >= MinScore(rows))
    ensures multiset(rows') == multiset(rows) + multiset{Entry(word, score, now)}
  {
    TopNKeepsBest(rows + [Entry(word, score, now)]);
  }

  /** On a full board, a new word that only ties the minimum is inserted and
      at once evicted again, being the latest of the tied rows. */
  lemma MinimumTieEvicted(rows: seq<Entry>, rows': seq<Entry>, word: string, now: nat)
    requires BoardInvariant(rows, now) && |rows| == BOARD_SIZE && !OnBoard(rows, word)
    requires TopScorersUpdated(rows, rows', word, MinScore(rows), now)
    ensures multiset(rows') == multiset(rows)
  {
    var e := Entry(word, MinScore(rows), now);
    var t := rows + [e];
    assert t[..|t| - 1] == rows;
    var r := Ranked(rows);
    RankedIsSortedPermutation(rows);
    assert Ranked(t) == Insert(r, e);
    forall i | 0 <= i < |r| ensures !RanksBefore(e, r[i]) {
      assert r[i] in multiset(rows);
    }
    InsertLast(r, e);
    assert TopN(t) == r;
  }

  /** As written, the minimum-score test is applied even when the board has
      free room: a low score on a board of fewer than BOARD_SIZE rows is not
      recorded. */
  lemma BelowMinimumIgnoredDespiteRoom(rows: seq<Entry>, rows': seq<Entry>, word: string, score: int, now: nat)
    requires rows != [] && |rows| < BOARD_SIZE && !OnBoard(rows, word) && score < MinScore(rows)
    requires TopScorersUpdated(rows, rows', word, score, now)
    ensures rows' == rows && !OnBoard(rows', word)
  {
  }

  lemma SubtractStep(a: multiset<Entry>, x: multiset<Entry>, e: Entry)
    ensures (a - x) - multiset{e} == a - (x + multiset{e})
  {
  }

  lemma SubtractSplit(p: multiset<Entry>, t: multiset<Entry>)
    ensures (p + t) - t == p
  {
  }

  /** The removal loop of limitLeaderboard: each listed row is deleted from
      the table, one at a time. */
  method RemoveEntries(rows: seq<Entry>, entriesToRemove: seq<Entry>) returns (kept: seq<Entry>)
    ensures multiset(kept) == multiset(rows) - multiset(entriesToRemove)
  {
    kept := rows;
    for i := 0 to |entriesToRemove|
      invariant multiset(kept) == multiset(rows) - multiset(entriesToRemove[..i])
    {
      assert entriesToRemove[..i + 1] == entriesToRemove[..i] + [entriesToRemove[i]];
      SubtractStep(multiset(rows), multiset(entriesToRemove[..i]), entriesToRemove[i]);
      kept := RemoveOne(kept, entriesToRemove[i]);
    }
    assert entriesToRemove[..|entriesToRemove|] == entriesToRemove;
  }

  // ---------------------------------------------------------------------
  // The service.

  /** The puzzle side of accepting submission `s`: it joins the log, its
      letters leave the remaining ones, and the puzzle stays active exactly
      when some dictionary word can still be formed. */
  ghost predicate PuzzleStep(d: Dictionary, v0: PuzzleView, v1: PuzzleView, s: Submission, complete: bool) {
    && v1 == PuzzleView(v0.puzzleString, v0.remaining - multiset(s.word), v0.submissions + [s], !complete)
    && complete == IsPuzzleComplete(d, v1.remaining)
  }

  /** What an accepted `word`, judged at tick `now`, does to its puzzle (from
      `v0` to `v1`) and to the scores table (from `b0` to `b1`), and what the
      service reports: the word scores its length, the total score is the sum
      of the log and, with the letters left, makes up the whole pool. */
  ghost predicate Recorded(d: Dictionary, word: string, now: nat, v0: PuzzleView, v1: PuzzleView,
                           b0: seq<Entry>, b1: seq<Entry>, r: Outcome) {
    && r.Accepted?
    && PuzzleStep(d, v0, v1, Submission(word, |word|, now), r.isComplete)
    && r == Accepted(word, |word|, ScoreSum(v1.submissions), v1.remaining, r.isComplete, now, v1.puzzleString)
    && r.totalScore + |r.remainingLetters| == PUZZLE_LENGTH
    && TopScorersUpdated(b0, b1, word, |word|, now)
  }

  /** Each session owns its own puzzle (the UNIQUE index on
      student.puzzle_id), and every puzzle is valid and has a generated pool. */
  ghost predicate SessionsValid(sessions: map<string, Puzzle>)
    reads sessions.Values
  {
    && (forall s, t :: s in sessions && t in sessions && s != t ==> sessions[s] != sessions[t])
    && (forall s :: s in sessions ==> sessions[s].Valid() && IsPool(sessions[s].puzzleString))
  }

  class PuzzleService {
    const dict: Dictionary
    var sessions: map<string, Puzzle>
    var board: seq<Entry>
    var clock: nat

    /** The sessions are valid (see `SessionsValid`) and the scores table
        keeps its invariant. */
    ghost predicate Valid()
      reads this, sessions.Values
    {
      SessionsValid(sessions) && BoardInvariant(board, clock)
    }

    constructor (dict: Dictionary)
      ensures Valid()
      ensures this.dict == dict && sessions == map[] && board == [] && clock == 0
    {
      this.dict := dict;
      sessions := map[];
      board := [];
      clock := 0;
    }

    ghost predicate HasActivePuzzle(sid: string)
      reads this, sessions.Values
    {
      sid in sessions && sessions[sid].active
    }

    /** What submitWord judges for session `sid` and input `raw`. */
    function AttemptFor(sid: string, raw: string): Attempt
      reads this, sessions.Values
    {
      if sid in sessions then
        Attempt(sessions[sid].active, Normalize(raw), sessions[sid].submissions, sessions[sid].remaining)
      else
        Attempt(false, Normalize(raw), [], multiset{})
    }

    /** createPuzzle: an active puzzle of the session is returned untouched;
        otherwise a freshly generated pool becomes the session's new active
        puzzle. */
    method CreatePuzzle(sid: string) returns (p: Puzzle)
      requires Valid()
      modifies this
      ensures Valid()
      ensures board == old(board) && clock == old(clock)
      ensures sid in sessions && sessions[sid] == p && p.active
      ensures old(HasActivePuzzle(sid)) ==>
        p == old(sessions[sid]) && sessions == old(sessions) && unchanged(p)
      ensures !old(HasActivePuzzle(sid)) ==>
        && fresh(p) && sessions == old(sessions)[sid := p]
        && IsPool(p.puzzleString) && p.remaining == multiset(p.puzzleString) && p.submissions == []
    {
      if sid in sessions && sessions[sid].active {
        p := sessions[sid];
      } else {
        p := StartPuzzle(sid);
      }
    }

    /** The second half of createPuzzle: a new puzzle over a freshly
        generated pool becomes the session's puzzle. */
    method StartPuzzle(sid: string) returns (p: Puzzle)
      requires Valid()
      modifies this`sessions
      ensures Valid()
      ensures board == old(board) && clock == old(clock)
      ensures fresh(p) && sessions == old(sessions)[sid := p] && p.active
      ensures IsPool(p.puzzleString) && p.remaining == multiset(p.puzzleString) && p.submissions == []
    {
      var puzzleString := Generation.GeneratePuzzleString();
      p := new Puzzle(puzzleString);
      sessions := sessions[sid := p];
    }

    /** submitWord: judges the normalised word by the ordered chain of checks;
        a rejection changes nothing, an acceptance records the word, consumes
        its letters, re-checks completion and updates the top scorers. */
    method SubmitWord(sid: string, raw: string) returns (r: Outcome)
      requires Valid()
      modifies this`board, this`clock, if sid in sessions then {sessions[sid]} else {}
      ensures Valid()
      ensures r.Rejected? <==> Validate(old(AttemptFor(sid, raw)), dict).Some?
      ensures r.Rejected? ==> r.reason == Validate(old(AttemptFor(sid, raw)), dict).value
      ensures r.Rejected? ==> unchanged(this) && (sid in sessions ==> unchanged(sessions[sid]))
      ensures r.Accepted? ==>
        && sid in sessions && old(sessions[sid].active)
        && IsUpperWord(Normalize(raw)) && Constructible(Normalize(raw), old(sessions[sid].remaining))
        && Recorded(dict, Normalize(raw), old(clock), old(sessions[sid].View()), sessions[sid].View(), old(board), board, r)
        && clock == old(clock) + 1
    {
      var verdict := Validate(AttemptFor(sid, raw), dict);
      if verdict.Some? {
        r := Rejected(verdict.value);
      } else {
        r := AcceptWord(sid, raw);
      }
    }

    /** submitWord once every check has passed. */
    method AcceptWord(sid: string, raw: string) returns (r: Outcome)
      requires Valid()
      requires Validate(AttemptFor(sid, raw), dict).None?
      modifies this`board, this`clock, if sid in sessions then {sessions[sid]} else {}
      ensures Valid()
      ensures r.Accepted?
      ensures
        && sid in sessions && old(sessions[sid].active)
        && IsUpperWord(Normalize(raw)) && Constructible(Normalize(raw), old(sessions[sid].remaining))
        && Recorded(dict, Normalize(raw), old(clock), old(sessions[sid].View()), sessions[sid].View(), old(board), board, r)
        && clock == old(clock) + 1
    {
      PassesEveryCheck(AttemptFor(sid, raw), dict);
      var p := sessions[sid];
      var word := Normalize(raw);
      AcceptedWordIsUpper(raw);
      r := RecordWord(sid, p, word);
    }

    /** The acceptance path of submitWord: the submission joins the log, the
        word's letters are consumed, completion is re-checked (deactivating a
        completed puzzle), the top scorers are updated, and the model clock
        advances past the tick used for the submission and the scores row. */
    method RecordWord(sid: string, p: Puzzle, word: string) returns (r: Outcome)
      requires Valid() && sid in sessions && sessions[sid] == p && p.active
      requires IsUpperWord(word) && !WasSubmitted(p.submissions, word) && Constructible(word, p.remaining)
      modifies this`board, this`clock, p
      ensures Valid()
      ensures Recorded(dict, word, old(clock), old(p.View()), p.View(), old(board), board, r)
      ensures clock == old(clock) + 1
    {
      var score := |word|;
      var now := clock;
      RecordScore(word, score);
      var isComplete := ApplyToPuzzle(sid, p, Submission(word, score, now));
      r := Accepted(word, score, p.TotalScore(), p.remaining, isComplete, now, p.puzzleString);
    }

    /** The puzzle's side of an acceptance. */
    method ApplyToPuzzle(sid: string, p: Puzzle, s: Submission) returns (isComplete: bool)
      requires SessionsValid(sessions) && sid in sessions && sessions[sid] == p && p.active
      requires IsUpperWord(s.word) && s.score == |s.word| && !WasSubmitted(p.submissions, s.word)
      requires Constructible(s.word, p.remaining)
      modifies p
      ensures SessionsValid(sessions)
      ensures PuzzleStep(dict, old(p.View()), p.View(), s, isComplete)
      ensures p.TotalScore() + |p.remaining| == PUZZLE_LENGTH
    {
      RecordKeepsInvariant(p.puzzleString, p.remaining, p.submissions, s);
      p.AddSubmission(s);
      p.UseLetters(s.word);
      isComplete := IsPuzzleComplete(dict, p.remaining);
      if isComplete {
        p.SetIsActive(false);
      }
      p.ScoreIsConsumedLetters();
      PoolIsCommonWithVowels(p.puzzleString);
      forall t | t in sessions ensures sessions[t].Valid() && IsPool(sessions[t].puzzleString) {
        if sessions[t] != p {
          assert old(sessions[t].Valid() && IsPool(sessions[t].puzzleString));
        }
      }
    }

    /** The scores side of an acceptance: updateTopScorers at the current
        tick, after which the clock advances. */
    method RecordScore(word: string, score: int)
      requires BoardInvariant(board, clock)
      modifies this`board, this`clock
      ensures TopScorersUpdated(old(board), board, word, score, old(clock))
      ensures BoardInvariant(board, clock) && clock == old(clock) + 1
    {
      UpdateTopScorers(word, score);
      clock := clock + 1;
    }

    /** updateTopScorers: records the word on the scores table unless it is
        already there or scores below the current minimum, then trims the
        table. The new row's createdAt is the current clock. */
    method UpdateTopScorers(word: string, score: int)
      requires BoardInvariant(board, clock)
      modifies this`board
      ensures TopScorersUpdated(old(board), board, word, score, clock)
      ensures BoardInvariant(board, clock + 1)
    {
      ghost var rows := board;
      if !OnBoard(board, word) {
        if board == [] || score >= MinScore(board) {
          board := board + [Entry(word, score, clock)];
          LimitLeaderboard();
        }
      }
      UpdateKeepsInvariant(rows, board, word, score, clock);
    }

    /** limitLeaderboard: reads the table in rank order and removes every row
        past the first BOARD_SIZE. */
    method LimitLeaderboard()
      modifies this`board
      ensures multiset(board) == multiset(TopN(old(board)))
    {
      var allEntries := Ranked(board);
      TopNSplit(board);
      if |allEntries| > BOARD_SIZE {
        var entriesToRemove := allEntries[BOARD_SIZE..];
        var kept := RemoveEntries(board, entriesToRemove);
        SubtractSplit(multiset(TopN(board)), multiset(entriesToRemove));
        board := kept;
      } else {
        TopNKeepsBest(board);
      }
    }

    /** endGame: lists every dictionary word still formable, reports the total
        score and makes the puzzle inactive. The session must exist. */
    method EndGame(sid: string) returns (remainingWords: seq<string>, totalScore: int)
      requires Valid()
      requires sid in sessions
      modifies sessions[sid]
      ensures Valid()
      ensures !sessions[sid].active
      ensures sessions[sid].remaining == old(sessions[sid].remaining)
      ensures sessions[sid].submissions == old(sessions[sid].submissions)
      ensures sessions[sid].puzzleString == old(sessions[sid].puzzleString)
      ensures forall w :: w in remainingWords <==> IsValidWord(dict, w) && Constructible(w, sessions[sid].remaining)
      ensures totalScore == sessions[sid].TotalScore()
      ensures totalScore + |sessions[sid].remaining| == PUZZLE_LENGTH
    {
      var p := sessions[sid];
      remainingWords := CalculateRemainingWords(dict, p.remaining, Unlimited);
      totalScore := p.TotalScore();
      p.SetIsActive(false);
      p.ScoreIsConsumedLetters();
      PoolIsCommonWithVowels(p.puzzleString);
      forall t | t in sessions ensures sessions[t].Valid() && IsPool(sessions[t].puzzleString) {
        if sessions[t] != p {
          assert old(sessions[t].Valid() && IsPool(sessions[t].puzzleString));
        }
      }
    }
  }

  /** Creating a puzzle twice for the same session returns the same puzzle
      with the same pool both times. */
  method CreatePuzzleTwice(svc: PuzzleService, sid: string) returns (p1: Puzzle, p2: Puzzle)
    requires svc.Valid()
    modifies svc
    ensures svc.Valid()
    ensures p1 == p2 && sid in svc.sessions && svc.sessions[sid] == p2 && p2.active
  {
    p1 := svc.CreatePuzzle(sid);
    ghost var pool := p1.puzzleString;
    p2 := svc.CreatePuzzle(sid);
    assert p2.puzzleString == pool;
  }
}
