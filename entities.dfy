/** The Puzzle and Submission entities. Their PHP classes are not part of this
    model, so the behaviour given here for `canUseLetters`, `useLetters`,
    `getTotalScore`, `setIsActive` and the initial state after
    `setPuzzleString` is an ASSUMPTION, stated as contracts:
    - a new puzzle is active, has no submissions, and its remaining letters
      are the letters of its pool string;
    - canUseLetters(w) holds iff multiset(w) <= remaining;
    - useLetters(w) sets remaining := remaining - multiset(w);
    - getTotalScore is the sum of the scores of the puzzle's submissions;
    - attaching a submission to the puzzle appends it to `submissions`. */
module Entities {
  import opened Letters

  /** A recorded word. `submittedAt` is the model-clock tick of acceptance. */
  datatype Submission = Submission(word: string, score: int, submittedAt: nat)

  /** The letters consumed by a sequence of submissions. */
  function LettersOf(subs: seq<Submission>): multiset<char> {
    if subs == [] then multiset{}
    else LettersOf(subs[..|subs| - 1]) + multiset(subs[|subs| - 1].word)
  }

  /** The sum of the scores of a sequence of submissions. */
  function ScoreSum(subs: seq<Submission>): int {
    if subs == [] then 0
    else ScoreSum(subs[..|subs| - 1]) + subs[|subs| - 1].score
  }

  /** Does the log hold a submission of `w`?
      (findOneBy(['puzzle' => $puzzle, 'word' => $word])) */
  predicate WasSubmitted(subs: seq<Submission>, w: string) {
    exists i :: 0 <= i < |subs| && subs[i].word == w
  }

  predicate WordsDistinct(subs: seq<Submission>) {
    forall i, j :: 0 <= i < |subs| && 0 <= j < |subs| && i != j ==> subs[i].word != subs[j].word
  }

  predicate ScoredByLength(subs: seq<Submission>) {
    forall i :: 0 <= i < |subs| ==> subs[i].score == |subs[i].word|
  }

  /** When every score is the word's length, the total score is the number of
      letters consumed. */
  lemma {:induction false} ScoreSumCountsLetters(subs: seq<Submission>)
    requires ScoredByLength(subs)
    ensures ScoreSum(subs) == |LettersOf(subs)|
  {
    if subs != [] {
      var t := subs[..|subs| - 1];
      assert ScoredByLength(t) by {
        forall i | 0 <= i < |t| ensures t[i].score == |t[i].word| { assert t[i] == subs[i]; }
      }
      ScoreSumCountsLetters(t);
    }
  }

  lemma AppendSubmission(subs: seq<Submission>, s: Submission)
    ensures LettersOf(subs + [s]) == LettersOf(subs) + multiset(s.word)
    ensures ScoreSum(subs + [s]) == ScoreSum(subs) + s.score
  {
    assert (subs + [s])[..|subs|] == subs;
  }

  /** The state of a puzzle at one moment. */
  datatype PuzzleView = PuzzleView(puzzleString: string, remaining: multiset<char>, submissions: seq<Submission>, active: bool)

  /** A puzzle's letters are conserved (the pool is what remains plus what
      was consumed), and its log holds distinct upper-case words each scored
      by its length. */
  ghost predicate PuzzleInvariant(puzzleString: string, remaining: multiset<char>, subs: seq<Submission>) {
    && multiset(puzzleString) == remaining + LettersOf(subs)
    && (forall i :: 0 <= i < |subs| ==> IsUpperWord(subs[i].word))
    && ScoredByLength(subs)
    && WordsDistinct(subs)
  }

  /** A word not yet in the log keeps the log's words distinct. */
  lemma AppendKeepsDistinct(subs: seq<Submission>, s: Submission)
    requires WordsDistinct(subs) && !WasSubmitted(subs, s.word)
    ensures WordsDistinct(subs + [s])
  {
    var t := subs + [s];
    forall i, j | 0 <= i < |t| && 0 <= j < |t| && i != j ensures t[i].word != t[j].word {
      if i < |subs| && j < |subs| {
        assert t[i] == subs[i] && t[j] == subs[j];
      } else if i < |subs| {
        assert t[i] == subs[i];
      } else {
        assert t[j] == subs[j];
      }
    }
  }

  /** Consuming the letters of a word formed from the remaining ones moves
      them from the remaining letters to the consumed ones. */
  lemma MoveLetters(pool: multiset<char>, remaining: multiset<char>, used: multiset<char>, w: multiset<char>)
    requires pool == remaining + used && w <= remaining
    ensures pool == (remaining - w) + (used + w)
  {
  }

  /** Recording a new upper-case word, scored by its length and formed from
      the remaining letters, and consuming those letters keeps the invariant. */
  lemma RecordKeepsInvariant(puzzleString: string, remaining: multiset<char>, subs: seq<Submission>, s: Submission)
    requires PuzzleInvariant(puzzleString, remaining, subs)
    requires IsUpperWord(s.word) && s.score == |s.word| && !WasSubmitted(subs, s.word)
    requires multiset(s.word) <= remaining
    ensures PuzzleInvariant(puzzleString, remaining - multiset(s.word), subs + [s])
  {
    var t := subs + [s];
    AppendSubmission(subs, s);
    MoveLetters(multiset(puzzleString), remaining, LettersOf(subs), multiset(s.word));
    AppendKeepsDistinct(subs, s);
    assert forall i :: 0 <= i < |subs| ==> t[i] == subs[i];
    assert t[|subs|] == s;
  }

  class Puzzle {
    var puzzleString: string
    var remaining: multiset<char>
    var submissions: seq<Submission>
    var active: bool

    /** The puzzle's own invariant (see PuzzleInvariant). */
    ghost predicate Valid()
      reads this
    {
      PuzzleInvariant(puzzleString, remaining, submissions)
    }

    function View(): PuzzleView
      reads this
    {
      PuzzleView(puzzleString, remaining, submissions, active)
    }

    /** new Puzzle() followed by setPuzzleString($puzzleString). */
    constructor (puzzleString: string)
      ensures this.puzzleString == puzzleString
      ensures remaining == multiset(puzzleString) && submissions == [] && active
      ensures Valid()
    {
      this.puzzleString := puzzleString;
      remaining := multiset(puzzleString);
      submissions := [];
      active := true;
    }

    /** canUseLetters: the remaining letters contain the word. */
    predicate CanUseLetters(w: string)
      reads this
      ensures CanUseLetters(w) <==> forall c :: multiset(w)[c] <= remaining[c]
    {
      Constructible(w, remaining)
    }

    /** useLetters: removes the word's letters from the remaining ones. */
    method UseLetters(w: string)
      requires CanUseLetters(w)
      modifies this
      ensures remaining == old(remaining) - multiset(w)
      ensures remaining + multiset(w) == old(remaining)
      ensures puzzleString == old(puzzleString) && submissions == old(submissions) && active == old(active)
    {
      remaining := remaining - multiset(w);
    }

    /** $submission->setPuzzle($puzzle): the submission joins the log. */
    method AddSubmission(s: Submission)
      modifies this
      ensures submissions == old(submissions) + [s]
      ensures puzzleString == old(puzzleString) && remaining == old(remaining) && active == old(active)
    {
      submissions := submissions + [s];
    }

    method SetIsActive(b: bool)
      modifies this
      ensures active == b
      ensures puzzleString == old(puzzleString) && remaining == old(remaining) && submissions == old(submissions)
    {
      active := b;
    }

    /** getTotalScore: the sum of the scores of the log. */
    function TotalScore(): int
      reads this
    {
      ScoreSum(submissions)
    }

    /** In a valid puzzle the total score is the number of letters consumed
        from the pool. */
    lemma ScoreIsConsumedLetters()
      requires Valid()
      ensures TotalScore() + |remaining| == |puzzleString|
    {
      ScoreSumCountsLetters(submissions);
      assert |multiset(puzzleString)| == |puzzleString|;
    }
  }
}
