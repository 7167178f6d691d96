/** Pool generation (generatePuzzleString): three draws from VOWELS, eleven
    from COMMON_LETTERS, then an in-place shuffle. Each `array_rand` draw and
    each choice of the shuffle is an arbitrary (nondeterministic) choice, so
    what is proved holds for every outcome of the random source. */
module Generation {
  import opened Letters

  /** PHP `shuffle`: rearranges the array in place (Fisher-Yates, each
      position picked arbitrarily among those not yet placed). */
  method Shuffle(a: array<char>)
    modifies a
    ensures multiset(a[..]) == old(multiset(a[..]))
  {
    var i := a.Length;
    while i > 1
      invariant 0 <= i <= a.Length
      invariant multiset(a[..]) == old(multiset(a[..]))
    {
      var j :| 0 <= j < i;
      a[i - 1], a[j] := a[j], a[i - 1];
      i := i - 1;
    }
  }

  method GeneratePuzzleString() returns (s: string)
    ensures IsPool(s)
    ensures |s| == PUZZLE_LENGTH && AllIn(s, COMMON_LETTERS) && VowelCount(multiset(s)) >= VOWEL_DRAWS
  {
    var puzzle: string := "";

    // Start with three random vowels.
    for i := 0 to VOWEL_DRAWS
      invariant |puzzle| == i && AllIn(puzzle, VOWELS)
    {
      var k :| 0 <= k < |VOWELS|;
      puzzle := puzzle + [VOWELS[k]];
    }

    // Fill the rest with common letters.
    var remainingLength := PUZZLE_LENGTH - VOWEL_DRAWS;
    for i := 0 to remainingLength
      invariant |puzzle| == VOWEL_DRAWS + i
      invariant AllIn(puzzle[..VOWEL_DRAWS], VOWELS) && AllIn(puzzle[VOWEL_DRAWS..], COMMON_LETTERS)
    {
      var k :| 0 <= k < |COMMON_LETTERS|;
      assert puzzle[..VOWEL_DRAWS] == (puzzle + [COMMON_LETTERS[k]])[..VOWEL_DRAWS];
      assert (puzzle + [COMMON_LETTERS[k]])[VOWEL_DRAWS..] == puzzle[VOWEL_DRAWS..] + [COMMON_LETTERS[k]];
      puzzle := puzzle + [COMMON_LETTERS[k]];
    }

    // Shuffle the letters.
    var letters := new char[|puzzle|](i requires 0 <= i < |puzzle| => puzzle[i]);
    assert letters[..] == puzzle;
    Shuffle(letters);
    s := letters[..];

    ghost var v, c := puzzle[..VOWEL_DRAWS], puzzle[VOWEL_DRAWS..];
    assert v + c == puzzle;
    assert |v| == VOWEL_DRAWS && |c| == PUZZLE_LENGTH - VOWEL_DRAWS
      && AllIn(v, VOWELS) && AllIn(c, COMMON_LETTERS) && multiset(s) == multiset(v + c);
    PoolIsCommonWithVowels(s);
  }
}
