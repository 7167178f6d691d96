/** Letters of the puzzle: the pool constants, the shape of a generated pool,
    the normalisation a submitted word goes through (PHP `trim` then
    `strtoupper`), the PHP predicates the judge applies to it (`empty`,
    `ctype_alpha`) and the letter-multiset "contains" test. */
module Letters {

  /** Length of every pool (PUZZLE_LENGTH). */
  const PUZZLE_LENGTH: nat := 14
  /** The alphabet of the eleven filler draws (COMMON_LETTERS). */
  const COMMON_LETTERS: string := "ETAOINSHRDLUCMFWY"
  /** The alphabet of the first three draws (VOWELS). */
  const VOWELS: string := "AEIOU"
  /** How many letters are drawn from VOWELS before the filler draws. */
  const VOWEL_DRAWS: nat := 3

  predicate AllIn(s: string, alphabet: string) {
    forall i :: 0 <= i < |s| ==> s[i] in alphabet
  }

  predicate IsVowel(c: char) {
    c == 'A' || c == 'E' || c == 'I' || c == 'O' || c == 'U'
  }

  /** Number of vowel occurrences in a letter multiset. */
  function VowelCount(m: multiset<char>): nat {
    m['A'] + m['E'] + m['I'] + m['O'] + m['U']
  }

  /** A pool is a rearrangement of three draws from VOWELS followed by
      eleven draws from COMMON_LETTERS. */
  ghost predicate IsPool(s: string) {
    exists v: string, c: string ::
      && |v| == VOWEL_DRAWS
      && |c| == PUZZLE_LENGTH - VOWEL_DRAWS
      && AllIn(v, VOWELS)
      && AllIn(c, COMMON_LETTERS)
      && multiset(s) == multiset(v + c)
  }

  /** The multiset "contains" test: every letter of `w` occurs in `letters`
      at least as often as in `w`. */
  predicate Constructible(w: string, letters: multiset<char>) {
    multiset(w) <= letters
  }

  lemma VowelsAreCommon()
    ensures forall c :: c in VOWELS ==> IsVowel(c) && c in COMMON_LETTERS
  {
    assert VOWELS == ['A', 'E', 'I', 'O', 'U'];
    assert COMMON_LETTERS[0] == 'E' && COMMON_LETTERS[2] == 'A' && COMMON_LETTERS[3] == 'O';
    assert COMMON_LETTERS[4] == 'I' && COMMON_LETTERS[11] == 'U';
  }

  lemma VowelCountUnion(a: multiset<char>, b: multiset<char>)
    ensures VowelCount(a + b) == VowelCount(a) + VowelCount(b)
  {
  }

  lemma {:induction false} VowelCountOfVowels(v: string)
    requires AllIn(v, VOWELS)
    ensures VowelCount(multiset(v)) == |v|
  {
    if v != [] {
      var t, c := v[..|v| - 1], v[|v| - 1];
      assert v == t + [c];
      assert AllIn(t, VOWELS) by {
        forall i | 0 <= i < |t| ensures t[i] in VOWELS { assert t[i] == v[i]; }
      }
      VowelCountOfVowels(t);
      VowelsAreCommon();
      assert IsVowel(c);
      VowelCountUnion(multiset(t), multiset{c});
    }
  }

  /** The vowels of `s`, in order. */
  function VowelsOf(s: string): (r: string)
    ensures AllIn(r, VOWELS)
  {
    VowelsAreCommon();
    if s == [] then []
    else VowelsOf(s[..|s| - 1]) + (if IsVowel(s[|s| - 1]) then [s[|s| - 1]] else [])
  }

  /** The letters of `s` that are not vowels, in order. */
  function OthersOf(s: string): (r: string)
    ensures forall i :: 0 <= i < |r| ==> !IsVowel(r[i])
  {
    if s == [] then []
    else OthersOf(s[..|s| - 1]) + (if IsVowel(s[|s| - 1]) then [] else [s[|s| - 1]])
  }

  /** A string without vowels has vowel count zero. */
  lemma NoVowelsCounted(r: string)
    requires forall i :: 0 <= i < |r| ==> !IsVowel(r[i])
    ensures VowelCount(multiset(r)) == 0
  {
    forall c | IsVowel(c) ensures multiset(r)[c] == 0 {
      assert c !in r;
    }
  }

  /** The vowels and the other letters of `s` together are its letters. */
  lemma {:induction false} SplitByVowels(s: string)
    ensures multiset(VowelsOf(s) + OthersOf(s)) == multiset(s)
  {
    if s != [] {
      var t, c := s[..|s| - 1], s[|s| - 1];
      assert s == t + [c];
      SplitByVowels(t);
      assert multiset(VowelsOf(s) + OthersOf(s)) == multiset(VowelsOf(t) + OthersOf(t)) + multiset{c};
    }
  }

  /** Every pool has fourteen letters, all from COMMON_LETTERS (which
      contains every vowel), at least three of them vowels. */
  lemma PoolIsCommonWithVowels(s: string)
    requires IsPool(s)
    ensures |s| == PUZZLE_LENGTH && AllIn(s, COMMON_LETTERS) && VowelCount(multiset(s)) >= VOWEL_DRAWS
  {
    var v: string, c: string :|
      && |v| == VOWEL_DRAWS && |c| == PUZZLE_LENGTH - VOWEL_DRAWS
      && AllIn(v, VOWELS) && AllIn(c, COMMON_LETTERS)
      && multiset(s) == multiset(v + c);
    assert |s| == |multiset(s)| == |v + c|;
    assert multiset(v + c) == multiset(v) + multiset(c);
    VowelCountOfVowels(v);
    VowelCountUnion(multiset(v), multiset(c));
    assert AllIn(v + c, COMMON_LETTERS) by {
      VowelsAreCommon();
      forall i | 0 <= i < |v + c| ensures (v + c)[i] in COMMON_LETTERS {
        if i < |v| { assert (v + c)[i] == v[i]; } else { assert (v + c)[i] == c[i - |v|]; }
      }
    }
    SameLettersSameAlphabet(v + c, s, COMMON_LETTERS);
  }

  /** A rearrangement of a string over `alphabet` is over `alphabet` too. */
  lemma SameLettersSameAlphabet(s: string, x: string, alphabet: string)
    requires AllIn(s, alphabet) && multiset(x) == multiset(s)
    ensures AllIn(x, alphabet)
  {
    forall i | 0 <= i < |x| ensures x[i] in alphabet {
      assert x[i] in multiset(s);
    }
  }

  /** Conversely, any such string is a pool: its vowels supply the three
      vowel draws and the rest of its letters the filler draws. */
  lemma PoolFromDraws(s: string, v: string, c: string)
    requires |v| == VOWEL_DRAWS && |c| == PUZZLE_LENGTH - VOWEL_DRAWS
    requires AllIn(v, VOWELS) && AllIn(c, COMMON_LETTERS) && multiset(s) == multiset(v + c)
    ensures IsPool(s)
  {
  }

  /** Splitting a rearrangement `f + g` of `s` after the first `n` letters
      of `f` gives `n` draws from `f`'s alphabet and the rest from `s`'s. */
  lemma DrawsFromSplit(s: string, f: string, g: string, n: nat, first: string, rest: string)
    requires multiset(f + g) == multiset(s) && n <= |f| && AllIn(f, first) && AllIn(s, rest)
    ensures |f[..n]| == n && |f[n..] + g| == |s| - n
    ensures AllIn(f[..n], first) && AllIn(f[n..] + g, rest)
    ensures multiset(s) == multiset(f[..n] + (f[n..] + g))
  {
    var v, c := f[..n], f[n..] + g;
    assert v + c == f + g;
    assert |v + c| == |multiset(v + c)| == |multiset(s)| == |s|;
    SameLettersSameAlphabet(s, v + c, rest);
    forall i | 0 <= i < |c| ensures c[i] in rest { assert c[i] == (v + c)[|v| + i]; }
  }

  lemma CommonWithVowelsIsPool(s: string)
    requires |s| == PUZZLE_LENGTH && AllIn(s, COMMON_LETTERS) && VowelCount(multiset(s)) >= VOWEL_DRAWS
    ensures IsPool(s)
  {
    var f, g := VowelsOf(s), OthersOf(s);
    assert multiset(f + g) == multiset(s) && |f| >= VOWEL_DRAWS by {
      SplitByVowels(s);
      VowelCountOfVowels(f);
      NoVowelsCounted(g);
      assert multiset(f + g) == multiset(f) + multiset(g);
      VowelCountUnion(multiset(f), multiset(g));
    }
    DrawsFromSplit(s, f, g, VOWEL_DRAWS, VOWELS, COMMON_LETTERS);
    PoolFromDraws(s, f[..VOWEL_DRAWS], f[VOWEL_DRAWS..] + g);
  }

  /** A string is a pool exactly when it has fourteen letters, all from
      COMMON_LETTERS, at least three of them vowels. */
  lemma PoolShape(s: string)
    ensures IsPool(s) <==>
      |s| == PUZZLE_LENGTH && AllIn(s, COMMON_LETTERS) && VowelCount(multiset(s)) >= VOWEL_DRAWS
  {
    if IsPool(s) { PoolIsCommonWithVowels(s); }
    if |s| == PUZZLE_LENGTH && AllIn(s, COMMON_LETTERS) && VowelCount(multiset(s)) >= VOWEL_DRAWS {
      CommonWithVowelsIsPool(s);
    }
  }

  // ---------------------------------------------------------------------
  // Normalisation of a submitted word: strtoupper(trim($word)).

  /** The characters PHP's `trim` strips by default: space, tab, line feed,
      carriage return, NUL and vertical tab. */
  predicate IsTrimChar(c: char) {
    c == ' ' || c == '\t' || c == '\n' || c == '\r' || c == '\0' || c == 11 as char
  }

  predicate AllTrim(s: string) {
    forall i :: 0 <= i < |s| ==> IsTrimChar(s[i])
  }

  /** The first position at or after `i` that does not hold a trim
      character, or |s| if there is none. */
  function SkipTrimForward(s: string, i: nat): (k: nat)
    requires i <= |s|
    ensures i <= k <= |s|
    ensures forall m :: i <= m < k ==> IsTrimChar(s[m])
    ensures k == |s| || !IsTrimChar(s[k])
    decreases |s| - i
  {
    if i < |s| && IsTrimChar(s[i]) then SkipTrimForward(s, i + 1) else i
  }

  /** The end of the last run of characters before `j`, and not before
      `lo`, that is not a trim character: every character from the result
      up to `j` is one, and the one just before the result (if after `lo`)
      is not. */
  function SkipTrimBackward(s: string, lo: nat, j: nat): (k: nat)
    requires lo <= j <= |s|
    ensures lo <= k <= j
    ensures forall m :: k <= m < j ==> IsTrimChar(s[m])
    ensures k == lo || !IsTrimChar(s[k - 1])
    decreases j - lo
  {
    if lo < j && IsTrimChar(s[j - 1]) then SkipTrimBackward(s, lo, j - 1) else j
  }

  /** PHP `trim`: the slice from the first to the last character that is
      not a trim character. */
  function Trim(s: string): string {
    var start := SkipTrimForward(s, 0);
    s[start..SkipTrimBackward(s, start, |s|)]
  }

  /** The result of `trim` is a slice of `s` with only trim characters
      before and after it, and it neither starts nor ends with one. */
  lemma TrimIsSlice(s: string)
    ensures exists i, j ::
      && 0 <= i <= j <= |s| && Trim(s) == s[i..j]
      && (forall m :: 0 <= m < i ==> IsTrimChar(s[m]))
      && (forall m :: j <= m < |s| ==> IsTrimChar(s[m]))
      && (i == j || (!IsTrimChar(s[i]) && !IsTrimChar(s[j - 1])))
  {
    var i := SkipTrimForward(s, 0);
    var j := SkipTrimBackward(s, i, |s|);
    assert Trim(s) == s[i..j];
  }

  /** Neither end of the result of `trim` is a trim character. */
  lemma TrimEnds(s: string)
    ensures Trim(s) == [] || (!IsTrimChar(Trim(s)[0]) && !IsTrimChar(Trim(s)[|Trim(s)| - 1]))
  {
    var i := SkipTrimForward(s, 0);
    var j := SkipTrimBackward(s, i, |s|);
    var r := Trim(s);
    if r != [] {
      assert r[0] == s[i] && r[|r| - 1] == s[j - 1];
    }
  }

  predicate IsAsciiLower(c: char) { 'a' <= c <= 'z' }

  predicate IsAsciiLetter(c: char) { 'a' <= c <= 'z' || 'A' <= c <= 'Z' }

  /** PHP `strtoupper` on one byte: ASCII a-z become A-Z, all else is kept. */
  function UpperChar(c: char): char {
    if IsAsciiLower(c) then (c as int - 32) as char else c
  }

  /** PHP `strtoupper`. */
  function ToUpper(s: string): (r: string)
    ensures |r| == |s|
  {
    seq(|s|, i requires 0 <= i < |s| => UpperChar(s[i]))
  }

  /** `strtoupper` leaves no lower-case ASCII letter, maps letters to letters
      and everything else (trim characters included) to itself. */
  lemma ToUpperMapsLetters(s: string)
    ensures forall i :: 0 <= i < |s| ==> !IsAsciiLower(ToUpper(s)[i])
    ensures forall i :: 0 <= i < |s| ==> (IsAsciiLetter(ToUpper(s)[i]) <==> IsAsciiLetter(s[i]))
    ensures forall i :: 0 <= i < |s| ==> (IsTrimChar(ToUpper(s)[i]) <==> IsTrimChar(s[i]))
    ensures forall i :: 0 <= i < |s| ==> !IsAsciiLower(s[i]) ==> ToUpper(s)[i] == s[i]
  {
  }

  /** The word as the judge sees it: strtoupper(trim($word)). */
  function Normalize(raw: string): string {
    ToUpper(Trim(raw))
  }

  /** PHP `empty` on a string: true for "" and for "0". */
  predicate PhpEmpty(s: string) {
    s == "" || s == "0"
  }

  /** PHP `ctype_alpha`: non-empty and every byte an ASCII letter. */
  predicate CtypeAlpha(s: string) {
    |s| > 0 && forall i :: 0 <= i < |s| ==> IsAsciiLetter(s[i])
  }

  /** The shape of every recorded word: 1..PUZZLE_LENGTH upper-case letters. */
  predicate IsUpperWord(w: string) {
    1 <= |w| <= PUZZLE_LENGTH && forall i :: 0 <= i < |w| ==> 'A' <= w[i] <= 'Z'
  }

  /** Upper-casing keeps a word's ends clear of trim characters, so `trim`
      leaves it unchanged. */
  lemma UpperStaysTrimmed(t: string)
    requires t == [] || (!IsTrimChar(t[0]) && !IsTrimChar(t[|t| - 1]))
    ensures Trim(ToUpper(t)) == ToUpper(t)
  {
    var n := ToUpper(t);
    if n != [] {
      ToUpperMapsLetters(t);
      assert [] + n + [] == n;
      TrimPadded([], n, []);
    }
  }

  /** Upper-casing twice is upper-casing once. */
  lemma UpperIdempotent(t: string)
    ensures ToUpper(ToUpper(t)) == ToUpper(t)
  {
    ToUpperMapsLetters(t);
    ToUpperMapsLetters(ToUpper(t));
  }

  /** Normalising twice is normalising once. */
  lemma NormalizeIdempotent(raw: string)
    ensures Normalize(Normalize(raw)) == Normalize(raw)
  {
    TrimEnds(raw);
    UpperStaysTrimmed(Trim(raw));
    UpperIdempotent(Trim(raw));
  }

  /** A normalised word that passes the empty, length and ctype_alpha checks
      consists of 1..PUZZLE_LENGTH upper-case letters. */
  lemma AcceptedWordIsUpper(raw: string)
    requires !PhpEmpty(Normalize(raw)) && |Normalize(raw)| <= PUZZLE_LENGTH && CtypeAlpha(Normalize(raw))
    ensures IsUpperWord(Normalize(raw))
  {
    ToUpperMapsLetters(Trim(raw));
  }

  /** `trim` removes any run of trim characters around a word that neither
      starts nor ends with one. */
  lemma TrimPadded(p: string, w: string, q: string)
    requires AllTrim(p) && AllTrim(q)
    requires w != [] && !IsTrimChar(w[0]) && !IsTrimChar(w[|w| - 1])
    ensures Trim(p + w + q) == w
  {
    var x := p + w + q;
    var a := SkipTrimForward(x, 0);
    var b := SkipTrimBackward(x, a, |x|);
    var e := |p| + |w|;
    assert a == |p| by {
      assert x[|p|] == w[0];
      assert forall m :: 0 <= m < |p| ==> x[m] == p[m];
    }
    assert b == e by {
      assert x[e - 1] == w[|w| - 1];
      assert forall m :: e <= m < |x| ==> x[m] == q[m - e];
    }
    assert x[a..b] == w;
  }

  /** The judge sees a padded word as the upper-cased word itself: " ace\n"
      is judged as "ACE". */
  lemma NormalizePadded(p: string, w: string, q: string)
    requires AllTrim(p) && AllTrim(q)
    requires w != [] && !IsTrimChar(w[0]) && !IsTrimChar(w[|w| - 1])
    ensures Normalize(p + w + q) == ToUpper(w)
  {
    TrimPadded(p, w, q);
  }

  /** The example of the service's tests: "ace" is judged as "ACE". */
  lemma AceIsACE()
    ensures Normalize("ace") == "ACE"
  {
    NormalizePadded("", "ace", "");
    var u := ToUpper("ace");
    assert u[0] == 'A' && u[1] == 'C' && u[2] == 'E';
  }

  /** A "0" surrounded by trim characters normalises to "0", which PHP's
      `empty` treats as empty. */
  lemma NormalizePaddedZero(p: string, q: string)
    requires AllTrim(p) && AllTrim(q)
    ensures Normalize(p + "0" + q) == "0" && PhpEmpty(Normalize(p + "0" + q))
  {
    TrimPadded(p, "0", q);
    var u := ToUpper("0");
    assert u[0] == '0';
  }
}
