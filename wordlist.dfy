/** The dictionary the engine consults (WordListService). Its implementation
    is not part of this model; what the engine relies on is the contract of
    `CalculateRemainingWords` below: every word returned is a dictionary word
    that can be formed from the given letters, no more than `limit` are
    returned, the result is empty only when no such word exists, and with no
    limit every such word is returned. The scan that realises it is a
    reference definition of that contract over a finite word list. */
module WordList {
  import opened Letters

  datatype Dictionary = Dictionary(words: seq<string>)

  /** The optional search bound of calculateRemainingWords. */
  datatype Limit = Unlimited | AtMost(n: nat)

  /** isValidWord: membership in the dictionary. */
  predicate IsValidWord(d: Dictionary, w: string) {
    w in d.words
  }

  function Decrement(limit: Limit): Limit
    requires limit != AtMost(0)
  {
    match limit
    case Unlimited => Unlimited
    case AtMost(n) => AtMost(n - 1)
  }

  /** The words of `words`, in order, that can be formed from `letters`,
      stopping once `limit` of them have been found. */
  function Search(words: seq<string>, letters: multiset<char>, limit: Limit): (r: seq<string>)
    ensures forall i :: 0 <= i < |r| ==> r[i] in words && Constructible(r[i], letters)
    ensures limit.AtMost? ==> |r| <= limit.n
    ensures r == [] <==> limit == AtMost(0) || forall w :: w in words ==> !Constructible(w, letters)
    ensures limit == Unlimited ==> forall w :: w in words && Constructible(w, letters) ==> w in r
  {
    if words == [] || limit == AtMost(0) then []
    else if Constructible(words[0], letters) then
      [words[0]] + Search(words[1..], letters, Decrement(limit))
    else
      assert forall w :: w in words ==> w == words[0] || w in words[1..];
      Search(words[1..], letters, limit)
  }

  /** calculateRemainingWords($letters, $limit). */
  function CalculateRemainingWords(d: Dictionary, letters: multiset<char>, limit: Limit): (r: seq<string>)
    ensures forall i :: 0 <= i < |r| ==> IsValidWord(d, r[i]) && Constructible(r[i], letters)
    ensures limit.AtMost? ==> |r| <= limit.n
    ensures r == [] <==> limit == AtMost(0) || forall w :: IsValidWord(d, w) ==> !Constructible(w, letters)
    ensures limit == Unlimited ==> forall w :: IsValidWord(d, w) && Constructible(w, letters) ==> w in r
  {
    Search(d.words, letters, limit)
  }
}
