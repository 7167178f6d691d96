/** The Top-N scores table (`scores`): its rows, the order in which the
    table is read back (score descending, createdAt ascending), the first ten
    rows of that order, and the facts about them that the leaderboard
    maintenance relies on. The table itself is unordered; `Ranked` is the
    ordered query over it. */
module Ranking {

  /** One row of the scores table. `createdAt` is a tick of the model clock. */
  datatype Entry = Entry(word: string, score: int, createdAt: nat)

  /** How many rows the leaderboard keeps. */
  const BOARD_SIZE: nat := 10

  function WordOf(e: Entry): string { e.word }
  function TimeOf(e: Entry): nat { e.createdAt }

  /** `a` comes strictly before `b` in the order score DESC, createdAt ASC. */
  predicate RanksBefore(a: Entry, b: Entry) {
    a.score > b.score || (a.score == b.score && a.createdAt < b.createdAt)
  }

  /** No row is ranked strictly before a row that precedes it. */
  predicate Sorted(s: seq<Entry>) {
    forall i, j :: 0 <= i < j < |s| ==> !RanksBefore(s[j], s[i])
  }

  /** No two rows share a key (the word, or the creation time). */
  ghost predicate KeysDistinct<K>(s: seq<Entry>, key: Entry -> K) {
    forall i, j :: 0 <= i < |s| && 0 <= j < |s| && i != j ==> key(s[i]) != key(s[j])
  }

  /** Is there a row for `word`? (findOneBy(['word' => $word])) */
  predicate OnBoard(s: seq<Entry>, word: string) {
    exists i :: 0 <= i < |s| && s[i].word == word
  }

  /** The lowest score in a non-empty table (findOneBy([], ['score' => 'ASC'])). */
  function MinScore(s: seq<Entry>): (m: int)
    requires s != []
    ensures exists i :: 0 <= i < |s| && s[i].score == m
    ensures forall i :: 0 <= i < |s| ==> m <= s[i].score
  {
    if |s| == 1 then s[0].score
    else
      var m := MinScore(s[1..]);
      assert forall i :: 1 <= i < |s| ==> s[i] == s[1..][i - 1];
      if s[0].score <= m then s[0].score else m
  }

  /** Places `e` into a sorted sequence after every row it does not rank before. */
  function Insert(s: seq<Entry>, e: Entry): (r: seq<Entry>)
    ensures multiset(r) == multiset(s) + multiset{e} && |r| == |s| + 1
  {
    if s == [] then [e]
    else if RanksBefore(e, s[0]) then [e] + s
    else
      assert s == [s[0]] + s[1..];
      [s[0]] + Insert(s[1..], e)
  }

  lemma {:induction false} InsertSorted(s: seq<Entry>, e: Entry)
    requires Sorted(s)
    ensures Sorted(Insert(s, e))
  {
    if s != [] && !RanksBefore(e, s[0]) {
      var t := s[1..];
      InsertSorted(t, e);
      var u := Insert(t, e);
      forall j | 0 <= j < |u| ensures !RanksBefore(u[j], s[0]) {
        assert u[j] in multiset(u);
        if u[j] != e {
          assert u[j] in multiset(t);
          var k :| 0 <= k < |t| && t[k] == u[j];
          assert s[k + 1] == t[k];
        }
      }
    }
  }

  /** The table read back in the order score DESC, createdAt ASC (the
      `findBy([], ['score' => 'DESC', 'createdAt' => 'ASC'])` query): a sorted
      rearrangement of the rows. */
  function Ranked(s: seq<Entry>): (r: seq<Entry>)
    ensures |r| == |s|
  {
    if s == [] then []
    else Insert(Ranked(s[..|s| - 1]), s[|s| - 1])
  }

  /** The ranked table is a sorted rearrangement of the rows. */
  lemma {:induction false} RankedIsSortedPermutation(s: seq<Entry>)
    ensures multiset(Ranked(s)) == multiset(s)
    ensures Sorted(Ranked(s))
  {
    if s != [] {
      var t := s[..|s| - 1];
      assert s == t + [s[|s| - 1]];
      RankedIsSortedPermutation(t);
      InsertSorted(Ranked(t), s[|s| - 1]);
    }
  }

  function Min(a: nat, b: nat): nat { if a <= b then a else b }

  /** The rows limitLeaderboard keeps: the first BOARD_SIZE of the ranked table. */
  function TopN(s: seq<Entry>): seq<Entry> {
    Ranked(s)[..Min(BOARD_SIZE, |s|)]
  }

  /** The rows TopN keeps are the head of the ranked table, the ones it
      evicts are the rest. */
  lemma TopNSplit(s: seq<Entry>)
    ensures multiset(s) == multiset(TopN(s)) + multiset(Ranked(s)[Min(BOARD_SIZE, |s|)..])
  {
    var r := Ranked(s);
    var k := Min(BOARD_SIZE, |s|);
    RankedIsSortedPermutation(s);
    MultisetSplit(r, k);
  }

  lemma MultisetSplit(r: seq<Entry>, k: nat)
    requires k <= |r|
    ensures multiset(r) == multiset(r[..k]) + multiset(r[k..])
  {
    assert r == r[..k] + r[k..];
  }

  /** In a sorted sequence no row after position k ranks before a row ahead of it. */
  lemma SortedPrefixFirst(r: seq<Entry>, k: nat)
    requires Sorted(r) && k <= |r|
    ensures forall x, y :: x in multiset(r[..k]) && y in multiset(r[k..]) ==> !RanksBefore(y, x)
  {
    forall x, y | x in multiset(r[..k]) && y in multiset(r[k..]) ensures !RanksBefore(y, x) {
      var i :| 0 <= i < k && r[..k][i] == x;
      var j :| 0 <= j < |r| - k && r[k..][j] == y;
      assert r[i] == x && r[k + j] == y;
    }
  }

  lemma SortedPrefix(r: seq<Entry>, k: nat)
    requires Sorted(r) && k <= |r|
    ensures Sorted(r[..k])
  {
  }

  /** What TopN keeps: at most BOARD_SIZE rows, all of them rows of the table,
      sorted, none of them ranked after a row it evicted, and every row when
      there is room for all. */
  lemma TopNKeepsBest(s: seq<Entry>)
    ensures |TopN(s)| == Min(BOARD_SIZE, |s|) && |TopN(s)| <= BOARD_SIZE
    ensures multiset(TopN(s)) <= multiset(s)
    ensures Sorted(TopN(s))
    ensures forall x, y :: x in multiset(TopN(s)) && y in multiset(s) - multiset(TopN(s)) ==> !RanksBefore(y, x)
    ensures |s| <= BOARD_SIZE ==> multiset(TopN(s)) == multiset(s)
  {
    var r := Ranked(s);
    var k := Min(BOARD_SIZE, |s|);
    TopNSplit(s);
    RankedIsSortedPermutation(s);
    SortedPrefix(r, k);
    SortedPrefixFirst(r, k);
    assert multiset(s) - multiset(TopN(s)) == multiset(r[k..]);
    if |s| <= BOARD_SIZE {
      assert r[k..] == [];
    }
  }

  /** Removes the first row equal to `x` (one `remove($entry)`). */
  function RemoveOne(s: seq<Entry>, x: Entry): (r: seq<Entry>)
    ensures multiset(r) == multiset(s) - multiset{x}
  {
    if s == [] then []
    else if s[0] == x then
      assert s == [x] + s[1..];
      s[1..]
    else
      assert s == [s[0]] + s[1..];
      [s[0]] + RemoveOne(s[1..], x)
  }

  // ---------------------------------------------------------------------
  // Distinct keys survive taking a sub-collection of the rows.

  lemma CountAtLeastTwo(s: seq<Entry>, i: nat, j: nat)
    requires i < |s| && j < |s| && i != j
    ensures s[i] == s[j] ==> multiset(s)[s[i]] >= 2
  {
    var lo, hi := if i < j then i else j, if i < j then j else i;
    assert s == s[..hi] + s[hi..];
    assert s[lo] in s[..hi];
    assert s[hi..][0] == s[hi];
    assert multiset(s) == multiset(s[..hi]) + multiset(s[hi..]);
  }

  lemma {:induction false} DistinctKeysOccurOnce<K>(s: seq<Entry>, key: Entry -> K, x: Entry)
    requires KeysDistinct(s, key)
    ensures multiset(s)[x] <= 1
  {
    if s != [] {
      var t := s[..|s| - 1];
      var y := s[|s| - 1];
      assert s == t + [y];
      assert KeysDistinct(t, key) by {
        forall i, j | 0 <= i < |t| && 0 <= j < |t| && i != j ensures key(t[i]) != key(t[j]) {
          assert t[i] == s[i] && t[j] == s[j];
        }
      }
      DistinctKeysOccurOnce(t, key, x);
      if x in multiset(t) {
        var k :| 0 <= k < |t| && t[k] == x;
        assert key(s[k]) != key(s[|s| - 1]);
      }
    }
  }

  /** Rows taken (as a sub-multiset) from a table with distinct keys have
      distinct keys. */
  lemma SubKeepsKeysDistinct<K>(a: seq<Entry>, b: seq<Entry>, key: Entry -> K)
    requires KeysDistinct(a, key) && multiset(b) <= multiset(a)
    ensures KeysDistinct(b, key)
  {
    forall i, j | 0 <= i < |b| && 0 <= j < |b| && i != j ensures key(b[i]) != key(b[j]) {
      CountAtLeastTwo(b, i, j);
      DistinctKeysOccurOnce(a, key, b[i]);
      assert b[i] != b[j];
      assert b[i] in multiset(a) && b[j] in multiset(a);
      var p :| 0 <= p < |a| && a[p] == b[i];
      var q :| 0 <= q < |a| && a[q] == b[j];
    }
  }

  // ---------------------------------------------------------------------
  // With distinct creation times the order is total, so the sorted view of a
  // table is unique.

  /** No row of a sorted sequence ranks before its first row. */
  lemma SortedHeadFirst(s: seq<Entry>)
    requires s != [] && Sorted(s)
    ensures forall j :: 0 <= j < |s| ==> !RanksBefore(s[j], s[0])
  {
    forall j | 0 < j < |s| ensures !RanksBefore(s[j], s[0]) { }
  }

  /** Two sorted arrangements of the same rows start with the same row. */
  lemma SortedHeadsAgree(a: seq<Entry>, b: seq<Entry>)
    requires a != [] && Sorted(a) && Sorted(b) && multiset(a) == multiset(b)
    requires KeysDistinct(a, TimeOf)
    ensures b != [] && a[0] == b[0]
  {
    assert a[0] in multiset(b);
    assert b[0] in multiset(a);
    var k :| 0 <= k < |b| && b[k] == a[0];
    var m :| 0 <= m < |a| && a[m] == b[0];
    SortedHeadFirst(a);
    SortedHeadFirst(b);
    assert !RanksBefore(a[m], a[0]) && !RanksBefore(b[k], b[0]);
    assert TimeOf(a[0]) == TimeOf(a[m]);
  }

  lemma TailKeepsKeysDistinct<K>(a: seq<Entry>, key: Entry -> K)
    requires a != [] && KeysDistinct(a, key)
    ensures KeysDistinct(a[1..], key)
  {
    forall i, j | 0 <= i < |a[1..]| && 0 <= j < |a[1..]| && i != j
      ensures key(a[1..][i]) != key(a[1..][j])
    {
      assert a[1..][i] == a[i + 1] && a[1..][j] == a[j + 1];
    }
  }

  lemma SortedTail(a: seq<Entry>)
    requires a != [] && Sorted(a)
    ensures Sorted(a[1..])
  {
    forall i, j | 0 <= i < j < |a[1..]| ensures !RanksBefore(a[1..][j], a[1..][i]) {
      assert a[1..][i] == a[i + 1] && a[1..][j] == a[j + 1];
    }
  }

  lemma TailsSameRows(a: seq<Entry>, b: seq<Entry>)
    requires a != [] && b != [] && a[0] == b[0] && multiset(a) == multiset(b)
    ensures multiset(a[1..]) == multiset(b[1..])
  {
    assert a == [a[0]] + a[1..] && b == [b[0]] + b[1..];
    assert multiset(a) == multiset{a[0]} + multiset(a[1..]);
    assert multiset(b) == multiset{b[0]} + multiset(b[1..]);
    assert multiset(a[1..]) == multiset(a) - multiset{a[0]};
    assert multiset(b[1..]) == multiset(b) - multiset{b[0]};
  }

  lemma {:induction false} SortedUnique(a: seq<Entry>, b: seq<Entry>)
    requires Sorted(a) && Sorted(b) && multiset(a) == multiset(b)
    requires KeysDistinct(a, TimeOf)
    ensures a == b
  {
    if a != [] {
      SortedHeadsAgree(a, b);
      TailsSameRows(a, b);
      SortedTail(a);
      SortedTail(b);
      TailKeepsKeysDistinct(a, TimeOf);
      SortedUnique(a[1..], b[1..]);
      assert a == [a[0]] + a[1..] && b == [b[0]] + b[1..];
    } else {
      assert |b| == |multiset(b)|;
    }
  }


  /** Any table whose rows are, as a multiset, the TopN of `s` reads back as
      exactly TopN(s). */
  lemma RankedOfTopN(s: seq<Entry>, t: seq<Entry>)
    requires KeysDistinct(s, TimeOf)
    requires multiset(t) == multiset(TopN(s))
    ensures Ranked(t) == TopN(s)
  {
    TopNKeepsBest(s);
    SubKeepsKeysDistinct(s, TopN(s), TimeOf);
    RankedIsSortedPermutation(t);
    SortedUnique(TopN(s), Ranked(t));
  }

  /** An entry that ranks after every row lands last in the ranked table. */
  lemma {:induction false} InsertLast(s: seq<Entry>, e: Entry)
    requires forall i :: 0 <= i < |s| ==> !RanksBefore(e, s[i])
    ensures Insert(s, e) == s + [e]
  {
    if s != [] {
      assert forall i :: 0 <= i < |s[1..]| ==> s[1..][i] == s[i + 1];
      InsertLast(s[1..], e);
      assert s == [s[0]] + s[1..];
    }
  }
}
