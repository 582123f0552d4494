/**
 * The two helpers of src/gameFunctions.ts (and of its copy
 * front/src/gameFunctions.ts): counting the face-up cards, and finding the
 * two cards most recently shown in a given round.
 */
module GameFunctions {
  import opened Wrappers
  import opened GameTypes
  import opened Seqs

  // ---------------------------------------------------------------------------
  // countDisplayedCards

  /**
   * JavaScript truthiness of a `displayedBy` value: `null` and `0` are falsy.
   * A player number is never 0, so a value is truthy exactly when it is set.
   */
  predicate IsTruthy(p: Option<PlayerNumber>): (t: bool)
    ensures t <==> p.Some?
  {
    p.Some? && p.value != 0
  }

  /** `cards.filter((card) => card.displayedBy)`. */
  function FilterDisplayed(cards: seq<Card>): (r: seq<Card>)
    ensures |r| <= |cards|
  {
    if cards == [] then []
    else
      var last := cards[|cards| - 1];
      FilterDisplayed(cards[..|cards| - 1]) + (if IsTruthy(last.displayedBy) then [last] else [])
  }

  /** `cards.filter((card) => card.displayedBy).length`. */
  function CountDisplayedCards(cards: seq<Card>): (n: nat)
    ensures n <= |cards|
  {
    |FilterDisplayed(cards)|
  }

  /** Positions of the cards that are face up (`displayedBy !== null`). */
  ghost function DisplayedPositions(cards: seq<Card>): set<int> {
    set i | 0 <= i < |cards| && cards[i].displayedBy.Some?
  }

  /**
   * Because a player number is 1 or 2, truthiness coincides with being
   * non-null: the count is the number of face-up cards.
   */
  lemma {:induction false} CountDisplayedCardsIsFaceUpCount(cards: seq<Card>)
    ensures CountDisplayedCards(cards) == |DisplayedPositions(cards)|
  {
    if cards != [] {
      var n := |cards| - 1;
      CountDisplayedCardsIsFaceUpCount(cards[..n]);
      assert DisplayedPositions(cards)
          == DisplayedPositions(cards[..n]) + (if cards[n].displayedBy.Some? then {n} else {});
    }
  }

  // ---------------------------------------------------------------------------
  // getTwoMostRecentlyDisplayedCardsInRound: copy, sort, filter, splice(-2)

  /**
   * The comparator handed to `sort`: a negative result puts `a` first.
   * Cards never shown (`displayedOnRound === null`) sort last.
   */
  function CompareByRound(a: Card, b: Card): (c: int)
    ensures c < 0 <==> a.displayedOnRound.Some? && (b.displayedOnRound.None? || a.displayedOnRound.value < b.displayedOnRound.value)
    ensures c == 0 <==> a.displayedOnRound == b.displayedOnRound
  {
    if a.displayedOnRound.None? && b.displayedOnRound.None? then 0
    else if a.displayedOnRound.None? then 1
    else if b.displayedOnRound.None? then -1
    else a.displayedOnRound.value - b.displayedOnRound.value
  }

  /**
   * The comparator is consistent in the sense of ECMA-262 (section 23.1.3.30,
   * SortCompare): swapping the arguments flips the sign, equality is
   * symmetric, and "not after" is transitive. Only for such a comparator does
   * the standard fix the result of `sort`.
   */
  lemma CompareByRoundIsConsistent(a: Card, b: Card, c: Card)
    ensures CompareByRound(a, b) < 0 <==> CompareByRound(b, a) > 0
    ensures CompareByRound(a, b) == 0 <==> CompareByRound(b, a) == 0
    ensures CompareByRound(a, b) <= 0 && CompareByRound(b, c) <= 0 ==> CompareByRound(a, c) <= 0
    ensures CompareByRound(a, b) < 0 && CompareByRound(b, c) < 0 ==> CompareByRound(a, c) < 0
  {
  }

  /** Adjacent cards are in comparator order. */
  ghost predicate SortedByRound(s: seq<Card>) {
    forall i :: 0 < i < |s| ==> CompareByRound(s[i - 1], s[i]) <= 0
  }

  /** Inserts `x` into `sorted` ahead of every card that compares equal to it. */
  function InsertByRound(x: Card, sorted: seq<Card>): (r: seq<Card>)
    ensures |r| == |sorted| + 1
    ensures multiset(r) == multiset(sorted) + multiset{x}
    ensures r[0] == x || (sorted != [] && r[0] == sorted[0])
  {
    if sorted == [] then [x]
    else if CompareByRound(x, sorted[0]) <= 0 then [x] + sorted
    else
      assert sorted == [sorted[0]] + sorted[1..];
      [sorted[0]] + InsertByRound(x, sorted[1..])
  }

  /**
   * `Array.prototype.sort` with CompareByRound. ECMA-262 requires that sort to
   * be stable, so its result is the one of this stable insertion sort.
   */
  function SortByRound(cards: seq<Card>): (r: seq<Card>)
    ensures multiset(r) == multiset(cards)
    ensures SortedByRound(r)
  {
    if cards == [] then []
    else
      assert cards == [cards[0]] + cards[1..];
      var rest := SortByRound(cards[1..]);
      InsertKeepsSorted(cards[0], rest);
      InsertByRound(cards[0], rest)
  }

  /** Inserting into a sorted sequence keeps it sorted. */
  lemma {:induction false} InsertKeepsSorted(x: Card, sorted: seq<Card>)
    requires SortedByRound(sorted)
    ensures SortedByRound(InsertByRound(x, sorted))
  {
    if sorted != [] && CompareByRound(x, sorted[0]) > 0 {
      var rest := InsertByRound(x, sorted[1..]);
      InsertKeepsSorted(x, sorted[1..]);
      var r := [sorted[0]] + rest;
      assert InsertByRound(x, sorted) == r;
      assert CompareByRound(sorted[0], rest[0]) <= 0;
      forall i | 0 < i < |r| ensures CompareByRound(r[i - 1], r[i]) <= 0 {
        if i > 1 {
          assert r[i - 1] == rest[i - 2] && r[i] == rest[i - 1];
        }
      }
    }
  }

  /** `.filter((card) => card.displayedOnRound === round)`, for `key == Some(round)`. */
  function FilterByRoundKey(cards: seq<Card>, key: Option<int>): (r: seq<Card>)
    ensures forall k :: 0 <= k < |r| ==> r[k].displayedOnRound == key
  {
    if cards == [] then []
    else
      assert cards == [cards[0]] + cards[1..];
      (if cards[0].displayedOnRound == key then [cards[0]] else []) + FilterByRoundKey(cards[1..], key)
  }

  /** `.splice(-2)` on a fresh array: removes and returns its last two elements, or all when fewer. */
  function SpliceLastTwo(s: seq<Card>): (r: seq<Card>)
    ensures |r| == if |s| < 2 then |s| else 2
    ensures forall k :: 0 <= k < |r| ==> r[k] == s[|s| - |r| + k]
  {
    if |s| < 2 then s else [s[|s| - 2], s[|s| - 1]]
  }

  /**
   * The cards shown in `round` that are the two most recent ones. The input
   * is a value, so the copy `[...cards]` leaves the caller's array unchanged.
   */
  function GetTwoMostRecentlyDisplayedCardsInRound(cards: seq<Card>, round: int): (r: seq<Card>)
    ensures |r| <= 2
    ensures forall k :: 0 <= k < |r| ==> r[k].displayedOnRound == Some(round)
  {
    SpliceLastTwo(FilterByRoundKey(SortByRound(cards), Some(round)))
  }

  // ---------------------------------------------------------------------------
  // What the pipeline amounts to

  /** Filtering a sequence with a known first element. */
  lemma FilterCons(c: Card, s: seq<Card>, key: Option<int>)
    ensures FilterByRoundKey([c] + s, key)
         == (if c.displayedOnRound == key then [c] else []) + FilterByRoundKey(s, key)
  {
    assert ([c] + s)[1..] == s;
  }

  lemma {:induction false} FilterInsert(x: Card, t: seq<Card>, key: Option<int>)
    ensures FilterByRoundKey(InsertByRound(x, t), key)
         == (if x.displayedOnRound == key then [x] else []) + FilterByRoundKey(t, key)
  {
    if t == [] {
      FilterCons(x, t, key);
    } else if CompareByRound(x, t[0]) <= 0 {
      FilterCons(x, t, key);
    } else {
      var rest := InsertByRound(x, t[1..]);
      var fx := if x.displayedOnRound == key then [x] else [];
      var f0 := if t[0].displayedOnRound == key then [t[0]] else [];
      var tail := FilterByRoundKey(t[1..], key);
      assert InsertByRound(x, t) == [t[0]] + rest;
      FilterCons(t[0], rest, key);
      FilterInsert(x, t[1..], key);
      assert FilterByRoundKey(InsertByRound(x, t), key) == f0 + (fx + tail);
      HeadTail(t);
      FilterCons(t[0], t[1..], key);
      assert FilterByRoundKey(t, key) == f0 + tail;
      assert f0 == [] || fx == [] by {
        assert t[0].displayedOnRound != x.displayedOnRound;
      }
      SwapEmptyPrefix(f0, fx, tail);
    }
  }

  /**
   * The sort is stable: for every key, the cards with that key come out of it
   * in the order they had in the input.
   */
  lemma {:induction false} SortByRoundIsStable(cards: seq<Card>, key: Option<int>)
    ensures FilterByRoundKey(SortByRound(cards), key) == FilterByRoundKey(cards, key)
  {
    if cards != [] {
      SortByRoundIsStable(cards[1..], key);
      FilterInsert(cards[0], SortByRound(cards[1..]), key);
    }
  }

  /**
   * Since every card kept by the filter has the same key, the sort has no
   * effect on the result: the two cards returned are the last two shown in
   * `round` in array order, not in the order they were shown.
   */
  lemma GetTwoIgnoresSort(cards: seq<Card>, round: int)
    ensures GetTwoMostRecentlyDisplayedCardsInRound(cards, round)
         == SpliceLastTwo(FilterByRoundKey(cards, Some(round)))
  {
    SortByRoundIsStable(cards, Some(round));
  }

  /** The positions `i, i+1, ...` of the cards shown in `round`, in increasing order. */
  ghost function PositionsInRoundFrom(cards: seq<Card>, round: int, i: nat): (p: seq<nat>)
    requires i <= |cards|
    ensures forall k :: 0 <= k < |p| ==> i <= p[k] < |cards| && cards[p[k]].displayedOnRound == Some(round)
    ensures forall k, l :: 0 <= k < l < |p| ==> p[k] < p[l]
    ensures forall j :: i <= j < |cards| && cards[j].displayedOnRound == Some(round) ==> j in p
    decreases |cards| - i
  {
    if i == |cards| then []
    else (if cards[i].displayedOnRound == Some(round) then [i] else []) + PositionsInRoundFrom(cards, round, i + 1)
  }

  /** When no card from `i` on was shown in `round`, there is no such position. */
  lemma {:induction false} NoneShownFrom(cards: seq<Card>, round: int, i: nat)
    requires i <= |cards|
    requires forall j :: i <= j < |cards| ==> cards[j].displayedOnRound != Some(round)
    ensures PositionsInRoundFrom(cards, round, i) == []
    decreases |cards| - i
  {
    if i < |cards| {
      NoneShownFrom(cards, round, i + 1);
    }
  }

  /** The positions of all cards shown in `round`, in increasing order. */
  ghost function PositionsInRound(cards: seq<Card>, round: int): seq<nat> {
    PositionsInRoundFrom(cards, round, 0)
  }

  /**
   * The round filter keeps every card shown in the round and no other, in
   * input order: the k-th kept card is the card at the k-th such position.
   */
  lemma {:induction false} FilterAtPositions(cards: seq<Card>, round: int, i: nat)
    requires i <= |cards|
    ensures var p := PositionsInRoundFrom(cards, round, i);
            var f := FilterByRoundKey(cards[i..], Some(round));
            |f| == |p| && forall k :: 0 <= k < |p| ==> f[k] == cards[p[k]]
    decreases |cards| - i
  {
    if i < |cards| {
      var key := Some(round);
      var shown := cards[i].displayedOnRound == key;
      var p', f' := PositionsInRoundFrom(cards, round, i + 1), FilterByRoundKey(cards[i + 1..], key);
      FilterAtPositions(cards, round, i + 1);
      SliceCons(cards, i);
      FilterCons(cards[i], cards[i + 1..], key);
      var p, f := PositionsInRoundFrom(cards, round, i), FilterByRoundKey(cards[i..], key);
      if shown {
        assert p == [i] + p';
        assert f == [cards[i]] + f';
        PrependAtPosition(cards, f', p', i);
      } else {
        EmptyPrefix(p');
        EmptyPrefix(f');
      }
    }
  }

  /** Sequences picked from `cards` at positions stay so when one more position is put in front. */
  lemma PrependAtPosition<T>(cards: seq<T>, f: seq<T>, p: seq<nat>, i: nat)
    requires i < |cards|
    requires |f| == |p| && forall k :: 0 <= k < |p| ==> p[k] < |cards| && f[k] == cards[p[k]]
    ensures var f', p' := [cards[i]] + f, [i] + p;
            |f'| == |p'| && forall k :: 0 <= k < |p'| ==> f'[k] == cards[p'[k]]
  {
  }

  /**
   * The positions of the last two cards (or fewer, when fewer were shown)
   * shown in `round`, in increasing order.
   */
  ghost function LastTwoPositions(cards: seq<Card>, round: int): (q: seq<nat>)
    ensures |q| <= 2
    ensures forall k :: 0 <= k < |q| ==> q[k] < |cards| && cards[q[k]].displayedOnRound == Some(round)
    ensures forall k, l :: 0 <= k < l < |q| ==> q[k] < q[l]
  {
    var p := PositionsInRound(cards, round);
    if |p| < 2 then p else [p[|p| - 2], p[|p| - 1]]
  }

  /**
   * Fewer than two positions are kept only when there are no more, and every
   * card shown in `round` that is left out lies before the ones kept.
   */
  lemma LastTwoPositionsAreTheLast(cards: seq<Card>, round: int)
    ensures var p := PositionsInRound(cards, round);
            var q := LastTwoPositions(cards, round);
            |q| == (if |p| < 2 then |p| else 2) &&
            (forall j, k :: 0 <= j < |cards| && cards[j].displayedOnRound == Some(round) && j !in q && 0 <= k < |q|
               ==> j < q[k])
  {
    var p := PositionsInRound(cards, round);
    var q := LastTwoPositions(cards, round);
    forall j, k | 0 <= j < |cards| && cards[j].displayedOnRound == Some(round) && j !in q && 0 <= k < |q|
      ensures j < q[k]
    {
      LaterPositionIsKept(p, q, j, k);
    }
  }

  /** When at most two cards were shown in `round`, the positions kept are those of all of them. */
  lemma LastTwoPositionsAreAll(cards: seq<Card>, round: int)
    requires |PositionsInRound(cards, round)| <= 2
    ensures forall i :: 0 <= i < |cards| ==>
              (i in LastTwoPositions(cards, round) <==> cards[i].displayedOnRound == Some(round))
  {
    var p := PositionsInRound(cards, round);
    var q := LastTwoPositions(cards, round);
    if |p| == 2 {
      SameElements(q, p);
    }
  }

  /** The result holds two cards, or every card shown in `round` when fewer than two were. */
  lemma GetTwoTakesUpToTwo(cards: seq<Card>, round: int)
    ensures var n := |PositionsInRound(cards, round)|;
            |GetTwoMostRecentlyDisplayedCardsInRound(cards, round)| == if n < 2 then n else 2
  {
    GetTwoIsLastTwoShownInRound(cards, round);
    LastTwoPositionsAreTheLast(cards, round);
  }

  lemma LaterPositionIsKept(p: seq<nat>, q: seq<nat>, j: nat, k: nat)
    requires forall a, b :: 0 <= a < b < |p| ==> p[a] < p[b]
    requires q == if |p| < 2 then p else [p[|p| - 2], p[|p| - 1]]
    requires j in p && j !in q && k < |q|
    ensures j < q[k]
  {
    var m :| 0 <= m < |p| && p[m] == j;
    assert m < |p| - 2;
  }

  lemma SpliceAtPositions(cards: seq<Card>, f: seq<Card>, p: seq<nat>)
    requires |f| == |p| && forall k :: 0 <= k < |p| ==> p[k] < |cards| && f[k] == cards[p[k]]
    ensures var r := SpliceLastTwo(f);
            var q := if |p| < 2 then p else [p[|p| - 2], p[|p| - 1]];
            |r| == |q| && forall k :: 0 <= k < |r| ==> r[k] == cards[q[k]]
  {
    var r := SpliceLastTwo(f);
    forall k | 0 <= k < |r| ensures r[k] == cards[p[|p| - |r| + k]] {
      var j := |p| - |r| + k;
      assert r[k] == f[j];
      assert f[j] == cards[p[j]];
    }
  }

  /**
   * The result is the cards at the last two (or fewer) positions shown in
   * `round`, in array order.
   */
  lemma GetTwoIsLastTwoShownInRound(cards: seq<Card>, round: int)
    ensures var q := LastTwoPositions(cards, round);
            var r := GetTwoMostRecentlyDisplayedCardsInRound(cards, round);
            |r| == |q| && forall k :: 0 <= k < |r| ==> r[k] == cards[q[k]]
  {
    var p := PositionsInRound(cards, round);
    var f := FilterByRoundKey(cards, Some(round));
    assert cards[0..] == cards;
    FilterAtPositions(cards, round, 0);
    SpliceAtPositions(cards, f, p);
    GetTwoIgnoresSort(cards, round);
  }
}
