/** The deck as a stack: the Fisher-Yates shuffle and drawing from the top.

    The top of the deck is its last element. The random source of the shuffle
    is replaced by a sequence of picks, one per position, each no larger than
    its position, which is exactly the range `Math.floor(Math.random() * (i + 1))`
    can produce.
 */
module Deck {
  /** What one pop yields: a card, or `undefined` when the deck was empty. */
  datatype Slot<T> = Undefined | Dealt(card: T)

  /** Picks for shuffling a deck of n cards: the swap partner of position i
      lies in [0, i]. */
  predicate ValidPicks(picks: seq<nat>, n: nat) {
    |picks| == n && forall i :: 0 <= i < n ==> picks[i] <= i
  }

  /** Exchange the cards at positions i and j. */
  function Swap<T>(d: seq<T>, i: nat, j: nat): (r: seq<T>)
    requires i < |d| && j < |d|
    ensures |r| == |d|
  {
    d[i := d[j]][j := d[i]]
  }

  lemma SwapPermutes<T>(d: seq<T>, i: nat, j: nat)
    requires i < |d| && j < |d|
    ensures multiset(Swap(d, i, j)) == multiset(d)
  {
  }

  /** The shuffle from position i down to position 1: position i is swapped
      with its pick, then the positions below it are shuffled. */
  function ShuffleFrom<T>(d: seq<T>, picks: seq<nat>, i: int): (r: seq<T>)
    requires ValidPicks(picks, |d|) && i < |d|
    ensures |r| == |d|
    decreases i
  {
    if i <= 0 then d else ShuffleFrom(Swap(d, i, picks[i]), picks, i - 1)
  }

  /** Each step only exchanges two cards, so the cards are only rearranged. */
  lemma {:induction false} ShuffleFromPermutes<T>(d: seq<T>, picks: seq<nat>, i: int)
    requires ValidPicks(picks, |d|) && i < |d|
    ensures multiset(ShuffleFrom(d, picks, i)) == multiset(d)
    decreases i
  {
    if i > 0 {
      SwapPermutes(d, i, picks[i]);
      ShuffleFromPermutes(Swap(d, i, picks[i]), picks, i - 1);
    }
  }

  /** The whole Fisher-Yates pass, from the last position down to position 1.
      It only rearranges: same length, same multiset of cards. */
  function Shuffle<T>(d: seq<T>, picks: seq<nat>): (r: seq<T>)
    requires ValidPicks(picks, |d|)
    ensures |r| == |d| && multiset(r) == multiset(d)
  {
    ShuffleFromPermutes(d, picks, |d| - 1);
    ShuffleFrom(d, picks, |d| - 1)
  }

  /** The shuffle from position i down reads no pick above position i. */
  lemma {:induction false} ShuffleFromReadsPicksUpTo<T>(d: seq<T>, p: seq<nat>, q: seq<nat>, i: int)
    requires ValidPicks(p, |d|) && ValidPicks(q, |d|) && i < |d|
    requires forall k :: 0 <= k <= i ==> p[k] == q[k]
    ensures ShuffleFrom(d, p, i) == ShuffleFrom(d, q, i)
    decreases i
  {
    if i > 0 {
      ShuffleFromReadsPicksUpTo(Swap(d, i, p[i]), p, q, i - 1);
    }
  }

  function ZeroPicks(n: nat): (picks: seq<nat>)
    ensures ValidPicks(picks, n)
  {
    seq(n, k => 0)
  }

  /** With at most one position left to shuffle, d and t already agree and
      any picks will do. */
  lemma NothingLeftToShuffle<T>(d: seq<T>, t: seq<T>, i: int) returns (picks: seq<nat>)
    requires -1 <= i <= 0 && i < |d| == |t|
    requires multiset(d[..i + 1]) == multiset(t[..i + 1])
    requires d[i + 1..] == t[i + 1..]
    ensures ValidPicks(picks, |d|) && ShuffleFrom(d, picks, i) == t
  {
    if i == -1 {
      assert d == d[0..] && t == t[0..];
    } else {
      assert d[..1] == [d[0]] && t[..1] == [t[0]];
      assert t[0] in multiset(d[..1]);
      assert d == [d[0]] + d[1..];
      assert t == [t[0]] + t[1..];
    }
    picks := ZeroPicks(|d|);
  }

  /** Swapping two positions below n rearranges the first n cards. */
  lemma SwapPrefix<T>(d: seq<T>, i: nat, j: nat, n: nat)
    requires i < n && j < n && n <= |d|
    ensures Swap(d, i, j)[..n] == Swap(d[..n], i, j)
  {
  }

  /** Two arrangements of the same cards that end in the same card hold the
      same cards before it. */
  lemma CancelLast<T>(a: seq<T>, b: seq<T>)
    requires |a| == |b| > 0 && a[|a| - 1] == b[|b| - 1]
    requires multiset(a) == multiset(b)
    ensures multiset(a[..|a| - 1]) == multiset(b[..|b| - 1])
  {
    var x := a[|a| - 1];
    var A, B := multiset(a[..|a| - 1]), multiset(b[..|b| - 1]);
    assert a == a[..|a| - 1] + [x];
    assert b == b[..|b| - 1] + [x];
    forall y ensures A[y] == B[y] {
      assert (A + multiset{x})[y] == (B + multiset{x})[y];
    }
  }

  /** One step of the construction: swapping the card t[i] into position i
      leaves the same cards below i as in t. */
  lemma SwapTowardsBelow<T>(d: seq<T>, t: seq<T>, i: int, j: int)
    requires 0 <= j <= i < |d| == |t|
    requires multiset(d[..i + 1]) == multiset(t[..i + 1])
    requires d[j] == t[i]
    ensures multiset(Swap(d, i, j)[..i]) == multiset(t[..i])
  {
    var p := Swap(d[..i + 1], i, j);
    SwapPrefix(d, i, j, i + 1);
    SwapPermutes(d[..i + 1], i, j);
    CancelLast(p, t[..i + 1]);
    assert p[..i] == Swap(d, i, j)[..i];
    assert t[..i + 1][..i] == t[..i];
  }

  /** One step of the construction: after the swap, d agrees with t from
      position i up. */
  lemma SwapTowardsAbove<T>(d: seq<T>, t: seq<T>, i: int, j: int)
    requires 0 <= j <= i < |d| == |t|
    requires d[i + 1..] == t[i + 1..]
    requires d[j] == t[i]
    ensures Swap(d, i, j)[i..] == t[i..]
  {
    var d' := Swap(d, i, j);
    forall k | i <= k < |d| ensures d'[k] == t[k] {
      if k > i {
        assert d[k] == d[i + 1..][k - i - 1];
        assert t[k] == t[i + 1..][k - i - 1];
      }
    }
  }

  /** The card wanted at position i is among the first i + 1 cards of d. */
  lemma PartnerExists<T>(d: seq<T>, t: seq<T>, i: int) returns (j: nat)
    requires 0 <= i < |d| == |t|
    requires multiset(d[..i + 1]) == multiset(t[..i + 1])
    ensures j <= i && d[j] == t[i]
  {
    assert t[..i + 1][i] == t[i];
    assert t[i] in multiset(d[..i + 1]);
    var k :| 0 <= k <= i && d[..i + 1][k] == t[i];
    j := k;
  }

  /** Prefixing the picks that finish the job with the pick for position i. */
  lemma ExtendPicks<T>(d: seq<T>, t: seq<T>, i: int, j: nat, rest: seq<nat>) returns (picks: seq<nat>)
    requires 0 < i < |d| && j <= i
    requires ValidPicks(rest, |d|)
    requires ShuffleFrom(Swap(d, i, j), rest, i - 1) == t
    ensures ValidPicks(picks, |d|) && ShuffleFrom(d, picks, i) == t
  {
    picks := rest[i := j];
    ShuffleFromReadsPicksUpTo(Swap(d, i, j), picks, rest, i - 1);
  }

  /** Every arrangement of the positions 0..i is reachable: when d and t agree
      above position i and hold the same cards up to it, some picks make the
      shuffle from position i turn d into t. */
  lemma {:induction false} ShuffleFromReaches<T>(d: seq<T>, t: seq<T>, i: int) returns (picks: seq<nat>)
    requires -1 <= i < |d| == |t|
    requires multiset(d[..i + 1]) == multiset(t[..i + 1])
    requires d[i + 1..] == t[i + 1..]
    ensures ValidPicks(picks, |d|) && ShuffleFrom(d, picks, i) == t
    decreases i
  {
    if i <= 0 {
      picks := NothingLeftToShuffle(d, t, i);
    } else {
      var j := PartnerExists(d, t, i);
      SwapTowardsBelow(d, t, i, j);
      SwapTowardsAbove(d, t, i, j);
      var rest := ShuffleFromReaches(Swap(d, i, j), t, i - 1);
      picks := ExtendPicks(d, t, i, j, rest);
    }
  }

  /** Fisher-Yates can produce every arrangement of the deck: for every
      permutation t of d there are picks that shuffle d into t. */
  lemma ShuffleReachesEveryPermutation<T>(d: seq<T>, t: seq<T>)
    requires multiset(d) == multiset(t)
    ensures exists picks :: ValidPicks(picks, |d|) && Shuffle(d, picks) == t
  {
    assert |d| == |multiset(d)| == |multiset(t)| == |t|;
    assert d[..|d|] == d && t[..|t|] == t;
    var picks := ShuffleFromReaches(d, t, |d| - 1);
  }

  /** The swap loop, written as the source writes it: i runs from the last
      index down to 1 and swaps deck[i] with deck[picks[i]]. */
  method ShuffleDeck<T>(deck: seq<T>, picks: seq<nat>) returns (r: seq<T>)
    requires ValidPicks(picks, |deck|)
    ensures r == Shuffle(deck, picks)
    ensures |r| == |deck| && multiset(r) == multiset(deck)
  {
    r := deck;
    var i := |deck| - 1;
    while i > 0
      invariant i < |deck| && |r| == |deck|
      invariant ShuffleFrom(r, picks, i) == Shuffle(deck, picks)
      invariant multiset(r) == multiset(deck)
      decreases i
    {
      SwapPermutes(r, i, picks[i]);
      r := Swap(r, i, picks[i]);
      i := i - 1;
    }
  }

  /** `deck.pop()`: the last card and the deck without it; on an empty deck,
      `undefined` and the deck stays empty. */
  function Pop<T>(d: seq<T>): (r: (Slot<T>, seq<T>))
    ensures d == [] ==> r == (Undefined, [])
    ensures d != [] ==> r.0 == Dealt(d[|d| - 1]) && r.1 + [d[|d| - 1]] == d
  {
    if d == [] then (Undefined, []) else (Dealt(d[|d| - 1]), d[..|d| - 1])
  }

  /** n successive pops, in pop order, and the deck they leave: the deck
      loses exactly its top min(n, |d|) cards. */
  function PopN<T>(d: seq<T>, n: nat): (r: (seq<Slot<T>>, seq<T>))
    ensures |r.0| == n
    ensures r.1 == if n <= |d| then d[..|d| - n] else []
    decreases n
  {
    if n == 0 then ([], d)
    else
      var first := Pop(d);
      var after := PopN(first.1, n - 1);
      ([first.0] + after.0, after.1)
  }

  /** What n pops yield: the top min(n, |d|) cards, topmost first, then
      `undefined` for every pop from the emptied deck. */
  lemma {:induction false} PopNSlots<T>(d: seq<T>, n: nat)
    ensures forall k :: 0 <= k < n ==> PopN(d, n).0[k] == if k < |d| then Dealt(d[|d| - 1 - k]) else Undefined
    decreases n
  {
    if n > 0 {
      var first := Pop(d);
      PopNSlots(first.1, n - 1);
      var slots := PopN(d, n).0;
      assert slots == [first.0] + PopN(first.1, n - 1).0;
      forall k | 0 < k < n
        ensures slots[k] == if k < |d| then Dealt(d[|d| - 1 - k]) else Undefined
      {
        assert slots[k] == PopN(first.1, n - 1).0[k - 1];
        if d != [] && k < |d| {
          assert first.1[|first.1| - 1 - (k - 1)] == d[|d| - 1 - k];
        }
      }
    }
  }

  predicate AllDealt<T>(slots: seq<Slot<T>>) {
    forall k :: 0 <= k < |slots| ==> slots[k].Dealt?
  }

  /** The cards among some slots, in slot order. */
  function DealtCards<T>(slots: seq<Slot<T>>): (cs: seq<T>)
    ensures |cs| <= |slots|
  {
    if slots == [] then []
    else (if slots[0].Dealt? then [slots[0].card] else []) + DealtCards(slots[1..])
  }

  /** When every slot holds a card, the cards are exactly those, slot by slot. */
  lemma {:induction false} DealtCardsOfAllDealt<T>(slots: seq<Slot<T>>)
    requires AllDealt(slots)
    ensures |DealtCards(slots)| == |slots|
    ensures forall k :: 0 <= k < |slots| ==> slots[k] == Dealt(DealtCards(slots)[k])
  {
    if slots != [] {
      DealtCardsOfAllDealt(slots[1..]);
      var cs := DealtCards(slots);
      assert cs == [slots[0].card] + DealtCards(slots[1..]);
      forall k | 0 < k < |slots| ensures slots[k] == Dealt(cs[k]) {
        assert slots[k] == slots[1..][k - 1];
      }
    }
  }

  /** Every pop returns a card exactly when the deck holds at least n cards. */
  lemma PopNSafe<T>(d: seq<T>, n: nat)
    ensures AllDealt(PopN(d, n).0) <==> n <= |d|
  {
    PopNSlots(d, n);
    if n > |d| {
      assert PopN(d, n).0[|d|] == Undefined;
    }
  }

  lemma ConsUnion<T>(x: T, s: seq<T>)
    ensures multiset([x] + s) == multiset{x} + multiset(s)
  {
  }

  lemma UnionRearrange<T>(a: multiset<T>, b: multiset<T>, x: T)
    ensures a + (multiset{x} + b) == (a + b) + multiset{x}
  {
  }

  lemma DealtCardsCons<T>(s: Slot<T>, more: seq<Slot<T>>)
    ensures DealtCards([s] + more) == (if s.Dealt? then [s.card] else []) + DealtCards(more)
  {
    assert ([s] + more)[1..] == more;
  }

  /** Popping loses no card and invents none: what is left plus what was
      drawn is the deck. */
  lemma {:induction false} PopNConserves<T>(d: seq<T>, n: nat)
    ensures multiset(PopN(d, n).1) + multiset(DealtCards(PopN(d, n).0)) == multiset(d)
    decreases n
  {
    if n > 0 {
      var p := Pop(d);
      var q := PopN(p.1, n - 1);
      assert PopN(d, n) == ([p.0] + q.0, q.1);
      PopNConserves(p.1, n - 1);
      DealtCardsCons(p.0, q.0);
      if d == [] {
        assert DealtCards([p.0] + q.0) == DealtCards(q.0);
      } else {
        var top := d[|d| - 1];
        assert d == p.1 + [top];
        assert DealtCards([p.0] + q.0) == [top] + DealtCards(q.0);
        ConsUnion(top, DealtCards(q.0));
        UnionRearrange(multiset(q.1), multiset(DealtCards(q.0)), top);
      }
    }
  }
}
