/** The card tables of the game and the construction of a fresh, unshuffled deck.

    A card carries only the rank shown on its face and the value that rank is
    worth; the suit drives the construction loop but is not stored on the card.
 */
module Cards {

  datatype Card = Card(display: string, value: int)

  /** Value of each rank, keyed by the rank's face text. */
  const CardValues: map<string, int> :=
    map["A" := 1, "2" := 2, "3" := 3, "4" := 4, "5" := 5, "6" := 6, "7" := 7,
        "8" := 8, "9" := 9, "10" := 10, "J" := 11, "Q" := 12, "K" := 13]

  /** The thirteen ranks in the order one suit contributes them. */
  const CardDisplays: seq<string> :=
    ["A", "2", "3", "4", "5", "6", "7", "8", "9", "10", "J", "Q", "K"]

  const Suits: seq<string> := ["♥", "♦", "♣", "♠"]

  /** A card the tables can produce: its value is the one its rank is worth. */
  predicate IsGenuine(c: Card) {
    c.display in CardValues && c.value == CardValues[c.display]
  }

  function ValuesOf(cards: seq<Card>): (vs: seq<int>)
    ensures |vs| == |cards|
    ensures forall k :: 0 <= k < |cards| ==> vs[k] == cards[k].value
  {
    seq(|cards|, k requires 0 <= k < |cards| => cards[k].value)
  }

  /** The two tables agree: the rank at index k is listed in the value table
      and is worth k + 1, so every value 1..13 has exactly one rank. */
  lemma TablesAgree()
    ensures |CardDisplays| == 13 && |Suits| == 4
    ensures forall k :: 0 <= k < 13 ==> CardDisplays[k] in CardValues && CardValues[CardDisplays[k]] == k + 1
    ensures forall d :: d in CardValues <==> d in CardDisplays
  {
    forall d | d in CardValues ensures d in CardDisplays {
      assert d in CardValues.Keys;
    }
  }

  /** The card of the rank at index k of the table. */
  function Rank(k: int): (c: Card)
    requires 0 <= k < 13
    ensures IsGenuine(c) && c.value == k + 1 && c.display == CardDisplays[k]
  {
    TablesAgree();
    Card(CardDisplays[k], CardValues[CardDisplays[k]])
  }

  /** The thirteen cards one suit contributes, in rank order. */
  function SuitRow(): (row: seq<Card>)
    ensures |row| == 13
    ensures forall k :: 0 <= k < 13 ==> row[k] == Rank(k)
  {
    seq(13, k requires 0 <= k < 13 => Rank(k))
  }

  /** n copies of row, laid down one after the other. */
  function Repeat<T>(row: seq<T>, n: nat): (d: seq<T>)
    ensures |d| == n * |row|
  {
    if n == 0 then [] else Repeat(row, n - 1) + row
  }

  /** The deck in construction order: suit by suit, each suit in rank order. */
  function FullDeck(): (d: seq<Card>)
    ensures |d| == |Suits| * |CardDisplays| == 52
  {
    Repeat(SuitRow(), |Suits|)
  }

  /** The nested construction loop over suits and ranks builds exactly the
      52-card deck. */
  method CreateDeck() returns (deck: seq<Card>)
    ensures deck == FullDeck()
    ensures |deck| == 52
  {
    TablesAgree();
    deck := [];
    var s := 0;
    while s < |Suits|
      invariant 0 <= s <= |Suits|
      invariant deck == Repeat(SuitRow(), s)
    {
      var k := 0;
      while k < |CardDisplays|
        invariant 0 <= k <= |CardDisplays|
        invariant deck == Repeat(SuitRow(), s) + SuitRow()[..k]
      {
        var display := CardDisplays[k];
        deck := deck + [Card(display, CardValues[display])];
        assert SuitRow()[..k + 1] == SuitRow()[..k] + [Rank(k)];
        k := k + 1;
      }
      assert SuitRow()[..13] == SuitRow();
      s := s + 1;
    }
  }

  /** A genuine card is the rank its value names. */
  lemma GenuineIsRank(c: Card)
    requires IsGenuine(c)
    ensures 1 <= c.value <= 13 && c == Rank(c.value - 1)
  {
    TablesAgree();
    var k :| 0 <= k < |CardDisplays| && CardDisplays[k] == c.display;
  }

  lemma NotIn<T>(s: seq<T>, x: T)
    requires forall k :: 0 <= k < |s| ==> s[k] != x
    ensures multiset(s)[x] == 0
  {
    if s != [] {
      assert s == s[..|s| - 1] + [s[|s| - 1]];
      NotIn(s[..|s| - 1], x);
    }
  }

  /** An element that occurs at one position only is counted once. */
  lemma CountOnce<T>(s: seq<T>, k: int)
    requires 0 <= k < |s|
    requires forall m :: 0 <= m < |s| && m != k ==> s[m] != s[k]
    ensures multiset(s)[s[k]] == 1
  {
    assert s == s[..k] + [s[k]] + s[k + 1..];
    NotIn(s[..k], s[k]);
    NotIn(s[k + 1..], s[k]);
  }

  /** Every genuine card occurs exactly once among one suit's thirteen ranks,
      and nothing else occurs there. */
  lemma SuitRowCount(c: Card)
    ensures multiset(SuitRow())[c] == if IsGenuine(c) then 1 else 0
  {
    if IsGenuine(c) {
      GenuineIsRank(c);
      CountOnce(SuitRow(), c.value - 1);
    } else {
      NotIn(SuitRow(), c);
    }
  }

  lemma {:induction false} RepeatCount<T>(row: seq<T>, n: nat, x: T)
    ensures multiset(Repeat(row, n))[x] == n * multiset(row)[x]
  {
    if n > 0 {
      RepeatCount(row, n - 1, x);
      assert multiset(Repeat(row, n))[x] == multiset(Repeat(row, n - 1))[x] + multiset(row)[x];
      assert (n - 1) * multiset(row)[x] + multiset(row)[x] == n * multiset(row)[x];
    }
  }

  /** The fresh deck holds four copies of each genuine card and no other card. */
  lemma FullDeckHasFourOfEachCard(c: Card)
    ensures multiset(FullDeck())[c] == if IsGenuine(c) then 4 else 0
    ensures c in FullDeck() <==> IsGenuine(c)
  {
    SuitRowCount(c);
    RepeatCount(SuitRow(), 4, c);
  }

  lemma {:induction false} RepeatValues(row: seq<Card>, n: nat)
    ensures ValuesOf(Repeat(row, n)) == Repeat(ValuesOf(row), n)
  {
    if n > 0 {
      RepeatValues(row, n - 1);
      assert ValuesOf(Repeat(row, n - 1) + row) == ValuesOf(Repeat(row, n - 1)) + ValuesOf(row);
    }
  }

  /** The fresh deck holds each value 1..13 exactly four times and no other value. */
  lemma FullDeckHasFourOfEachValue(v: int)
    ensures multiset(ValuesOf(FullDeck()))[v] == if 1 <= v <= 13 then 4 else 0
  {
    var row := ValuesOf(SuitRow());
    if 1 <= v <= 13 {
      CountOnce(row, v - 1);
    } else {
      NotIn(row, v);
    }
    RepeatValues(SuitRow(), 4);
    RepeatCount(row, 4, v);
  }
}
