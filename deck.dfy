/** The deck of the Solitaire keystream generator.

    The source keeps the deck as a circular linked list of 28 card nodes and a field
    deckRear that points at the last one; deckRear.next is the front card. Here the
    ring is read once around, from the front card to the rear card, into a sequence:
    position 0 is the front card and position Size - 1 is the card deckRear points at.
    Moving deckRear to another node is a rotation of that sequence. */
module Deck {

  /** 26 numbered cards and two jokers. */
  const Size: int := 28

  /** The card values of the two jokers. */
  const JokerAValue: int := 27
  const JokerBValue: int := 28

  predicate IsJoker(v: int) {
    v == JokerAValue || v == JokerBValue
  }

  /** The other joker. */
  function OtherJoker(v: int): (w: int)
    requires IsJoker(v)
    ensures IsJoker(w) && w != v
  {
    if v == JokerAValue then JokerBValue else JokerAValue
  }

  /** Position of the card that `next` leads to: the front card follows the rear card. */
  function Succ(i: int): (j: int)
    requires 0 <= i < Size
    ensures 0 <= j < Size && j == (i + 1) % Size
  {
    if i == Size - 1 then 0 else i + 1
  }

  /** Position of the card whose `next` is position i. */
  function Pred(i: int): (j: int)
    requires 0 <= i < Size
    ensures 0 <= j < Size && Succ(j) == i
  {
    if i == 0 then Size - 1 else i - 1
  }

  /** The values 1..28 in increasing order. */
  function Ordered(): seq<int> {
    seq(Size, i => i + 1)
  }

  /** A deck holds each of the values 1..28 exactly once. */
  ghost predicate IsDeck(d: seq<int>) {
    |d| == Size && multiset(d) == multiset(Ordered())
  }

  /** A position holding v: the first one, scanning from the front. */
  function IndexOf(d: seq<int>, v: int): (i: nat)
    requires v in d
    ensures i < |d| && d[i] == v
    decreases |d|
  {
    if d[0] == v then 0
    else
      assert v in d[1..] by { assert d == [d[0]] + d[1..]; }
      1 + IndexOf(d[1..], v)
  }

  /** A strictly increasing sequence holds each value at most once. */
  lemma {:induction false} IncreasingCountsOnce(s: seq<int>, v: int)
    requires forall i, j :: 0 <= i < j < |s| ==> s[i] < s[j]
    ensures multiset(s)[v] <= 1
  {
    if s != [] {
      assert s == [s[0]] + s[1..];
      IncreasingCountsOnce(s[1..], v);
      if s[0] == v {
        assert v !in s[1..];
      }
    }
  }

  /** Two equal entries at different positions occur twice in the multiset. */
  lemma TwiceCountsTwice(s: seq<int>, i: int, j: int)
    requires 0 <= i < j < |s| && s[i] == s[j]
    ensures multiset(s)[s[i]] >= 2
  {
    assert s == s[..i] + [s[i]] + s[i + 1..j] + [s[j]] + s[j + 1..];
  }

  /** Every card of a deck has a value 1..28. */
  lemma CardInRange(d: seq<int>, i: int)
    requires IsDeck(d) && 0 <= i < Size
    ensures 1 <= d[i] <= Size
  {
    assert d[i] in multiset(d);
    assert d[i] in Ordered();
  }

  /** Every value 1..28 is a card of a deck. */
  lemma CardPresent(d: seq<int>, v: int)
    requires IsDeck(d) && 1 <= v <= Size
    ensures v in d
  {
    assert Ordered()[v - 1] == v;
    assert v in multiset(Ordered());
  }

  /** No value occurs twice in a deck. */
  lemma CardsDistinct(d: seq<int>, i: int, j: int)
    requires IsDeck(d) && 0 <= i < Size && 0 <= j < Size && i != j
    ensures d[i] != d[j]
  {
    if d[i] == d[j] {
      if i < j {
        TwiceCountsTwice(d, i, j);
      } else {
        TwiceCountsTwice(d, j, i);
      }
      IncreasingCountsOnce(Ordered(), d[i]);
    }
  }

  /** What being a deck means card by card: every entry is a value 1..28,
      every value 1..28 is present, and no value occurs twice. */
  lemma DeckFacts(d: seq<int>)
    requires IsDeck(d)
    ensures forall i :: 0 <= i < Size ==> 1 <= d[i] <= Size
    ensures forall v :: 1 <= v <= Size ==> v in d
    ensures forall i, j :: 0 <= i < j < Size ==> d[i] != d[j]
  {
    forall i | 0 <= i < Size
      ensures 1 <= d[i] <= Size
    {
      CardInRange(d, i);
    }
    forall v | 1 <= v <= Size
      ensures v in d
    {
      CardPresent(d, v);
    }
    forall i, j | 0 <= i < j < Size
      ensures d[i] != d[j]
    {
      CardsDistinct(d, i, j);
    }
  }

  /** The position of card v in a deck. */
  function PositionOf(d: seq<int>, v: int): (i: nat)
    requires IsDeck(d) && 1 <= v <= Size
    ensures i < Size && d[i] == v
  {
    CardPresent(d, v);
    IndexOf(d, v)
  }

  /** In a deck each position is the only position of its card. */
  lemma PositionOfCard(d: seq<int>, k: int)
    requires IsDeck(d) && 0 <= k < Size
    ensures 1 <= d[k] <= Size && PositionOf(d, d[k]) == k
  {
    CardInRange(d, k);
    var p := PositionOf(d, d[k]);
    if p != k {
      CardsDistinct(d, p, k);
    }
  }
}
