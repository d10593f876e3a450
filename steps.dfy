/** The four steps that shuffle the deck before each key is read, as rewrites of the
    deck read from the front card to the rear card. */
module Steps {
  import opened Deck

  /** Exchange the values of the cards at positions i and j. */
  function Swap(d: seq<int>, i: int, j: int): (r: seq<int>)
    requires 0 <= i < |d| && 0 <= j < |d|
    ensures |r| == |d| && multiset(r) == multiset(d)
  {
    d[i := d[j]][j := d[i]]
  }

  /** The deck read from the front once deckRear points at position i. */
  function RotateToRear(d: seq<int>, i: int): (r: seq<int>)
    requires 0 <= i < |d|
    ensures |r| == |d| && r[|d| - 1] == d[i] && multiset(r) == multiset(d)
  {
    assert d == d[..i + 1] + d[i + 1..];
    d[i + 1..] + d[..i + 1]
  }

  /** Step 1: joker A trades places with the card after it in the ring. */
  function MoveJokerA(d: seq<int>): (r: seq<int>)
    requires IsDeck(d)
    ensures IsDeck(r)
  {
    var p := PositionOf(d, JokerAValue);
    Swap(d, p, Succ(p))
  }

  /** Step 2: joker B moves two cards down the ring, one place at a time. */
  function MoveJokerB(d: seq<int>): (r: seq<int>)
    requires IsDeck(d)
    ensures IsDeck(r)
  {
    var p := PositionOf(d, JokerBValue);
    Swap(Swap(d, p, Succ(p)), Succ(p), Succ(Succ(p)))
  }

  /** Position of the joker met first when reading from the front card. */
  function FirstJoker(d: seq<int>): (f: nat)
    requires IsDeck(d)
    ensures f < Size && IsJoker(d[f])
  {
    var a, b := PositionOf(d, JokerAValue), PositionOf(d, JokerBValue);
    if a < b then a else b
  }

  /** Position of the other joker, which lies after the first one. */
  function SecondJoker(d: seq<int>): (s: nat)
    requires IsDeck(d)
    ensures FirstJoker(d) < s < Size && d[s] == OtherJoker(d[FirstJoker(d)])
  {
    PositionOf(d, OtherJoker(d[FirstJoker(d)]))
  }

  /** No joker comes before the first joker, or between or after the two jokers except
      the second one itself. */
  lemma JokersPlaced(d: seq<int>)
    requires IsDeck(d)
    ensures forall i :: 0 <= i < FirstJoker(d) ==> !IsJoker(d[i])
    ensures forall i :: FirstJoker(d) < i < Size && i != SecondJoker(d) ==> !IsJoker(d[i])
  {
    JokersOnlyAt(d, FirstJoker(d), SecondJoker(d));
  }

  /** A deck holds no joker outside the two positions where the jokers are. */
  lemma JokersOnlyAt(d: seq<int>, f: int, s: int)
    requires IsDeck(d) && 0 <= f < Size && 0 <= s < Size
    requires IsJoker(d[f]) && d[s] == OtherJoker(d[f])
    ensures forall i :: 0 <= i < Size && i != f && i != s ==> !IsJoker(d[i])
  {
    forall i | 0 <= i < Size && i != f && i != s
      ensures !IsJoker(d[i])
    {
      CardsDistinct(d, i, f);
      CardsDistinct(d, i, s);
    }
  }

  /** Step 3: the cards above the first joker and the cards below the second joker
      change places; the jokers and what lies between them stay in the middle. */
  function TripleCut(d: seq<int>): (r: seq<int>)
    requires IsDeck(d)
    ensures IsDeck(r)
  {
    var f, s := FirstJoker(d), SecondJoker(d);
    assert d == d[..f] + d[f..s + 1] + d[s + 1..];
    d[s + 1..] + d[f..s + 1] + d[..f]
  }

  /** Step 4: unless the rear card is a joker, the number of cards its value says are
      taken from the front and put back just above the rear card. */
  function CountCut(d: seq<int>): (r: seq<int>)
    requires IsDeck(d)
    ensures IsDeck(r)
  {
    CardInRange(d, Size - 1);
    var n := d[Size - 1];
    if IsJoker(n) then d
    else
      assert d == d[..n] + d[n..Size - 1] + [d[Size - 1]];
      d[n..Size - 1] + d[..n] + [d[Size - 1]]
  }

  /** Joker A ends up one place further down the ring (on the front card when it was
      the rear card), the card it passed moves up into its old place, and nothing else
      changes. */
  lemma JokerAMovesOne(d: seq<int>)
    requires IsDeck(d)
    ensures var p, r := PositionOf(d, JokerAValue), MoveJokerA(d);
      PositionOf(r, JokerAValue) == Succ(p) && r[p] == d[Succ(p)] &&
      forall k :: 0 <= k < Size && k != p && k != Succ(p) ==> r[k] == d[k]
  {
    var p, r := PositionOf(d, JokerAValue), MoveJokerA(d);
    PositionOfCard(r, Succ(p));
  }

  /** Joker B ends up two places further down the ring, wrapping past the rear card;
      the two cards it passed each move up one place, and nothing else changes. */
  lemma JokerBMovesTwo(d: seq<int>)
    requires IsDeck(d)
    ensures var p, r := PositionOf(d, JokerBValue), MoveJokerB(d);
      var q, s := Succ(p), Succ(Succ(p));
      PositionOf(r, JokerBValue) == s && r[p] == d[q] && r[q] == d[s] &&
      forall k :: 0 <= k < Size && k != p && k != q && k != s ==> r[k] == d[k]
  {
    var p, r := PositionOf(d, JokerBValue), MoveJokerB(d);
    PositionOfCard(r, Succ(Succ(p)));
  }

  /** Step 1 as two updates of card values: joker A and the card after it trade values. */
  lemma MoveJokerAUpdates(d: seq<int>, p: int)
    requires IsDeck(d) && 0 <= p < Size && d[p] == JokerAValue
    ensures MoveJokerA(d) == d[p := d[Succ(p)]][Succ(p) := d[p]]
  {
    PositionOfCard(d, p);
  }

  /** Step 2 as three updates of card values along the ring: the two cards after joker B
      move up one place each and joker B lands on the second of them. */
  lemma MoveJokerBUpdates(d: seq<int>, p: int)
    requires IsDeck(d) && 0 <= p < Size && d[p] == JokerBValue
    ensures var q := Succ(p);
      MoveJokerB(d) == d[p := d[q]][q := d[Succ(q)]][Succ(q) := d[p]]
  {
    PositionOfCard(d, p);
  }

  /** With a joker on the front card the triple cut only moves deckRear: to the other joker. */
  lemma {:induction false} TripleCutJokerInFront(d: seq<int>)
    requires IsDeck(d) && IsJoker(d[0])
    ensures TripleCut(d) == RotateToRear(d, SecondJoker(d))
  {
    var s := SecondJoker(d);
    assert FirstJoker(d) == 0;
    assert d[..0] == [] && d[0..s + 1] == d[..s + 1];
  }

  /** With a joker on the rear card and none on the front card, the triple cut only moves
      deckRear: to the card just before the first joker. */
  lemma {:induction false} TripleCutJokerAtRear(d: seq<int>)
    requires IsDeck(d) && !IsJoker(d[0]) && IsJoker(d[Size - 1])
    ensures FirstJoker(d) > 0 && TripleCut(d) == RotateToRear(d, FirstJoker(d) - 1)
  {
    var f, s := FirstJoker(d), SecondJoker(d);
    JokersPlaced(d);
    assert s == Size - 1;
    calc {
      TripleCut(d);
      d[s + 1..] + d[f..s + 1] + d[..f];
      { assert d[s + 1..] == [] && d[f..s + 1] == d[f..]; }
      d[f..] + d[..f];
    }
  }

  /** With one joker on the front card and the other on the rear card, the triple cut
      changes nothing. */
  lemma TripleCutJokersAtEnds(d: seq<int>)
    requires IsDeck(d) && IsJoker(d[0]) && IsJoker(d[Size - 1])
    ensures TripleCut(d) == d
  {
    var f, s := FirstJoker(d), SecondJoker(d);
    assert f == 0;
    DeckFacts(d);
    assert s == Size - 1;
  }

  /** The triple cut, block by block: if the deck is A·B·C where B runs from one joker
      to the other and A and C hold no joker, the result is C·B·A. */
  lemma TripleCutSwapsOuterBlocks(d: seq<int>, a: seq<int>, b: seq<int>, c: seq<int>)
    requires IsDeck(d) && d == a + b + c
    requires |b| >= 2 && IsJoker(b[0]) && IsJoker(b[|b| - 1])
    requires forall i :: 0 <= i < |a| ==> !IsJoker(a[i])
    requires forall i :: 0 <= i < |c| ==> !IsJoker(c[i])
    ensures TripleCut(d) == c + b + a
  {
    var e := |a| + |b| - 1;
    JokersPlaced(d);
    assert d[..|a|] == a && d[|a|..e + 1] == b && d[e + 1..] == c;
    forall i | 0 <= i < |a|
      ensures !IsJoker(d[i])
    {
      assert d[i] == a[i];
    }
    assert IsJoker(d[|a|]) by { assert d[|a|] == b[0]; }
    assert FirstJoker(d) == |a|;
    assert IsJoker(d[e]) by { assert d[e] == b[|b| - 1]; }
    assert SecondJoker(d) == e;
  }

  /** The count cut never moves the rear card, and leaves the deck alone when the rear
      card is a joker. */
  lemma CountCutKeepsRear(d: seq<int>)
    requires IsDeck(d)
    ensures CountCut(d)[Size - 1] == d[Size - 1]
    ensures IsJoker(d[Size - 1]) ==> CountCut(d) == d
  {
  }

  /** The count cut, block by block: if the rear card has value n at most 26 and the deck
      is T·M·[rear] with |T| == n, the result is M·T·[rear]. */
  lemma CountCutMovesTop(d: seq<int>, top: seq<int>, middle: seq<int>, rear: int)
    requires IsDeck(d) && d == top + middle + [rear]
    requires rear <= 26 && |top| == rear
    ensures CountCut(d) == middle + top + [rear]
  {
    assert d[Size - 1] == rear;
    assert d[..rear] == top;
    assert d[rear..Size - 1] == middle;
  }
}
