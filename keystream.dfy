/** Drawing keys from the deck: one round of the four steps, the count down from the
    front card, and the retry on a joker. */
module Keystream {
  import opened Deck
  import Steps

  datatype Option<T> = None | Some(value: T)

  /** The deck after n full rounds and then the first k steps of one more round. The
      steps are, in order: joker A, joker B, triple cut, count cut. A round is defined
      step by step, through k, so that Round and Rounds share one recursion and the
      lemmas about rounds can split a round at any step (RoundIsFourSteps gives a round
      as the four steps composed). `d` is listed first in `decreases` so that a call with
      literal n and k, such as Round(d) = Dealt(d, 1, 0), is not unfolded through all
      four steps wherever it appears. */
  function Dealt(d: seq<int>, n: nat, k: nat): (r: seq<int>)
    requires IsDeck(d) && k <= 4
    ensures IsDeck(r)
    decreases d, n, k
  {
    if k == 0 then
      if n == 0 then d else Dealt(d, n - 1, 4)
    else
      var e := Dealt(d, n, k - 1);
      if k == 1 then Steps.MoveJokerA(e)
      else if k == 2 then Steps.MoveJokerB(e)
      else if k == 3 then Steps.TripleCut(e)
      else Steps.CountCut(e)
  }

  /** One round: joker A, joker B, triple cut and count cut, in that order. */
  function Round(d: seq<int>): (r: seq<int>)
    requires IsDeck(d)
    ensures IsDeck(r)
  {
    Dealt(d, 1, 0)
  }

  lemma RoundIsFourSteps(d: seq<int>)
    requires IsDeck(d)
    ensures Round(d) == Steps.CountCut(Steps.TripleCut(Steps.MoveJokerB(Steps.MoveJokerA(d))))
  {
    var a := Dealt(d, 0, 1);
    var b := Dealt(d, 0, 2);
    var c := Dealt(d, 0, 3);
    assert a == Steps.MoveJokerA(d) by { assert Dealt(d, 0, 0) == d; }
    assert b == Steps.MoveJokerB(a);
    assert c == Steps.TripleCut(b);
    assert Dealt(d, 0, 4) == Steps.CountCut(c);
    assert Round(d) == Dealt(d, 0, 4);
  }

  /** The deck after n rounds, with no deck restored in between. */
  function Rounds(d: seq<int>, n: nat): (r: seq<int>)
    requires IsDeck(d)
    ensures IsDeck(r)
  {
    Dealt(d, n, 0)
  }

  /** Dealing one round first and then n rounds and k steps is dealing n + 1 rounds and
      k steps. */
  lemma {:induction false} DealtAfterRound(d: seq<int>, n: nat, k: nat)
    requires IsDeck(d) && k <= 4
    ensures Dealt(Round(d), n, k) == Dealt(d, n + 1, k)
    decreases n, k
  {
    if k > 0 {
      DealtAfterRound(d, n, k - 1);
    } else if n > 0 {
      DealtAfterRound(d, n - 1, 4);
    }
  }

  /** Dealing n rounds and then k steps is dealing k steps from the deck after n rounds. */
  lemma {:induction false} DealtAfterRounds(d: seq<int>, n: nat, k: nat)
    requires IsDeck(d) && k <= 4
    ensures Dealt(Rounds(d, n), 0, k) == Dealt(d, n, k)
  {
    if k > 0 {
      DealtAfterRounds(d, n, k - 1);
    } else if n > 0 {
      assert Dealt(Dealt(d, n, 0), 0, 0) == Dealt(d, n, 0);
    }
  }

  /** Round n + 1 is one more round on the deck after n rounds. */
  lemma RoundsStep(d: seq<int>, n: nat)
    requires IsDeck(d)
    ensures Rounds(d, n + 1) == Round(Rounds(d, n))
  {
    DealtAfterRounds(d, n, 4);
  }

  /** How far to count: the front card's value, joker B counting as 27. */
  function CountValue(d: seq<int>): (n: int)
    requires IsDeck(d)
    ensures 1 <= n <= JokerAValue
  {
    CardInRange(d, 0);
    if d[0] == JokerBValue then JokerAValue else d[0]
  }

  /** The candidate key: the card at position CountValue(d) + 1, counting the front
      card as position 1. */
  function Candidate(d: seq<int>): (c: int)
    requires IsDeck(d)
    ensures 1 <= c <= Size && c in d
  {
    CardInRange(d, CountValue(d));
    d[CountValue(d)]
  }

  /** One key and the deck it leaves behind. */
  datatype Draw = Draw(key: int, deck: seq<int>)

  /** getKey: run a round and read the candidate; on a joker, run another round on the
      deck as it now is. `fuel` bounds the number of rejected candidates: None means
      more than `fuel` candidates in a row were jokers. */
  function NextKey(d: seq<int>, fuel: nat): (r: Option<Draw>)
    requires IsDeck(d)
    ensures r.Some? ==> 1 <= r.value.key <= 26 && IsDeck(r.value.deck)
    ensures r.Some? ==> r.value.key == Candidate(r.value.deck)
    decreases fuel
  {
    var e := Round(d);
    var c := Candidate(e);
    if !IsJoker(c) then Some(Draw(c, e))
    else if fuel == 0 then None
    else NextKey(e, fuel - 1)
  }

  /** A joker candidate costs one unit of fuel: the draw continues from the deck after
      the round. */
  lemma NextKeyAfterJoker(d: seq<int>, fuel: nat)
    requires IsDeck(d) && NextKey(d, fuel).Some? && IsJoker(Candidate(Round(d)))
    ensures fuel > 0 && NextKey(Round(d), fuel - 1) == NextKey(d, fuel)
  {
  }

  /** The key comes from the first round whose candidate is not a joker: if rounds
      1..n give jokers and round n + 1 does not, the key is the candidate of the deck
      after n + 1 rounds, and that deck is the one left behind. */
  lemma {:induction false} NextKeyIsFirstNonJoker(d: seq<int>, fuel: nat, n: nat)
    requires IsDeck(d) && n <= fuel
    requires forall m :: 1 <= m <= n ==> IsJoker(Candidate(Rounds(d, m)))
    requires !IsJoker(Candidate(Rounds(d, n + 1)))
    ensures NextKey(d, fuel) == Some(Draw(Candidate(Rounds(d, n + 1)), Rounds(d, n + 1)))
    decreases n
  {
    var e := Round(d);
    DealtAfterRound(d, 0, 0);
    DealtAfterRound(d, n, 0);
    assert Rounds(d, 1) == e;
    if n > 0 {
      assert IsJoker(Candidate(e));
      assert NextKey(d, fuel) == NextKey(e, fuel - 1);
      forall m | 1 <= m <= n - 1
        ensures IsJoker(Candidate(Rounds(e, m)))
      {
        DealtAfterRound(d, m, 0);
        assert Rounds(e, m) == Rounds(d, m + 1);
      }
      NextKeyIsFirstNonJoker(e, fuel - 1, n - 1);
    }
  }

  /** More fuel never changes a key that was already found. */
  lemma {:induction false} NextKeyMoreFuel(d: seq<int>, fuel: nat, more: nat)
    requires IsDeck(d) && fuel <= more && NextKey(d, fuel).Some?
    ensures NextKey(d, more) == NextKey(d, fuel)
    decreases fuel
  {
    var e := Round(d);
    if IsJoker(Candidate(e)) {
      assert NextKey(d, fuel) == NextKey(e, fuel - 1);
      NextKeyMoreFuel(e, fuel - 1, more - 1);
      assert NextKey(d, more) == NextKey(e, more - 1);
    }
  }

  /** n keys drawn one after the other and the deck they leave behind. */
  datatype Stream = Stream(keys: seq<int>, deck: seq<int>)

  /** The first n keys drawn from d, each with at most `fuel` rejected candidates: the
      next key, then n - 1 keys drawn from the deck it leaves behind. */
  function Keys(d: seq<int>, n: nat, fuel: nat): (r: Option<Stream>)
    requires IsDeck(d)
    ensures r.Some? ==> |r.value.keys| == n && IsDeck(r.value.deck)
    decreases n
  {
    if n == 0 then Some(Stream([], d))
    else
      match NextKey(d, fuel)
      case None => None
      case Some(k) =>
        match Keys(k.deck, n - 1, fuel)
        case None => None
        case Some(s) => Some(Stream([k.key] + s.keys, s.deck))
  }

  /** The first of n keys is the next key, and the other n - 1 are drawn from the deck
      it leaves behind. */
  lemma KeysNext(d: seq<int>, n: nat, fuel: nat)
    requires IsDeck(d) && n > 0 && Keys(d, n, fuel).Some?
    ensures NextKey(d, fuel).Some?
    ensures var k, t := NextKey(d, fuel).value, Keys(d, n, fuel).value;
      t.keys[0] == k.key && Keys(k.deck, n - 1, fuel) == Some(Stream(t.keys[1..], t.deck))
  {
    var t := Keys(d, n, fuel).value;
    assert t.keys[1..] == ([t.keys[0]] + t.keys[1..])[1..];
  }

  /** When the keys still to come from d are ks[i..], the next key is ks[i] and the
      ones after it, ks[i + 1..], come from the deck that draw leaves behind. */
  lemma KeysTail(d: seq<int>, ks: seq<int>, i: nat, e: seq<int>, fuel: nat)
    requires IsDeck(d) && i < |ks| && Keys(d, |ks| - i, fuel) == Some(Stream(ks[i..], e))
    ensures NextKey(d, fuel).Some? && NextKey(d, fuel).value.key == ks[i]
    ensures Keys(NextKey(d, fuel).value.deck, |ks| - (i + 1), fuel) == Some(Stream(ks[i + 1..], e))
  {
    KeysNext(d, |ks| - i, fuel);
    assert ks[i..][1..] == ks[i + 1..];
  }

  /** Every key drawn is a value 1..26. */
  lemma {:induction false} KeysInRange(d: seq<int>, n: nat, fuel: nat)
    requires IsDeck(d) && Keys(d, n, fuel).Some?
    ensures forall i :: 0 <= i < n ==> 1 <= Keys(d, n, fuel).value.keys[i] <= 26
    decreases n
  {
    if n > 0 {
      var k := NextKey(d, fuel).value;
      KeysInRange(k.deck, n - 1, fuel);
    }
  }

  /** More fuel never changes keys that were already drawn, nor the deck they leave. */
  lemma {:induction false} KeysMoreFuel(d: seq<int>, n: nat, fuel: nat, more: nat)
    requires IsDeck(d) && fuel <= more && Keys(d, n, fuel).Some?
    ensures Keys(d, n, more) == Keys(d, n, fuel)
    decreases n
  {
    if n > 0 {
      NextKeyMoreFuel(d, fuel, more);
      var k := NextKey(d, fuel).value;
      KeysMoreFuel(k.deck, n - 1, fuel, more);
    }
  }

  /** Drawing a + b keys is drawing a keys and then b more from the deck the first a
      leave behind. */
  lemma {:induction false} KeysSplit(d: seq<int>, a: nat, b: nat, fuel: nat)
    requires IsDeck(d) && Keys(d, a + b, fuel).Some?
    ensures Keys(d, a, fuel).Some?
    ensures var s, t := Keys(d, a, fuel).value, Keys(d, a + b, fuel).value;
      s.keys == t.keys[..a] && Keys(s.deck, b, fuel) == Some(Stream(t.keys[a..], t.deck))
    decreases a
  {
    if a > 0 {
      var k := NextKey(d, fuel).value;
      KeysSplit(k.deck, a - 1, b, fuel);
      assert a + b - 1 == (a - 1) + b;
      var t := Keys(d, a + b, fuel).value;
      var u := Keys(k.deck, a - 1 + b, fuel).value;
      assert t.keys == [k.key] + u.keys;
      assert t.keys[a..] == u.keys[a - 1..];
    } else {
      assert Keys(d, a + b, fuel).value.keys[0..] == Keys(d, a + b, fuel).value.keys;
    }
  }
}
