/** The Solitaire object: the deck it owns and the operations that update it in place.

    The source's circular list of CardNode objects is represented by the field `deck`,
    the ring read from the front card (deckRear.next) to the rear card (deckRear).
    Positions stand for nodes: position i + 1 is the node that `next` leads to from
    position i, and position 0 follows position Size - 1. Swapping card values swaps
    entries; relinking whole blocks of the ring, or moving deckRear, rewrites `deck`
    as the same blocks in their new order. */
module Solitaire {
  import opened Deck
  import Steps
  import opened Keystream
  import opened Cipher

  class Solitaire {
    var deck: seq<int>

    ghost predicate Valid()
      reads this
    {
      IsDeck(deck)
    }

    /** The ring-building half of makeDeck: the first value becomes a one-node ring, and
        each later value becomes a node inserted after deckRear, which then moves to it. */
    constructor MakeDeck(cardValues: seq<int>)
      requires IsDeck(cardValues)
      ensures Valid() && deck == cardValues
    {
      var ring := [cardValues[0]];
      for i := 1 to |cardValues|
        invariant ring == cardValues[..i]
      {
        ring := ring + [cardValues[i]];
      }
      assert ring == cardValues;
      deck := ring;
    }

    /** Step 1 (jokerA): walk prev and curr round the ring from deckRear and the front
        card; when prev holds joker A swap it with curr, when curr holds it swap it with
        the card after curr. */
    method JokerA()
      requires Valid()
      modifies this
      ensures Valid() && deck == Steps.MoveJokerA(old(deck))
    {
      ghost var p := PositionOf(deck, JokerAValue);
      var prev, curr := Size - 1, 0;
      while deck[prev] != JokerAValue && deck[curr] != JokerAValue
        invariant 0 <= curr < Size && prev == Pred(curr)
        invariant curr <= p && (p == Size - 1 ==> curr == 0)
        decreases p - curr
      {
        prev, curr := curr, curr + 1;
      }
      if deck[prev] == JokerAValue {
        Steps.MoveJokerAUpdates(deck, prev);
        var temp := deck[prev];
        deck := deck[prev := deck[curr]];
        deck := deck[curr := temp];
      } else {
        Steps.MoveJokerAUpdates(deck, curr);
        var temp := deck[curr];
        deck := deck[curr := deck[Succ(curr)]];
        deck := deck[Succ(curr) := temp];
      }
    }

    /** Step 2 (jokerB): walk prev round the ring from deckRear; where it holds joker B,
        the next two values move up one node each and joker B goes two nodes on. (The
        source has separate branches for prev == deckRear and for any other node; their
        bodies are the same.) */
    method JokerB()
      requires Valid()
      modifies this
      ensures Valid() && deck == Steps.MoveJokerB(old(deck))
    {
      ghost var p := PositionOf(deck, JokerBValue);
      var prev := Size - 1;
      while deck[prev] != JokerBValue
        invariant 0 <= prev < Size
        invariant prev == Size - 1 || prev <= p
        invariant p == Size - 1 ==> prev == Size - 1
        decreases if prev == Size - 1 then Size else p - prev
      {
        prev := Succ(prev);
      }
      PositionOfCard(deck, prev);
      Steps.MoveJokerBUpdates(deck, prev);
      var curr := Succ(prev);
      var temp := deck[prev];
      deck := deck[prev := deck[curr]];
      deck := deck[curr := deck[Succ(curr)]];
      deck := deck[Succ(curr) := temp];
    }

    /** The three scans of tripleCut: the first joker from the front, the node before
        it, and the other joker. */
    method FindJokers() returns (firstJoker: int, beforeFirstJoker: int, secondJoker: int)
      requires Valid()
      ensures firstJoker == Steps.FirstJoker(deck) && secondJoker == Steps.SecondJoker(deck)
      ensures beforeFirstJoker == Pred(firstJoker)
    {
      ghost var f := Steps.FirstJoker(deck);
      Steps.JokersPlaced(deck);
      firstJoker := 0;
      while !IsJoker(deck[firstJoker])
        invariant 0 <= firstJoker <= f
        decreases f - firstJoker
      {
        firstJoker := firstJoker + 1;
      }
      assert firstJoker == f;

      var prev, curr := Size - 1, 0;
      while deck[curr] != deck[firstJoker]
        invariant 0 <= curr <= firstJoker && prev == Pred(curr)
        decreases firstJoker - curr
      {
        prev, curr := curr, curr + 1;
      }
      PositionOfCard(deck, curr);
      PositionOfCard(deck, firstJoker);
      beforeFirstJoker := prev;

      var secondCardNumber := if deck[firstJoker] == JokerAValue then JokerBValue else JokerAValue;
      ghost var s := Steps.SecondJoker(deck);
      secondJoker := Size - 1;
      while deck[secondJoker] != secondCardNumber
        invariant 0 <= secondJoker < Size
        invariant secondJoker == Size - 1 || secondJoker <= s
        invariant s == Size - 1 ==> secondJoker == Size - 1
        decreases if secondJoker == Size - 1 then Size else s - secondJoker
      {
        secondJoker := Succ(secondJoker);
      }
      PositionOfCard(deck, secondJoker);
      PositionOfCard(deck, s);
    }

    /** Step 3 (tripleCut): nothing to do when the rear and front cards are the two jokers.
        Otherwise find the first joker from the front, the node before it, and the other
        joker scanning from deckRear. If a joker is the front card only deckRear moves (to
        the second joker); if a joker is the rear card only deckRear moves (to the node
        before the first joker); otherwise the three blocks are relinked. */
    method TripleCut()
      requires Valid()
      modifies this
      ensures Valid() && deck == Steps.TripleCut(old(deck))
    {
      if (deck[Size - 1] == JokerAValue && deck[0] == JokerBValue)
        || (deck[Size - 1] == JokerBValue && deck[0] == JokerAValue)
      {
        assert deck == Steps.TripleCut(deck) by { Steps.TripleCutJokersAtEnds(deck); }
        return;
      }

      var firstJoker, beforeFirstJoker, secondJoker := FindJokers();
      ghost var d := deck;
      if IsJoker(deck[0]) {
        deck := Steps.RotateToRear(deck, secondJoker);
        assert deck == Steps.TripleCut(d) by { Steps.TripleCutJokerInFront(d); }
        return;
      }
      if IsJoker(deck[Size - 1]) {
        deck := Steps.RotateToRear(deck, beforeFirstJoker);
        assert deck == Steps.TripleCut(d) by { Steps.TripleCutJokerAtRear(d); }
        return;
      }
      deck := deck[secondJoker + 1..] + deck[firstJoker..secondJoker + 1] + deck[..firstJoker];
      assert deck == Steps.TripleCut(d);
    }

    /** Step 4 (countCut): unless the rear card is a joker, find the node before the rear,
        count the rear card's value down from the front, and relink so that the counted
        cards sit between the node before the rear and the rear card. */
    method CountCut()
      requires Valid()
      modifies this
      ensures Valid() && deck == Steps.CountCut(old(deck))
    {
      var cardNumber := deck[Size - 1];
      if cardNumber == JokerAValue || cardNumber == JokerBValue {
        return;
      }
      CardInRange(deck, Size - 1);

      var prev, curr := Size - 1, 0;
      while curr != Size - 1
        invariant 0 <= curr < Size && prev == Pred(curr)
        decreases Size - 1 - curr
      {
        prev, curr := Succ(prev), Succ(curr);
      }
      var beforeLast := prev;
      prev, curr := Succ(prev), Succ(curr);

      var i := 0;
      while i < cardNumber
        invariant 0 <= i <= cardNumber && curr == i && prev == Pred(curr)
      {
        prev, curr := Succ(prev), Succ(curr);
        i := i + 1;
      }
      assert beforeLast == Size - 2 && curr == cardNumber && prev == cardNumber - 1;
      ghost var d := deck;
      deck := deck[curr..beforeLast + 1] + deck[..prev + 1] + [deck[Size - 1]];
      assert deck == d[cardNumber..Size - 1] + d[..cardNumber] + [d[Size - 1]];
      assert deck == Steps.CountCut(d);
    }

    /** The count down inside getKey: from deckRear move on as many nodes as the front
        card's value (joker B counting as 27) and read the card after that node. */
    method CountDown() returns (keyNumber: int)
      requires Valid()
      ensures keyNumber == Candidate(deck)
    {
      CardInRange(deck, 0);
      var firstCardNumber := if deck[0] == JokerBValue then JokerAValue else deck[0];
      var key, j := Size - 1, 0;
      while j < firstCardNumber
        invariant 0 <= j <= firstCardNumber && key == Pred(j)
      {
        key, j := Succ(key), j + 1;
      }
      keyNumber := deck[Succ(key)];
    }

    /** getKey: run the four steps and count down; while the card read is a joker, run
        them again on the deck as it now is. The key and the deck left behind are those
        of NextKey, so the key lies in 1..26. */
    method GetKey(ghost fuel: nat) returns (keyNumber: int)
      requires Valid() && NextKey(deck, fuel).Some?
      modifies this
      ensures Valid()
      ensures Some(Draw(keyNumber, deck)) == NextKey(old(deck), fuel)
      ensures 1 <= keyNumber <= 26
    {
      ghost var left := fuel;
      ghost var target := NextKey(deck, fuel);
      keyNumber := JokerBValue;  // the source's do-while runs its body at least once
      while keyNumber == JokerBValue || keyNumber == JokerAValue
        invariant Valid()
        invariant IsJoker(keyNumber) ==> NextKey(deck, left) == target
        invariant !IsJoker(keyNumber) ==> Some(Draw(keyNumber, deck)) == target
        decreases left + (if IsJoker(keyNumber) then 1 else 0)
      {
        ghost var before := deck;
        JokerA();
        JokerB();
        TripleCut();
        CountCut();
        RoundIsFourSteps(before);
        assert deck == Round(before);
        keyNumber := CountDown();
        if IsJoker(keyNumber) {
          NextKeyAfterJoker(before, left);
          left := left - 1;
        }
      }
    }

    /** encrypt: keep the letters 'A'..'Z' of the message and shift each forward by the
        next key. With no letters no key is drawn and the deck stays as it was. */
    method Encrypt(message: seq<Unit>, ghost fuel: nat) returns (encrypted: seq<Unit>)
      requires Valid() && Keys(deck, |Letters(message)|, fuel).Some?
      modifies this
      ensures Valid()
      ensures var letters := Letters(message);
        var s := Keys(old(deck), |letters|, fuel).value;
        |encrypted| == |letters| && deck == s.deck &&
        forall i :: 0 <= i < |letters| ==>
          IsUpper(letters[i]) && 1 <= s.keys[i] <= 26 &&
          encrypted[i] == EncryptLetter(letters[i], s.keys[i])
    {
      var newMessage := Letters(message);
      LettersAreUpper(message);
      var newMessageArray := new Unit[|newMessage|];
      ghost var all := Keys(deck, |newMessage|, fuel).value;
      KeysInRange(deck, |newMessage|, fuel);
      ghost var out: seq<Unit> := [];
      for i := 0 to |newMessage|
        invariant Valid()
        invariant Keys(deck, |newMessage| - i, fuel) == Some(Stream(all.keys[i..], all.deck))
        invariant newMessageArray[..i] == out
        invariant forall j :: 0 <= j < i ==> out[j] == EncryptLetter(newMessage[j], all.keys[j])
      {
        KeysTail(deck, all.keys, i, all.deck, fuel);
        var c := newMessage[i];
        var key := GetKey(fuel);
        var newMessageNumber: int := key + c;
        if newMessageNumber > 90 {
          newMessageNumber := newMessageNumber - 26;
        }
        assert newMessageNumber == EncryptLetter(c, key);
        newMessageArray[i] := newMessageNumber;
        out := out + [newMessageNumber];
      }
      encrypted := newMessageArray[..];
    }

    /** decrypt: shift every character of the message back by the next key, adding 26
        when the result is below 64. Nothing is filtered. */
    method Decrypt(message: seq<Unit>, ghost fuel: nat) returns (decrypted: seq<Unit>)
      requires Valid() && Keys(deck, |message|, fuel).Some?
      modifies this
      ensures Valid()
      ensures var s := Keys(old(deck), |message|, fuel).value;
        |decrypted| == |message| && deck == s.deck &&
        forall i :: 0 <= i < |message| ==>
          1 <= s.keys[i] <= 26 && decrypted[i] == DecryptUnit(message[i], s.keys[i])
    {
      var messageArray := new Unit[|message|];
      ghost var all := Keys(deck, |message|, fuel).value;
      KeysInRange(deck, |message|, fuel);
      ghost var out: seq<Unit> := [];
      for i := 0 to |message|
        invariant Valid()
        invariant Keys(deck, |message| - i, fuel) == Some(Stream(all.keys[i..], all.deck))
        invariant messageArray[..i] == out
        invariant forall j :: 0 <= j < i ==> out[j] == DecryptUnit(message[j], all.keys[j])
      {
        KeysTail(deck, all.keys, i, all.deck, fuel);
        var c := message[i];
        var key := GetKey(fuel);
        var messageNumber: int := c - key;
        if messageNumber < 64 {
          messageNumber := messageNumber + 26;
        }
        assert messageNumber == DecryptUnit(c, key);
        messageArray[i] := messageNumber;
        out := out + [messageNumber];
      }
      decrypted := messageArray[..];
    }
  }

  /** Two decks dealt from the same values: one encrypts a message of capital letters,
      the other decrypts the result. Every letter comes back, except that a 'Z' comes
      back as '@'. */
  method EncryptThenDecrypt(cardValues: seq<int>, message: seq<Unit>, ghost fuel: nat)
    returns (decrypted: seq<Unit>)
    requires IsDeck(cardValues)
    requires forall i :: 0 <= i < |message| ==> IsUpper(message[i])
    requires Keys(cardValues, |message|, fuel).Some?
    ensures |decrypted| == |message|
    ensures forall i :: 0 <= i < |message| ==>
      decrypted[i] == if message[i] == LetterZ then AtSign else message[i]
    ensures (forall i :: 0 <= i < |message| ==> message[i] != LetterZ) ==> decrypted == message
  {
    var sender := new Solitaire.MakeDeck(cardValues);
    var receiver := new Solitaire.MakeDeck(cardValues);
    LettersOfUpper(message);
    var encrypted := sender.Encrypt(message, fuel);
    decrypted := receiver.Decrypt(encrypted, fuel);
    var keys := Keys(cardValues, |message|, fuel).value.keys;
    forall i | 0 <= i < |message|
      ensures decrypted[i] == if message[i] == LetterZ then AtSign else message[i]
    {
      DecryptUndoesEncrypt(message[i], keys[i]);
    }
  }
}
