# Solitaire keystream cipher

This project models the `Solitaire` class of the Solitaire encryption program
(`Solitaire/Solitaire.java`). The class keeps a deck of 28 cards: the values 1..26
and two jokers, joker A (27) and joker B (28). The deck is a circular linked list of
`CardNode`s, and `deckRear` points at its last node. Each key is drawn in the same way:

1. Move joker A down one card.
2. Move joker B down two cards.
3. Triple cut round the jokers.
4. Count cut by the value of the rear card.
5. Count down from the front card's value and read the next card.
6. If that card is a joker, repeat the whole round on the deck as it now is.

`encrypt` keeps only the letters 'A'..'Z' of a message and shifts each one forward by
the next key. `decrypt` shifts every character back by the next key.

How the model is laid out:

- **Ring as a sequence.** The ring is a sequence of card values read from the front
  card (`deckRear.next`) to the rear card (`deckRear`). Entry i + 1 follows entry i,
  and entry 0 follows the last entry.
- **What a change becomes.** Swapping card values between nodes updates entries.
  Relinking blocks of nodes, or moving `deckRear`, rewrites the sequence as the same
  blocks in their new order.
- **Valid deck.** `Deck.IsDeck` is the invariant every step keeps: the deck holds the
  28 values 1..28, each exactly once.
- **Pure specification.** The modules `Deck`, `Steps`, `Keystream` and `Cipher` are the
  pure specification. `Steps` holds the four steps as functions on decks.
  `Keystream` holds one round, the key drawn with its joker retries, and the stream of
  keys. `Cipher` holds the per-letter arithmetic and the letter filter.
- **The class itself.** The class `Solitaire.Solitaire` holds the deck in a field and
  has one method per source method. These methods walk the ring with the same scans as
  the source. Each is proved to leave the deck that the specification function gives.
  `encrypt` and `decrypt` fill a `char` array, as the source does.

Where the code's behaviour differs from what its comments promise:

- **decrypt wraps below 64, not below 65.** The test at `Solitaire.java:398` adds 26
  only when the difference is below 64 ('@'), so a difference of exactly 64 is kept.
  Every 'Z' encrypted with key k becomes the character 64 + k, and decrypting that with
  k gives 64 ('@'). For example, 'Z' with key 1 gives 'A', and 'A' decrypted with key 1
  gives '@'. The doc comment at lines 376-381 promises upper case letters only. The
  model keeps the code as written:
  - `Cipher.DecryptUndoesEncrypt` proves that every letter except 'Z' survives a round
    trip, and that 'Z' always comes back as '@'.
  - `Solitaire.EncryptThenDecrypt` proves the same for whole messages.
  - `Cipher.DecryptWrapAtA` is the same shift with the wrap below 65. Beside it,
    `Cipher.DecryptWrapAtAUndoesEncrypt` proves an exact round trip for every letter,
    so the threshold is the whole difference.

Other notes on the source:

- **jokerB has two identical branches.** Lines 121-128 handle joker B on the rear node
  and lines 130-137 handle it anywhere else. Their bodies are identical, so the model
  has one branch.

## Model

| member | source | states |
|---|---|---|
| Deck.DeckFacts | Solitaire/Solitaire.java:25-29 | a deck holds every value 1..28, each once: every card is in 1..28, every value is present, and no two positions hold the same value |
| Deck.PositionOf | Solitaire/Solitaire.java:86-94 | every card of a deck is found at some position, the one that holds it |
| Steps.MoveJokerA | Solitaire/Solitaire.java:86-99 | step 1 only exchanges card values, so the result is again a deck (the permutation is kept) |
| Steps.JokerAMovesOne | Solitaire/Solitaire.java:81-107 | after step 1, joker A is one place further down the ring. When joker A was the rear card, that place is the front card. The card it passed takes its old place, and every other position keeps its card. |
| Steps.MoveJokerAUpdates | Solitaire/Solitaire.java:86-99 | step 1 is the swap of joker A's value with the value of the node after it, whether the joker is found at prev or at curr |
| Steps.MoveJokerB | Solitaire/Solitaire.java:121-137 | step 2 only moves card values, so the result is again a deck |
| Steps.JokerBMovesTwo | Solitaire/Solitaire.java:116-144 | after step 2, joker B is two places further down the ring, wrapping past the rear card. The two cards it passed each move up one place, and every other position keeps its card. |
| Steps.MoveJokerBUpdates | Solitaire/Solitaire.java:120-137 | step 2 is the three value updates of the source: the two values after joker B move up one node and joker B lands on the second |
| Steps.FirstJoker | Solitaire/Solitaire.java:171-177 | the first joker met from the front card is a joker at a position of the deck |
| Steps.SecondJoker | Solitaire/Solitaire.java:193-208 | the other joker lies after the first one and holds the other joker value |
| Steps.JokersPlaced | Solitaire/Solitaire.java:171-208 | no joker lies before the first joker, and none lies after it except the second joker |
| Steps.TripleCut | Solitaire/Solitaire.java:226-230 | the triple cut only reorders whole blocks, so the result is again a deck |
| Steps.TripleCutJokersAtEnds | Solitaire/Solitaire.java:165-168 | with the two jokers on the front and rear cards, the triple cut leaves the deck unchanged |
| Steps.TripleCutJokerInFront | Solitaire/Solitaire.java:211-215 | with a joker on the front card, the triple cut is the rotation that makes the second joker the rear card |
| Steps.TripleCutJokerAtRear | Solitaire/Solitaire.java:219-223 | with a joker on the rear card and none on the front card, the triple cut is the rotation that makes the card before the first joker the rear card |
| Steps.TripleCutSwapsOuterBlocks | Solitaire/Solitaire.java:170-230 | a deck A·B·C, where B runs from joker to joker and A and C hold no joker, becomes C·B·A. A or C may be empty. |
| Steps.CountCut | Solitaire/Solitaire.java:271-274 | the count cut only reorders whole blocks, so the result is again a deck |
| Steps.CountCutKeepsRear | Solitaire/Solitaire.java:246-251 | the rear card never moves, and a joker as the rear card leaves the deck unchanged |
| Steps.CountCutMovesTop | Solitaire/Solitaire.java:246-274 | for a rear card of value n <= 26, a deck T·M·[rear] with \|T\| = n becomes M·T·[rear] |
| Keystream.Round | Solitaire/Solitaire.java:296-299 | one round of the four steps yields a deck |
| Keystream.RoundIsFourSteps | Solitaire/Solitaire.java:296-299 | a round is joker A, then joker B, then triple cut, then count cut, each on the deck the previous one left |
| Keystream.Rounds | Solitaire/Solitaire.java:295-318 | any number of rounds in a row yields a deck |
| Keystream.RoundsStep | Solitaire/Solitaire.java:295-318 | round n + 1 is one round on the deck after round n (the repeat starts from the mutated deck, not the original one) |
| Keystream.CountValue | Solitaire/Solitaire.java:304-309 | the count is the front card's value with joker B counting as 27, so it lies in 1..27 |
| Keystream.Candidate | Solitaire/Solitaire.java:311-316 | the card read after counting down is a card of the deck, in 1..28 |
| Keystream.NextKey | Solitaire/Solitaire.java:278-321 | a key, when found, is in 1..26 and is the candidate card of the deck it leaves behind |
| Keystream.NextKeyAfterJoker | Solitaire/Solitaire.java:318 | a joker candidate is rejected: the draw continues with another round on the deck as it now is |
| Keystream.NextKeyIsFirstNonJoker | Solitaire/Solitaire.java:295-318 | the key is the candidate of the first round whose candidate is not a joker, and the deck after that round is what getKey leaves behind |
| Keystream.NextKeyMoreFuel | Solitaire/Solitaire.java:295-318 | the key and deck do not depend on the bound on retries, once that bound is large enough |
| Keystream.Keys | Solitaire/Solitaire.java:357-362 | drawing n keys one after the other gives n keys and a deck |
| Keystream.KeysTail | Solitaire/Solitaire.java:357-362 | the key drawn at step i of a loop is key i of the stream, and the rest of the stream comes from the deck it leaves behind |
| Keystream.KeysInRange | Solitaire/Solitaire.java:278-284 | every key of the stream lies in 1..26 |
| Keystream.KeysSplit | Solitaire/Solitaire.java:357-369 | drawing a + b keys is drawing a keys and then b more from the deck the first a leave behind |
| Keystream.KeysMoreFuel | Solitaire/Solitaire.java:357-362 | the keys and deck of a stream do not depend on the bound on retries, once that bound is large enough, so any two sufficient bounds give the same ciphertext |
| Cipher.Letters | Solitaire/Solitaire.java:350 | the filtered message is no longer than the message |
| Cipher.LettersAreUpper | Solitaire/Solitaire.java:350 | every character left by the filter is in 'A'..'Z' |
| Cipher.LettersCounts | Solitaire/Solitaire.java:350 | each letter 'A'..'Z' occurs in the filtered message as often as in the message, and no other character occurs in it. So the length of the filtered message is the number of letters 'A'..'Z' in the message. |
| Cipher.LettersOfConcat | Solitaire/Solitaire.java:350 | the filter keeps the order: the letters of a + b are the letters of a followed by the letters of b |
| Cipher.LettersOfUpper | Solitaire/Solitaire.java:350 | a message of letters 'A'..'Z' passes the filter unchanged |
| Cipher.EncryptLetter | Solitaire/Solitaire.java:362-366 | a letter shifted by a key 1..26 (p + k, minus 26 when above 90) is again a letter 'A'..'Z' |
| Cipher.EncryptIsShift | Solitaire/Solitaire.java:362-366 | encrypt's shift is the shift by k modulo 26 on the alphabet |
| Cipher.DecryptUnit | Solitaire/Solitaire.java:396-400 | decrypting a letter gives a letter, except that a difference of exactly 64 stays '@' |
| Cipher.DecryptIsShift | Solitaire/Solitaire.java:396-400 | on a letter whose difference is not 64, decrypt's shift is the backward shift by k modulo 26 |
| Cipher.DecryptUndoesEncrypt | Solitaire/Solitaire.java:391-402 | decrypting with the same key undoes encrypting for 'A'..'Y', and turns 'Z' into '@' |
| Cipher.EncryptUndoesDecrypt | Solitaire/Solitaire.java:362-366 | encrypting with the same key undoes decrypting whenever the decrypted character is a letter |
| Cipher.DecryptWrapAtA | Solitaire/Solitaire.java:396-400 | the shift back with the wrap below 65 instead of 64 always gives a letter 'A'..'Z' |
| Cipher.DecryptWrapAtAUndoesEncrypt | Solitaire/Solitaire.java:376-381 | with the wrap below 65, decrypting undoes encrypting for every letter 'A'..'Z', as the doc comment promises |
| Cipher.DecryptUnitDiffersOnlyAtAtSign | Solitaire/Solitaire.java:398-400 | the code's decrypt and the one wrapping below 65 agree on every letter and key except where the difference is exactly 64 |
| Solitaire.Solitaire.MakeDeck | Solitaire/Solitaire.java:40-51 | inserting each value after deckRear and advancing deckRear gives the ring that holds the values in their given order, front to rear |
| Solitaire.Solitaire.JokerA | Solitaire/Solitaire.java:81-107 | the prev/curr scan and swap leave exactly the deck of step 1 |
| Solitaire.Solitaire.JokerB | Solitaire/Solitaire.java:116-144 | the scan for joker B and the three value moves leave exactly the deck of step 2 |
| Solitaire.Solitaire.FindJokers | Solitaire/Solitaire.java:170-208 | the three scans return the first joker from the front, the node before it (deckRear when the first joker is the front card), and the other joker |
| Solitaire.Solitaire.TripleCut | Solitaire/Solitaire.java:165-230 | each branch (jokers at both ends, joker in front, joker at rear, general relink) leaves exactly the triple cut of the deck |
| Solitaire.Solitaire.CountCut | Solitaire/Solitaire.java:246-274 | the before-last scan, the count and the relink leave exactly the count cut of the deck |
| Solitaire.Solitaire.CountDown | Solitaire/Solitaire.java:301-316 | moving on from deckRear by the count and reading the next node gives the candidate card |
| Solitaire.Solitaire.GetKey | Solitaire/Solitaire.java:295-320 | the do-while returns a key in 1..26 and leaves the deck NextKey describes: rounds repeated on the mutated deck until the candidate is not a joker |
| Solitaire.Solitaire.Encrypt | Solitaire/Solitaire.java:350-373 | the output has one character per letter 'A'..'Z' of the message. Character i is letter i shifted by key i of the stream drawn from the deck, and the deck ends as the stream leaves it. With no letters the stream is empty and the deck is unchanged. |
| Solitaire.Solitaire.Decrypt | Solitaire/Solitaire.java:389-407 | the output is as long as the message. Character i is message character i shifted back by key i (adding 26 below 64), and the deck ends as the stream leaves it. |
| Solitaire.EncryptThenDecrypt | Solitaire/Solitaire.java:347-408 | two decks made from the same values, one encrypting a message of capitals and the other decrypting the result, give back every letter except 'Z', which comes back as '@'. Without a 'Z' the message comes back unchanged. |

## Left out

- The random shuffle in `makeDeck()` (lines 31-38) is left out, because it depends on `java.util.Random`. The deal is a parameter of `Solitaire.Solitaire.MakeDeck`.
- Solitaire.Solitaire.MakeDeck: it requires the values to be a deck of 1..28. The source would link any non-empty array, but every other operation relies on a full deck.
- `makeDeck(Scanner)` (lines 57-73) is left out, because it reads input from a `Scanner`.
- `printList` (lines 328-339) is left out, because it only prints.
- Node identity and aliasing of `CardNode` objects are left out: nodes are positions in the sequence. The scratch `CardNode`s the source allocates and never links are dropped too.
- Solitaire.Solitaire.GetKey: the do-while carries no termination argument. A ghost `fuel` bounds the number of joker candidates rejected in a row, and the method requires that this bound suffices (`NextKey(deck, fuel).Some?`). Whether the loop ends for every reachable deck is not proved.
- Solitaire.Solitaire.Encrypt: it requires that the same retry bound suffices for every key it draws (`Keys(...).Some?`), for the same reason as GetKey.
- Solitaire.Solitaire.Decrypt: it requires that the same retry bound suffices for every key it draws, for the same reason as GetKey.
- Cipher.Letters: Java's regular-expression engine is not modelled. `replaceAll("[^A-Z]", "")` is the filter that keeps the code units 65..90.
- Java `char` is modelled as a UTF-16 code unit, the subtype `Cipher.Unit` of 0..65535. The `(char)` casts in encrypt and decrypt are not written out, since the values they cast always lie in that range.
- The loops of jokerA, jokerB and tripleCut stop with `prev != deckRear` when no joker is found. That exit cannot happen on a deck, so it is not modelled.
- `Interval Tree/structures/IntervalTree.java` is not part of this model.
