/** The letter arithmetic of encrypt and decrypt, one character and one key at a time. */
module Cipher {

  /** A Java char: one UTF-16 code unit. */
  type Unit = c: int | 0 <= c < 0x1_0000

  const LetterA: Unit := 65
  const LetterZ: Unit := 90

  /** '@', the character just below 'A'. */
  const AtSign: Unit := 64

  predicate IsUpper(c: int) {
    LetterA <= c <= LetterZ
  }

  /** message.replaceAll("[^A-Z]", ""): the upper-case letters of m, in order. */
  function Letters(m: seq<Unit>): (r: seq<Unit>)
    ensures |r| <= |m|
  {
    if m == [] then [] else (if IsUpper(m[0]) then [m[0]] else []) + Letters(m[1..])
  }

  /** Only letters 'A'..'Z' pass the filter. */
  lemma {:induction false} LettersAreUpper(m: seq<Unit>)
    ensures forall i :: 0 <= i < |Letters(m)| ==> IsUpper(Letters(m)[i])
  {
    if m != [] {
      LettersAreUpper(m[1..]);
    }
  }

  /** Each upper-case letter occurs in the filtered message as often as in m, and nothing
      else occurs in it; so its length is the number of letters 'A'..'Z' in m. */
  lemma {:induction false} LettersCounts(m: seq<Unit>)
    ensures forall c: Unit :: multiset(Letters(m))[c] == if IsUpper(c) then multiset(m)[c] else 0
  {
    if m != [] {
      assert m == [m[0]] + m[1..];
      LettersCounts(m[1..]);
    }
  }

  /** Filtering keeps the order: the letters of a + b are those of a, then those of b. */
  lemma {:induction false} LettersOfConcat(a: seq<Unit>, b: seq<Unit>)
    ensures Letters(a + b) == Letters(a) + Letters(b)
  {
    if a != [] {
      assert (a + b)[0] == a[0];
      assert (a + b)[1..] == a[1..] + b;
      LettersOfConcat(a[1..], b);
    } else {
      assert a + b == b;
    }
  }

  /** A message of upper-case letters only passes the filter unchanged. */
  lemma {:induction false} LettersOfUpper(m: seq<Unit>)
    requires forall i :: 0 <= i < |m| ==> IsUpper(m[i])
    ensures Letters(m) == m
  {
    if m != [] {
      LettersOfUpper(m[1..]);
    }
  }

  /** encrypt's shift: forward by k, wrapping past 'Z' back to the start of the alphabet. */
  function EncryptLetter(p: Unit, k: int): (c: Unit)
    requires IsUpper(p) && 1 <= k <= 26
    ensures IsUpper(c)
  {
    var n := p + k;
    if n > LetterZ then n - 26 else n
  }

  /** encrypt's shift is the shift by k modulo 26 on the alphabet 'A'..'Z'. */
  lemma EncryptIsShift(p: Unit, k: int)
    requires IsUpper(p) && 1 <= k <= 26
    ensures EncryptLetter(p, k) - LetterA == (p - LetterA + k) % 26
  {
  }

  /** decrypt's shift: back by k, adding 26 when the result falls below '@'. */
  function DecryptUnit(c: Unit, k: int): (p: Unit)
    requires 1 <= k <= 26
    ensures IsUpper(c) && c - k == AtSign ==> p == AtSign
    ensures IsUpper(c) && c - k != AtSign ==> IsUpper(p)
  {
    var n := c - k;
    if n < AtSign then n + 26 else n
  }

  /** On a letter decrypt's shift is the backward shift by k modulo 26, except that a
      result of exactly '@' is kept: 'A' shifted back by 1 gives '@', not 'Z'. */
  lemma DecryptIsShift(c: Unit, k: int)
    requires IsUpper(c) && 1 <= k <= 26 && c - k != AtSign
    ensures DecryptUnit(c, k) - LetterA == (c - LetterA - k) % 26
  {
  }

  /** Decrypting with the same key undoes encrypting for 'A'..'Y'; a 'Z' comes back as '@'. */
  lemma DecryptUndoesEncrypt(p: Unit, k: int)
    requires IsUpper(p) && 1 <= k <= 26
    ensures DecryptUnit(EncryptLetter(p, k), k) == if p == LetterZ then AtSign else p
  {
  }

  /** decrypt's shift as its doc comment intends it: back by k, wrapping below 'A'. */
  function DecryptWrapAtA(c: Unit, k: int): (p: Unit)
    requires IsUpper(c) && 1 <= k <= 26
    ensures IsUpper(p)
  {
    var n := c - k;
    if n < LetterA then n + 26 else n
  }

  /** With the wrap below 'A', decrypting with the same key undoes encrypting for every
      letter, 'Z' included. */
  lemma DecryptWrapAtAUndoesEncrypt(p: Unit, k: int)
    requires IsUpper(p) && 1 <= k <= 26
    ensures DecryptWrapAtA(EncryptLetter(p, k), k) == p
  {
  }

  /** decrypt as written and the one wrapping below 'A' differ only where the difference
      is exactly '@'. */
  lemma DecryptUnitDiffersOnlyAtAtSign(c: Unit, k: int)
    requires IsUpper(c) && 1 <= k <= 26
    ensures DecryptUnit(c, k) == DecryptWrapAtA(c, k) <==> c - k != AtSign
  {
  }

  /** Encrypting with the same key undoes decrypting, whenever decrypting gave a letter. */
  lemma EncryptUndoesDecrypt(c: Unit, k: int)
    requires IsUpper(c) && 1 <= k <= 26 && c - k != AtSign
    ensures IsUpper(DecryptUnit(c, k)) && EncryptLetter(DecryptUnit(c, k), k) == c
  {
  }
}
