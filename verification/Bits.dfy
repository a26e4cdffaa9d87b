/** Machine words as naturals, with the bit operations the kernel applies to them. */
module Bits {
  const WORD: nat := 0x1_0000_0000_0000_0000

  function Pow2(k: nat): (r: nat)
    ensures r > 0
  {
    if k == 0 then 1 else 2 * Pow2(k - 1)
  }

  /** Bitwise `|` of two words. */
  function Or(a: nat, b: nat): nat
  {
    if a == 0 then b else if b == 0 then a
    else 2 * Or(a / 2, b / 2) + if a % 2 == 1 || b % 2 == 1 then 1 else 0
  }

  /** Bit k of a word. */
  predicate BitOf(a: nat, k: nat) { if k == 0 then a % 2 == 1 else BitOf(a / 2, k - 1) }

  /** `|` works bit by bit. */
  lemma {:induction false} OrBits(a: nat, b: nat, k: nat)
    ensures BitOf(Or(a, b), k) <==> BitOf(a, k) || BitOf(b, k)
  {
    if a == 0 || b == 0 {
      ZeroBit(k);
    } else if k > 0 {
      OrBits(a / 2, b / 2, k - 1);
    }
  }

  lemma {:induction false} ZeroBit(k: nat)
    ensures !BitOf(0, k)
  {
    if k > 0 { ZeroBit(k - 1); }
  }

  /** Or-ing a value below 2^k into a multiple of 2^k adds it. */
  lemma {:induction false} OrDisjoint(q: nat, b: nat, k: nat)
    requires b < Pow2(k)
    ensures Or(q * Pow2(k), b) == q * Pow2(k) + b
  {
    if k > 0 && b > 0 && q > 0 {
      var half := q * Pow2(k - 1);
      assert q * Pow2(k) == 2 * half;
      OrDisjoint(q, b / 2, k - 1);
    }
  }

  lemma PageBits(k: nat)
    requires k == 12
    ensures Pow2(k) == 0x1000
  {
    assert Pow2(4) == 16;
    assert Pow2(8) == 256;
  }

  /** A page address and a set of low flag bits can be read back from their `|`. */
  lemma OrPage(page: nat, flags: nat)
    requires page % 0x1000 == 0 && flags < 0x1000
    ensures Or(page, flags) == page + flags
  {
    hide Or;
    var k := 12;
    PageBits(k);
    OrDisjoint(page / 0x1000, flags, k);
  }

  /** `(a & ~0xFFF) + 0x1000` when the low bits of `a` are not zero, else `a`. */
  function AlignUp(a: nat): (r: nat)
    ensures r % 0x1000 == 0 && a <= r < a + 0x1000
  {
    if a % 0x1000 != 0 then a - a % 0x1000 + 0x1000 else a
  }
}
