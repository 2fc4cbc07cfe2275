/** 32-bit words as integers, and their bits. */
module Bits {

  type u32 = x: int | 0 <= x < 0x1_0000_0000

  function Wrap(n: int): u32 {
    n % 0x1_0000_0000
  }

  lemma WrapDiffers(n: int)
    ensures (n - Wrap(n)) % 0x1_0000_0000 == 0
  {
  }

  /** Bit i of a word. */
  predicate Bit(x: nat, i: nat) {
    if i == 0 then x % 2 == 1 else Bit(x / 2, i - 1)
  }

  function PowerOf2(n: nat): (p: nat)
    ensures p > 0
  {
    if n == 0 then 1 else 2 * PowerOf2(n - 1)
  }

  lemma Powers()
    ensures PowerOf2(31) == 0x8000_0000 && PowerOf2(32) == 0x1_0000_0000
  {
    assert PowerOf2(8) == 0x100;
    assert PowerOf2(16) == 0x1_0000;
    assert PowerOf2(24) == 0x100_0000;
  }

  // ---- complement, and, or, exclusive or ----

  /** The lowest n bits, each from the two bits below it. */
  function BitwiseLow(f: (bool, bool) -> bool, l: nat, r: nat, n: nat): (x: nat)
    ensures x < PowerOf2(n)
  {
    if n == 0 then 0
    else (if f(l % 2 == 1, r % 2 == 1) then 1 else 0) + 2 * BitwiseLow(f, l / 2, r / 2, n - 1)
  }

  function Bitwise(f: (bool, bool) -> bool, l: u32, r: u32): u32 {
    Powers();
    BitwiseLow(f, l, r, 32)
  }

  lemma {:induction false} BitwiseAt(f: (bool, bool) -> bool, l: nat, r: nat, n: nat, i: nat)
    requires i < n
    ensures Bit(BitwiseLow(f, l, r, n), i) == f(Bit(l, i), Bit(r, i))
    decreases n
  {
    var low, rest := if f(l % 2 == 1, r % 2 == 1) then 1 else 0, BitwiseLow(f, l / 2, r / 2, n - 1);
    assert (low + 2 * rest) / 2 == rest && (low + 2 * rest) % 2 == low;
    if i > 0 {
      BitwiseAt(f, l / 2, r / 2, n - 1, i - 1);
    }
  }

  predicate Both(a: bool, b: bool) { a && b }
  predicate Either(a: bool, b: bool) { a || b }
  predicate OneOf(a: bool, b: bool) { a != b }

  function Not(v: u32): u32 {
    0xFFFF_FFFF - v
  }

  lemma {:induction false} NotAt(v: nat, n: nat, i: nat)
    requires v < PowerOf2(n) && i < n
    ensures Bit(PowerOf2(n) - 1 - v, i) == !Bit(v, i)
    decreases n
  {
    assert (PowerOf2(n) - 1 - v) / 2 == PowerOf2(n - 1) - 1 - v / 2;
    if i > 0 {
      NotAt(v / 2, n - 1, i - 1);
    }
  }

  /** Setting a bit that is clear changes that bit and no other. */
  lemma {:induction false} SetBit(x: nat, n: nat, i: nat)
    requires !Bit(x, n)
    ensures Bit(x + PowerOf2(n), i) <==> Bit(x, i) || i == n
    decreases n
  {
    if n == 0 {
      assert (x + 1) / 2 == x / 2;
    } else {
      assert (x + PowerOf2(n)) / 2 == x / 2 + PowerOf2(n - 1);
      if i > 0 {
        SetBit(x / 2, n - 1, i - 1);
      }
    }
  }

  // ---- shifts ----

  function ShiftLeft(l: u32, c: nat): u32 {
    if c == 0 then l else Wrap(2 * ShiftLeft(l, c - 1))
  }

  function ShiftRight(l: u32, c: nat): u32 {
    if c == 0 then l else ShiftRight(l / 2, c - 1)
  }

  lemma {:induction false} LowBitsStay(x: nat, n: nat, i: nat)
    requires x >= PowerOf2(n) && i < n
    ensures Bit(x - PowerOf2(n), i) == Bit(x, i)
    decreases n
  {
    assert (x - PowerOf2(n)) / 2 == x / 2 - PowerOf2(n - 1);
    if i > 0 {
      LowBitsStay(x / 2, n - 1, i - 1);
    }
  }

  lemma DoubleAt(l: u32, i: nat)
    requires i < 32
    ensures Bit(Wrap(2 * l), i) == (i > 0 && Bit(l, i - 1))
  {
    Powers();
    assert Wrap(2 * l) / 2 == if l < 0x8000_0000 then l else l - 0x8000_0000;
    if i > 0 && l >= 0x8000_0000 {
      LowBitsStay(l, 31, i - 1);
    }
  }

  lemma {:induction false} ShiftLeftAt(l: u32, c: nat, i: nat)
    requires i < 32
    ensures Bit(ShiftLeft(l, c), i) == (i >= c && Bit(l, i - c))
    decreases c
  {
    if c > 0 {
      DoubleAt(ShiftLeft(l, c - 1), i);
      if i > 0 {
        ShiftLeftAt(l, c - 1, i - 1);
      }
    }
  }

  lemma {:induction false} ShiftRightAt(l: u32, c: nat, i: nat)
    ensures Bit(ShiftRight(l, c), i) == Bit(l, i + c)
    decreases c
  {
    if c > 0 {
      ShiftRightAt(l / 2, c - 1, i);
    }
  }

  // ---- division ----

  lemma DivisionFits(l: u32, d: nat)
    requires d > 0
    ensures 0 <= l / d <= l && l / d * d <= l < l / d * d + d
  {
    var q := l / d;
    assert l == q * d + l % d;
    assert q * d == q * (d - 1) + q;
  }
}
