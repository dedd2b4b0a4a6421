/** 32-bit machine words as natural numbers, with exclusive-or and right shift
    defined bit by bit. */
module Words {

  const TWO32 := 0x1_0000_0000

  type Word = w: nat | w < 0x1_0000_0000
  type Byte = b: nat | b < 256

  /** A byte moved up by some whole bytes, as C's (b << 8 * places). */
  function Placed(b: Byte, places: nat): (w: Word)
    requires places < 4
  {
    var n: nat := b;
    if places == 0 then n
    else if places == 1 then 0x100 * n
    else if places == 2 then 0x1_0000 * n
    else 0x100_0000 * n
  }

  function Pow2(k: nat): (p: nat)
    ensures p > 0
  {
    if k == 0 then 1 else 2 * Pow2(k - 1)
  }

  function Xor(a: nat, b: nat): nat
    decreases a
  {
    if a == 0 then b
    else if b == 0 then a
    else (a % 2 + b % 2) % 2 + 2 * Xor(a / 2, b / 2)
  }

  function Shr(a: nat, k: nat): nat
    decreases k
  {
    if k == 0 then a else Shr(a / 2, k - 1)
  }

  lemma {:induction false} XorStep(a: nat, b: nat)
    ensures Xor(a, b) % 2 == (a % 2 + b % 2) % 2 && Xor(a, b) / 2 == Xor(a / 2, b / 2)
  {
  }

  lemma {:induction false} XorCommutes(a: nat, b: nat)
    ensures Xor(a, b) == Xor(b, a)
    decreases a
  {
    if a != 0 && b != 0 {
      XorCommutes(a / 2, b / 2);
    }
  }

  lemma SameHalves(x: nat, y: nat)
    requires x % 2 == y % 2 && x / 2 == y / 2
    ensures x == y
  {
  }

  lemma {:induction false} XorAssociates(a: nat, b: nat, c: nat)
    ensures Xor(Xor(a, b), c) == Xor(a, Xor(b, c))
    decreases a + b + c
  {
    if a + b + c != 0 {
      XorAssociates(a / 2, b / 2, c / 2);
      LowestBit(a, b, c);
    }
  }

  lemma {:induction false} LowestBit(a: nat, b: nat, c: nat)
    requires Xor(Xor(a / 2, b / 2), c / 2) == Xor(a / 2, Xor(b / 2, c / 2))
    ensures Xor(Xor(a, b), c) == Xor(a, Xor(b, c))
  {
    hide Xor;
    var ab, bc := Xor(a, b), Xor(b, c);
    XorStep(a, b);
    XorStep(b, c);
    XorStep(ab, c);
    XorStep(a, bc);
    ParityAssociates(a % 2, b % 2, c % 2);
    SameHalves(Xor(ab, c), Xor(a, bc));
  }

  lemma ParityAssociates(a: nat, b: nat, c: nat)
    requires a < 2 && b < 2 && c < 2
    ensures ((a + b) % 2 + c) % 2 == (a + (b + c) % 2) % 2
  {
  }

  lemma {:induction false} XorSelf(a: nat)
    ensures Xor(a, a) == 0
  {
    if a != 0 {
      XorSelf(a / 2);
    }
  }

  /** Mixing the same bits in twice restores the word. */
  lemma XorUndone(a: nat, b: nat)
    ensures Xor(Xor(a, b), b) == a
  {
    XorAssociates(a, b, b);
    XorSelf(b);
    XorCommutes(a, 0);
  }

  lemma {:induction false} XorBound(a: nat, b: nat, k: nat)
    requires a < Pow2(k) && b < Pow2(k)
    ensures Xor(a, b) < Pow2(k)
    decreases k
  {
    if a != 0 && b != 0 {
      XorBound(a / 2, b / 2, k - 1);
    }
  }

  lemma Pow2Of32()
    ensures Pow2(32) == TWO32
  {
    assert Pow2(8) == 256;
    assert Pow2(16) == 65536;
    assert Pow2(24) == 16777216;
  }

  function XorWord(a: Word, b: Word): (c: Word)
    ensures c == Xor(a, b)
  {
    Pow2Of32();
    XorBound(a, b, 32);
    Xor(a, b)
  }

  lemma {:induction false} ShrOfXor(a: nat, b: nat, k: nat)
    ensures Shr(Xor(a, b), k) == Xor(Shr(a, k), Shr(b, k))
    decreases k
  {
    if k != 0 {
      XorStep(a, b);
      ShrOfXor(a / 2, b / 2, k - 1);
    }
  }

  lemma {:induction false} ShrTwice(a: nat, j: nat, k: nat)
    ensures Shr(Shr(a, j), k) == Shr(a, j + k)
    decreases j
  {
    if j != 0 {
      ShrTwice(a / 2, j - 1, k);
    }
  }

  lemma {:induction false} ShrBound(a: nat, k: nat)
    ensures Shr(a, k) <= a
    decreases k
  {
    if k != 0 {
      ShrBound(a / 2, k - 1);
    }
  }

  lemma {:induction false} ShrToZero(a: nat, k: nat)
    requires a < Pow2(k)
    ensures Shr(a, k) == 0
    decreases k
  {
    if k != 0 {
      ShrToZero(a / 2, k - 1);
    }
  }

  function ShrWord(a: Word, k: nat): (c: Word)
    ensures c == Shr(a, k)
  {
    ShrBound(a, k);
    Shr(a, k)
  }

  // --- The operations in terms of arithmetic -----------------------------------------------

  lemma {:induction false} ProductBeyond(d: int, e: int)
    requires d > 0
    ensures (e >= 1 ==> d * e >= d) && (e <= -1 ==> d * e <= -d)
  {
  }

  lemma {:induction false} QuotientIs(a: nat, d: nat, q: nat, r: nat)
    requires a == d * q + r && r < d
    ensures a / d == q
  {
    assert a == d * (a / d) + a % d;
    assert d * (a / d - q) == r - a % d;
    ProductBeyond(d, a / d - q);
  }

  lemma {:induction false} HalfFirst(a: nat, p: nat)
    requires p > 0
    ensures a / 2 / p == a / (2 * p)
  {
    var q, r := a / 2 / p, a / 2 % p;
    assert a / 2 == p * q + r;
    assert a == (2 * p) * q + (2 * r + a % 2);
    QuotientIs(a, 2 * p, q, 2 * r + a % 2);
  }

  /** Shifting to the right is division. */
  lemma {:induction false} ShrIsDivision(a: nat, k: nat)
    ensures Shr(a, k) == a / Pow2(k)
    decreases k
  {
    if k > 0 {
      ShrIsDivision(a / 2, k - 1);
      HalfFirst(a, Pow2(k - 1));
    }
  }

  /** The digit worth 2 to the power of k. */
  function Bit(x: nat, k: nat): nat { x / Pow2(k) % 2 }

  /** Every bit of the exclusive-or is the sum of the two bits. */
  lemma {:induction false} XorBit(a: nat, b: nat, k: nat)
    ensures Bit(Xor(a, b), k) == (Bit(a, k) + Bit(b, k)) % 2
  {
    ShrIsDivision(Xor(a, b), k);
    ShrIsDivision(a, k);
    ShrIsDivision(b, k);
    ShrOfXor(a, b, k);
    XorStep(Shr(a, k), Shr(b, k));
  }

  /** Shifting moves the bits down. */
  lemma {:induction false} ShrBit(a: nat, s: nat, k: nat)
    ensures Bit(Shr(a, s), k) == Bit(a, s + k)
  {
    ShrTwice(a, s, k);
    ShrIsDivision(Shr(a, s), k);
    ShrIsDivision(a, s + k);
  }

  lemma {:induction false} PlacedIsProduct(b: Byte, places: nat)
    requires places < 4
    ensures Placed(b, places) == b * Pow2(8 * places)
  {
    assert Pow2(8) == 0x100 && Pow2(16) == 0x100 * Pow2(8) && Pow2(24) == 0x100 * Pow2(16) by {
      assert Pow2(12) == 16 * Pow2(8) && Pow2(20) == 16 * Pow2(16);
    }
  }
}
