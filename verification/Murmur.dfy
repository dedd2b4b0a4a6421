/** MurmurHash2 as the scheduler's random source: for a fixed key the hash is a
    bijection of the 32-bit tick counter that seeds it. */
module Murmur {
  import opened Words

  // --- The hash as a composition of steps over the key ----------------------

  /** Multiplication by the odd constant m of the hash, wrapping at 32 bits. */
  function Times(h: Word): Word { h * 0x5bd1e995 % 0x1_0000_0000 }

  /** h mixed with its own upper bits. */
  function Fold(h: Word, shift: nat): Word { XorWord(h, ShrWord(h, shift)) }

  /** Four key bytes as one little-endian word, scrambled before it is mixed in. */
  function Scrambled(key: seq<Byte>): Word
    requires |key| >= 4
  {
    Times(Fold(Times(Placed(key[0], 0) + Placed(key[1], 1) + Placed(key[2], 2) + Placed(key[3], 3)), 24))
  }

  function TailBits(h: Word, tail: seq<Byte>): Word
    requires 0 < |tail| < 4
  {
    var h3 := if |tail| == 3 then XorWord(h, Placed(tail[2], 2)) else h;
    var h2 := if |tail| >= 2 then XorWord(h3, Placed(tail[1], 1)) else h3;
    XorWord(h2, tail[0])
  }

  /** All whole words of the key, then the at most three bytes that remain. */
  function Mix(key: seq<Byte>, h: Word): Word {
    if |key| >= 4 then Mix(key[4..], XorWord(Times(h), Scrambled(key)))
    else if key == [] then h
    else Times(TailBits(h, key))
  }

  function Avalanche(h: Word): Word { Fold(Times(Fold(h, 13)), 15) }

  function Hash(seed: Word, key: seq<Byte>): Word
    requires |key| < 0x8000_0000
  {
    Avalanche(Mix(key, XorWord(seed, |key|)))
  }

  // --- Every step undone ------------------------------------------------------

  /** Multiplication by the inverse of m modulo 2^32. */
  function Untimes(h: Word): Word { h * 0xe59b19bd % 0x1_0000_0000 }

  function Unfold(h: Word, shift: nat): Word {
    XorWord(XorWord(h, ShrWord(h, shift)), ShrWord(h, 2 * shift))
  }

  function Unmix(key: seq<Byte>, h: Word): Word {
    if |key| >= 4 then Untimes(XorWord(Unmix(key[4..], h), Scrambled(key)))
    else if key == [] then h
    else
      var h1 := XorWord(Untimes(h), key[0]);
      var h2 := if |key| >= 2 then XorWord(h1, Placed(key[1], 1)) else h1;
      if |key| == 3 then XorWord(h2, Placed(key[2], 2)) else h2
  }

  function Unavalanche(h: Word): Word {
    Unfold(Untimes(Unfold(h, 15)), 13)
  }

  /** The one seed that hashes to h. */
  function SeedOf(h: Word, key: seq<Byte>): Word
    requires |key| < 0x8000_0000
  {
    XorWord(Unmix(key, Unavalanche(h)), |key|)
  }

  lemma CancelCycles(h: Word, z: int)
    ensures (h + 0x1_0000_0000 * z) % 0x1_0000_0000 == h
  {
  }

  lemma TimesUndone(h: Word)
    ensures Untimes(Times(h)) == h && Times(Untimes(h)) == h
  {
    var q, p := h * 0x5bd1e995 / 0x1_0000_0000, h * 0xe59b19bd / 0x1_0000_0000;
    CancelCycles(h, h * 0x525a6746 - q * 0xe59b19bd);
    CancelCycles(h, h * 0x525a6746 - p * 0x5bd1e995);
  }

  /** x ^ (x >> s) is undone by two more shifts as soon as three shifts clear a word. */
  lemma FoldUndone(h: Word, s: nat)
    requires 3 * s >= 32
    ensures Unfold(Fold(h, s), s) == h && Fold(Unfold(h, s), s) == h
  {
    var a, b := Shr(h, s), Shr(h, 2 * s);
    ShrClears(h, 3 * s);
    ShrTwice(h, s, s);
    ShrTwice(h, s, 2 * s);
    ShrTwice(h, 2 * s, s);
    ShrOfXor(h, a, s);
    ShrOfXor(h, a, 2 * s);
    ShrOfXor(Xor(h, a), b, s);
    XorCommutes(b, 0);
    // Unfold(Fold(h)) is ((h ^ a) ^ (a ^ b)) ^ b.
    XorAssociates(Xor(h, a), a, b);
    XorUndone(h, a);
    XorUndone(h, b);
    // Fold(Unfold(h)) is ((h ^ a) ^ b) ^ (a ^ b).
    XorCommutes(a, b);
    XorCommutes(Xor(a, b), 0);
    XorAssociates(Xor(Xor(h, a), b), b, a);
    XorUndone(Xor(h, a), b);
  }

  lemma ShrClears(h: Word, k: nat)
    requires k >= 32
    ensures Shr(h, k) == 0
  {
    Pow2Of32();
    ShrToZero(h, 32);
    ShrTwice(h, 32, k - 32);
    ShrBound(0, k - 32);
  }

  lemma TailUndone(key: seq<Byte>, h: Word)
    requires 0 < |key| < 4
    ensures Unmix(key, Mix(key, h)) == h && Mix(key, Unmix(key, h)) == h
  {
    TimesUndone(TailBits(h, key));
    TimesUndone(h);
    var b2, b1 := if |key| == 3 then Placed(key[2], 2) else 0, if |key| >= 2 then Placed(key[1], 1) else 0;
    var h3 := if |key| == 3 then XorWord(h, b2) else h;
    var h2 := if |key| >= 2 then XorWord(h3, b1) else h3;
    XorUndone(h, b2);
    XorUndone(h3, b1);
    XorUndone(h2, key[0]);
    var g1 := XorWord(Untimes(h), key[0]);
    var g2 := if |key| >= 2 then XorWord(g1, b1) else g1;
    XorUndone(Untimes(h), key[0]);
    XorUndone(g1, b1);
    XorUndone(g2, b2);
  }

  lemma {:induction false} MixUndone(key: seq<Byte>, h: Word)
    ensures Unmix(key, Mix(key, h)) == h && Mix(key, Unmix(key, h)) == h
  {
    if |key| >= 4 {
      var s, u := Scrambled(key), Unmix(key[4..], h);
      MixUndone(key[4..], XorWord(Times(h), s));
      XorUndone(Times(h), s);
      TimesUndone(h);
      MixUndone(key[4..], h);
      TimesUndone(XorWord(u, s));
      XorUndone(u, s);
    } else if key != [] {
      TailUndone(key, h);
    }
  }

  lemma AvalancheUndone(h: Word)
    ensures Unavalanche(Avalanche(h)) == h && Avalanche(Unavalanche(h)) == h
  {
    FoldUndone(h, 13);
    TimesUndone(Fold(h, 13));
    FoldUndone(Times(Fold(h, 13)), 15);
    FoldUndone(h, 15);
    TimesUndone(Unfold(h, 15));
    FoldUndone(Untimes(Unfold(h, 15)), 13);
  }

  // --- Main results -----------------------------------------------------------

  /** For every key, seeds and hashes are in one-to-one correspondence. */
  lemma SeedBijection(w: Word, key: seq<Byte>)
    requires |key| < 0x8000_0000
    ensures SeedOf(Hash(w, key), key) == w
    ensures Hash(SeedOf(w, key), key) == w
  {
    var n := |key|;
    AvalancheUndone(Mix(key, XorWord(w, n)));
    MixUndone(key, XorWord(w, n));
    XorUndone(w, n);
    AvalancheUndone(w);
    MixUndone(key, Unavalanche(w));
    XorUndone(Unmix(key, Unavalanche(w)), n);
  }

  /** The tick counter some ticks later; it is a C unsigned int. */
  function TickAfter(start: Word, delay: Word): Word {
    (start + delay) % TWO32
  }

  /** How many ticks after start the counter first shows target. */
  function DelayTo(start: Word, target: Word): Word {
    (target - start) % TWO32
  }

  lemma DelayIsExact(start: Word, delay: Word, target: Word)
    ensures TickAfter(start, delay) == target <==> delay == DelayTo(start, target)
  {
  }

  /** Among the 2^32 tick values that follow any tick, wrap-around included,
      exactly one produces the hash h. */
  lemma EveryHashOncePerTickCycle(start: Word, delay: Word, key: seq<Byte>, h: Word)
    requires |key| < 0x8000_0000
    ensures Hash(TickAfter(start, delay), key) == h <==> delay == DelayTo(start, SeedOf(h, key))
  {
    DelayIsExact(start, delay, SeedOf(h, key));
    SeedBijection(h, key);
    SeedBijection(TickAfter(start, delay), key);
  }

  // --- The published function in terms of bits ------------------------------------------------

  const M := 0x5bd1_e995

  /** y is x with its bits from s on added, without carry, to its own lower bits. */
  ghost predicate Folded(x: nat, s: nat, y: nat) {
    forall k: nat {:trigger Bit(y, k)} :: Bit(y, k) == (Bit(x, k) + Bit(x, s + k)) % 2
  }

  lemma {:induction false} FoldIsFolded(h: Word, s: nat)
    ensures Folded(h, s, Fold(h, s))
  {
    forall k: nat
      ensures Bit(Fold(h, s), k) == (Bit(h, k) + Bit(h, s + k)) % 2
    {
      XorBit(h, Shr(h, s), k);
      ShrBit(h, s, k);
    }
  }

  /** Bytes as a number, the least significant first. */
  function Number(bytes: seq<Byte>): nat {
    if bytes == [] then 0
    else
      var low: nat := bytes[0];
      low + 0x100 * Number(bytes[1..])
  }

  lemma {:induction false} FourBytes(a: Byte, b: Byte, c: Byte, d: Byte)
    ensures Number([a, b, c, d]) == Placed(a, 0) + Placed(b, 1) + Placed(c, 2) + Placed(d, 3)
  {
    hide Number;
    OneMore(a, [b, c, d]);
    OneMore(b, [c, d]);
    OneMore(c, [d]);
    OneMore(d, []);
    NumberOfNone();
    assert [a] + [b, c, d] == [a, b, c, d] && [b] + [c, d] == [b, c, d] && [c] + [d] == [c, d] && [d] + [] == [d];
  }

  lemma {:induction false} NumberOfNone()
    ensures Number([]) == 0
  {
  }

  lemma {:induction false} OneMore(a: Byte, rest: seq<Byte>)
    ensures var low: nat := a; Number([a] + rest) == low + 0x100 * Number(rest)
  {
    assert ([a] + rest)[1..] == rest;
  }

  /** Every four bytes of the key, as one number, are multiplied, folded by 24 bits and
      multiplied again before they are added to the hash. */
  lemma {:induction false} ScrambledIs(key: seq<Byte>) returns (folded: Word)
    requires |key| >= 4
    ensures Folded(Number(key[..4]) * M % TWO32, 24, folded) && Scrambled(key) == folded * M % TWO32
  {
    var k := Placed(key[0], 0) + Placed(key[1], 1) + Placed(key[2], 2) + Placed(key[3], 3);
    FourBytes(key[0], key[1], key[2], key[3]);
    assert key[..4] == [key[0], key[1], key[2], key[3]];
    hide Number, Fold;
    folded := Fold(Times(k), 24);
    FoldIsFolded(Times(k), 24);
  }

  /** Bit k of byte i of a key, at its place in the word. */
  function ByteBit(key: seq<Byte>, i: nat, k: nat): nat {
    if i < |key| then
      var b: nat := key[i];
      Bit(b * Pow2(8 * i), k)
    else 0
  }

  lemma {:induction false} PlacedBit(h: Word, tail: seq<Byte>, i: nat, k: nat)
    requires i < |tail| && i < 4
    ensures Bit(XorWord(h, Placed(tail[i], i)), k) == (Bit(h, k) + ByteBit(tail, i, k)) % 2
  {
    XorBit(h, Placed(tail[i], i), k);
    PlacedIsProduct(tail[i], i);
  }

  /** The at most three bytes that remain are added at their places. */
  lemma {:induction false} TailIs(h: Word, tail: seq<Byte>, k: nat)
    requires 0 < |tail| < 4
    ensures Bit(TailBits(h, tail), k)
            == (Bit(h, k) + ByteBit(tail, 0, k) + ByteBit(tail, 1, k) + ByteBit(tail, 2, k)) % 2
  {
    var h3 := if |tail| == 3 then XorWord(h, Placed(tail[2], 2)) else h;
    var h2 := if |tail| >= 2 then XorWord(h3, Placed(tail[1], 1)) else h3;
    if |tail| == 3 {
      PlacedBit(h, tail, 2, k);
    }
    if |tail| >= 2 {
      PlacedBit(h3, tail, 1, k);
    }
    PlacedBit(h2, tail, 0, k);
    hide Bit, ByteBit, XorWord;
    assert TailBits(h, tail) == XorWord(h2, tail[0]);
    Parities(Bit(h, k), ByteBit(tail, 2, k), ByteBit(tail, 1, k), ByteBit(tail, 0, k));
    NoByte(tail, k);
  }

  lemma {:induction false} NoByte(tail: seq<Byte>, k: nat)
    ensures forall i: nat :: i >= |tail| ==> ByteBit(tail, i, k) == 0
  {
  }

  lemma {:induction false} Parities(a: nat, b: nat, c: nat, d: nat)
    ensures (((a + b) % 2 + c) % 2 + d) % 2 == (a + d + c + b) % 2
    ensures ((a + c) % 2 + d) % 2 == (a + d + c) % 2
  {
  }

  /** One turn of the loop, and the tail. */
  lemma {:induction false} MixIs(key: seq<Byte>, h: Word) returns (g: Word)
    ensures |key| >= 4 ==> Mix(key, h) == Mix(key[4..], g)
    ensures |key| >= 4 ==>
              forall k: nat {:trigger Bit(g, k)} :: Bit(g, k) == (Bit(h * M % TWO32, k) + Bit(Scrambled(key), k)) % 2
    ensures 0 < |key| < 4 ==> Mix(key, h) == TailBits(h, key) * M % TWO32
    ensures key == [] ==> Mix(key, h) == h
  {
    g := h;
    if |key| >= 4 {
      g := XorWord(Times(h), Scrambled(key));
      forall k: nat
        ensures Bit(g, k) == (Bit(h * M % TWO32, k) + Bit(Scrambled(key), k)) % 2
      {
        XorBit(Times(h), Scrambled(key), k);
      }
    }
  }

  /** At the end the hash is folded by 13 bits, multiplied, and folded by 15. */
  lemma {:induction false} HashIs(seed: Word, key: seq<Byte>) returns (start: Word, folded: Word)
    requires |key| < 0x8000_0000
    ensures forall k: nat {:trigger Bit(start, k)} :: Bit(start, k) == (Bit(seed, k) + Bit(|key|, k)) % 2
    ensures Folded(Mix(key, start), 13, folded) && Folded(folded * M % TWO32, 15, Hash(seed, key))
  {
    start := XorWord(seed, |key|);
    forall k: nat
      ensures Bit(start, k) == (Bit(seed, k) + Bit(|key|, k)) % 2
    {
      XorBit(seed, |key|, k);
    }
    folded := Fold(Mix(key, start), 13);
    FoldIsFolded(Mix(key, start), 13);
    FoldIsFolded(Times(folded), 15);
  }

  // --- The C loop ---------------------------------------------------------------

  method MurmurHash(ticks: Word, key: seq<Byte>) returns (h: Word)
    requires |key| < 0x8000_0000
    ensures h == Hash(ticks, key)
  {
    h := XorWord(ticks, |key|);
    ghost var h0 := h;
    var data, len := 0, |key|;
    assert key[0..] == key;
    while len >= 4
      invariant 0 <= data && len == |key| - data && len >= 0
      invariant Mix(key[data..], h) == Mix(key, h0)
    {
      ghost var rest := key[data..];
      assert rest[4..] == key[data + 4..];
      var k := Placed(key[data], 0) + Placed(key[data + 1], 1) + Placed(key[data + 2], 2)
               + Placed(key[data + 3], 3);
      k := Times(k);
      k := XorWord(k, ShrWord(k, 24));
      k := Times(k);
      h := Times(h);
      h := XorWord(h, k);
      data, len := data + 4, len - 4;
    }
    // The C switch falls through from each case to the next.
    if len == 3 {
      h := XorWord(h, Placed(key[data + 2], 2));
    }
    if len >= 2 {
      h := XorWord(h, Placed(key[data + 1], 1));
    }
    if len >= 1 {
      h := XorWord(h, key[data]);
      h := Times(h);
    }
    h := XorWord(h, ShrWord(h, 13));
    h := Times(h);
    h := XorWord(h, ShrWord(h, 15));
  }
}
