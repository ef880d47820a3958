/** Arithmetic modulo p = 2^130 - 5 and modulo 2^128.

    The remainders are defined by repeated subtraction and addition, which keeps the
    verifier from multiplying limbs out where only the result matters; the lemmas say
    that they are the ordinary operations. */
module Poly1305Field {
  import opened Words
  import opened Poly1305Spec

  function ModP(x: nat): (m: nat)
    ensures m < 0x3_ffff_ffff_ffff_ffff_ffff_ffff_ffff_fffb
  {
    if x < 0x3_ffff_ffff_ffff_ffff_ffff_ffff_ffff_fffb then x
    else ModP(x - 0x3_ffff_ffff_ffff_ffff_ffff_ffff_ffff_fffb)
  }

  lemma {:induction false} ModPIs(x: nat)
    ensures ModP(x) == x % P()
  {
    if x >= P() {
      ModPIs(x - P());
      ModAdd(x - P(), P(), 1);
    }
  }

  function MulP(x: nat, y: nat): nat
    decreases y
  {
    if y == 0 then 0 else ModP(MulP(x, y - 1) + x)
  }

  lemma {:induction false} MulPIs(x: nat, y: nat)
    ensures MulP(x, y) == (x * y) % P()
  {
    if y > 0 {
      MulPIs(x, y - 1);
      ModPIs(MulP(x, y - 1) + x);
      ModMulStep(x, y - 1, y, P(), MulP(x, y - 1));
    }
  }

  lemma ModMulStep(x: nat, k: nat, y: nat, m: nat, z: nat)
    requires m > 0 && y == k + 1 && z == (x * k) % m
    ensures (z + x) % m == (x * y) % m
  {
    ModSum(x * k, x, m);
    assert x * y == x * k + x;
  }

  function Mod128(x: nat): (m: nat)
    ensures m < 0x1_0000_0000_0000_0000_0000_0000_0000_0000
  {
    if x < 0x1_0000_0000_0000_0000_0000_0000_0000_0000 then x
    else Mod128(x - 0x1_0000_0000_0000_0000_0000_0000_0000_0000)
  }

  lemma {:induction false} Mod128Is(x: nat)
    ensures Mod128(x) == x % 0x1_0000_0000_0000_0000_0000_0000_0000_0000
  {
    if x >= 0x1_0000_0000_0000_0000_0000_0000_0000_0000 {
      Mod128Is(x - 0x1_0000_0000_0000_0000_0000_0000_0000_0000);
      ModAdd(x - 0x1_0000_0000_0000_0000_0000_0000_0000_0000, 0x1_0000_0000_0000_0000_0000_0000_0000_0000, 1);
    }
  }

  lemma ModAdd(x: nat, m: nat, k: nat)
    requires m > 0
    ensures (x + m * k) % m == x % m
  {
    ModAddInt(x, m, k, x + m * k);
  }

  lemma {:induction false} ModAddInt(x: nat, m: nat, k: int, y: nat)
    requires m > 0 && x + m * k == y
    ensures y % m == x % m
  {
    var q := x / m;
    assert x == m * q + x % m;
    assert y == m * (q + k) + x % m;
    MulSign(m, q + k);
    DivModUnique(y, m, q + k, x % m);
  }

  lemma MulSign(m: nat, k: int)
    ensures k < 0 ==> m * k + m <= 0
  {
    if k < 0 {
      MulAtLeast(m, -k);
      assert m * k == -(m * -k);
    }
  }

  lemma ModSum(x: nat, y: nat, m: nat)
    requires m > 0
    ensures (x % m + y) % m == (x + y) % m
  {
    var q := x / m;
    assert x == m * q + x % m;
    ModAdd(x % m + y, m, q);
  }

  lemma Distribute(a: nat, b: nat, c: nat)
    ensures (a + b) * c == a * c + b * c
  {
  }

  /** Dropping multiples of p. */
  lemma {:induction false} DropP(x: nat, y: nat, k: nat)
    requires x + 0x3_ffff_ffff_ffff_ffff_ffff_ffff_ffff_fffb * k == y
    ensures ModP(x) == ModP(y)
  {
    ModPIs(x);
    ModPIs(y);
    ModAdd(x, P(), k);
  }

  lemma {:induction false} DropPMul(x: nat, a: nat, r: nat, k: int)
    requires x + 0x3_ffff_ffff_ffff_ffff_ffff_ffff_ffff_fffb * k == a * r
    ensures ModP(x) == MulP(a, r)
  {
    var v := a * r;
    ProductIs(a, r, v);
    DropPInt(x, v, k);
  }

  lemma {:induction false} ProductIs(a: nat, r: nat, v: nat)
    requires v == a * r
    ensures ModP(v) == MulP(a, r)
  {
    MulPIs(a, r);
    ModPIs(v);
  }

  lemma {:induction false} DropPInt(x: nat, y: nat, k: int)
    requires x + 0x3_ffff_ffff_ffff_ffff_ffff_ffff_ffff_fffb * k == y
    ensures ModP(x) == ModP(y)
  {
    ModPIs(x);
    ModPIs(y);
    ModAddInt(x, P(), k, y);
  }

  lemma Drop128(x: nat, y: nat, k: nat)
    requires x + 0x1_0000_0000_0000_0000_0000_0000_0000_0000 * k == y
    ensures Mod128(x) == Mod128(y)
  {
    Mod128Is(x);
    Mod128Is(y);
    ModAdd(x, 0x1_0000_0000_0000_0000_0000_0000_0000_0000, k);
  }

  /** A number below p is its own remainder; one below 2p is reduced by one subtraction. */
  lemma ModPOnce(x: nat, y: nat)
    requires y < 0x3_ffff_ffff_ffff_ffff_ffff_ffff_ffff_fffb
    requires x == y || x == y + 0x3_ffff_ffff_ffff_ffff_ffff_ffff_ffff_fffb
    ensures ModP(x) == y
  {
  }

  /** The accumulator may be reduced before a block is added and multiplied in. */
  lemma {:induction false} BlockStep(h: nat, m: nat, r: nat)
    ensures MulP(h + m, r) == MulP(ModP(h) + m, r)
  {
    MulPIs(h + m, r);
    MulPIs(ModP(h) + m, r);
    ModPIs(h);
    ModProduct(h, m, r, P());
  }

  lemma ModProduct(h: nat, d: nat, r: nat, m: nat)
    requires m > 0
    ensures ((h + d) * r) % m == ((h % m + d) * r) % m
  {
    var q := h / m;
    assert h + d == (h % m + d) + m * q;
    Distribute(h % m + d, m * q, r);
    Assoc3(m, q, r);
    ModAdd((h % m + d) * r, m, q * r);
  }

  // ------------------------------------------------------------ blocks

  function Pow128(padbit: nat): nat { 0x1_0000_0000_0000_0000_0000_0000_0000_0000 * padbit }

  /** All whole 16-byte blocks of the input, each extended by `padbit` above its top bit: what the block
      functions of both limb representations compute. */
  function AccumulateBlocks(acc: nat, r: nat, input: seq<Byte>, padbit: nat): nat
    decreases |input|
  {
    if |input| < 16 then acc
    else AccumulateBlocks(MulP(acc + (Le(input[..16]) + Pow128(padbit)), r), r, input[16..], padbit)
  }

  lemma {:induction false} AccumulateBlocksStep(acc: nat, r: nat, input: seq<Byte>, padbit: nat, next: nat)
    requires |input| >= 16
    requires next == MulP(acc + (Le(input[..16]) + Pow128(padbit)), r)
    ensures AccumulateBlocks(acc, r, input, padbit) == AccumulateBlocks(next, r, input[16..], padbit)
  {
  }

  lemma {:induction false} AccumulateFullBlocks(acc: nat, r: nat, input: seq<Byte>)
    requires |input| % 16 == 0
    ensures AccumulateBlocks(acc, r, input, 1) == Accumulate(acc, r, input)
    decreases |input|
  {
    if input != [] {
      var n := |input[..16]|;
      assert Pow2(8 * n) == Pow128(1) by { Pow2At128(); }
      var next := Absorb(acc, r, input[..16]);
      assert next == MulP(acc + (Le(input[..16]) + Pow128(1)), r) by {
        MulPIs(acc + (Le(input[..16]) + Pow128(1)), r);
      }
      AccumulateFullBlocks(next, r, input[16..]);
      if |input| == 16 {
        assert input[..16] == input && input[16..] == [];
      }
    }
  }

  /** The zero-padded last block with an explicit one byte is the short block of the RFC. */
  lemma {:induction false} AccumulateLastBlock(acc: nat, r: nat, tail: seq<Byte>, zeros: seq<Byte>)
    requires 0 < |tail| < 16 && |tail| + 1 + |zeros| == 16 && forall i :: 0 <= i < |zeros| ==> zeros[i] == 0
    ensures AccumulateBlocks(acc, r, tail + [1] + zeros, 0) == Accumulate(acc, r, tail)
  {
    var block := tail + [1] + zeros;
    LePadded(tail, zeros, block);
    assert block[..16] == block && block[16..] == [];
    MulPIs(acc + Le(block), r);
    assert AccumulateBlocks(acc, r, block, 0) == MulP(acc + Le(block), r);
  }

  lemma {:induction false} LePadded(tail: seq<Byte>, zeros: seq<Byte>, block: seq<Byte>)
    requires block == tail + [1] + zeros && forall i :: 0 <= i < |zeros| ==> zeros[i] == 0
    ensures Le(block) == Le(tail) + Pow2(8 * |tail|)
  {
    var rest: seq<Byte> := [1] + zeros;
    assert block == tail + rest && rest[1..] == zeros;
    LeConcat(tail, rest);
    LeZeros(zeros);
    assert Le(rest) == 1;
  }

  lemma {:induction false} LeZeros(b: seq<Byte>)
    requires forall i :: 0 <= i < |b| ==> b[i] == 0
    ensures Le(b) == 0
  {
    if b != [] { LeZeros(b[1..]); }
  }
}
