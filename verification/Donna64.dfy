/** poly1305-donna64: 44/44/42-bit limbs and 128-bit products.

    Every C operation that can wrap is written with its wrapping word function, so the
    contracts below also say that no bit is ever lost.  A mask of k ones is written as
    the remainder modulo 2^k and a right shift as a division. */
module Donna64 {
  import opened Words
  import opened Poly1305Spec
  import opened Poly1305Field

  /** The number that three limbs stand for. */
  function Val(a: nat, b: nat, c: nat): nat {
    a + 0x1000_0000_0000 * b + 0x100_0000_0000_0000_0000_0000 * c
  }

  // ------------------------------------------------------------ splitting words into limbs

  /** The middle limb of a 128-bit value given as two 64-bit words. */
  function Middle(t0: nat, t1: nat): nat {
    Or(t0 / 0x1000_0000_0000, (t1 * 0x10_0000) % 0x1_0000_0000_0000_0000)
  }

  lemma {:induction false} MiddleIs(t0: nat, t1: nat)
    requires t0 < 0x1_0000_0000_0000_0000 && t1 < 0x1_0000_0000_0000_0000
    ensures Middle(t0, t1) % 0x1000_0000_0000 == t0 / 0x1000_0000_0000 + 0x10_0000 * (t1 % 0x100_0000)
    ensures t0 + 0x1_0000_0000_0000_0000 * t1
         == Val(t0 % 0x1000_0000_0000, Middle(t0, t1) % 0x1000_0000_0000, t1 / 0x100_0000)
  {
    var u, v := t0 / 0x1000_0000_0000, t1 % 0x1000_0000_0000;
    assert Middle(t0, t1) == u + 0x10_0000 * v by {
      Pow2At20();
      ShiftWraps(t1, 0x1000_0000_0000, 0x10_0000);
      OrJoin(u, v, 20, 0x10_0000);
    }
    assert v % 0x100_0000 == t1 % 0x100_0000 by {
      ModOfMod(t1, 0x100_0000, 0x10_0000);
    }
    assert u + 0x10_0000 * v == 0x1000_0000_0000 * (v / 0x100_0000) + (u + 0x10_0000 * (v % 0x100_0000));
    DivModUnique(u + 0x10_0000 * v, 0x1000_0000_0000, v / 0x100_0000, u + 0x10_0000 * (v % 0x100_0000));
  }

  lemma {:induction false} AndCut44(x: nat, c: nat)
    requires c < 0x1000_0000_0000
    ensures And(x, c) == And(x % 0x1000_0000_0000, c)
  {
    var low, high := x % 0x1000_0000_0000, x / 0x1000_0000_0000;
    Pow2At44();
    AndCut(low, high, c, 44, 0x1000_0000_0000);
    assert x == low + 0x1000_0000_0000 * high;
  }

  lemma {:induction false} AndJoin44(a: nat, b: nat, c: nat, d: nat, x: nat, y: nat)
    requires a < 0x1000_0000_0000 && c < 0x1000_0000_0000 && x == a + 0x1000_0000_0000 * b && y == c + 0x1000_0000_0000 * d
    ensures And(x, y) == And(a, c) + 0x1000_0000_0000 * And(b, d)
  {
    Pow2At44();
    AndJoin(a, b, c, d, 44, 0x1000_0000_0000, x, y);
  }

  /** Masking limb by limb is masking the number. */
  lemma {:induction false} AndLimbs(k0: nat, k1: nat, k2: nat, c0: nat, c1: nat, c2: nat)
    requires k0 < 0x1000_0000_0000 && k1 < 0x1000_0000_0000 && c0 < 0x1000_0000_0000 && c1 < 0x1000_0000_0000
    ensures Val(And(k0, c0), And(k1, c1), And(k2, c2)) == And(Val(k0, k1, k2), Val(c0, c1, c2))
  {
    var k12, c12 := k1 + 0x1000_0000_0000 * k2, c1 + 0x1000_0000_0000 * c2;
    AndJoin44(k1, k2, c1, c2, k12, c12);
    AndJoin44(k0, k12, c0, c12, Val(k0, k1, k2), Val(c0, c1, c2));
  }

  /** The three masks of poly1305_init clamp r. */
  lemma {:induction false} ClampLimbs(t0: nat, t1: nat, c0: nat, c1: nat, c2: nat)
    requires t0 < 0x1_0000_0000_0000_0000 && t1 < 0x1_0000_0000_0000_0000
    requires c0 == 0xffc_0fff_ffff && c1 == 0xfff_ffc0_ffff && c2 == 0x00ff_ffff_c0f
    ensures Val(And(t0, c0), And(Middle(t0, t1), c1), And(t1 / 0x100_0000, c2)) == Clamp(t0 + 0x1_0000_0000_0000_0000 * t1)
  {
    MiddleIs(t0, t1);
    var m := Middle(t0, t1);
    AndCut44(t0, c0);
    AndCut44(m, c1);
    AndLimbs(t0 % 0x1000_0000_0000, m % 0x1000_0000_0000, t1 / 0x100_0000, c0, c1, c2);
    assert Val(c0, c1, c2) == 0x0fff_fffc_0fff_fffc_0fff_fffc_0fff_ffff;
  }

  // ------------------------------------------------------------ one multiplication step

  lemma Row(h0: nat, h1: nat, h2: nat, r: nat)
    ensures Val(h0, h1, h2) * r
         == h0 * r + 0x1000_0000_0000 * (h1 * r) + 0x100_0000_0000_0000_0000_0000 * (h2 * r)
  {
  }

  /** Since 2^132 is 20 modulo p, the product folds onto three limbs. */
  lemma Product(h0: nat, h1: nat, h2: nat, r0: nat, r1: nat, r2: nat)
    ensures Val(h0, h1, h2) * Val(r0, r1, r2)
         == (h0 * r0 + 20 * (h1 * r2) + 20 * (h2 * r1))
          + 0x1000_0000_0000 * (h0 * r1 + h1 * r0 + 20 * (h2 * r2))
          + 0x100_0000_0000_0000_0000_0000 * (h0 * r2 + h1 * r1 + h2 * r0)
          + 0x3_ffff_ffff_ffff_ffff_ffff_ffff_ffff_fffb * (4 * (h1 * r2 + h2 * r1) + 4 * 0x1000_0000_0000 * (h2 * r2))
  {
    Row(h0, h1, h2, r0);
    Row(h0, h1, h2, r1);
    Row(h0, h1, h2, r2);
    Row(r0, r1, r2, Val(h0, h1, h2));
  }

  /** Bounds the limbs of r keep after clamping, and its multiples by 20. */
  ghost predicate GoodR(r0: nat, r1: nat, r2: nat, s1: nat, s2: nat) {
    r0 <= 0xffc_0fff_ffff && r1 <= 0xfff_ffc0_ffff && r2 <= 0x00ff_ffff_c0f && s1 == 20 * r1 && s2 == 20 * r2
  }

  /** Bounds the limbs of h keep between blocks. */
  ghost predicate GoodH(h0: nat, h1: nat, h2: nat) {
    h0 < 0x1000_0000_0000 && h1 < 0x1000_0000_0100 && h2 < 0x400_0000_0000
  }

  /** h *= r, partially reduced. */
  method MulStep(a0: nat, a1: nat, a2: nat, r0: nat, r1: nat, r2: nat, s1: nat, s2: nat, ghost a: nat, ghost r: nat)
    returns (h0: nat, h1: nat, h2: nat)
    requires a == Val(a0, a1, a2) && r == Val(r0, r1, r2) && GoodR(r0, r1, r2, s1, s2)
    requires a0 < 0x2000_0000_0000 && a1 < 0x2000_0000_0100 && a2 < 0x800_0000_0000
    ensures GoodH(h0, h1, h2)
    ensures ModP(Val(h0, h1, h2)) == MulP(a, r)
  {
    MulBound(a0, r0, 0x2000_0000_0000, 0xffc_0fff_ffff);
    MulBound(a1, s2, 0x2000_0000_0100, 20 * 0x00ff_ffff_c0f);
    MulBound(a2, s1, 0x800_0000_0000, 20 * 0xfff_ffc0_ffff);
    MulBound(a0, r1, 0x2000_0000_0000, 0xfff_ffc0_ffff);
    MulBound(a1, r0, 0x2000_0000_0100, 0xffc_0fff_ffff);
    MulBound(a2, s2, 0x800_0000_0000, 20 * 0x00ff_ffff_c0f);
    MulBound(a0, r2, 0x2000_0000_0000, 0x00ff_ffff_c0f);
    MulBound(a1, r1, 0x2000_0000_0100, 0xfff_ffc0_ffff);
    MulBound(a2, r0, 0x800_0000_0000, 0xffc_0fff_ffff);
    var d0 := Add128(Add128(Mul128(a0, r0), Mul128(a1, s2)), Mul128(a2, s1));
    var d1 := Add128(Add128(Mul128(a0, r1), Mul128(a1, r0)), Mul128(a2, s2));
    var d2 := Add128(Add128(Mul128(a0, r2), Mul128(a1, r1)), Mul128(a2, r0));
    assert d0 == a0 * r0 + a1 * s2 + a2 * s1 && d1 == a0 * r1 + a1 * r0 + a2 * s2 && d2 == a0 * r2 + a1 * r1 + a2 * r0;
    Times20(a1, r2, s2);
    Times20(a2, r1, s1);
    Times20(a2, r2, s2);
    Product(a0, a1, a2, r0, r1, r2);
    DropPMul(Val(d0, d1, d2), a, r, 4 * (a1 * r2 + a2 * r1) + 4 * 0x1000_0000_0000 * (a2 * r2));
    h0, h1, h2 := Reduce(d0, d1, d2);
  }

  /** The same, with the accumulator that was added to reduced modulo p. */
  method MulAdded(a0: nat, a1: nat, a2: nat, r0: nat, r1: nat, r2: nat, s1: nat, s2: nat, ghost h: nat, ghost m: nat, ghost r: nat)
    returns (h0: nat, h1: nat, h2: nat)
    requires h + m == Val(a0, a1, a2) && r == Val(r0, r1, r2) && GoodR(r0, r1, r2, s1, s2)
    requires a0 < 0x2000_0000_0000 && a1 < 0x2000_0000_0100 && a2 < 0x800_0000_0000
    ensures GoodH(h0, h1, h2) && ModP(Val(h0, h1, h2)) == MulP(ModP(h) + m, r)
  {
    h0, h1, h2 := MulStep(a0, a1, a2, r0, r1, r2, s1, s2, h + m, r);
    BlockStep(h, m, r);
  }

  lemma Times20(a: nat, r: nat, s: nat)
    requires s == 20 * r
    ensures a * s == 20 * (a * r)
  {
  }

  /** One carry out of a 128-bit limb: kept in 64 bits, and nothing is lost. */
  lemma Carry44(d: nat)
    requires d < 0x1_0000_0000_0000_0000 * 0x1000_0000_0000
    ensures Low64(d) % 0x1000_0000_0000 + 0x1000_0000_0000 * Low64(d / 0x1000_0000_0000) == d
    ensures Low64(d / 0x1000_0000_0000) == d / 0x1000_0000_0000
  {
    ModOfMod(d, 0x1000_0000_0000, 0x10_0000);
  }

  lemma Carry42(d: nat)
    requires d < 0x1_0000_0000_0000_0000 * 0x400_0000_0000
    ensures Low64(d) % 0x400_0000_0000 + 0x400_0000_0000 * Low64(d / 0x400_0000_0000) == d
    ensures Low64(d / 0x400_0000_0000) == d / 0x400_0000_0000
  {
    ModOfMod(d, 0x400_0000_0000, 0x40_0000);
  }

  /** (partial) h %= p: the carries are cut to 64 bits, and still lose nothing. */
  method Reduce(d0: nat, d1: nat, d2: nat) returns (h0: nat, h1: nat, h2: nat)
    requires d0 < 0x1000_0000_0000_0000_0000_0000 && d1 < 0x1000_0000_0000_0000_0000_0000
    requires d2 < 0x800_0000_0000_0000_0000_0000
    ensures GoodH(h0, h1, h2) && ModP(Val(h0, h1, h2)) == ModP(Val(d0, d1, d2))
  {
    var c := Low64(d0 / 0x1000_0000_0000);
    h0 := Low64(d0) % 0x1000_0000_0000;
    Carry44(d0);
    var e1 := Add128(d1, c);
    c := Low64(e1 / 0x1000_0000_0000);
    h1 := Low64(e1) % 0x1000_0000_0000;
    Carry44(e1);
    var e2 := Add128(d2, c);
    c := Low64(e2 / 0x400_0000_0000);
    h2 := Low64(e2) % 0x400_0000_0000;
    Carry42(e2);
    assert Val(h0, h1, h2) + 0x4_0000_0000_0000_0000_0000_0000_0000_0000 * c == Val(d0, d1, d2);
    ghost var top := c;
    h0 := Add64(h0, Mul64(c, 5));
    c := h0 / 0x1000_0000_0000;
    h0 := h0 % 0x1000_0000_0000;
    h1 := Add64(h1, c);
    DropP(Val(h0, h1, h2), Val(d0, d1, d2), top);
  }

  /** ((t0 >> 44) | (t1 << 20)) & 0xfffffffffff. */
  method MiddleLimb(t0: nat, t1: nat) returns (m: nat)
    requires t0 < 0x1_0000_0000_0000_0000 && t1 < 0x1_0000_0000_0000_0000
    ensures m == t0 / 0x1000_0000_0000 + 0x10_0000 * (t1 % 0x100_0000)
    ensures t0 + 0x1_0000_0000_0000_0000 * t1 == Val(t0 % 0x1000_0000_0000, m, t1 / 0x100_0000)
  {
    MiddleIs(t0, t1);
    m := Middle(t0, t1) % 0x1000_0000_0000;
  }

  /** ((t1 >> 24) & 0x3ffffffffff) | hibit. */
  method TopLimb(t1: nat, padbit: nat) returns (m: nat)
    requires t1 < 0x1_0000_0000_0000_0000 && padbit <= 1
    ensures m == t1 / 0x100_0000 + 0x100_0000_0000 * padbit
  {
    var hibit := (padbit * 0x100_0000_0000) % 0x1_0000_0000_0000_0000;
    assert (t1 / 0x100_0000) % 0x400_0000_0000 == t1 / 0x100_0000;
    TopIs(t1 / 0x100_0000, padbit, hibit);
    m := Or((t1 / 0x100_0000) % 0x400_0000_0000, hibit);
  }

  lemma {:induction false} TopIs(x: nat, padbit: nat, hibit: nat)
    requires x < 0x100_0000_0000 && hibit == 0x100_0000_0000 * padbit
    ensures Or(x, hibit) == x + hibit
  {
    Pow2At40();
    OrJoin(x, padbit, 40, 0x100_0000_0000);
  }

  /** h += m[i]. */
  method AddBlock(h0: nat, h1: nat, h2: nat, b: seq<Byte>, padbit: nat, ghost m: nat) returns (a0: nat, a1: nat, a2: nat)
    requires GoodH(h0, h1, h2) && |b| == 16 && padbit <= 1 && m == Le(b) + Pow128(padbit)
    ensures a0 < 0x2000_0000_0000 && a1 < 0x2000_0000_0100 && a2 < 0x800_0000_0000
    ensures Val(a0, a1, a2) == Val(h0, h1, h2) + m
  {
    var t0, t1 := Le(b[..8]), Le(b[8..]);
    Words128(b);
    var m1 := MiddleLimb(t0, t1);
    var m2 := TopLimb(t1, padbit);
    a0 := Add64(h0, t0 % 0x1000_0000_0000);
    a1 := Add64(h1, m1);
    a2 := Add64(h2, m2);
  }

  // ------------------------------------------------------------ the final reduction

  /** One pass of the final carry. */
  method CarryPass(a0: nat, a1: nat, a2: nat) returns (h0: nat, h1: nat, h2: nat)
    requires GoodH(a0, a1, a2)
    ensures h0 < 0x1000_0000_0000 && h1 <= 0x1000_0000_0000 && h2 < 0x400_0000_0000
    ensures a1 <= 0x1000_0000_0000 ==> h1 < 0x1000_0000_0000
    ensures ModP(Val(h0, h1, h2)) == ModP(Val(a0, a1, a2))
  {
    h0, h1, h2 := a0, a1, a2;
    var c := h1 / 0x1000_0000_0000;
    h1 := h1 % 0x1000_0000_0000;
    assert c <= 1 && (c == 1 ==> h1 < 0x100);
    h2 := Add64(h2, c);
    c := h2 / 0x400_0000_0000;
    h2 := h2 % 0x400_0000_0000;
    assert c <= 1 && Val(h0, h1, h2) + 0x4_0000_0000_0000_0000_0000_0000_0000_0000 * c == Val(a0, a1, a2);
    ghost var k := c;
    h0 := Add64(h0, Mul64(c, 5));
    c := h0 / 0x1000_0000_0000;
    h0 := h0 % 0x1000_0000_0000;
    h1 := Add64(h1, c);
    DropP(Val(h0, h1, h2), Val(a0, a1, a2), k);
  }

  /** Fully carry h: two passes are enough from the bounds kept between blocks. */
  method FullCarry(a0: nat, a1: nat, a2: nat) returns (h0: nat, h1: nat, h2: nat)
    requires GoodH(a0, a1, a2)
    ensures h0 < 0x1000_0000_0000 && h1 < 0x1000_0000_0000 && h2 < 0x400_0000_0000
    ensures ModP(Val(h0, h1, h2)) == ModP(Val(a0, a1, a2))
  {
    h0, h1, h2 := CarryPass(a0, a1, a2);
    h0, h1, h2 := CarryPass(h0, h1, h2);
  }

  /** x & c for an all-ones or all-zeroes word c. */
  lemma {:induction false} Select(x: nat, c: nat)
    requires x < 0x1_0000_0000_0000_0000 && (c == 0 || c == 0x1_0000_0000_0000_0000 - 1)
    ensures And(x, c) == if c == 0 then 0 else x
  {
    Pow2At64();
    if c == 0 { AndZero(x); } else { AndAllOnes(x, c, 64); }
  }

  /** (h & d) | (g & c), where d is the complement of c. */
  method Blend(h: nat, d: nat, g: nat, c: nat) returns (x: nat)
    requires h < 0x1_0000_0000_0000_0000 && g < 0x1_0000_0000_0000_0000
    requires (c == 0 && d == 0x1_0000_0000_0000_0000 - 1) || (d == 0 && c == 0x1_0000_0000_0000_0000 - 1)
    ensures x == if c == 0 then h else g
  {
    Select(h, d);
    Select(g, c);
    x := Or(And(h, d), And(g, c));
  }

  /** Select h if h < p, or h + -p if h >= p: the remainder modulo p, without a branch. */
  method ReduceOnce(a0: nat, a1: nat, a2: nat) returns (h0: nat, h1: nat, h2: nat)
    requires a0 < 0x1000_0000_0000 && a1 < 0x1000_0000_0000 && a2 < 0x400_0000_0000
    ensures h0 < 0x1000_0000_0000 && h1 < 0x1000_0000_0000 && h2 < 0x400_0000_0000
    ensures Val(h0, h1, h2) == ModP(Val(a0, a1, a2))
  {
    h0, h1, h2 := a0, a1, a2;
    var g0 := Add64(h0, 5);
    var c := g0 / 0x1000_0000_0000;
    g0 := g0 % 0x1000_0000_0000;
    var g1 := Add64(h1, c);
    c := g1 / 0x1000_0000_0000;
    g1 := g1 % 0x1000_0000_0000;
    var g2 := Sub64(Add64(h2, c), 0x400_0000_0000);
    assert g2 < 0x8000_0000_0000_0000 <==> Val(a0, a1, a2) >= 0x3_ffff_ffff_ffff_ffff_ffff_ffff_ffff_fffb;
    assert g2 < 0x8000_0000_0000_0000 ==> Val(g0, g1, g2) + 0x3_ffff_ffff_ffff_ffff_ffff_ffff_ffff_fffb == Val(a0, a1, a2) && g2 < 0x400_0000_0000;
    c := Sub64(g2 / 0x8000_0000_0000_0000, 1);
    var d := 0xffff_ffff_ffff_ffff - c;
    h0 := Blend(h0, d, g0, c);
    h1 := Blend(h1, d, g1, c);
    h2 := Blend(h2, d, g2, c);
    ModPOnce(Val(a0, a1, a2), Val(h0, h1, h2));
  }

  /** h + nonce modulo 2^128, cut into two output words. */
  method AddNonce(a0: nat, a1: nat, a2: nat, t0: nat, t1: nat, ghost h: nat, ghost nonce: nat) returns (m0: nat, m1: nat)
    requires a0 < 0x1000_0000_0000 && a1 < 0x1000_0000_0000 && a2 < 0x400_0000_0000
    requires t0 < 0x1_0000_0000_0000_0000 && t1 < 0x1_0000_0000_0000_0000
    ensures m0 < 0x1_0000_0000_0000_0000 && m1 < 0x1_0000_0000_0000_0000
    requires h == Val(a0, a1, a2) && nonce == t0 + 0x1_0000_0000_0000_0000 * t1
    ensures m0 + 0x1_0000_0000_0000_0000 * m1 == Mod128(h + nonce)
  {
    var n1 := MiddleLimb(t0, t1);
    var n0, n2 := t0 % 0x1000_0000_0000, (t1 / 0x100_0000) % 0x400_0000_0000;
    assert n2 == t1 / 0x100_0000;
    assert nonce == Val(n0, n1, n2);
    var h0, h1, h2 := AddLimbs(a0, a1, a2, n0, n1, n2, h, nonce);
    m0, m1 := Pack(h0, h1, h2);
  }

  /** The carry chain of h = h + nonce, modulo 2^130 and hence modulo 2^128. */
  method AddLimbs(a0: nat, a1: nat, a2: nat, n0: nat, n1: nat, n2: nat, ghost h: nat, ghost nonce: nat) returns (h0: nat, h1: nat, h2: nat)
    requires a0 < 0x1000_0000_0000 && a1 < 0x1000_0000_0000 && a2 < 0x400_0000_0000
    requires n0 < 0x1000_0000_0000 && n1 < 0x1000_0000_0000 && n2 < 0x400_0000_0000
    ensures h0 < 0x1000_0000_0000 && h1 < 0x1000_0000_0000 && h2 < 0x400_0000_0000
    requires h == Val(a0, a1, a2) && nonce == Val(n0, n1, n2)
    ensures Mod128(Val(h0, h1, h2)) == Mod128(h + nonce)
  {
    h0 := Add64(a0, n0);
    var c := h0 / 0x1000_0000_0000;
    h0 := h0 % 0x1000_0000_0000;
    assert h0 + 0x1000_0000_0000 * c == a0 + n0 && c <= 1;
    h1 := Add64(a1, Add64(n1, c));
    c := h1 / 0x1000_0000_0000;
    h1 := h1 % 0x1000_0000_0000;
    assert Val(h0, h1, c) == Val(a0 + n0, a1 + n1, 0) && c <= 1;
    h2 := Add64(a2, Add64(n2, c));
    ghost var q := h2 / 0x400_0000_0000;
    h2 := h2 % 0x400_0000_0000;
    assert Val(h0, h1, h2) + 0x1_0000_0000_0000_0000_0000_0000_0000_0000 * (4 * q) == Val(a0, a1, a2) + Val(n0, n1, n2);
    Drop128(Val(h0, h1, h2), h + nonce, 4 * q);
  }

  /** mac = h % (2^128). */
  method Pack(h0: nat, h1: nat, h2: nat) returns (m0: nat, m1: nat)
    requires h0 < 0x1000_0000_0000 && h1 < 0x1000_0000_0000 && h2 < 0x400_0000_0000
    ensures m0 < 0x1_0000_0000_0000_0000 && m1 < 0x1_0000_0000_0000_0000
    ensures m0 + 0x1_0000_0000_0000_0000 * m1 == Mod128(Val(h0, h1, h2))
  {
    m0 := Or(h0, (h1 * 0x1000_0000_0000) % 0x1_0000_0000_0000_0000);
    m1 := Or(h1 / 0x10_0000, (h2 * 0x100_0000) % 0x1_0000_0000_0000_0000);
    PackWords(h0, h1, h2);
    ghost var low, high := h2 % 0x100_0000_0000, h2 / 0x100_0000_0000;
    assert Val(h0, h1, h2) == 0x1_0000_0000_0000_0000_0000_0000_0000_0000 * high + (m0 + 0x1_0000_0000_0000_0000 * m1);
    Drop128(m0 + 0x1_0000_0000_0000_0000 * m1, Val(h0, h1, h2), high);
  }

  lemma {:induction false} PackWords(h0: nat, h1: nat, h2: nat)
    requires h0 < 0x1000_0000_0000 && h1 < 0x1000_0000_0000
    ensures Or(h0, (h1 * 0x1000_0000_0000) % 0x1_0000_0000_0000_0000) == h0 + 0x1000_0000_0000 * (h1 % 0x10_0000)
    ensures Or(h1 / 0x10_0000, (h2 * 0x100_0000) % 0x1_0000_0000_0000_0000) == h1 / 0x10_0000 + 0x100_0000 * (h2 % 0x100_0000_0000)
  {
    ShiftWraps(h1, 0x10_0000, 0x1000_0000_0000);
    Pow2At44();
    OrJoin(h0, h1 % 0x10_0000, 44, 0x1000_0000_0000);
    ShiftWraps(h2, 0x100_0000_0000, 0x100_0000);
    Pow2At20();
    Pow2Sum(4, 20, 0x10, 0x10_0000);
    OrJoin(h1 / 0x10_0000, h2 % 0x100_0000_0000, 24, 0x100_0000);
  }

  // ------------------------------------------------------------ the state

  /** struct poly1305_internal.  The ghost fields are the multiplier and the accumulator
      modulo p that the limbs stand for. */
  class State {
    var r0: nat
    var r1: nat
    var r2: nat
    var h0: nat
    var h1: nat
    var h2: nat
    var s1: nat
    var s2: nat
    ghost var r: nat
    ghost var acc: nat

    ghost predicate Valid()
      reads this
    {
      GoodR(r0, r1, r2, s1, s2) && GoodH(h0, h1, h2) && r == Val(r0, r1, r2) && acc == ModP(Val(h0, h1, h2))
    }

    /** poly1305_init_generic. */
    constructor (key: seq<Byte>)
      requires |key| == 16
      ensures Valid() && r == Clamp(Le(key)) && acc == 0
    {
      var t0, t1 := Le(key[..8]), Le(key[8..]);
      Words128(key);
      var x0, x1, x2 := ClampedLimbs(t0, t1, Le(key));
      r0, r1, r2 := x0, x1, x2;
      s1, s2 := Mul64(x1, 20), Mul64(x2, 20);
      h0, h1, h2 := 0, 0, 0;
      r, acc := Val(x0, x1, x2), 0;
    }

    /** poly1305_blocks_generic: `padbit` is the bit appended above every block. */
    method Blocks(input: seq<Byte>, padbit: nat)
      requires Valid() && padbit <= 1
      modifies this
      ensures Valid() && r == old(r) && acc == AccumulateBlocks(old(acc), r, input, padbit)
    {
      var rest := input;
      ghost var target := AccumulateBlocks(acc, r, input, padbit);
      while |rest| >= 16
        invariant Valid() && r == old(r)
        invariant AccumulateBlocks(acc, r, rest, padbit) == target
      {
        rest := FirstBlock(rest, padbit);
      }
    }

    method FirstBlock(rest: seq<Byte>, padbit: nat) returns (rest': seq<Byte>)
      requires Valid() && |rest| >= 16 && padbit <= 1
      modifies this
      ensures Valid() && r == old(r)
      ensures |rest'| == |rest| - 16 && AccumulateBlocks(acc, r, rest', padbit) == AccumulateBlocks(old(acc), r, rest, padbit)
    {
      Block(rest[..16], padbit);
      AccumulateBlocksStep(old(acc), r, rest, padbit, acc);
      rest' := rest[16..];
    }

    /** One iteration: h = (h + m) * r. */
    method Block(block: seq<Byte>, padbit: nat)
      requires Valid() && |block| == 16 && padbit <= 1
      modifies this
      ensures Valid() && r == old(r)
      ensures acc == MulP(old(acc) + (Le(block) + Pow128(padbit)), r)
    {
      ghost var h, m := Val(h0, h1, h2), Le(block) + Pow128(padbit);
      var a0, a1, a2 := AddBlock(h0, h1, h2, block, padbit, m);
      h0, h1, h2 := MulAdded(a0, a1, a2, r0, r1, r2, s1, s2, h, m, r);
      acc := ModP(Val(h0, h1, h2));
    }

    /** poly1305_emit_generic. */
    method Emit(nonce: seq<Byte>) returns (mac: seq<Byte>)
      requires Valid() && |nonce| == 16
      ensures |mac| == 16 && Le(mac) == Mod128(acc + Le(nonce))
    {
      Words128(nonce);
      var a0, a1, a2 := FullCarry(h0, h1, h2);
      a0, a1, a2 := ReduceOnce(a0, a1, a2);
      var m0, m1 := AddNonce(a0, a1, a2, Le(nonce[..8]), Le(nonce[8..]), acc, Le(nonce));
      mac := PutLe64(m0, m1);
    }
  }

  /** The limbs of r. */
  method ClampedLimbs(t0: nat, t1: nat, ghost k: nat) returns (x0: nat, x1: nat, x2: nat)
    requires t0 < 0x1_0000_0000_0000_0000 && t1 < 0x1_0000_0000_0000_0000
    requires k == t0 + 0x1_0000_0000_0000_0000 * t1
    ensures x0 <= 0xffc_0fff_ffff && x1 <= 0xfff_ffc0_ffff && x2 <= 0x00ff_ffff_c0f
    ensures Val(x0, x1, x2) == Clamp(k)
  {
    ClampLimbs(t0, t1, 0xffc_0fff_ffff, 0xfff_ffc0_ffff, 0x00ff_ffff_c0f);
    AndLe(t0, 0xffc_0fff_ffff);
    AndLe(Middle(t0, t1), 0xfff_ffc0_ffff);
    AndLe(t1 / 0x100_0000, 0x00ff_ffff_c0f);
    x0 := And(t0, 0xffc_0fff_ffff);
    x1 := And(Middle(t0, t1), 0xfff_ffc0_ffff);
    x2 := And(t1 / 0x100_0000, 0x00ff_ffff_c0f);
  }
}
