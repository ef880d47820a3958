/** poly1305-donna32: five 26-bit limbs and 64-bit products, for machines without
    128-bit integers.  Written with the same conventions as the 64-bit form. */
module Donna32 {
  import opened Words
  import opened Poly1305Spec
  import opened Poly1305Field

  /** The number that five limbs stand for. */
  function Val(a: nat, b: nat, c: nat, d: nat, e: nat): nat {
    a + 0x400_0000 * b + 0x10_0000_0000_0000 * c + 0x4000_0000_0000_0000_0000 * d
      + 0x100_0000_0000_0000_0000_0000_0000 * e
  }

  // ------------------------------------------------------------ splitting bytes into limbs

  /** The five overlapping unaligned loads cut sixteen bytes into 26-bit limbs. */
  lemma {:induction false} Loads(b: seq<Byte>, w0: nat, w3: nat, w6: nat, w9: nat, w12: nat)
    requires |b| == 16
    requires w0 == Le(b[0..4]) && w3 == Le(b[3..7]) && w6 == Le(b[6..10]) && w9 == Le(b[9..13]) && w12 == Le(b[12..16])
    ensures w0 < 0x1_0000_0000 && w3 < 0x1_0000_0000 && w6 < 0x1_0000_0000 && w9 < 0x1_0000_0000 && w12 < 0x1_0000_0000
    ensures Le(b) == Val(w0 % 0x400_0000, (w3 / 4) % 0x400_0000, (w6 / 16) % 0x400_0000, (w9 / 64) % 0x400_0000, w12 / 256)
  {
    Le4(b[0..4], b[0], b[1], b[2], b[3]);
    Le4(b[3..7], b[3], b[4], b[5], b[6]);
    Le4(b[6..10], b[6], b[7], b[8], b[9]);
    Le4(b[9..13], b[9], b[10], b[11], b[12]);
    Le4(b[12..16], b[12], b[13], b[14], b[15]);
    Le4(b[4..8], b[4], b[5], b[6], b[7]);
    Le4(b[8..12], b[8], b[9], b[10], b[11]);
    Words32(b);
    assert b[..4] == b[0..4] && b[12..] == b[12..16];
    LimbsOfBytes(b[0], b[1], b[2], b[3], b[4], b[5], b[6], b[7], b[8], b[9], b[10], b[11], b[12], b[13], b[14], b[15],
                 w0, w3, w6, w9, w12);
  }

  lemma {:induction false} LimbsOfBytes(b0: nat, b1: nat, b2: nat, b3: nat, b4: nat, b5: nat, b6: nat, b7: nat,
                     b8: nat, b9: nat, b10: nat, b11: nat, b12: nat, b13: nat, b14: nat, b15: nat,
                     w0: nat, w3: nat, w6: nat, w9: nat, w12: nat)
    requires b0 < 256 && b1 < 256 && b2 < 256 && b3 < 256 && b4 < 256 && b5 < 256 && b6 < 256 && b7 < 256
    requires b8 < 256 && b9 < 256 && b10 < 256 && b11 < 256 && b12 < 256 && b13 < 256 && b14 < 256 && b15 < 256
    requires w0 == b0 + 0x100 * b1 + 0x1_0000 * b2 + 0x100_0000 * b3 && w3 == b3 + 0x100 * b4 + 0x1_0000 * b5 + 0x100_0000 * b6
    requires w6 == b6 + 0x100 * b7 + 0x1_0000 * b8 + 0x100_0000 * b9 && w9 == b9 + 0x100 * b10 + 0x1_0000 * b11 + 0x100_0000 * b12
    requires w12 == b12 + 0x100 * b13 + 0x1_0000 * b14 + 0x100_0000 * b15
    ensures w0 < 0x1_0000_0000 && w3 < 0x1_0000_0000 && w6 < 0x1_0000_0000 && w9 < 0x1_0000_0000 && w12 < 0x1_0000_0000
    ensures Val(w0 % 0x400_0000, (w3 / 4) % 0x400_0000, (w6 / 16) % 0x400_0000, (w9 / 64) % 0x400_0000, w12 / 256)
         == w0 + 0x1_0000_0000 * (b4 + 0x100 * b5 + 0x1_0000 * b6 + 0x100_0000 * b7)
               + 0x1_0000_0000_0000_0000 * (b8 + 0x100 * b9 + 0x1_0000 * b10 + 0x100_0000 * b11)
               + 0x1_0000_0000_0000_0000_0000_0000 * w12
  {
    Load0(b0, b1, b2, b3, w0);
    Load3(b3, b4, b5, b6, w3);
    Load6(b6, b7, b8, b9, w6);
    Load9(b9, b10, b11, b12, w9);
    Load12(b12, b13, b14, b15, w12);
    SumOfLimbs(b0, b1, b2, b3, b4, b5, b6, b7, b8, b9, b10, b11, b12, b13, b14, b15,
               b3 / 4, b3 % 4, b6 / 16, b6 % 16, b9 / 64, b9 % 64,
               w0 % 0x400_0000, (w3 / 4) % 0x400_0000, (w6 / 16) % 0x400_0000, (w9 / 64) % 0x400_0000, w12 / 256);
  }

  /** One load of four bytes, shifted right by log2(m) bits and cut to 26 bits; the top
      byte contributes its low bits only. */
  lemma {:induction false} ShiftedLoad(b0: nat, b1: nat, b2: nat, b3: nat, m: nat, n: nat, top: nat, w: nat)
    requires b0 < 256 && b1 < 256 && b2 < 256 && b3 < 256
    requires w == b0 + 0x100 * b1 + 0x1_0000 * b2 + 0x100_0000 * b3
    requires (m, n, top) in {(1, 0x100, 4), (4, 0x40, 16), (16, 0x10, 64), (64, 4, 256), (256, 1, 1024)}
    ensures w < 0x1_0000_0000
    ensures (w / m) % 0x400_0000 == b0 / m + n * b1 + 0x100 * (n * b2) + 0x1_0000 * (n * (b3 % top))
    ensures m == 256 ==> w / m == b1 + 0x100 * b2 + 0x1_0000 * b3
  {
    var q := b0 / m + n * b1 + 0x100 * (n * b2) + 0x1_0000 * (n * b3);
    DivModUnique(w, m, q, b0 % m);
    var r := b0 / m + n * b1 + 0x100 * (n * b2) + 0x1_0000 * (n * (b3 % top));
    DivModUnique(q, 0x400_0000, b3 / top, r);
  }

  lemma {:induction false} Load0(a: nat, b: nat, c: nat, d: nat, w: nat)
    requires a < 256 && b < 256 && c < 256 && d < 256 && w == a + 0x100 * b + 0x1_0000 * c + 0x100_0000 * d
    ensures w < 0x1_0000_0000 && w % 0x400_0000 == a + 0x100 * b + 0x1_0000 * c + 0x100_0000 * (d % 4)
  {
    ShiftedLoad(a, b, c, d, 1, 0x100, 4, w);
  }

  lemma {:induction false} Load3(a: nat, b: nat, c: nat, d: nat, w: nat)
    requires a < 256 && b < 256 && c < 256 && d < 256 && w == a + 0x100 * b + 0x1_0000 * c + 0x100_0000 * d
    ensures w < 0x1_0000_0000 && (w / 4) % 0x400_0000 == a / 4 + 0x40 * b + 0x4000 * c + 0x40_0000 * (d % 16)
  {
    ShiftedLoad(a, b, c, d, 4, 0x40, 16, w);
  }

  lemma {:induction false} Load6(a: nat, b: nat, c: nat, d: nat, w: nat)
    requires a < 256 && b < 256 && c < 256 && d < 256 && w == a + 0x100 * b + 0x1_0000 * c + 0x100_0000 * d
    ensures w < 0x1_0000_0000 && (w / 16) % 0x400_0000 == a / 16 + 0x10 * b + 0x1000 * c + 0x10_0000 * (d % 64)
  {
    ShiftedLoad(a, b, c, d, 16, 0x10, 64, w);
  }

  lemma {:induction false} Load9(a: nat, b: nat, c: nat, d: nat, w: nat)
    requires a < 256 && b < 256 && c < 256 && d < 256 && w == a + 0x100 * b + 0x1_0000 * c + 0x100_0000 * d
    ensures w < 0x1_0000_0000 && (w / 64) % 0x400_0000 == a / 64 + 4 * b + 0x400 * c + 0x4_0000 * d
  {
    ShiftedLoad(a, b, c, d, 64, 4, 256, w);
  }

  lemma {:induction false} Load12(a: nat, b: nat, c: nat, d: nat, w: nat)
    requires a < 256 && b < 256 && c < 256 && d < 256 && w == a + 0x100 * b + 0x1_0000 * c + 0x100_0000 * d
    ensures w < 0x1_0000_0000 && w / 256 == b + 0x100 * c + 0x1_0000 * d
  {
    ShiftedLoad(a, b, c, d, 256, 1, 1024, w);
  }

  lemma {:induction false} SumOfLimbs(b0: int, b1: int, b2: int, b3: int, b4: int, b5: int, b6: int, b7: int,
                   b8: int, b9: int, b10: int, b11: int, b12: int, b13: int, b14: int, b15: int,
                   q3: int, r3: int, q6: int, r6: int, q9: int, r9: int, l0: int, l1: int, l2: int, l3: int, l4: int)
    requires b3 == 4 * q3 + r3 && b6 == 16 * q6 + r6 && b9 == 64 * q9 + r9
    requires l0 == b0 + 0x100 * b1 + 0x1_0000 * b2 + 0x100_0000 * r3 && l1 == q3 + 0x40 * b4 + 0x4000 * b5 + 0x40_0000 * r6
    requires l2 == q6 + 0x10 * b7 + 0x1000 * b8 + 0x10_0000 * r9 && l3 == q9 + 4 * b10 + 0x400 * b11 + 0x4_0000 * b12
    requires l4 == b13 + 0x100 * b14 + 0x1_0000 * b15
    ensures l0 + 0x400_0000 * l1 + 0x10_0000_0000_0000 * l2 + 0x4000_0000_0000_0000_0000 * l3
              + 0x100_0000_0000_0000_0000_0000_0000 * l4
         == (b0 + 0x100 * b1 + 0x1_0000 * b2 + 0x100_0000 * b3)
            + 0x1_0000_0000 * (b4 + 0x100 * b5 + 0x1_0000 * b6 + 0x100_0000 * b7)
            + 0x1_0000_0000_0000_0000 * (b8 + 0x100 * b9 + 0x1_0000 * b10 + 0x100_0000 * b11)
            + 0x1_0000_0000_0000_0000_0000_0000 * (b12 + 0x100 * b13 + 0x1_0000 * b14 + 0x100_0000 * b15)
  {
  }

  lemma {:induction false} AndJoin26(a: nat, b: nat, c: nat, d: nat, x: nat, y: nat)
    requires a < 0x400_0000 && c < 0x400_0000 && x == a + 0x400_0000 * b && y == c + 0x400_0000 * d
    ensures And(x, y) == And(a, c) + 0x400_0000 * And(b, d)
  {
    Pow2At26();
    AndJoin(a, b, c, d, 26, 0x400_0000, x, y);
  }

  /** Masking limb by limb is masking the number. */
  lemma {:induction false} AndLimbs(k0: nat, k1: nat, k2: nat, k3: nat, k4: nat, c0: nat, c1: nat, c2: nat, c3: nat, c4: nat)
    requires k0 < 0x400_0000 && k1 < 0x400_0000 && k2 < 0x400_0000 && k3 < 0x400_0000
    requires c0 < 0x400_0000 && c1 < 0x400_0000 && c2 < 0x400_0000 && c3 < 0x400_0000
    ensures Val(And(k0, c0), And(k1, c1), And(k2, c2), And(k3, c3), And(k4, c4)) == And(Val(k0, k1, k2, k3, k4), Val(c0, c1, c2, c3, c4))
  {
    var k34, c34 := k3 + 0x400_0000 * k4, c3 + 0x400_0000 * c4;
    var k24, c24 := k2 + 0x400_0000 * k34, c2 + 0x400_0000 * c34;
    var k14, c14 := k1 + 0x400_0000 * k24, c1 + 0x400_0000 * c24;
    Horner(k0, k1, k2, k3, k4);
    Horner(c0, c1, c2, c3, c4);
    AndJoin26(k3, k4, c3, c4, k34, c34);
    AndJoin26(k2, k34, c2, c34, k24, c24);
    AndJoin26(k1, k24, c1, c24, k14, c14);
    AndJoin26(k0, k14, c0, c14, Val(k0, k1, k2, k3, k4), Val(c0, c1, c2, c3, c4));
    Horner(And(k0, c0), And(k1, c1), And(k2, c2), And(k3, c3), And(k4, c4));
  }

  lemma Horner(a: nat, b: nat, c: nat, d: nat, e: nat)
    ensures Val(a, b, c, d, e) == a + 0x400_0000 * (b + 0x400_0000 * (c + 0x400_0000 * (d + 0x400_0000 * e)))
  {
  }

  lemma {:induction false} AndCut26(x: nat, c: nat)
    requires c < 0x400_0000
    ensures And(x, c) == And(x % 0x400_0000, c)
  {
    var low, high := x % 0x400_0000, x / 0x400_0000;
    Pow2At26();
    AndCut(low, high, c, 26, 0x400_0000);
    assert x == low + 0x400_0000 * high;
  }

  // ------------------------------------------------------------ one multiplication step

  /** The same value without the sign condition, for proofs. */
  ghost function Poly(a: int, b: int, c: int, d: int, e: int): int {
    a + 0x400_0000 * b + 0x10_0000_0000_0000 * c + 0x4000_0000_0000_0000_0000 * d
      + 0x100_0000_0000_0000_0000_0000_0000 * e
  }

  lemma Row(h0: int, h1: int, h2: int, h3: int, h4: int, r: int)
    ensures Poly(h0, h1, h2, h3, h4) * r == Poly(h0 * r, h1 * r, h2 * r, h3 * r, h4 * r)
  {
  }

  /** Since 2^130 is 5 modulo p, the product folds onto five limbs. */
  lemma Product(h0: int, h1: int, h2: int, h3: int, h4: int, r0: int, r1: int, r2: int, r3: int, r4: int)
    ensures Poly(h0, h1, h2, h3, h4) * Poly(r0, r1, r2, r3, r4)
         == Poly(h0 * r0 + 5 * (h1 * r4) + 5 * (h2 * r3) + 5 * (h3 * r2) + 5 * (h4 * r1),
                 h0 * r1 + h1 * r0 + 5 * (h2 * r4) + 5 * (h3 * r3) + 5 * (h4 * r2),
                 h0 * r2 + h1 * r1 + h2 * r0 + 5 * (h3 * r4) + 5 * (h4 * r3),
                 h0 * r3 + h1 * r2 + h2 * r1 + h3 * r0 + 5 * (h4 * r4),
                 h0 * r4 + h1 * r3 + h2 * r2 + h3 * r1 + h4 * r0)
          + 0x3_ffff_ffff_ffff_ffff_ffff_ffff_ffff_fffb
            * Poly(h1 * r4 + h2 * r3 + h3 * r2 + h4 * r1, h2 * r4 + h3 * r3 + h4 * r2, h3 * r4 + h4 * r3, h4 * r4, 0)
  {
    Row(h0, h1, h2, h3, h4, r0);
    Row(h0, h1, h2, h3, h4, r1);
    Row(h0, h1, h2, h3, h4, r2);
    Row(h0, h1, h2, h3, h4, r3);
    Row(h0, h1, h2, h3, h4, r4);
    Row(r0, r1, r2, r3, r4, Poly(h0, h1, h2, h3, h4));
  }

  lemma ProductOf(h0: int, h1: int, h2: int, h3: int, h4: int, r0: int, r1: int, r2: int, r3: int, r4: int,
                  d0: int, d1: int, d2: int, d3: int, d4: int) returns (k: int)
    requires d0 == h0 * r0 + 5 * (h1 * r4) + 5 * (h2 * r3) + 5 * (h3 * r2) + 5 * (h4 * r1)
    requires d1 == h0 * r1 + h1 * r0 + 5 * (h2 * r4) + 5 * (h3 * r3) + 5 * (h4 * r2)
    requires d2 == h0 * r2 + h1 * r1 + h2 * r0 + 5 * (h3 * r4) + 5 * (h4 * r3)
    requires d3 == h0 * r3 + h1 * r2 + h2 * r1 + h3 * r0 + 5 * (h4 * r4)
    requires d4 == h0 * r4 + h1 * r3 + h2 * r2 + h3 * r1 + h4 * r0
    ensures Poly(d0, d1, d2, d3, d4) + 0x3_ffff_ffff_ffff_ffff_ffff_ffff_ffff_fffb * k
         == Poly(h0, h1, h2, h3, h4) * Poly(r0, r1, r2, r3, r4)
  {
    Product(h0, h1, h2, h3, h4, r0, r1, r2, r3, r4);
    k := Poly(h1 * r4 + h2 * r3 + h3 * r2 + h4 * r1, h2 * r4 + h3 * r3 + h4 * r2, h3 * r4 + h4 * r3, h4 * r4, 0);
  }

  /** Bounds the limbs of r keep after clamping, and its multiples by 5. */
  ghost predicate GoodR(r0: nat, r1: nat, r2: nat, r3: nat, r4: nat, s1: nat, s2: nat, s3: nat, s4: nat) {
    r0 < 0x400_0000 && r1 < 0x400_0000 && r2 < 0x400_0000 && r3 < 0x400_0000 && r4 < 0x400_0000
    && s1 == 5 * r1 && s2 == 5 * r2 && s3 == 5 * r3 && s4 == 5 * r4
  }

  /** Bounds the limbs of h keep between blocks. */
  ghost predicate GoodH(h0: nat, h1: nat, h2: nat, h3: nat, h4: nat) {
    h0 < 0x400_0000 && h1 < 0x400_0040 && h2 < 0x400_0000 && h3 < 0x400_0000 && h4 < 0x400_0000
  }

  /** Bounds after a block was added. */
  ghost predicate GoodA(a0: nat, a1: nat, a2: nat, a3: nat, a4: nat) {
    a0 <= 0x800_0040 && a1 <= 0x800_0040 && a2 <= 0x800_0040 && a3 <= 0x800_0040 && a4 <= 0x800_0040
  }

  /** One sum of five 64-bit products. */
  method Dot(a0: nat, a1: nat, a2: nat, a3: nat, a4: nat, x0: nat, x1: nat, x2: nat, x3: nat, x4: nat, ghost bound: nat)
    returns (d: nat)
    requires GoodA(a0, a1, a2, a3, a4) && bound <= 0x1400_0000
    requires x0 <= bound && x1 <= bound && x2 <= bound && x3 <= bound && x4 <= bound
    ensures d == a0 * x0 + a1 * x1 + a2 * x2 + a3 * x3 + a4 * x4
    ensures d <= 5 * (0x800_0040 * bound)
  {
    MulBound(a0, x0, 0x800_0040, bound);
    MulBound(a1, x1, 0x800_0040, bound);
    MulBound(a2, x2, 0x800_0040, bound);
    MulBound(a3, x3, 0x800_0040, bound);
    MulBound(a4, x4, 0x800_0040, bound);
    d := Add64(Add64(Add64(Add64(Mul64(a0, x0), Mul64(a1, x1)), Mul64(a2, x2)), Mul64(a3, x3)), Mul64(a4, x4));
  }

  /** h *= r, partially reduced. */
  method MulStep(a0: nat, a1: nat, a2: nat, a3: nat, a4: nat, r0: nat, r1: nat, r2: nat, r3: nat, r4: nat,
                 s1: nat, s2: nat, s3: nat, s4: nat, ghost a: nat, ghost r: nat)
    returns (h0: nat, h1: nat, h2: nat, h3: nat, h4: nat)
    requires GoodR(r0, r1, r2, r3, r4, s1, s2, s3, s4) && GoodA(a0, a1, a2, a3, a4)
    requires a == Val(a0, a1, a2, a3, a4) && r == Val(r0, r1, r2, r3, r4)
    ensures GoodH(h0, h1, h2, h3, h4) && ModP(Val(h0, h1, h2, h3, h4)) == MulP(a, r)
  {
    var d0 := Dot(a0, a1, a2, a3, a4, r0, s4, s3, s2, s1, 0x1400_0000);
    var d1 := Dot(a0, a1, a2, a3, a4, r1, r0, s4, s3, s2, 0x1400_0000);
    var d2 := Dot(a0, a1, a2, a3, a4, r2, r1, r0, s4, s3, 0x1400_0000);
    var d3 := Dot(a0, a1, a2, a3, a4, r3, r2, r1, r0, s4, 0x1400_0000);
    var d4 := Dot(a0, a1, a2, a3, a4, r4, r3, r2, r1, r0, 0x400_0000);
    Folded(a0, a1, a2, a3, a4, r0, r1, r2, r3, r4, s1, s2, s3, s4, d0, d1, d2, d3, d4);
    h0, h1, h2, h3, h4 := Reduce(d0, d1, d2, d3, d4);
  }

  /** The same, with the accumulator that was added to reduced modulo p. */
  method MulAdded(a0: nat, a1: nat, a2: nat, a3: nat, a4: nat, r0: nat, r1: nat, r2: nat, r3: nat, r4: nat,
                  s1: nat, s2: nat, s3: nat, s4: nat, ghost h: nat, ghost m: nat, ghost r: nat)
    returns (h0: nat, h1: nat, h2: nat, h3: nat, h4: nat)
    requires GoodR(r0, r1, r2, r3, r4, s1, s2, s3, s4) && GoodA(a0, a1, a2, a3, a4)
    requires h + m == Val(a0, a1, a2, a3, a4) && r == Val(r0, r1, r2, r3, r4)
    ensures GoodH(h0, h1, h2, h3, h4) && ModP(Val(h0, h1, h2, h3, h4)) == MulP(ModP(h) + m, r)
  {
    h0, h1, h2, h3, h4 := MulStep(a0, a1, a2, a3, a4, r0, r1, r2, r3, r4, s1, s2, s3, s4, h + m, r);
    BlockStep(h, m, r);
  }

  lemma Fold0(a0: int, a1: int, a2: int, a3: int, a4: int, r0: int, r1: int, r2: int, r3: int, r4: int,
              s1: int, s2: int, s3: int, s4: int, d: int)
    requires s1 == 5 * r1 && s2 == 5 * r2 && s3 == 5 * r3 && s4 == 5 * r4
    requires d == a0 * r0 + a1 * s4 + a2 * s3 + a3 * s2 + a4 * s1
    ensures d == a0 * r0 + 5 * (a1 * r4) + 5 * (a2 * r3) + 5 * (a3 * r2) + 5 * (a4 * r1)
  {
  }

  lemma Fold1(a0: int, a1: int, a2: int, a3: int, a4: int, r0: int, r1: int, r2: int, r3: int, r4: int,
              s2: int, s3: int, s4: int, d: int)
    requires s2 == 5 * r2 && s3 == 5 * r3 && s4 == 5 * r4
    requires d == a0 * r1 + a1 * r0 + a2 * s4 + a3 * s3 + a4 * s2
    ensures d == a0 * r1 + a1 * r0 + 5 * (a2 * r4) + 5 * (a3 * r3) + 5 * (a4 * r2)
  {
  }

  lemma Fold2(a0: int, a1: int, a2: int, a3: int, a4: int, r0: int, r1: int, r2: int, r3: int, r4: int,
              s3: int, s4: int, d: int)
    requires s3 == 5 * r3 && s4 == 5 * r4
    requires d == a0 * r2 + a1 * r1 + a2 * r0 + a3 * s4 + a4 * s3
    ensures d == a0 * r2 + a1 * r1 + a2 * r0 + 5 * (a3 * r4) + 5 * (a4 * r3)
  {
  }

  lemma Fold3(a0: int, a1: int, a2: int, a3: int, a4: int, r0: int, r1: int, r2: int, r3: int, r4: int,
              s4: int, d: int)
    requires s4 == 5 * r4
    requires d == a0 * r3 + a1 * r2 + a2 * r1 + a3 * r0 + a4 * s4
    ensures d == a0 * r3 + a1 * r2 + a2 * r1 + a3 * r0 + 5 * (a4 * r4)
  {
  }

  lemma Folded(a0: nat, a1: nat, a2: nat, a3: nat, a4: nat, r0: nat, r1: nat, r2: nat, r3: nat, r4: nat,
               s1: nat, s2: nat, s3: nat, s4: nat, d0: nat, d1: nat, d2: nat, d3: nat, d4: nat)
    requires s1 == 5 * r1 && s2 == 5 * r2 && s3 == 5 * r3 && s4 == 5 * r4
    requires d0 == a0 * r0 + a1 * s4 + a2 * s3 + a3 * s2 + a4 * s1
    requires d1 == a0 * r1 + a1 * r0 + a2 * s4 + a3 * s3 + a4 * s2
    requires d2 == a0 * r2 + a1 * r1 + a2 * r0 + a3 * s4 + a4 * s3
    requires d3 == a0 * r3 + a1 * r2 + a2 * r1 + a3 * r0 + a4 * s4
    requires d4 == a0 * r4 + a1 * r3 + a2 * r2 + a3 * r1 + a4 * r0
    ensures ModP(Val(d0, d1, d2, d3, d4)) == MulP(Val(a0, a1, a2, a3, a4), Val(r0, r1, r2, r3, r4))
  {
    Fold0(a0, a1, a2, a3, a4, r0, r1, r2, r3, r4, s1, s2, s3, s4, d0);
    Fold1(a0, a1, a2, a3, a4, r0, r1, r2, r3, r4, s2, s3, s4, d1);
    Fold2(a0, a1, a2, a3, a4, r0, r1, r2, r3, r4, s3, s4, d2);
    Fold3(a0, a1, a2, a3, a4, r0, r1, r2, r3, r4, s4, d3);
    var k := ProductOf(a0, a1, a2, a3, a4, r0, r1, r2, r3, r4, d0, d1, d2, d3, d4);
    DropPMul(Val(d0, d1, d2, d3, d4), Val(a0, a1, a2, a3, a4), Val(r0, r1, r2, r3, r4), k);
  }

  /** One carry out of a 64-bit limb: kept in 32 bits, and nothing is lost. */
  lemma Carry26(d: nat)
    requires d < 0x400_0000_0000_0000
    ensures Low32(d) % 0x400_0000 + 0x400_0000 * Low32(d / 0x400_0000) == d
    ensures Low32(d / 0x400_0000) == d / 0x400_0000
  {
    ModOfMod(d, 0x400_0000, 0x40);
  }

  /** (partial) h %= p. */
  method Reduce(d0: nat, d1: nat, d2: nat, d3: nat, d4: nat) returns (h0: nat, h1: nat, h2: nat, h3: nat, h4: nat)
    requires d0 < 0x3ff_ffff_0000_0000 && d1 < 0x3ff_ffff_0000_0000 && d2 < 0x3ff_ffff_0000_0000
    requires d3 < 0x3ff_ffff_0000_0000 && d4 <= 5 * (0x800_0040 * 0x400_0000)
    ensures GoodH(h0, h1, h2, h3, h4) && ModP(Val(h0, h1, h2, h3, h4)) == ModP(Val(d0, d1, d2, d3, d4))
  {
    var c := Low32(d0 / 0x400_0000);
    h0 := Low32(d0) % 0x400_0000;
    Carry26(d0);
    var e1 := Add64(d1, c);
    c := Low32(e1 / 0x400_0000);
    h1 := Low32(e1) % 0x400_0000;
    Carry26(e1);
    var e2 := Add64(d2, c);
    c := Low32(e2 / 0x400_0000);
    h2 := Low32(e2) % 0x400_0000;
    Carry26(e2);
    var e3 := Add64(d3, c);
    c := Low32(e3 / 0x400_0000);
    h3 := Low32(e3) % 0x400_0000;
    Carry26(e3);
    var e4 := Add64(d4, c);
    c := Low32(e4 / 0x400_0000);
    h4 := Low32(e4) % 0x400_0000;
    Carry26(e4);
    assert Val(h0, h1, h2, h3, h4) + 0x4_0000_0000_0000_0000_0000_0000_0000_0000 * c == Val(d0, d1, d2, d3, d4);
    h0, h1 := WrapTop(h0, h1, h2, h3, h4, c, Val(d0, d1, d2, d3, d4));
  }

  /** The carry out of the top limb re-enters at the bottom, times 5. */
  method WrapTop(a0: nat, a1: nat, h2: nat, h3: nat, h4: nat, top: nat, ghost d: nat) returns (h0: nat, h1: nat)
    requires a0 < 0x400_0000 && a1 < 0x400_0000 && h2 < 0x400_0000 && h3 < 0x400_0000 && h4 < 0x400_0000
    requires top <= 0x2900_0000
    requires d == Val(a0, a1, h2, h3, h4) + 0x4_0000_0000_0000_0000_0000_0000_0000_0000 * top
    ensures GoodH(h0, h1, h2, h3, h4) && ModP(Val(h0, h1, h2, h3, h4)) == ModP(d)
  {
    h0 := Add32(a0, Mul32(top, 5));
    var c := h0 / 0x400_0000;
    h0 := h0 % 0x400_0000;
    h1 := Add32(a1, c);
    DropP(Val(h0, h1, h2, h3, h4), d, top);
  }

  // ------------------------------------------------------------ the final reduction

  /** Fully carry h: a single pass is enough from the bounds kept between blocks. */
  method FullCarry(a0: nat, a1: nat, a2: nat, a3: nat, a4: nat) returns (h0: nat, h1: nat, h2: nat, h3: nat, h4: nat)
    requires GoodH(a0, a1, a2, a3, a4)
    ensures h0 < 0x400_0000 && h1 < 0x400_0000 && h2 < 0x400_0000 && h3 < 0x400_0000 && h4 < 0x400_0000
    ensures ModP(Val(h0, h1, h2, h3, h4)) == ModP(Val(a0, a1, a2, a3, a4))
  {
    h0 := a0;
    var c := a1 / 0x400_0000;
    h1 := a1 % 0x400_0000;
    assert c <= 1 && (c == 1 ==> h1 < 0x40);
    h2 := Add32(a2, c);
    c := h2 / 0x400_0000;
    h2 := h2 % 0x400_0000;
    assert c <= 1 && (c == 1 ==> h1 < 0x40);
    h3 := Add32(a3, c);
    c := h3 / 0x400_0000;
    h3 := h3 % 0x400_0000;
    assert c <= 1 && (c == 1 ==> h1 < 0x40);
    h4 := Add32(a4, c);
    c := h4 / 0x400_0000;
    h4 := h4 % 0x400_0000;
    assert c <= 1 && (c == 1 ==> h1 < 0x40);
    assert Val(h0, h1, h2, h3, h4) + 0x4_0000_0000_0000_0000_0000_0000_0000_0000 * c == Val(a0, a1, a2, a3, a4);
    ghost var k := c;
    h0 := Add32(h0, Mul32(c, 5));
    c := h0 / 0x400_0000;
    h0 := h0 % 0x400_0000;
    h1 := Add32(h1, c);
    DropP(Val(h0, h1, h2, h3, h4), Val(a0, a1, a2, a3, a4), k);
  }

  /** (h & d) | (g & c), where d is the complement of c. */
  method Blend(h: nat, d: nat, g: nat, c: nat) returns (x: nat)
    requires h < 0x1_0000_0000 && g < 0x1_0000_0000
    requires (c == 0 && d == 0x1_0000_0000 - 1) || (d == 0 && c == 0x1_0000_0000 - 1)
    ensures x == if c == 0 then h else g
  {
    Select(h, d);
    Select(g, c);
    x := Or(And(h, d), And(g, c));
  }

  lemma {:induction false} Select(x: nat, c: nat)
    requires x < 0x1_0000_0000 && (c == 0 || c == 0x1_0000_0000 - 1)
    ensures And(x, c) == if c == 0 then 0 else x
  {
    Pow2At32();
    if c == 0 { AndZero(x); } else { AndAllOnes(x, c, 32); }
  }

  /** h + -p. */
  method MinusP(h0: nat, h1: nat, h2: nat, h3: nat, h4: nat) returns (g0: nat, g1: nat, g2: nat, g3: nat, g4: nat)
    requires h0 < 0x400_0000 && h1 < 0x400_0000 && h2 < 0x400_0000 && h3 < 0x400_0000 && h4 < 0x400_0000
    ensures g0 < 0x400_0000 && g1 < 0x400_0000 && g2 < 0x400_0000 && g3 < 0x400_0000 && g4 < 0x1_0000_0000
    ensures g4 < 0x8000_0000 <==> Val(h0, h1, h2, h3, h4) >= 0x3_ffff_ffff_ffff_ffff_ffff_ffff_ffff_fffb
    ensures g4 < 0x8000_0000 ==>
              g4 < 0x400_0000
              && Val(g0, g1, g2, g3, g4) + 0x3_ffff_ffff_ffff_ffff_ffff_ffff_ffff_fffb == Val(h0, h1, h2, h3, h4)
  {
    g0 := Add32(h0, 5);
    var c := g0 / 0x400_0000;
    g0 := g0 % 0x400_0000;
    assert g0 + 0x400_0000 * c == h0 + 5 && c <= 1;
    g1 := Add32(h1, c);
    c := g1 / 0x400_0000;
    g1 := g1 % 0x400_0000;
    assert Val(g0, g1, c, 0, 0) == Val(h0 + 5, h1, 0, 0, 0) && c <= 1;
    g2 := Add32(h2, c);
    c := g2 / 0x400_0000;
    g2 := g2 % 0x400_0000;
    assert Val(g0, g1, g2, c, 0) == Val(h0 + 5, h1, h2, 0, 0) && c <= 1;
    g3 := Add32(h3, c);
    c := g3 / 0x400_0000;
    g3 := g3 % 0x400_0000;
    assert Val(g0, g1, g2, g3, c) == Val(h0 + 5, h1, h2, h3, 0) && c <= 1;
    g4 := Sub32(Add32(h4, c), 0x400_0000);
  }

  /** Select h if h < p, or h + -p if h >= p: the remainder modulo p, without a branch. */
  method ReduceOnce(a0: nat, a1: nat, a2: nat, a3: nat, a4: nat) returns (h0: nat, h1: nat, h2: nat, h3: nat, h4: nat)
    requires a0 < 0x400_0000 && a1 < 0x400_0000 && a2 < 0x400_0000 && a3 < 0x400_0000 && a4 < 0x400_0000
    ensures h0 < 0x400_0000 && h1 < 0x400_0000 && h2 < 0x400_0000 && h3 < 0x400_0000 && h4 < 0x400_0000
    ensures Val(h0, h1, h2, h3, h4) == ModP(Val(a0, a1, a2, a3, a4))
  {
    var g0, g1, g2, g3, g4 := MinusP(a0, a1, a2, a3, a4);
    var c := Sub32(g4 / 0x8000_0000, 1);
    var d := 0xffff_ffff - c;
    h0 := Blend(a0, d, g0, c);
    h1 := Blend(a1, d, g1, c);
    h2 := Blend(a2, d, g2, c);
    h3 := Blend(a3, d, g3, c);
    h4 := Blend(a4, d, g4, c);
    ModPOnce(Val(a0, a1, a2, a3, a4), Val(h0, h1, h2, h3, h4));
  }

  /** ((lo >> s) | (hi << t)) & 0xffffffff, the two parts not overlapping. */
  method Join(lo: nat, hi: nat, t: nat, m: nat, n: nat) returns (w: nat)
    requires m == Pow2(t) && lo < m && n > 0 && n * m == 0x1_0000_0000
    ensures w == lo + m * (hi % n) && w < 0x1_0000_0000
  {
    ShiftWraps(hi, n, m);
    JoinIs(lo, hi % n, t, m, n);
    w := Or(lo, (hi * m) % 0x1_0000_0000);
  }

  lemma {:induction false} JoinIs(lo: nat, x: nat, t: nat, m: nat, n: nat)
    requires m == Pow2(t) && lo < m && x < n
    ensures Or(lo, m * x) == lo + m * x < n * m
  {
    OrJoin(lo, x, t, m);
    MulBound(m, x, m, n - 1);
    assert m * (n - 1) == n * m - m;
  }

  /** h = h % (2^128), as four 32-bit words. */
  method Pack(h0: nat, h1: nat, h2: nat, h3: nat, h4: nat) returns (w0: nat, w1: nat, w2: nat, w3: nat)
    requires h0 < 0x400_0000 && h1 < 0x400_0000 && h2 < 0x400_0000 && h3 < 0x400_0000 && h4 < 0x400_0000
    ensures w0 < 0x1_0000_0000 && w1 < 0x1_0000_0000 && w2 < 0x1_0000_0000 && w3 < 0x1_0000_0000
    ensures Mod128(Val(h0, h1, h2, h3, h4)) == Words4(w0, w1, w2, w3)
  {
    Pow2At26();
    Pow2At20();
    w0 := Join(h0, h1, 26, 0x400_0000, 0x40);
    w1 := Join(h1 / 0x40, h2, 20, 0x10_0000, 0x1000);
    w2 := Join(h2 / 0x1000, h3, 14, 0x4000, 0x4_0000);
    w3 := Join(h3 / 0x4_0000, h4, 8, 0x100, 0x100_0000);
    PackSum(h0, h1, h2, h3, h4, h1 / 0x40, h1 % 0x40, h2 / 0x1000, h2 % 0x1000, h3 / 0x4_0000, h3 % 0x4_0000,
            h4 / 0x100_0000, h4 % 0x100_0000);
    Drop128(Words4(w0, w1, w2, w3), Val(h0, h1, h2, h3, h4), h4 / 0x100_0000);
  }

  function Words4(w0: nat, w1: nat, w2: nat, w3: nat): nat {
    w0 + 0x1_0000_0000 * w1 + 0x1_0000_0000_0000_0000 * w2 + 0x1_0000_0000_0000_0000_0000_0000 * w3
  }

  lemma PackSum(h0: nat, h1: nat, h2: nat, h3: nat, h4: nat, q1: nat, r1: nat, q2: nat, r2: nat, q3: nat, r3: nat, q4: nat, r4: nat)
    requires h1 == 0x40 * q1 + r1 && h2 == 0x1000 * q2 + r2 && h3 == 0x4_0000 * q3 + r3 && h4 == 0x100_0000 * q4 + r4
    ensures Words4(h0 + 0x400_0000 * r1, q1 + 0x10_0000 * r2, q2 + 0x4000 * r3, q3 + 0x100 * r4)
            + 0x1_0000_0000_0000_0000_0000_0000_0000_0000 * q4 == Val(h0, h1, h2, h3, h4)
  {
  }

  /** mac = (h + nonce) % (2^128), word by word through a 64-bit accumulator. */
  method AddNonce(w0: nat, w1: nat, w2: nat, w3: nat, n0: nat, n1: nat, n2: nat, n3: nat, ghost h: nat, ghost nonce: nat)
    returns (m0: nat, m1: nat, m2: nat, m3: nat)
    requires w0 < 0x1_0000_0000 && w1 < 0x1_0000_0000 && w2 < 0x1_0000_0000 && w3 < 0x1_0000_0000
    requires n0 < 0x1_0000_0000 && n1 < 0x1_0000_0000 && n2 < 0x1_0000_0000 && n3 < 0x1_0000_0000
    requires Mod128(h) == Words4(w0, w1, w2, w3) && nonce == Words4(n0, n1, n2, n3)
    ensures m0 < 0x1_0000_0000 && m1 < 0x1_0000_0000 && m2 < 0x1_0000_0000 && m3 < 0x1_0000_0000
    ensures Words4(m0, m1, m2, m3) == Mod128(h + nonce)
  {
    var f := Add64(w0, n0);
    m0 := Low32(f);
    ghost var c := f / 0x1_0000_0000;
    assert m0 + 0x1_0000_0000 * c == w0 + n0;
    f := Add64(Add64(w1, n1), f / 0x1_0000_0000);
    m1 := Low32(f);
    c := f / 0x1_0000_0000;
    assert Words4(m0, m1, c, 0) == Words4(w0 + n0, w1 + n1, 0, 0);
    f := Add64(Add64(w2, n2), f / 0x1_0000_0000);
    m2 := Low32(f);
    c := f / 0x1_0000_0000;
    assert Words4(m0, m1, m2, c) == Words4(w0 + n0, w1 + n1, w2 + n2, 0);
    f := Add64(Add64(w3, n3), f / 0x1_0000_0000);
    m3 := Low32(f);
    c := f / 0x1_0000_0000;
    assert Words4(m0, m1, m2, m3) + 0x1_0000_0000_0000_0000_0000_0000_0000_0000 * c == Words4(w0, w1, w2, w3) + Words4(n0, n1, n2, n3);
    Sum128(h, nonce, Words4(w0, w1, w2, w3), Words4(m0, m1, m2, m3), c);
  }

  lemma {:induction false} Sum128(h: nat, nonce: nat, w: nat, m: nat, c: nat)
    requires w == Mod128(h) && m + 0x1_0000_0000_0000_0000_0000_0000_0000_0000 * c == w + nonce
    requires m < 0x1_0000_0000_0000_0000_0000_0000_0000_0000
    ensures m == Mod128(h + nonce)
  {
    Mod128Is(h);
    var q := h / 0x1_0000_0000_0000_0000_0000_0000_0000_0000;
    Drop128(w + nonce, h + nonce, q);
    Drop128(m, w + nonce, c);
  }

  // ------------------------------------------------------------ the state

  /** The masks of poly1305_init clamp r. */
  method ClampedLimbs(b: seq<Byte>) returns (r0: nat, r1: nat, r2: nat, r3: nat, r4: nat)
    requires |b| == 16
    ensures r0 < 0x400_0000 && r1 < 0x400_0000 && r2 < 0x400_0000 && r3 < 0x400_0000 && r4 < 0x400_0000
    ensures Val(r0, r1, r2, r3, r4) == Clamp(Le(b))
  {
    var w0, w3, w6, w9, w12 := Le(b[0..4]), Le(b[3..7]), Le(b[6..10]), Le(b[9..13]), Le(b[12..16]);
    Loads(b, w0, w3, w6, w9, w12);
    r0 := Mask(w0, 0x3ff_ffff);
    r1 := Mask(w3 / 4, 0x3ff_ff03);
    r2 := Mask(w6 / 16, 0x3ff_c0ff);
    r3 := Mask(w9 / 64, 0x3f0_3fff);
    r4 := Mask(w12 / 256, 0x00f_ffff);
    ClampIs(w0 % 0x400_0000, (w3 / 4) % 0x400_0000, (w6 / 16) % 0x400_0000, (w9 / 64) % 0x400_0000, w12 / 256,
            0x3ff_ffff, 0x3ff_ff03, 0x3ff_c0ff, 0x3f0_3fff, 0x00f_ffff, Le(b));
  }

  method Mask(x: nat, c: nat) returns (y: nat)
    requires c < 0x400_0000
    ensures y == And(x % 0x400_0000, c) && y < 0x400_0000 && (x < 0x400_0000 ==> y == And(x, c))
  {
    AndCut26(x, c);
    AndLe(x % 0x400_0000, c);
    y := And(x, c);
  }

  lemma {:induction false} ClampIs(k0: nat, k1: nat, k2: nat, k3: nat, k4: nat, c0: nat, c1: nat, c2: nat, c3: nat, c4: nat, k: nat)
    requires k0 < 0x400_0000 && k1 < 0x400_0000 && k2 < 0x400_0000 && k3 < 0x400_0000 && k == Val(k0, k1, k2, k3, k4)
    requires c0 == 0x3ff_ffff && c1 == 0x3ff_ff03 && c2 == 0x3ff_c0ff && c3 == 0x3f0_3fff && c4 == 0x00f_ffff
    ensures Val(And(k0, c0), And(k1, c1), And(k2, c2), And(k3, c3), And(k4, c4)) == Clamp(k)
  {
    AndLimbs(k0, k1, k2, k3, k4, c0, c1, c2, c3, c4);
    assert Val(c0, c1, c2, c3, c4) == 0x0fff_fffc_0fff_fffc_0fff_fffc_0fff_ffff;
  }

  /** (get_unaligned_le32(&input[12]) >> 8) | hibit. */
  method TopLimb(w12: nat, padbit: nat) returns (m: nat)
    requires w12 < 0x1_0000_0000 && padbit <= 1
    ensures m == w12 / 256 + 0x100_0000 * padbit
  {
    Pow2At20();
    Pow2Sum(4, 20, 0x10, 0x10_0000);
    OrJoin(w12 / 256, padbit, 24, 0x100_0000);
    m := Or(w12 / 256, (padbit * 0x100_0000) % 0x1_0000_0000);
  }

  /** h += m[i]. */
  method AddBlock(h0: nat, h1: nat, h2: nat, h3: nat, h4: nat, b: seq<Byte>, padbit: nat, ghost m: nat)
    returns (a0: nat, a1: nat, a2: nat, a3: nat, a4: nat)
    requires GoodH(h0, h1, h2, h3, h4) && |b| == 16 && padbit <= 1 && m == Le(b) + Pow128(padbit)
    ensures GoodA(a0, a1, a2, a3, a4) && Val(a0, a1, a2, a3, a4) == Val(h0, h1, h2, h3, h4) + m
  {
    var w0, w3, w6, w9, w12 := Le(b[0..4]), Le(b[3..7]), Le(b[6..10]), Le(b[9..13]), Le(b[12..16]);
    Loads(b, w0, w3, w6, w9, w12);
    var top := TopLimb(w12, padbit);
    a0 := Add32(h0, w0 % 0x400_0000);
    a1 := Add32(h1, (w3 / 4) % 0x400_0000);
    a2 := Add32(h2, (w6 / 16) % 0x400_0000);
    a3 := Add32(h3, (w9 / 64) % 0x400_0000);
    a4 := Add32(h4, top);
  }

  /** struct poly1305_internal.  The ghost fields are the multiplier and the accumulator
      modulo p that the limbs stand for. */
  class State {
    var h0: nat
    var h1: nat
    var h2: nat
    var h3: nat
    var h4: nat
    var r0: nat
    var r1: nat
    var r2: nat
    var r3: nat
    var r4: nat
    var s1: nat
    var s2: nat
    var s3: nat
    var s4: nat
    ghost var r: nat
    ghost var acc: nat

    ghost predicate Valid()
      reads this
    {
      GoodR(r0, r1, r2, r3, r4, s1, s2, s3, s4) && GoodH(h0, h1, h2, h3, h4)
      && r == Val(r0, r1, r2, r3, r4) && acc == ModP(Val(h0, h1, h2, h3, h4))
    }

    /** poly1305_init_generic. */
    constructor (key: seq<Byte>)
      requires |key| == 16
      ensures Valid() && r == Clamp(Le(key)) && acc == 0
    {
      var x0, x1, x2, x3, x4 := ClampedLimbs(key);
      r0, r1, r2, r3, r4 := x0, x1, x2, x3, x4;
      s1, s2, s3, s4 := Mul32(x1, 5), Mul32(x2, 5), Mul32(x3, 5), Mul32(x4, 5);
      h0, h1, h2, h3, h4 := 0, 0, 0, 0, 0;
      r, acc := Val(x0, x1, x2, x3, x4), 0;
    }

    /** poly1305_blocks_generic: `padbit` is the bit appended above every block. */
    method Blocks(input: seq<Byte>, padbit: nat)
      requires Valid() && padbit <= 1
      modifies this
      ensures Valid() && r == old(r) && acc == AccumulateBlocks(old(acc), r, input, padbit)
    {
      var rest := input;
      ghost var target := AccumulateBlocks(acc, r, input, padbit);
      while |rest| >= 16
        invariant Valid() && r == old(r)
        invariant AccumulateBlocks(acc, r, rest, padbit) == target
      {
        rest := FirstBlock(rest, padbit);
      }
    }

    method FirstBlock(rest: seq<Byte>, padbit: nat) returns (rest': seq<Byte>)
      requires Valid() && |rest| >= 16 && padbit <= 1
      modifies this
      ensures Valid() && r == old(r)
      ensures |rest'| == |rest| - 16 && AccumulateBlocks(acc, r, rest', padbit) == AccumulateBlocks(old(acc), r, rest, padbit)
    {
      Block(rest[..16], padbit);
      AccumulateBlocksStep(old(acc), r, rest, padbit, acc);
      rest' := rest[16..];
    }

    /** One iteration: h = (h + m) * r. */
    method Block(block: seq<Byte>, padbit: nat)
      requires Valid() && |block| == 16 && padbit <= 1
      modifies this
      ensures Valid() && r == old(r)
      ensures acc == MulP(old(acc) + (Le(block) + Pow128(padbit)), r)
    {
      ghost var h, m := Val(h0, h1, h2, h3, h4), Le(block) + Pow128(padbit);
      var a0, a1, a2, a3, a4 := AddBlock(h0, h1, h2, h3, h4, block, padbit, m);
      h0, h1, h2, h3, h4 := MulAdded(a0, a1, a2, a3, a4, r0, r1, r2, r3, r4, s1, s2, s3, s4, h, m, r);
      acc := ModP(Val(h0, h1, h2, h3, h4));
    }

    /** poly1305_emit_generic. */
    method Emit(nonce: seq<Byte>) returns (mac: seq<Byte>)
      requires Valid() && |nonce| == 16
      ensures |mac| == 16 && Le(mac) == Mod128(acc + Le(nonce))
    {
      var a0, a1, a2, a3, a4 := FullCarry(h0, h1, h2, h3, h4);
      a0, a1, a2, a3, a4 := ReduceOnce(a0, a1, a2, a3, a4);
      var w0, w1, w2, w3 := Pack(a0, a1, a2, a3, a4);
      mac := Finish(w0, w1, w2, w3, nonce, acc, Le(nonce));
    }
  }

  /** Add the nonce words and write the result. */
  method Finish(w0: nat, w1: nat, w2: nat, w3: nat, nonce: seq<Byte>, ghost h: nat, ghost n: nat) returns (mac: seq<Byte>)
    requires w0 < 0x1_0000_0000 && w1 < 0x1_0000_0000 && w2 < 0x1_0000_0000 && w3 < 0x1_0000_0000
    requires Mod128(h) == Words4(w0, w1, w2, w3) && |nonce| == 16 && n == Le(nonce)
    ensures |mac| == 16 && Le(mac) == Mod128(h + n)
  {
    var n0, n1, n2, n3 := LoadWords(nonce);
    mac := AddAndPut(w0, w1, w2, w3, n0, n1, n2, n3, h, n);
  }

  method AddAndPut(w0: nat, w1: nat, w2: nat, w3: nat, n0: nat, n1: nat, n2: nat, n3: nat, ghost h: nat, ghost nonce: nat)
    returns (mac: seq<Byte>)
    requires w0 < 0x1_0000_0000 && w1 < 0x1_0000_0000 && w2 < 0x1_0000_0000 && w3 < 0x1_0000_0000
    requires n0 < 0x1_0000_0000 && n1 < 0x1_0000_0000 && n2 < 0x1_0000_0000 && n3 < 0x1_0000_0000
    requires Mod128(h) == Words4(w0, w1, w2, w3) && nonce == Words4(n0, n1, n2, n3)
    ensures |mac| == 16 && Le(mac) == Mod128(h + nonce)
  {
    var m0, m1, m2, m3 := AddNonce(w0, w1, w2, w3, n0, n1, n2, n3, h, nonce);
    mac := PutLe32(m0, m1, m2, m3);
  }

  /** Load four 32-bit words. */
  method LoadWords(b: seq<Byte>) returns (w0: nat, w1: nat, w2: nat, w3: nat)
    requires |b| == 16
    ensures w0 < 0x1_0000_0000 && w1 < 0x1_0000_0000 && w2 < 0x1_0000_0000 && w3 < 0x1_0000_0000
    ensures Le(b) == Words4(w0, w1, w2, w3)
  {
    WordsOf(b);
    w0, w1, w2, w3 := Le(b[..4]), Le(b[4..8]), Le(b[8..12]), Le(b[12..]);
  }

  lemma {:induction false} WordsOf(b: seq<Byte>)
    requires |b| == 16
    ensures Le(b[..4]) < 0x1_0000_0000 && Le(b[4..8]) < 0x1_0000_0000 && Le(b[8..12]) < 0x1_0000_0000 && Le(b[12..]) < 0x1_0000_0000
    ensures Le(b) == Words4(Le(b[..4]), Le(b[4..8]), Le(b[8..12]), Le(b[12..]))
  {
    Words32(b);
    Pow2At32();
    LeBound(b[..4]);
    LeBound(b[4..8]);
    LeBound(b[8..12]);
    LeBound(b[12..]);
  }

  /** Write four 32-bit words in little-endian order. */
  method PutLe32(w0: nat, w1: nat, w2: nat, w3: nat) returns (mac: seq<Byte>)
    requires w0 < 0x1_0000_0000 && w1 < 0x1_0000_0000 && w2 < 0x1_0000_0000 && w3 < 0x1_0000_0000
    ensures |mac| == 16 && Le(mac) == Words4(w0, w1, w2, w3)
  {
    var b0 := PutWord(w0);
    var b1 := PutWord(w1);
    var b2 := PutWord(w2);
    var b3 := PutWord(w3);
    mac := b0 + b1 + b2 + b3;
    assert mac[..4] == b0 && mac[4..8] == b1 && mac[8..12] == b2 && mac[12..] == b3;
    Words32(mac);
  }

  method PutWord(w: nat) returns (b: seq<Byte>)
    requires w < 0x1_0000_0000
    ensures |b| == 4 && Le(b) == w
  {
    Pow2At32();
    LeOfLeBytes(w, 4);
    b := LeBytes(w, 4);
  }
}
