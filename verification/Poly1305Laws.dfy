/** Poly1305 as a polynomial: what the step-by-step definition computes in closed form. */
module Poly1305Laws {
  import opened Words
  import opened Poly1305Spec

  lemma {:induction false} PrimeIs()
    ensures P() == Pow2(130) - 5
  {
    Pow2At128();
    Pow2Sum(2, 128, 4, 0x1_0000_0000_0000_0000_0000_0000_0000_0000);
  }

  // ------------------------------------------------------------ the polynomial

  function Power(r: nat, n: nat): nat { if n == 0 then 1 else r * Power(r, n - 1) }

  /** The number a block stands for: its bytes with a one behind. */
  function Coefficient(block: seq<Byte>): nat { Le(block) + Pow2(8 * |block|) }

  /** How many blocks `n` bytes make, the last one perhaps short. */
  function BlocksOf(n: nat): nat { (n + 15) / 16 }

  /** c1 r^q + c2 r^(q-1) + ... + cq r over the q blocks of a message. */
  function Polynomial(msg: seq<Byte>, r: nat): nat
    decreases |msg|
  {
    if msg == [] then 0
    else
      var k := if |msg| < 16 then |msg| else 16;
      Coefficient(msg[..k]) * Power(r, BlocksOf(|msg|)) + Polynomial(msg[k..], r)
  }

  lemma {:induction false} ModInside(x: nat, y: nat, z: nat, m: nat)
    requires m > 0
    ensures ((x % m) * y + z) % m == (x * y + z) % m
  {
    var q, t := x / m, x % m;
    assert x == m * q + t;
    Distribute(m, q, t, y);
    ModMore(t * y + z, q * y, m);
  }

  lemma {:induction false} Distribute(m: nat, q: nat, t: nat, y: nat)
    ensures (m * q + t) * y == m * (q * y) + t * y
  {
    Assoc3(m, q, y);
  }

  lemma {:induction false} ModMore(x: nat, k: nat, m: nat)
    requires m > 0
    ensures (m * k + x) % m == x % m
  {
    var q, r := x / m, x % m;
    assert x == m * q + r;
    assert m * k + x == m * (k + q) + r;
    DivModUnique(m * k + x, m, k + q, r);
  }

  /** One block in front. */
  lemma {:induction false} Regroup(acc: nat, c: nat, r: nat, p: nat, rest: nat, n: nat)
    requires n == r * p
    ensures ((acc + c) * r) * p + rest == acc * n + (c * n + rest)
  {
    Assoc3(acc + c, r, p);
  }

  lemma {:induction false} Horner(acc: nat, r: nat, msg: seq<Byte>, m: nat, x: nat, w: nat, y: nat)
    requires m == P() && x == Accumulate(acc, r, msg) && w == Power(r, BlocksOf(|msg|)) && y == Polynomial(msg, r)
    ensures x % m == (acc * w + y) % m
    ensures msg != [] ==> x < m
    decreases |msg|
  {
    if msg == [] {
      assert x == acc && w == 1 && y == 0;
    } else {
      var k := if |msg| < 16 then |msg| else 16;
      var next, c, tail := Absorb(acc, r, msg[..k]), Coefficient(msg[..k]), msg[k..];
      var w', y' := Power(r, BlocksOf(|tail|)), Polynomial(tail, r);
      HornerStep(acc, r, msg, k, c, w, w', y, y');
      AbsorbIs(acc, r, msg[..k], c, m, next);
      Horner(next, r, tail, m, x, w', y');
      HornerMod(acc, c, r, w', y', w, m, x, next);
    }
  }

  lemma {:induction false} AbsorbIs(acc: nat, r: nat, block: seq<Byte>, c: nat, m: nat, next: nat)
    requires m == P() && c == Coefficient(block) && next == Absorb(acc, r, block)
    ensures next == ((acc + c) * r) % m < m
  {
  }

  lemma {:induction false} HornerMod(acc: nat, c: nat, r: nat, p: nat, rest: nat, n: nat, m: nat, x: nat, next: nat)
    requires m > 0 && n == r * p && next == ((acc + c) * r) % m && x % m == (next * p + rest) % m
    ensures x % m == (acc * n + (c * n + rest)) % m
  {
    ModInside((acc + c) * r, p, rest, m);
    Regroup(acc, c, r, p, rest, n);
  }

  lemma {:induction false} BlocksStep(n: nat, k: nat)
    requires 0 < n && k == if n < 16 then n else 16
    ensures BlocksOf(n) == 1 + BlocksOf(n - k)
  {
  }

  lemma {:induction false} HornerStep(acc: nat, r: nat, msg: seq<Byte>, k: nat, c: nat, w: nat, w': nat, y: nat, y': nat)
    requires msg != [] && k == (if |msg| < 16 then |msg| else 16) && c == Coefficient(msg[..k])
    requires w == Power(r, BlocksOf(|msg|)) && w' == Power(r, BlocksOf(|msg[k..]|))
    requires y == Polynomial(msg, r) && y' == Polynomial(msg[k..], r)
    ensures Accumulate(acc, r, msg) == Accumulate(Absorb(acc, r, msg[..k]), r, msg[k..])
    ensures w == r * w' && y == c * w + y'
  {
    BlocksStep(|msg|, k);
    if |msg| <= 16 {
      assert msg[..k] == msg && msg[k..] == [];
    }
  }

  lemma {:induction false} AccumulateIs(r: nat, msg: seq<Byte>)
    ensures Accumulate(0, r, msg) == Polynomial(msg, r) % P()
  {
    FromZero(0, r, msg, P(), Accumulate(0, r, msg), Polynomial(msg, r));
  }

  lemma {:induction false} FromZero(zero: nat, r: nat, msg: seq<Byte>, m: nat, x: nat, y: nat)
    requires zero == 0 && m == P() && x == Accumulate(zero, r, msg) && y == Polynomial(msg, r)
    ensures x == y % m
  {
    var w := Power(r, BlocksOf(|msg|));
    Horner(zero, r, msg, m, x, w, y);
    if msg == [] {
      assert x == 0 && y == 0;
    } else {
      Reduced(zero, w, x, y, m);
    }
  }

  lemma {:induction false} Reduced(zero: nat, w: nat, x: nat, y: nat, m: nat)
    requires zero == 0 && m > 0 && x < m && x % m == (zero * w + y) % m
    ensures x == y % m
  {
  }

  // ------------------------------------------------------------ the key

  /** The 22 cleared bits of section 2.5 of RFC 8439: the top four of bytes 3, 7, 11 and 15
      and the bottom two of bytes 4, 8 and 12. */
  ghost predicate Clamped(k: seq<Byte>, r: seq<Byte>) {
    |k| == |r| == 16
    && forall i :: 0 <= i < 16 ==>
         r[i] == if i % 4 == 3 then k[i] % 16 else if i % 4 == 0 && i > 0 then k[i] / 4 * 4 else k[i]
  }

  /** The bytes of the mask. */
  function MaskAt(i: nat): Byte { if i % 4 == 3 then 15 else if i % 4 == 0 && i > 0 then 252 else 255 }

  ghost predicate IsMask(mask: seq<Byte>) { |mask| == 16 && forall i :: 0 <= i < 16 ==> mask[i] == MaskAt(i) }

  lemma {:induction false} MaskWord(mask: seq<Byte>, at: nat, w: seq<Byte>)
    requires IsMask(mask) && at <= 12 && at % 4 == 0 && w == mask[at..at + 4]
    ensures Le(w) == if at == 0 then 0x0fff_ffff else 0x0fff_fffc
  {
    assert w[0] == mask[at] == (if at == 0 then 255 else 252);
    assert w[1] == mask[at + 1] == 255 && w[2] == mask[at + 2] == 255 && w[3] == mask[at + 3] == 15;
    Le4(w, w[0], 255, 255, 15);
  }

  lemma {:induction false} MaskIs(mask: seq<Byte>)
    requires IsMask(mask)
    ensures Le(mask) == 0x0fff_fffc_0fff_fffc_0fff_fffc_0fff_ffff
  {
    Words32(mask);
    MaskWord(mask, 0, mask[..4]);
    MaskWord(mask, 4, mask[4..8]);
    MaskWord(mask, 8, mask[8..12]);
    MaskWord(mask, 12, mask[12..]);
  }

  function Masked(x: Byte, y: Byte): Byte
  {
    AndLe(x, y);
    And(x, y)
  }

  /** Bitwise and of two strings of equal length works byte by byte. */
  lemma {:induction false} AndBytes(a: seq<Byte>, b: seq<Byte>, r: seq<Byte>)
    requires |a| == |b| == |r| && forall i :: 0 <= i < |a| ==> r[i] == Masked(a[i], b[i])
    ensures And(Le(a), Le(b)) == Le(r)
  {
    if a != [] {
      AndBytes(a[1..], b[1..], r[1..]);
      AndJoin(a[0], Le(a[1..]), b[0], Le(b[1..]), 8, 256, Le(a), Le(b));
    }
  }

  lemma {:induction false} MaskByte(x: Byte, i: nat)
    ensures Masked(x, MaskAt(i)) == if i % 4 == 3 then x % 16 else if i % 4 == 0 && i > 0 then x / 4 * 4 else x
  {
    if i % 4 == 3 {
      AndOnes(x, 4);
    } else if i % 4 == 0 && i > 0 {
      DropTwoBits(x, 252, 63, 0, x % 4, x / 4);
    } else {
      AndAllOnes(x, 255, 8);
    }
  }

  lemma {:induction false} DropTwoBits(x: Byte, mask: nat, ones: nat, none: nat, low: nat, high: nat)
    requires mask == none + 4 * ones && none == 0 && ones == Pow2(6) - 1 && low == x % 4 && high == x / 4
    ensures And(x, mask) == 4 * high
  {
    AndZero(low);
    AndAllOnes(high, ones, 6);
    AndJoin(low, high, none, ones, 2, 4, x, mask);
  }

  lemma {:induction false} ClampIs(k: seq<Byte>, r: seq<Byte>)
    requires Clamped(k, r)
    ensures Clamp(Le(k)) == Le(r)
  {
    var mask := seq(16, i requires 0 <= i => MaskAt(i));
    MaskIs(mask);
    forall i | 0 <= i < 16 ensures r[i] == Masked(k[i], mask[i]) {
      MaskByte(k[i], i);
    }
    AndBytes(k, mask, r);
  }

  // ------------------------------------------------------------ the tag

  /** The polynomial over the blocks at the clamped first half of the key, modulo 2^130 - 5,
      plus the second half, modulo 2^128. */
  ghost predicate Authenticates(key: seq<Byte>, msg: seq<Byte>, mac: seq<Byte>)
    requires |key| == 32
  {
    |mac| == 16 && forall r :: Clamped(key[..16], r) ==>
      Le(mac) == (Polynomial(msg, Le(r)) % P() + Le(key[16..])) % 0x1_0000_0000_0000_0000_0000_0000_0000_0000
  }

  lemma {:induction false} Clamping(k: seq<Byte>) returns (r: seq<Byte>)
    requires |k| == 16
    ensures Clamped(k, r)
  {
    r := seq(16, i requires 0 <= i < 16 => if i % 4 == 3 then k[i] % 16 else if i % 4 == 0 && i > 0 then k[i] / 4 * 4 else k[i]);
  }

  /** Exactly one tag does that, the one of the definition. */
  lemma {:induction false} AuthenticatesIff(key: seq<Byte>, msg: seq<Byte>, mac: seq<Byte>)
    requires |key| == 32
    ensures Authenticates(key, msg, mac) <==> |mac| == 16 && Le(mac) == Tag(key, msg)
  {
    var r0 := Clamping(key[..16]);
    forall r | Clamped(key[..16], r)
      ensures Tag(key, msg) == (Polynomial(msg, Le(r)) % P() + Le(key[16..])) % 0x1_0000_0000_0000_0000_0000_0000_0000_0000
    {
      ClampIs(key[..16], r);
      AccumulateIs(Le(r), msg);
    }
  }
}
