/** Poly1305 as section 2.5 of RFC 8439 defines it, over natural numbers. */
module Poly1305Spec {
  import opened Words

  type Byte = x: nat | x < 256

  /** Little-endian value of a byte string. */
  function Le(b: seq<Byte>): nat {
    if b == [] then 0 else b[0] + 256 * Le(b[1..])
  }

  lemma {:induction false} LeBound(b: seq<Byte>)
    ensures Le(b) < Pow2(8 * |b|)
  {
    if b != [] {
      LeBound(b[1..]);
      Pow2Sum(8, 8 * (|b| - 1), 256, Pow2(8 * (|b| - 1)));
    }
  }

  lemma {:induction false} LeConcat(a: seq<Byte>, b: seq<Byte>)
    ensures Le(a + b) == Le(a) + Pow2(8 * |a|) * Le(b)
  {
    if a == [] {
      assert a + b == b;
    } else {
      LeConcat(a[1..], b);
      assert (a + b)[1..] == a[1..] + b;
      Pow2Add(8, 8 * (|a| - 1));
      Assoc3(256, Pow2(8 * (|a| - 1)), Le(b));
    }
  }

  /** The n low bytes of a number, lowest first. */
  function LeBytes(x: nat, n: nat): (b: seq<Byte>)
    ensures |b| == n
  {
    if n == 0 then [] else [x % 256] + LeBytes(x / 256, n - 1)
  }

  lemma {:induction false} LeOfLeBytes(x: nat, n: nat)
    requires x < Pow2(8 * n)
    ensures Le(LeBytes(x, n)) == x
  {
    if n > 0 {
      Pow2Add(8, 8 * (n - 1));
      LeOfLeBytes(x / 256, n - 1);
      assert LeBytes(x, n)[1..] == LeBytes(x / 256, n - 1);
    }
  }

  lemma {:induction false} LeOfLeBytesMod(x: nat, n: nat)
    ensures Le(LeBytes(x, n)) == x % Pow2(8 * n)
  {
    if n > 0 {
      var m := Pow2(8 * (n - 1));
      Pow2Add(8, 8 * (n - 1));
      LeOfLeBytesMod(x / 256, n - 1);
      assert LeBytes(x, n)[1..] == LeBytes(x / 256, n - 1);
      LowByteMod(x, m);
    }
  }

  lemma {:induction false} LowByteMod(x: nat, m: nat)
    requires m > 0
    ensures x % (256 * m) == x % 256 + 256 * (x / 256 % m)
  {
    var q, r := x / 256 / m, x / 256 % m;
    assert x / 256 == m * q + r;
    assert x == (256 * m) * q + (256 * r + x % 256);
    DivModUnique(x, 256 * m, q, 256 * r + x % 256);
  }

  // ------------------------------------------------------------ the definition

  function P(): nat { 0x3_ffff_ffff_ffff_ffff_ffff_ffff_ffff_fffb }

  /** r: the first half of the key with 22 bits cleared. */
  function Clamp(k: nat): nat { And(k, 0x0fff_fffc_0fff_fffc_0fff_fffc_0fff_ffff) }

  /** Add one block, with a one bit appended, and multiply by r modulo p. */
  function Absorb(acc: nat, r: nat, block: seq<Byte>): nat {
    ((acc + (Le(block) + Pow2(8 * |block|))) * r) % P()
  }

  function Accumulate(acc: nat, r: nat, msg: seq<Byte>): nat
    decreases |msg|
  {
    if msg == [] then acc
    else if |msg| <= 16 then Absorb(acc, r, msg)
    else Accumulate(Absorb(acc, r, msg[..16]), r, msg[16..])
  }

  function Tag(key: seq<Byte>, msg: seq<Byte>): nat
    requires |key| == 32
  {
    (Accumulate(0, Clamp(Le(key[..16])), msg) + Le(key[16..])) % 0x1_0000_0000_0000_0000_0000_0000_0000_0000
  }

  /** Whole blocks first, then the rest. */
  lemma {:induction false} AccumulateConcat(acc: nat, r: nat, a: seq<Byte>, b: seq<Byte>)
    requires |a| % 16 == 0
    ensures Accumulate(acc, r, a + b) == Accumulate(Accumulate(acc, r, a), r, b)
    decreases |a|
  {
    if a == [] {
      assert a + b == b;
    } else if |a| == 16 && b == [] {
      assert a + b == a;
    } else {
      var c := a + b;
      assert c[..16] == a[..16] && c[16..] == a[16..] + b;
      AccumulateConcat(Absorb(acc, r, a[..16]), r, a[16..], b);
      if |a| == 16 {
        assert a[..16] == a && a[16..] == [];
      }
    }
  }

  /** Sixteen bytes as two 64-bit words. */
  lemma {:induction false} Words128(b: seq<Byte>)
    requires |b| == 16
    ensures Le(b[..8]) < 0x1_0000_0000_0000_0000 && Le(b[8..]) < 0x1_0000_0000_0000_0000
    ensures Le(b) == Le(b[..8]) + 0x1_0000_0000_0000_0000 * Le(b[8..])
  {
    assert b == b[..8] + b[8..];
    LeConcat(b[..8], b[8..]);
    LeBound(b[..8]);
    LeBound(b[8..]);
    Pow2At64();
  }

  /** Write two 64-bit words in little-endian order. */
  method PutLe64(m0: nat, m1: nat) returns (mac: seq<Byte>)
    requires m0 < 0x1_0000_0000_0000_0000 && m1 < 0x1_0000_0000_0000_0000
    ensures |mac| == 16 && Le(mac) == m0 + 0x1_0000_0000_0000_0000 * m1
  {
    Pow2At64();
    var n := 8;
    LeOfLeBytes(m0, n);
    LeOfLeBytes(m1, n);
    LeConcat(LeBytes(m0, n), LeBytes(m1, n));
    mac := LeBytes(m0, n) + LeBytes(m1, n);
  }

  lemma {:induction false} Le4(b: seq<Byte>, b0: nat, b1: nat, b2: nat, b3: nat)
    requires |b| == 4 && b0 == b[0] && b1 == b[1] && b2 == b[2] && b3 == b[3]
    ensures Le(b) == b0 + 0x100 * b1 + 0x1_0000 * b2 + 0x100_0000 * b3
  {
    var c := b[1..];
    var d := c[1..];
    var e := d[1..];
    assert e[1..] == [] && Le(e) == e[0] + 256 * Le(e[1..]);
    assert Le(d) == d[0] + 256 * Le(e);
    assert Le(c) == c[0] + 256 * Le(d);
    assert Le(b) == b[0] + 256 * Le(c);
  }

  /** Sixteen bytes as four 32-bit words. */
  lemma {:induction false} Words32(b: seq<Byte>)
    requires |b| == 16
    ensures Le(b) == Le(b[..4]) + 0x1_0000_0000 * Le(b[4..8]) + 0x1_0000_0000_0000_0000 * Le(b[8..12])
                     + 0x1_0000_0000_0000_0000_0000_0000 * Le(b[12..])
  {
    Words128(b);
    Pow2At32();
    assert b[..8] == b[..4] + b[4..8];
    LeConcat(b[..4], b[4..8]);
    assert b[8..] == b[8..12] + b[12..];
    LeConcat(b[8..12], b[12..]);
  }
}
