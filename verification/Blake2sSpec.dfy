/** BLAKE2s over any compression function, the hash of section 3.3 of RFC 7693, and HMAC over
    it: step by step, and as laws about every block and byte. */
module Blake2sSpec {
  import opened Words
  import opened Poly1305Spec
  import opened AeadSpec
  import opened AeadLaws

  /** Chaining value, block, the two counter words, and whether the block is the last. */
  type Compression = f: (seq<nat>, seq<Byte>, nat, nat, bool) -> seq<nat> | forall h, b, x, y, l :: |f(h, b, x, y, l)| == 8
    witness (h, b, x, y, l) => seq(8, _ => 0)

  const WORD: nat := 0x1_0000_0000

  function LowWord(t: nat): (w: nat)
    ensures w < WORD
  {
    t % WORD
  }

  function HighWord(t: nat): (w: nat)
    ensures w < WORD
  {
    t / WORD % WORD
  }

  // ------------------------------------------------------------ the definition

  /** F, at offset `t` after this block. */
  function Mix(f: Compression, h: seq<nat>, block: seq<Byte>, t: nat, last: bool): (r: seq<nat>)
    ensures |r| == 8
  {
    f(h, block, LowWord(t), HighWord(t), last)
  }

  function Filled(s: seq<Byte>): (b: seq<Byte>)
    requires |s| <= 64
    ensures |b| == 64
  {
    s + seq(64 - |s|, _ => 0)
  }

  /** The hash of `msg` when `t` bytes came before: every block but the last is mixed in
      with the count up to its end, the last one padded, with the total count and the flag. */
  function Digest(f: Compression, h: seq<nat>, t: nat, msg: seq<Byte>): (r: seq<nat>)
    ensures |r| == 8
    decreases |msg|
  {
    if |msg| <= 64 then Mix(f, h, Filled(msg), t + |msg|, true)
    else Digest(f, Mix(f, h, msg[..64], t + 64, false), t + 64, msg[64..])
  }

  /** Eight little-endian words. */
  function Output(h: seq<nat>): (b: seq<Byte>)
    requires |h| == 8
    ensures |b| == 32
  {
    LeBytes(h[0], 4) + LeBytes(h[1], 4) + LeBytes(h[2], 4) + LeBytes(h[3], 4)
    + LeBytes(h[4], 4) + LeBytes(h[5], 4) + LeBytes(h[6], 4) + LeBytes(h[7], 4)
  }

  // ------------------------------------------------------------ HMAC

  /** Unkeyed BLAKE2s with 32 bytes of output. */
  function Plain(f: Compression, start: seq<nat>, msg: seq<Byte>): (b: seq<Byte>)
    ensures |b| == 32
  {
    Output(Digest(f, start, 0, msg))
  }

  function XorAll(s: seq<Byte>, pad: Byte): (r: seq<Byte>)
    ensures |r| == |s|
  {
    seq(|s|, i requires 0 <= i < |s| => XorByte(s[i], pad))
  }

  /** HMAC as RFC 2104 defines it, over BLAKE2s with its 64-byte block. */
  function Hmac(f: Compression, start: seq<nat>, key: seq<Byte>, msg: seq<Byte>): (b: seq<Byte>)
    ensures |b| == 32
  {
    var k := Filled(if |key| > 64 then Plain(f, start, key) else key);
    Plain(f, start, XorAll(k, 0x5c) + Plain(f, start, XorAll(k, 0x36) + msg))
  }

  // ------------------------------------------------------------ the chain of a hash

  function BlocksIn(n: nat): (k: nat)
    ensures k > 0
  {
    if n <= 64 then 1 else (n + 63) / 64
  }

  /** Block `i` of a message; what lies behind its end is zero. */
  function BlockAt(msg: seq<Byte>, i: nat): (b: seq<Byte>)
    ensures |b| == 64
  {
    seq(64, k requires 0 <= k => if 64 * i + k < |msg| then msg[64 * i + k] else 0)
  }

  /** Chaining value i + 1 comes from value i and block i, with the two words of the number of
      bytes up to the end of the block, and the flag for the last block only. */
  ghost predicate Linked(f: Compression, t: nat, msg: seq<Byte>, hs: seq<seq<nat>>, i: nat)
    requires i + 1 < |hs|
  {
    var last := i + 2 == |hs|;
    var count := t + if last then |msg| else 64 * (i + 1);
    hs[i + 1] == f(hs[i], BlockAt(msg, i), count % 0x1_0000_0000, count / 0x1_0000_0000 % 0x1_0000_0000, last)
  }

  /** `hs` are the chaining values before every block and after the last one. */
  ghost predicate Chained(f: Compression, t: nat, msg: seq<Byte>, hs: seq<seq<nat>>) {
    |hs| == BlocksIn(|msg|) + 1 && forall i :: 0 <= i < |hs| - 1 ==> Linked(f, t, msg, hs, i)
  }

  lemma {:induction false} BlockAtTail(msg: seq<Byte>, i: nat)
    requires |msg| > 64
    ensures BlockAt(msg[64..], i) == BlockAt(msg, i + 1) && BlockAt(msg, 0) == msg[..64]
    ensures BlocksIn(|msg|) == BlocksIn(|msg[64..]|) + 1
  {
    forall k | 0 <= k < 64 ensures BlockAt(msg[64..], i)[k] == BlockAt(msg, i + 1)[k] {
      assert 64 * (i + 1) + k == 64 + (64 * i + k);
    }
  }

  lemma {:induction false} LinkTail(f: Compression, t: nat, msg: seq<Byte>, hs: seq<seq<nat>>, rest: seq<seq<nat>>, i: nat)
    requires |msg| > 64 && 0 < |hs| && rest == hs[1..] && i + 1 < |rest|
    ensures Linked(f, t, msg, hs, i + 1) <==> Linked(f, t + 64, msg[64..], rest, i)
  {
    BlockAtTail(msg, i);
    assert rest[i] == hs[i + 1] && rest[i + 1] == hs[i + 2];
  }

  lemma {:induction false} ChainTail(f: Compression, t: nat, msg: seq<Byte>, hs: seq<seq<nat>>)
    requires |msg| > 64 && |hs| == BlocksIn(|msg|) + 1
    ensures Chained(f, t, msg, hs) <==> hs[1] == Mix(f, hs[0], msg[..64], t + 64, false) && Chained(f, t + 64, msg[64..], hs[1..])
  {
    var u, tail, rest := t + 64, msg[64..], hs[1..];
    BlockAtTail(msg, 0);
    assert Linked(f, t, msg, hs, 0) <==> hs[1] == Mix(f, hs[0], msg[..64], u, false);
    if Chained(f, t, msg, hs) {
      forall i | 0 <= i < |rest| - 1 ensures Linked(f, u, tail, rest, i) {
        assert Linked(f, t, msg, hs, i + 1);
        LinkTail(f, t, msg, hs, rest, i);
      }
    }
    if hs[1] == Mix(f, hs[0], msg[..64], u, false) && Chained(f, u, tail, rest) {
      forall i | 0 <= i < |hs| - 1 ensures Linked(f, t, msg, hs, i) {
        if i > 0 {
          assert Linked(f, u, tail, rest, i - 1);
          LinkTail(f, t, msg, hs, rest, i - 1);
        }
      }
    }
  }

  lemma {:induction false} ChainLast(f: Compression, t: nat, msg: seq<Byte>, hs: seq<seq<nat>>)
    requires |msg| <= 64 && |hs| == 2
    ensures Chained(f, t, msg, hs) <==> hs[1] == Mix(f, hs[0], Filled(msg), t + |msg|, true)
  {
    assert BlockAt(msg, 0) == Filled(msg);
    assert Chained(f, t, msg, hs) <==> Linked(f, t, msg, hs, 0);
  }

  /** Every chain ends in the hash. */
  lemma {:induction false} ChainEnds(f: Compression, t: nat, msg: seq<Byte>, hs: seq<seq<nat>>)
    requires Chained(f, t, msg, hs)
    ensures hs[|hs| - 1] == Digest(f, hs[0], t, msg)
    decreases |msg|
  {
    if |msg| <= 64 {
      ChainLast(f, t, msg, hs);
    } else {
      ChainTail(f, t, msg, hs);
      ChainEnds(f, t + 64, msg[64..], hs[1..]);
    }
  }

  lemma {:induction false} ChainExists(f: Compression, h: seq<nat>, t: nat, msg: seq<Byte>) returns (hs: seq<seq<nat>>)
    ensures Chained(f, t, msg, hs) && hs[0] == h
    decreases |msg|
  {
    if |msg| <= 64 {
      hs := [h, Mix(f, h, Filled(msg), t + |msg|, true)];
      ChainLast(f, t, msg, hs);
    } else {
      var rest := ChainExists(f, Mix(f, h, msg[..64], t + 64, false), t + 64, msg[64..]);
      hs := [h] + rest;
      assert hs[1..] == rest;
      ChainTail(f, t, msg, hs);
    }
  }

  // ------------------------------------------------------------ the bytes of a hash

  lemma {:induction false} LeByteAt(x: nat, n: nat, j: nat)
    requires j < n
    ensures LeBytes(x, n)[j] == x / Pow2(8 * j) % 256
  {
    if j > 0 {
      LeByteAt(x / 256, n - 1, j - 1);
      Pow2Add(8, 8 * (j - 1));
      DivTwice(x, 256, Pow2(8 * (j - 1)));
    }
  }

  /** Byte j of word i, lowest first, is byte 4 i + j of the output. */
  ghost predicate Spelled(h: seq<nat>, out: seq<Byte>) {
    |h| == 8 && |out| == 32 && forall i, j :: 0 <= i < 8 && 0 <= j < 4 ==> out[4 * i + j] == h[i] / Pow2(8 * j) % 256
  }

  lemma {:induction false} OutputWord(h: seq<nat>, i: nat)
    requires |h| == 8 && i < 8
    ensures Output(h)[4 * i..4 * i + 4] == LeBytes(h[i], 4)
  {
  }

  lemma {:induction false} SpelledIff(h: seq<nat>, out: seq<Byte>)
    requires |h| == 8
    ensures Spelled(h, out) <==> out == Output(h)
  {
    var b := Output(h);
    forall i, j | 0 <= i < 8 && 0 <= j < 4 ensures b[4 * i + j] == h[i] / Pow2(8 * j) % 256 {
      OutputWord(h, i);
      assert b[4 * i + j] == b[4 * i..4 * i + 4][j];
      LeByteAt(h[i], 4, j);
    }
    if Spelled(h, out) {
      forall k | 0 <= k < 32 ensures out[k] == b[k] {
        var i, j := k / 4, k % 4;
        assert out[4 * i + j] == h[i] / Pow2(8 * j) % 256 == b[4 * i + j];
      }
    }
  }

  /** `out` spells the end of the chain of `msg` from `start`. */
  ghost predicate Hashes(f: Compression, start: seq<nat>, msg: seq<Byte>, out: seq<Byte>) {
    exists hs :: Chained(f, 0, msg, hs) && hs[0] == start && Spelled(hs[|hs| - 1], out)
  }

  /** There is exactly one such string, the hash of the definition. */
  lemma {:induction false} HashesIff(f: Compression, start: seq<nat>, msg: seq<Byte>, out: seq<Byte>)
    ensures Hashes(f, start, msg, out) <==> out == Plain(f, start, msg)
  {
    SpelledIff(Digest(f, start, 0, msg), out);
    if Hashes(f, start, msg, out) {
      var hs :| Chained(f, 0, msg, hs) && hs[0] == start && Spelled(hs[|hs| - 1], out);
      ChainEnds(f, 0, msg, hs);
    }
    if out == Plain(f, start, msg) {
      var hs := ChainExists(f, start, 0, msg);
      ChainEnds(f, 0, msg, hs);
    }
  }

  // ------------------------------------------------------------ the keys of HMAC

  /** The key as one block: itself, or its hash if it is longer, and zeroes behind. */
  ghost predicate KeyBlock(f: Compression, start: seq<nat>, key: seq<Byte>, k: seq<Byte>) {
    |k| == 64
    && exists short: seq<Byte> :: |short| <= 64 && k[..|short|] == short && (forall i :: |short| <= i < 64 ==> k[i] == 0)
                                  && if |key| > 64 then Hashes(f, start, key, short) else short == key
  }

  /** `x` is `k` with exactly the bits of `pad` turned over in every byte. */
  ghost predicate Flipped(k: seq<Byte>, pad: Byte, x: seq<Byte>) {
    |x| == |k|
    && forall i, j :: 0 <= i < |k| && 0 <= j < 8 ==> (x[i] / Pow2(j) % 2 != k[i] / Pow2(j) % 2 <==> pad / Pow2(j) % 2 == 1)
  }

  lemma {:induction false} FlippedIff(k: seq<Byte>, pad: Byte, x: seq<Byte>)
    ensures Flipped(k, pad, x) <==> x == XorAll(k, pad)
  {
    if x == XorAll(k, pad) {
      forall i, j | 0 <= i < |k| && 0 <= j < 8
        ensures x[i] / Pow2(j) % 2 != k[i] / Pow2(j) % 2 <==> pad / Pow2(j) % 2 == 1
      {
        XorByteBit(k[i], pad, x[i], j);
      }
    }
    if Flipped(k, pad, x) {
      forall i | 0 <= i < |k| ensures x[i] == XorByte(k[i], pad) {
        ByteFromBits(k[i], pad, x[i]);
      }
    }
  }

  lemma {:induction false} KeyBlockIff(f: Compression, start: seq<nat>, key: seq<Byte>, k: seq<Byte>)
    ensures KeyBlock(f, start, key, k) <==> k == Filled(if |key| > 64 then Plain(f, start, key) else key)
  {
    var right := if |key| > 64 then Plain(f, start, key) else key;
    HashesIff(f, start, key, right);
    if KeyBlock(f, start, key, k) {
      var short: seq<Byte> :| |short| <= 64 && k[..|short|] == short && (forall i :: |short| <= i < 64 ==> k[i] == 0)
                              && if |key| > 64 then Hashes(f, start, key, short) else short == key;
      HashesIff(f, start, key, short);
      assert k == k[..|short|] + k[|short|..];
      assert k[|short|..] == seq(64 - |short|, _ => 0);
    }
    if k == Filled(right) {
      assert k[..|right|] == right && forall i :: |right| <= i < 64 ==> k[i] == 0;
    }
  }

  /** RFC 2104: the inner key has the bits of 0x36 turned over, the outer one those of 0x5c. */
  ghost predicate Keyed(f: Compression, start: seq<nat>, key: seq<Byte>, msg: seq<Byte>, out: seq<Byte>) {
    exists k, x, y, inner ::
      KeyBlock(f, start, key, k) && Flipped(k, 0x36, x) && Flipped(k, 0x5c, y)
      && Hashes(f, start, x + msg, inner) && Hashes(f, start, y + inner, out)
  }

  lemma {:induction false} KeyedIff(f: Compression, start: seq<nat>, key: seq<Byte>, msg: seq<Byte>, out: seq<Byte>)
    ensures Keyed(f, start, key, msg, out) <==> out == Hmac(f, start, key, msg)
  {
    var k0 := Filled(if |key| > 64 then Plain(f, start, key) else key);
    var x0, y0 := XorAll(k0, 0x36), XorAll(k0, 0x5c);
    var inner0 := Plain(f, start, x0 + msg);
    KeyBlockIff(f, start, key, k0);
    FlippedIff(k0, 0x36, x0);
    FlippedIff(k0, 0x5c, y0);
    HashesIff(f, start, x0 + msg, inner0);
    HashesIff(f, start, y0 + inner0, out);
    if Keyed(f, start, key, msg, out) {
      var k, x, y, inner :| KeyBlock(f, start, key, k) && Flipped(k, 0x36, x) && Flipped(k, 0x5c, y)
                            && Hashes(f, start, x + msg, inner) && Hashes(f, start, y + inner, out);
      KeyBlockIff(f, start, key, k);
      FlippedIff(k, 0x36, x);
      FlippedIff(k, 0x5c, y);
      HashesIff(f, start, x + msg, inner);
    }
  }
}
