/** ChaCha20Poly1305 as section 2.8 of RFC 8439 puts it together, over any block function. */
module AeadSpec {
  import opened Wrappers
  import opened Sequences
  import opened Words
  import opened Poly1305Spec

  /** The ChaCha20 block function: key, block counter and nonce give 64 bytes. */
  type BlockFunction = f: (seq<Byte>, nat, nat) -> seq<Byte> | forall k, c, n :: |f(k, c, n)| == 64
    witness (k, c, n) => seq(64, _ => 0)

  /** The block counter is one 32-bit word. */
  const COUNTER: nat := 0x1_0000_0000

  function XorByte(a: Byte, b: Byte): (x: Byte)
  {
    XorBound(a, b, 8, 256);
    Xor(a, b)
  }

  lemma ByteTwice(a: Byte, b: Byte)
    ensures XorByte(XorByte(a, b), b) == a
  {
    XorTwice(a, b);
  }

  // ------------------------------------------------------------ the stream cipher

  /** What determines the key stream. */
  datatype Secret = Secret(block: BlockFunction, key: seq<Byte>, nonce: nat)

  function Advance(c: nat, n: nat): (d: nat)
    ensures d < COUNTER
  {
    (c + n) % COUNTER
  }

  function XorBytes(src: seq<Byte>, stream: seq<Byte>): (dst: seq<Byte>)
    requires |src| <= |stream|
    ensures |dst| == |src|
  {
    seq(|src|, i requires 0 <= i < |src| => XorByte(src[i], stream[i]))
  }

  lemma XorBytesTwice(src: seq<Byte>, stream: seq<Byte>)
    requires |src| <= |stream|
    ensures XorBytes(XorBytes(src, stream), stream) == src
  {
    forall i | 0 <= i < |src| ensures XorBytes(XorBytes(src, stream), stream)[i] == src[i] {
      ByteTwice(src[i], stream[i]);
    }
  }

  /** Encryption and decryption alike: add the key stream from block `c` on. */
  function Crypt(s: Secret, c: nat, src: seq<Byte>): (dst: seq<Byte>)
    ensures |dst| == |src|
    decreases |src|
  {
    if |src| <= 64 then XorBytes(src, s.block(s.key, c, s.nonce))
    else XorBytes(src[..64], s.block(s.key, c, s.nonce)) + Crypt(s, Advance(c, 1), src[64..])
  }

  lemma {:induction false} CryptTwice(s: Secret, c: nat, src: seq<Byte>)
    ensures Crypt(s, c, Crypt(s, c, src)) == src
    decreases |src|
  {
    var stream := s.block(s.key, c, s.nonce);
    if |src| <= 64 {
      XorBytesTwice(src, stream);
    } else {
      XorBytesTwice(src[..64], stream);
      CryptTwice(s, Advance(c, 1), src[64..]);
      var dst := Crypt(s, c, src);
      assert dst[..64] == XorBytes(src[..64], stream) && dst[64..] == Crypt(s, Advance(c, 1), src[64..]);
      assert src == src[..64] + src[64..];
    }
  }

  lemma AdvanceTwice(c: nat, m: nat, n: nat)
    ensures Advance(Advance(c, m), n) == Advance(c, m + n)
  {
    var x := c + m;
    assert x == COUNTER * (x / COUNTER) + x % COUNTER;
  }

  lemma {:induction false} CryptStep(s: Secret, c: nat, src: seq<Byte>)
    requires |src| >= 64
    ensures Crypt(s, c, src) == XorBytes(src[..64], s.block(s.key, c, s.nonce)) + Crypt(s, Advance(c, 1), src[64..])
  {
    if |src| == 64 {
      assert src[..64] == src && src[64..] == [];
    }
  }

  /** The stream may be restarted at any block boundary. */
  lemma {:induction false} CryptConcat(s: Secret, c: nat, n: nat, a: seq<Byte>, b: seq<Byte>)
    requires |a| == 64 * n && c < COUNTER
    ensures Crypt(s, c, a + b) == Crypt(s, c, a) + Crypt(s, Advance(c, n), b)
  {
    CryptParts(s, c, n, a, b, Crypt(s, c, a + b), Crypt(s, c, a), Crypt(s, Advance(c, n), b));
  }

  lemma {:induction false} CryptParts(s: Secret, c: nat, n: nat, a: seq<Byte>, b: seq<Byte>, x: seq<Byte>, y: seq<Byte>, z: seq<Byte>)
    requires |a| == 64 * n && c < COUNTER && x == Crypt(s, c, a + b) && y == Crypt(s, c, a) && z == Crypt(s, Advance(c, n), b)
    ensures x == y + z
    decreases n
  {
    if n == 0 {
      NothingFirst(s, c, a, b, y);
    } else {
      var first, rest := XorBytes(a[..64], s.block(s.key, c, s.nonce)), a[64..];
      var d := Advance(c, 1);
      var x', y' := Crypt(s, d, rest + b), Crypt(s, d, rest);
      AdvanceTwice(c, 1, n - 1);
      CryptStepOver(s, c, a, b);
      CryptStep(s, c, a);
      CryptParts(s, d, n - 1, rest, b, x', y', z);
      Associate(first, y', z);
    }
  }

  lemma {:induction false} NothingFirst(s: Secret, c: nat, a: seq<Byte>, b: seq<Byte>, y: seq<Byte>)
    requires a == [] && c < COUNTER && y == Crypt(s, c, a)
    ensures a + b == b && y == [] && Advance(c, 0) == c
  {
  }

  lemma {:induction false} CryptStepOver(s: Secret, c: nat, a: seq<Byte>, b: seq<Byte>)
    requires |a| >= 64
    ensures Crypt(s, c, a + b) == XorBytes(a[..64], s.block(s.key, c, s.nonce)) + Crypt(s, Advance(c, 1), a[64..] + b)
  {
    CryptStep(s, c, a + b);
    assert (a + b)[..64] == a[..64] && (a + b)[64..] == a[64..] + b;
  }

  // ------------------------------------------------------------ the construction

  /** Bytes that fill up the last 16-byte block. */
  function Padding(n: nat): seq<Byte> { seq((16 - n % 16) % 16, _ => 0) }

  function Padded(s: seq<Byte>): seq<Byte> { s + Padding(|s|) }

  /** What the authenticator covers; lengths are 64-bit words. */
  function MacData(ad: seq<Byte>, cipher: seq<Byte>): seq<Byte> {
    Padded(ad) + Padded(cipher) + (LeBytes(|ad|, 8) + LeBytes(|cipher|, 8))
  }

  /** The first half of block zero of the key stream. */
  function OneTimeKey(s: Secret): (k: seq<Byte>)
    ensures |k| == 32
  {
    Crypt(s, 0, seq(32, _ => 0))
  }

  function MacOf(s: Secret, ad: seq<Byte>, cipher: seq<Byte>): seq<Byte> {
    LeBytes(Tag(OneTimeKey(s), MacData(ad, cipher)), 16)
  }

  function Seal(s: Secret, ad: seq<Byte>, plain: seq<Byte>): seq<Byte> {
    Crypt(s, 1, plain) + MacOf(s, ad, Crypt(s, 1, plain))
  }

  function Open(s: Secret, ad: seq<Byte>, msg: seq<Byte>): Option<seq<Byte>> {
    if |msg| < 16 then None
    else if msg[|msg| - 16..] == MacOf(s, ad, msg[..|msg| - 16]) then Some(Crypt(s, 1, msg[..|msg| - 16])) else None
  }

  /** Opening inverts sealing, and only sealed messages open: for all keys, nonces,
      associated data, messages and plaintexts of any length. */
  lemma OpensExactlySealed(s: Secret, ad: seq<Byte>, msg: seq<Byte>, plain: seq<Byte>)
    ensures Open(s, ad, msg) == Some(plain) <==> msg == Seal(s, ad, plain)
  {
    var cipher := Crypt(s, 1, plain);
    CryptTwice(s, 1, plain);
    if msg == Seal(s, ad, plain) {
      assert msg[..|msg| - 16] == cipher;
      assert msg[|msg| - 16..] == MacOf(s, ad, cipher);
    }
    if Open(s, ad, msg) == Some(plain) {
      CryptTwice(s, 1, msg[..|msg| - 16]);
      assert msg == msg[..|msg| - 16] + msg[|msg| - 16..];
    }
  }

  /** A byte string is determined by its value. */
  lemma {:induction false} LeBytesOfLe(b: seq<Byte>)
    ensures LeBytes(Le(b), |b|) == b
  {
    if b != [] {
      LeBytesOfLe(b[1..]);
      LowByte(b[0], Le(b[1..]), Le(b));
      assert b == [b[0]] + b[1..];
    }
  }

  lemma {:induction false} LowByte(x: Byte, rest: nat, n: nat)
    requires n == x + 256 * rest
    ensures n % 256 == x && n / 256 == rest
  {
  }
}
