/** What the cipher and the authenticator of ChaCha20Poly1305 do, bit by bit and byte by byte,
    without a loop or a recursion, and that it is what AeadSpec defines. */
module AeadLaws {
  import opened Words
  import opened Poly1305Spec
  import opened Poly1305Laws
  import opened AeadSpec

  // ------------------------------------------------------------ the stream cipher

  /** A bit of the output differs from that of the input exactly where the key stream has a
      one; byte i of the key stream is byte i mod 64 of block c + i / 64, modulo 2^32. */
  ghost predicate Enciphered(s: Secret, c: nat, src: seq<Byte>, dst: seq<Byte>) {
    |dst| == |src|
    && forall i, j :: 0 <= i < |src| && 0 <= j < 8 ==>
         (dst[i] / Pow2(j) % 2 != src[i] / Pow2(j) % 2
          <==> s.block(s.key, (c + i / 64) % 0x1_0000_0000, s.nonce)[i % 64] / Pow2(j) % 2 == 1)
  }

  /** The byte of the key stream for position `i`. */
  function StreamByte(s: Secret, c: nat, i: nat): Byte { s.block(s.key, Advance(c, i / 64), s.nonce)[i % 64] }

  lemma {:induction false} CryptByte(s: Secret, c: nat, src: seq<Byte>, i: nat)
    requires c < COUNTER && i < |src|
    ensures Crypt(s, c, src)[i] == XorByte(src[i], StreamByte(s, c, i))
    decreases |src|
  {
    if |src| > 64 && i >= 64 {
      CryptByte(s, Advance(c, 1), src[64..], i - 64);
      AdvanceTwice(c, 1, (i - 64) / 64);
    }
  }

  lemma {:induction false} XorByteBit(a: Byte, b: Byte, x: Byte, j: nat)
    requires x == XorByte(a, b)
    ensures x / Pow2(j) % 2 != a / Pow2(j) % 2 <==> b / Pow2(j) % 2 == 1
  {
    XorBit(a, b, j);
    BitOfIs(a, j);
    BitOfIs(b, j);
    BitOfIs(x, j);
  }

  /** A byte that differs from another in exactly the bits of a third is their exclusive or. */
  lemma {:induction false} ByteFromBits(a: Byte, b: Byte, x: Byte)
    requires forall j :: 0 <= j < 8 ==> (x / Pow2(j) % 2 != a / Pow2(j) % 2 <==> b / Pow2(j) % 2 == 1)
    ensures x == XorByte(a, b)
  {
    var y := XorByte(a, b);
    forall j | 0 <= j < 8 ensures BitOf(x, j) == BitOf(y, j) {
      assert x / Pow2(j) % 2 != a / Pow2(j) % 2 <==> b / Pow2(j) % 2 == 1;
      XorByteBit(a, b, y, j);
      BitOfIs(x, j);
      BitOfIs(y, j);
    }
    SameBits(x, y, 8);
  }

  /** The bits determine the output, and it is the one the stream cipher computes. */
  lemma {:induction false} EncipheredIff(s: Secret, c: nat, src: seq<Byte>, dst: seq<Byte>)
    requires c < COUNTER
    ensures Enciphered(s, c, src, dst) <==> dst == Crypt(s, c, src)
  {
    if dst == Crypt(s, c, src) {
      forall i, j | 0 <= i < |src| && 0 <= j < 8
        ensures dst[i] / Pow2(j) % 2 != src[i] / Pow2(j) % 2 <==> StreamByte(s, c, i) / Pow2(j) % 2 == 1
      {
        CryptByte(s, c, src, i);
        XorByteBit(src[i], StreamByte(s, c, i), dst[i], j);
      }
    }
    if Enciphered(s, c, src, dst) {
      forall i | 0 <= i < |src| ensures dst[i] == Crypt(s, c, src)[i] {
        CryptByte(s, c, src, i);
        ByteFromBits(src[i], StreamByte(s, c, i), dst[i]);
      }
    }
  }

  // ------------------------------------------------------------ what the tag covers

  function RoundUp(n: nat): nat { (n + 15) / 16 * 16 }

  /** `p` is `s` followed by zeroes up to a multiple of 16. */
  ghost predicate Extends(s: seq<Byte>, p: seq<Byte>) {
    |p| == RoundUp(|s|) && p[..|s|] == s && forall i :: |s| <= i < |p| ==> p[i] == 0
  }

  /** The authenticated string by position: the associated data and the ciphertext, each
      followed by zeroes up to a multiple of 16, and their lengths as 64-bit words. */
  ghost predicate Covers(ad: seq<Byte>, cipher: seq<Byte>, m: seq<Byte>) {
    var a, c := RoundUp(|ad|), RoundUp(|cipher|);
    |m| == a + c + 16
    && Extends(ad, m[..a])
    && Extends(cipher, m[a..a + c])
    && Le(m[a + c..a + c + 8]) == |ad| % 0x1_0000_0000_0000_0000
    && Le(m[a + c + 8..]) == |cipher| % 0x1_0000_0000_0000_0000
  }

  lemma {:induction false} RoundUpIs(n: nat)
    ensures RoundUp(n) == n + |Padding(n)|
  {
    var q, r := n / 16, n % 16;
    assert n == 16 * q + r;
    assert (n + 15) / 16 == if r == 0 then q else q + 1;
  }

  lemma {:induction false} ExtendsIff(s: seq<Byte>, p: seq<Byte>)
    ensures Extends(s, p) <==> p == Padded(s)
    ensures |Padded(s)| == RoundUp(|s|)
  {
    RoundUpIs(|s|);
    ZeroesBehind(s, |Padding(|s|)|, p);
  }

  lemma {:induction false} ZeroesBehind(s: seq<Byte>, k: nat, p: seq<Byte>)
    ensures |p| == |s| + k && p[..|s|] == s && (forall i :: |s| <= i < |p| ==> p[i] == 0) <==> p == s + seq(k, _ => 0)
  {
    var zeroes: seq<Byte> := seq(k, _ => 0);
    if |p| == |s| + k && p[..|s|] == s && forall i :: |s| <= i < |p| ==> p[i] == 0 {
      assert p[|s|..] == zeroes;
      assert p == p[..|s|] + p[|s|..];
    }
    if p == s + zeroes {
      assert forall i :: |s| <= i < |p| ==> p[i] == zeroes[i - |s|];
    }
  }

  /** The low eight bytes of a length. */
  lemma {:induction false} LengthWord(n: nat, w: seq<Byte>)
    requires |w| == 8
    ensures Le(w) == n % 0x1_0000_0000_0000_0000 <==> w == LeBytes(n, 8)
  {
    Pow2At64();
    LeOfLeBytesMod(n, 8);
    LeBytesOfLe(w);
    LeBytesOfLe(LeBytes(n, 8));
  }

  /** There is exactly one such string, and it is the one that is authenticated. */
  lemma {:induction false} CoversIff(ad: seq<Byte>, cipher: seq<Byte>, m: seq<Byte>)
    ensures Covers(ad, cipher, m) <==> m == MacData(ad, cipher)
  {
    ExtendsIff(ad, Padded(ad));
    ExtendsIff(cipher, Padded(cipher));
    CoversParts(ad, cipher, m, Padded(ad), Padded(cipher), LeBytes(|ad|, 8), LeBytes(|cipher|, 8));
  }

  lemma {:induction false} CoversParts(ad: seq<Byte>, cipher: seq<Byte>, m: seq<Byte>, x: seq<Byte>, y: seq<Byte>, u: seq<Byte>, v: seq<Byte>)
    requires x == Padded(ad) && y == Padded(cipher) && u == LeBytes(|ad|, 8) && v == LeBytes(|cipher|, 8)
    requires |x| == RoundUp(|ad|) && |y| == RoundUp(|cipher|)
    ensures Covers(ad, cipher, m) <==> m == x + y + (u + v)
  {
    var a, n := |x|, |x| + |y|;
    InFour(x, y, u, v, m);
    if |m| == n + 16 {
      PartsIff(ad, cipher, m, a, n, m[..a], m[a..n], m[n..n + 8], m[n + 8..]);
    }
  }

  lemma {:induction false} PartsIff(ad: seq<Byte>, cipher: seq<Byte>, m: seq<Byte>, a: nat, n: nat,
                                    x: seq<Byte>, y: seq<Byte>, u: seq<Byte>, v: seq<Byte>)
    requires a == RoundUp(|ad|) && n == a + RoundUp(|cipher|) && |m| == n + 16
    requires x == m[..a] && y == m[a..n] && u == m[n..n + 8] && v == m[n + 8..]
    ensures Covers(ad, cipher, m) <==> x == Padded(ad) && y == Padded(cipher) && u == LeBytes(|ad|, 8) && v == LeBytes(|cipher|, 8)
  {
    CoversAt(ad, cipher, m, a, n);
    ExtendsIff(ad, x);
    ExtendsIff(cipher, y);
    LengthWord(|ad|, u);
    LengthWord(|cipher|, v);
  }

  lemma {:induction false} CoversAt(ad: seq<Byte>, cipher: seq<Byte>, m: seq<Byte>, a: nat, n: nat)
    requires a == RoundUp(|ad|) && n == a + RoundUp(|cipher|) && |m| == n + 16
    ensures Covers(ad, cipher, m)
       <==> Extends(ad, m[..a]) && Extends(cipher, m[a..n])
            && Le(m[n..n + 8]) == |ad| % 0x1_0000_0000_0000_0000 && Le(m[n + 8..]) == |cipher| % 0x1_0000_0000_0000_0000
  {
  }

  lemma {:induction false} InFour(x: seq<Byte>, y: seq<Byte>, u: seq<Byte>, v: seq<Byte>, m: seq<Byte>)
    requires |u| == |v| == 8
    ensures var a, c := |x|, |y|;
            m == x + y + (u + v)
            <==> |m| == a + c + 16 && m[..a] == x && m[a..a + c] == y && m[a + c..a + c + 8] == u && m[a + c + 8..] == v
  {
    var a, c := |x|, |y|;
    if |m| == a + c + 16 {
      assert m == m[..a] + m[a..a + c] + (m[a + c..a + c + 8] + m[a + c + 8..]);
    }
  }

  /** Below 2^64 bytes the authenticated string determines associated data and ciphertext. */
  lemma {:induction false} CoversInjective(ad: seq<Byte>, cipher: seq<Byte>, ad': seq<Byte>, cipher': seq<Byte>, m: seq<Byte>)
    requires Covers(ad, cipher, m) && Covers(ad', cipher', m)
    requires |ad| < 0x1_0000_0000_0000_0000 && |cipher| < 0x1_0000_0000_0000_0000
    requires |ad'| < 0x1_0000_0000_0000_0000 && |cipher'| < 0x1_0000_0000_0000_0000
    ensures ad == ad' && cipher == cipher'
  {
    LengthsAtEnd(ad, cipher, m);
    LengthsAtEnd(ad', cipher', m);
    var a, c := RoundUp(|ad|), RoundUp(|cipher|);
    assert ad == m[..a][..|ad|] && cipher == m[a..a + c][..|cipher|];
  }

  lemma {:induction false} LengthsAtEnd(ad: seq<Byte>, cipher: seq<Byte>, m: seq<Byte>)
    requires Covers(ad, cipher, m) && |ad| < 0x1_0000_0000_0000_0000 && |cipher| < 0x1_0000_0000_0000_0000
    ensures |m| >= 16 && Le(m[|m| - 16..|m| - 8]) == |ad| && Le(m[|m| - 8..]) == |cipher|
  {
  }

  /** From 2^64 bytes on it does not: the lengths wrap around, and associated data may pass for
      ciphertext. */
  lemma {:induction false} CoversTwice(long: seq<Byte>, none: seq<Byte>)
    requires |long| % 0x1_0000_0000_0000_0000 == 0 && none == []
    ensures MacData(long, none) == MacData(none, long)
  {
    LengthWraps(|long|);
    ModOfMod(|long|, 16, 0x1000_0000_0000_0000);
    PaddedWhole(long);
    PaddedWhole(none);
    Swap(long, none, LeBytes(|long|, 8), LeBytes(|none|, 8));
  }

  lemma {:induction false} Swap(long: seq<Byte>, none: seq<Byte>, u: seq<Byte>, v: seq<Byte>)
    requires none == [] && u == v
    ensures long + none + (u + v) == none + long + (v + u)
  {
  }

  lemma {:induction false} LengthWraps(n: nat)
    requires n % 0x1_0000_0000_0000_0000 == 0
    ensures LeBytes(n, 8) == LeBytes(0, 8)
  {
    LengthWord(n, LeBytes(0, 8));
    LengthWord(0, LeBytes(0, 8));
  }

  lemma {:induction false} PaddedWhole(s: seq<Byte>)
    requires |s| % 16 == 0
    ensures Padded(s) == s
  {
    assert Padding(|s|) == [];
  }

  /** What is authenticated tells apart all pairs of at most `n` bytes each. */
  ghost predicate TellsApart(n: nat) {
    forall ad, cipher, ad', cipher' | |ad| <= n && |cipher| <= n && |ad'| <= n && |cipher'| <= n ::
      MacData(ad, cipher) == MacData(ad', cipher') ==> ad == ad' && cipher == cipher'
  }

  lemma {:induction false} TellsApartIff(n: nat)
    ensures TellsApart(n) <==> n < 0x1_0000_0000_0000_0000
  {
    if n < 0x1_0000_0000_0000_0000 {
      forall ad, cipher, ad', cipher' | |ad| <= n && |cipher| <= n && |ad'| <= n && |cipher'| <= n
        && MacData(ad, cipher) == MacData(ad', cipher') ensures ad == ad' && cipher == cipher'
      {
        var m := MacData(ad, cipher);
        CoversIff(ad, cipher, m);
        CoversIff(ad', cipher', m);
        CoversInjective(ad, cipher, ad', cipher', m);
      }
    } else {
      var long: seq<Byte> := seq(0x1_0000_0000_0000_0000, _ => 0);
      CoversTwice(long, []);
      assert long != [];
    }
  }

  // ------------------------------------------------------------ tags and sealed messages

  /** `tag` authenticates the string that covers `ad` and `cipher`, under the first 32 bytes of
      block zero of the key stream. */
  ghost predicate Tagged(s: Secret, ad: seq<Byte>, cipher: seq<Byte>, tag: seq<Byte>) {
    |tag| == 16 && forall m :: Covers(ad, cipher, m) ==> Authenticates(s.block(s.key, 0, s.nonce)[..32], m, tag)
  }

  lemma {:induction false} OneTimeKeyIs(s: Secret)
    ensures OneTimeKey(s) == s.block(s.key, 0, s.nonce)[..32]
  {
    var zeroes: seq<Byte> := seq(32, _ => 0);
    forall i | 0 <= i < 32 ensures OneTimeKey(s)[i] == s.block(s.key, 0, s.nonce)[i] {
      CryptByte(s, 0, zeroes, i);
      assert Xor(0, StreamByte(s, 0, i)) == StreamByte(s, 0, i);
    }
  }

  lemma {:induction false} TaggedIff(s: Secret, ad: seq<Byte>, cipher: seq<Byte>, tag: seq<Byte>)
    ensures Tagged(s, ad, cipher, tag) <==> tag == MacOf(s, ad, cipher)
  {
    var m := MacData(ad, cipher);
    CoversIff(ad, cipher, m);
    OneTimeKeyIs(s);
    AuthenticatesIff(OneTimeKey(s), m, tag);
    var n := Tag(OneTimeKey(s), m);
    Pow2At128();
    LeOfLeBytes(n, 16);
    LeBytesOfLe(tag);
    forall k | Covers(ad, cipher, k) ensures k == m {
      CoversIff(ad, cipher, k);
    }
  }

  /** `msg` is the plaintext enciphered from block one on, followed by its tag. */
  ghost predicate Sealed(s: Secret, ad: seq<Byte>, plain: seq<Byte>, msg: seq<Byte>) {
    |msg| == |plain| + 16
    && Enciphered(s, 1, plain, msg[..|plain|])
    && Tagged(s, ad, msg[..|plain|], msg[|plain|..])
  }

  /** Exactly one message is sealed in this sense, and it is the one of the construction. */
  lemma {:induction false} SealedIff(s: Secret, ad: seq<Byte>, plain: seq<Byte>, msg: seq<Byte>)
    ensures Sealed(s, ad, plain, msg) <==> msg == Seal(s, ad, plain)
  {
    var n := |plain|;
    if |msg| == n + 16 {
      EncipheredIff(s, 1, plain, msg[..n]);
      TaggedIff(s, ad, msg[..n], msg[n..]);
      assert msg == msg[..n] + msg[n..];
    }
    if msg == Seal(s, ad, plain) {
      assert msg[..n] == Crypt(s, 1, plain) && msg[n..] == MacOf(s, ad, Crypt(s, 1, plain));
    }
  }
}
