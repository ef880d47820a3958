/** The flat and the scatter-gather forms of ChaCha20Poly1305. */
module ChaCha20Poly1305 {
  import opened Wrappers
  import opened Sequences
  import opened Poly1305Spec
  import opened Poly1305
  import opened AeadSpec
  import opened AeadLaws
  import opened ChaCha20

  // ------------------------------------------------------------ shared parts

  /** An authenticator under the one-time key of `s` that has taken in `data`. */
  ghost predicate Took(mac: Context, s: Secret, data: seq<Byte>)
    reads mac, mac.data, mac.engine.Repr()
  {
    mac.Valid() && mac.Keyed() && mac.key == OneTimeKey(s) && mac.Absorbed() == data
  }

  ghost predicate Separate(cipher: Cipher, mac: Context) {
    var c: object := cipher;
    c != mac && c != mac.data && c != mac.engine.Repr()
  }

  method Take(mac: Context, ghost s: Secret, ghost data: seq<Byte>, input: seq<Byte>)
    requires Took(mac, s, data)
    modifies mac, mac.data, mac.engine.Repr()
    ensures Took(mac, s, data + input)
  {
    mac.Update(input);
  }

  /** The one-time key is the start of block zero. */
  method KeyBlock(cipher: Cipher) returns (block0: seq<Byte>)
    requires cipher.counter == 0
    modifies cipher
    ensures block0 == OneTimeKey(cipher.secret) && cipher.counter == 1
  {
    var zeroes: seq<Byte> := seq(32, _ => 0);
    block0 := cipher.Apply(zeroes, zeroes);
    FlatShort(cipher.secret, 0, zeroes, zeroes);
  }

  /** The start of all four operations: a cipher at block one and an authenticator that has
      taken in the padded associated data. */
  method Begin(s: Secret, ad: seq<Byte>, wide: bool) returns (cipher: Cipher, mac: Context)
    ensures cipher.secret == s && cipher.counter == 1 && Took(mac, s, Padded(ad)) && Separate(cipher, mac)
    ensures fresh(cipher) && fresh(mac) && fresh(mac.data) && fresh(mac.engine.Repr())
  {
    cipher := new Cipher(s);
    var block0 := KeyBlock(cipher);
    mac := new Context(block0, wide);
    Take(mac, s, [], ad);
    assert [] + ad == ad;
    Take(mac, s, ad, Padding(|ad|));
  }

  /** The end: padding, lengths and the tag. */
  method Finish(mac: Context, s: Secret, ad: seq<Byte>, ghost data: seq<Byte>, len: nat) returns (tag: seq<Byte>)
    requires Took(mac, s, Padded(ad) + data) && len == |data|
    modifies mac, mac.data, mac.engine.Repr()
    ensures |tag| == 16 && tag == MacOf(s, ad, data) && Tagged(s, ad, data, tag)
  {
    Take(mac, s, Padded(ad) + data, Padding(len));
    Take(mac, s, Padded(ad) + data + Padding(len), LeBytes(|ad|, 8) + LeBytes(len, 8));
    tag := mac.Final();
    LeBytesOfLe(tag);
    assert Padded(ad) + data + Padding(len) == Padded(ad) + Padded(data);
    TaggedIff(s, ad, data, tag);
  }

  // ------------------------------------------------------------ flat

  /** The message with its tag when the length parameter may be too short. */
  function SealFlat(s: Secret, ad: seq<Byte>, src: seq<Byte>, into: seq<Byte>): seq<Byte>
    requires |into| == |src|
  {
    Flat(s, 1, src, into) + MacOf(s, ad, Flat(s, 1, src, into))
  }

  /** chacha20poly1305_encrypt; `into` is what the output buffer held before. */
  method Encrypt(s: Secret, ad: seq<Byte>, src: seq<Byte>, into: seq<Byte>, wide: bool) returns (dst: seq<Byte>)
    requires |into| == |src|
    ensures dst == SealFlat(s, ad, src, into) && |dst| == |src| + 16
    ensures Written(s, 1, src, into, dst[..|src|]) && Tagged(s, ad, dst[..|src|], dst[|src|..])
    ensures |src| < COUNTER ==> dst == Seal(s, ad, src) && Sealed(s, ad, src, dst)
  {
    var cipher, mac := Begin(s, ad, wide);
    var body := cipher.Apply(src, into);
    Take(mac, s, Padded(ad), body);
    var tag := Finish(mac, s, ad, body, |src|);
    dst := body + tag;
    FlatShort(s, 1, src, into);
    SealedIff(s, ad, src, dst);
    assert dst[..|src|] == body && dst[|src|..] == tag;
  }

  /** chacha20poly1305_decrypt: nothing is written unless the tag matches. */
  method Decrypt(s: Secret, ad: seq<Byte>, src: seq<Byte>, into: seq<Byte>, wide: bool) returns (ok: bool, dst: seq<Byte>)
    requires |into| == (if |src| < 16 then 0 else |src| - 16)
    ensures ok <==> Open(s, ad, src).Some?
    ensures ok <==> |src| >= 16 && Tagged(s, ad, src[..|src| - 16], src[|src| - 16..])
    ensures dst == if ok then Flat(s, 1, src[..|src| - 16], into) else into
    ensures ok ==> Written(s, 1, src[..|src| - 16], into, dst)
    ensures ok && |src| - 16 < COUNTER ==> Open(s, ad, src) == Some(dst) && Sealed(s, ad, dst, src)
  {
    if |src| < 16 {
      return false, into;
    }
    var cipher, mac := Begin(s, ad, wide);
    var body := src[..|src| - 16];
    Take(mac, s, Padded(ad), body);
    var tag := Finish(mac, s, ad, body, |src| - 16);
    ok, dst := tag == src[|src| - 16..], into;
    TaggedIff(s, ad, body, src[|src| - 16..]);
    if ok {
      dst := cipher.Apply(body, into);
      FlatShort(s, 1, body, into);
      OpensExactlySealed(s, ad, src, dst);
      SealedIff(s, ad, dst, src);
    }
  }

  // ------------------------------------------------------------ scatter-gather

  /** The windows a block-cipher walk over `total` bytes presents one after the other.  A
      window holds at least one whole block unless it is the last; its whole blocks are
      consumed and what is left over comes again in the next one.  After an error there are
      no further windows. */
  ghost predicate Walk(windows: seq<nat>, total: nat, error: bool)
    decreases |windows|
  {
    if windows == [] then error || total == 0
    else
      var w := windows[0];
      0 < w <= total && w < COUNTER
      && if w < 64 then w == total && |windows| == 1 else Walk(windows[1..], total - Consumed(w), error)
  }

  /** How much of a window is used. */
  function Consumed(w: nat): (n: nat)
    ensures n <= w && (w >= 64 ==> n % 64 == 0 && n > 0) && (w < 64 ==> n == w)
  {
    if w < 64 then w else w / 64 * 64
  }

  method ApplyShort(cipher: Cipher, chunk: seq<Byte>) returns (piece: seq<Byte>)
    requires cipher.counter < COUNTER && |chunk| < COUNTER
    modifies cipher
    ensures piece == Crypt(cipher.secret, old(cipher.counter), chunk)
    ensures cipher.counter == Advance(old(cipher.counter), BlockCount(|chunk|))
  {
    FlatShort(cipher.secret, cipher.counter, chunk, chunk);
    ghost var len := |chunk| % COUNTER;
    assert len == |chunk|;
    piece := cipher.Apply(chunk, chunk);
  }

  /** One turn of either loop; `decrypting` decides whether the input or the output is
      authenticated. */
  method Turn(cipher: Cipher, mac: Context, ghost data: seq<Byte>, chunk: seq<Byte>, decrypting: bool) returns (piece: seq<Byte>)
    requires cipher.counter < COUNTER && Took(mac, cipher.secret, data) && Separate(cipher, mac) && |chunk| < COUNTER
    modifies cipher, mac, mac.data, mac.engine.Repr()
    ensures piece == Crypt(cipher.secret, old(cipher.counter), chunk)
    ensures cipher.counter == Advance(old(cipher.counter), BlockCount(|chunk|))
    ensures Took(mac, cipher.secret, data + if decrypting then chunk else piece)
  {
    if decrypting {
      Take(mac, cipher.secret, data, chunk);
      piece := ApplyShort(cipher, chunk);
    } else {
      piece := ApplyShort(cipher, chunk);
      Take(mac, cipher.secret, data, piece);
    }
  }

  /** The state of a walk after `|dst|` bytes. */
  ghost predicate Walked(s: Secret, src: seq<Byte>, dst: seq<Byte>, n: nat, counter: nat, windows: seq<nat>, error: bool) {
    |dst| <= |src| && dst == Crypt(s, 1, src[..|dst|]) && Walk(windows, |src| - |dst|, error) && counter < COUNTER
    && (windows != [] ==> |dst| == 64 * n && counter == Advance(1, n))
  }

  ghost function Covered(src: seq<Byte>, dst: seq<Byte>, decrypting: bool): seq<Byte>
    requires |dst| <= |src|
  {
    if decrypting then src[..|dst|] else dst
  }

  lemma WalkOn(s: Secret, src: seq<Byte>, dst: seq<Byte>, n: nat, counter: nat, windows: seq<nat>, error: bool, piece: seq<Byte>)
    returns (m: nat)
    requires Walked(s, src, dst, n, counter, windows, error) && windows != []
    requires var take := Consumed(windows[0]); piece == Crypt(s, counter, src[|dst|..|dst| + take])
    ensures var take := Consumed(windows[0]);
            Walked(s, src, dst + piece, m, Advance(counter, BlockCount(take)), windows[1..], error)
    ensures src[..|dst + piece|] == src[..|dst|] + src[|dst|..|dst| + Consumed(windows[0])]
  {
    var take := Consumed(windows[0]);
    m := n + BlockCount(take);
    WalkBytes(s, src, dst, n, take, piece);
    AdvanceTwice(1, n, BlockCount(take));
    if windows[0] >= 64 {
      WholeBlocks(take);
    }
  }

  lemma {:induction false} WalkBytes(s: Secret, src: seq<Byte>, dst: seq<Byte>, n: nat, take: nat, piece: seq<Byte>)
    requires |dst| + take <= |src| && |dst| == 64 * n && dst == Crypt(s, 1, src[..|dst|])
    requires piece == Crypt(s, Advance(1, n), src[|dst|..|dst| + take])
    ensures |dst + piece| == |dst| + take && dst + piece == Crypt(s, 1, src[..|dst + piece|])
    ensures src[..|dst + piece|] == src[..|dst|] + src[|dst|..|dst| + take]
  {
    Extend(s, 1, n, src, take);
  }

  lemma {:induction false} WholeBlocks(take: nat)
    requires take % 64 == 0
    ensures 64 * BlockCount(take) == take
  {
    Blocks(take);
  }

  /** Process one window. */
  method WalkStep(cipher: Cipher, mac: Context, src: seq<Byte>, windows: seq<nat>, ghost error: bool, decrypting: bool,
                  ghost data: seq<Byte>, dst: seq<Byte>, ghost n: nat)
    returns (next: seq<Byte>, ghost m: nat)
    requires windows != [] && Walked(cipher.secret, src, dst, n, cipher.counter, windows, error) && Separate(cipher, mac)
    requires Took(mac, cipher.secret, data + Covered(src, dst, decrypting))
    modifies cipher, mac, mac.data, mac.engine.Repr()
    ensures Walked(cipher.secret, src, next, m, cipher.counter, windows[1..], error)
    ensures Took(mac, cipher.secret, data + Covered(src, next, decrypting))
  {
    var chunk := src[|dst|..|dst| + Consumed(windows[0])];
    ghost var covered, counter := Covered(src, dst, decrypting), cipher.counter;
    var piece := Turn(cipher, mac, data + covered, chunk, decrypting);
    m := WalkOn(cipher.secret, src, dst, n, counter, windows, error, piece);
    next := dst + piece;
    Associate(data, covered, if decrypting then chunk else piece);
  }

  /** The walk of chacha20poly1305_encrypt_sg and chacha20poly1305_decrypt_sg. */
  method WalkChunks(cipher: Cipher, mac: Context, src: seq<Byte>, windows: seq<nat>, error: bool, decrypting: bool, ghost data: seq<Byte>)
    returns (dst: seq<Byte>)
    requires cipher.counter == 1 && Took(mac, cipher.secret, data) && Separate(cipher, mac) && Walk(windows, |src|, error)
    modifies cipher, mac, mac.data, mac.engine.Repr()
    ensures !error ==> dst == Crypt(cipher.secret, 1, src) && Took(mac, cipher.secret, data + if decrypting then src else dst)
  {
    dst := [];
    var rest := windows;
    ghost var n := 0;
    assert data + Covered(src, dst, decrypting) == data;
    while rest != []
      invariant Walked(cipher.secret, src, dst, n, cipher.counter, rest, error)
      invariant Took(mac, cipher.secret, data + Covered(src, dst, decrypting))
      decreases |rest|
    {
      dst, n := WalkStep(cipher, mac, src, rest, error, decrypting, data, dst, n);
      rest := rest[1..];
    }
    if !error {
      assert src[..|dst|] == src;
    }
  }

  /** chacha20poly1305_encrypt_sg, for every way the walk may cut the message. */
  method EncryptSg(s: Secret, ad: seq<Byte>, src: seq<Byte>, windows: seq<nat>, error: bool, wide: bool)
    returns (ok: bool, dst: seq<Byte>)
    requires Walk(windows, |src|, error)
    ensures ok <==> !error
    ensures ok ==> dst == Seal(s, ad, src) && Sealed(s, ad, src, dst)
  {
    var cipher, mac := Begin(s, ad, wide);
    dst := WalkChunks(cipher, mac, src, windows, error, false, Padded(ad));
    if error {
      return false, dst;
    }
    var tag := Finish(mac, s, ad, dst, |src|);
    ok, dst := true, dst + tag;
    SealedIff(s, ad, src, dst);
  }

  /** chacha20poly1305_decrypt_sg: the plaintext is written before the tag is compared. */
  method DecryptSg(s: Secret, ad: seq<Byte>, src: seq<Byte>, windows: seq<nat>, error: bool, wide: bool)
    returns (ok: bool, dst: seq<Byte>)
    requires |src| >= 16 ==> Walk(windows, |src| - 16, error)
    ensures ok <==> |src| >= 16 && !error && Open(s, ad, src).Some?
    ensures ok <==> |src| >= 16 && !error && Tagged(s, ad, src[..|src| - 16], src[|src| - 16..])
    ensures ok ==> Open(s, ad, src) == Some(dst) && Sealed(s, ad, dst, src)
  {
    if |src| < 16 {
      return false, [];
    }
    var body := src[..|src| - 16];
    var cipher, mac := Begin(s, ad, wide);
    dst := WalkChunks(cipher, mac, body, windows, error, true, Padded(ad));
    if error {
      return false, dst;
    }
    var tag := Finish(mac, s, ad, body, |src| - 16);
    ok := tag == src[|src| - 16..];
    TaggedIff(s, ad, body, src[|src| - 16..]);
    if ok {
      OpensExactlySealed(s, ad, src, dst);
      SealedIff(s, ad, dst, src);
    }
  }

  // ------------------------------------------------------------ put together

  /** The flat form gives the sealed message, whatever its output buffer held before,
      exactly when the plaintext is shorter than 2^32 bytes. */
  lemma EncryptIffShort(s: Secret, ad: seq<Byte>, src: seq<Byte>)
    ensures (forall into: seq<Byte> :: |into| == |src| ==> SealFlat(s, ad, src, into) == Seal(s, ad, src)) <==> |src| < COUNTER
  {
    FlatIffShort(s, 1, src);
    if |src| >= COUNTER {
      var into: seq<Byte> :| |into| == |src| && Flat(s, 1, src, into) != Crypt(s, 1, src);
      assert SealFlat(s, ad, src, into)[..|src|] == Flat(s, 1, src, into);
      assert Seal(s, ad, src)[..|src|] == Crypt(s, 1, src);
    }
  }

  /** Of a message that opens, the flat form gives the plaintext, whatever its output buffer
      held before, exactly when the plaintext is shorter than 2^32 bytes. */
  lemma DecryptIffShort(s: Secret, ad: seq<Byte>, msg: seq<Byte>)
    requires Open(s, ad, msg).Some?
    ensures (forall into: seq<Byte> :: |into| == |msg| - 16 ==> Open(s, ad, msg) == Some(Flat(s, 1, msg[..|msg| - 16], into)))
            <==> |msg| - 16 < COUNTER
  {
    FlatIffShort(s, 1, msg[..|msg| - 16]);
  }

  /** What goes in flat comes back flat, whatever both output buffers held before, exactly
      when it is shorter than 2^32 bytes. */
  lemma FlatTwiceIffShort(s: Secret, plain: seq<Byte>)
    ensures (forall into: seq<Byte>, back: seq<Byte> :: |into| == |back| == |plain| ==> Flat(s, 1, Flat(s, 1, plain, into), back) == plain)
            <==> |plain| < COUNTER
  {
    if |plain| < COUNTER {
      forall into: seq<Byte>, back: seq<Byte> | |into| == |back| == |plain| ensures Flat(s, 1, Flat(s, 1, plain, into), back) == plain {
        FlatShort(s, 1, plain, into);
        FlatShort(s, 1, Crypt(s, 1, plain), back);
        CryptTwice(s, 1, plain);
      }
    } else {
      var at := |plain| - 1;
      var back := plain[at := if plain[at] == 0 then 1 else 0];
      LongKeepsLast(s, 1, Flat(s, 1, plain, plain), back);
      assert Flat(s, 1, Flat(s, 1, plain, plain), back) != plain;
    }
  }

  lemma FlatRight(s: Secret, plain: seq<Byte>, into: seq<Byte>)
    requires |into| == |plain|
    ensures Crypt(s, 1, Flat(s, 1, plain, into)) == plain <==> Flat(s, 1, plain, into) == Crypt(s, 1, plain)
  {
    var body := Flat(s, 1, plain, into);
    CryptTwice(s, 1, plain);
    CryptTwice(s, 1, body);
  }

  /** The same when only the sealing side uses the flat form. */
  lemma FlatSealIffShort(s: Secret, plain: seq<Byte>)
    ensures (forall into: seq<Byte> :: |into| == |plain| ==> Crypt(s, 1, Flat(s, 1, plain, into)) == plain) <==> |plain| < COUNTER
  {
    FlatIffShort(s, 1, plain);
    if |plain| < COUNTER {
      forall into: seq<Byte> | |into| == |plain| ensures Crypt(s, 1, Flat(s, 1, plain, into)) == plain {
        FlatRight(s, plain, into);
      }
    } else {
      var into: seq<Byte> :| |into| == |plain| && Flat(s, 1, plain, into) != Crypt(s, 1, plain);
      FlatRight(s, plain, into);
    }
  }

  /** The same when only the opening side uses the flat form. */
  lemma FlatOpenIffShort(s: Secret, plain: seq<Byte>)
    ensures (forall back: seq<Byte> :: |back| == |plain| ==> Flat(s, 1, Crypt(s, 1, plain), back) == plain) <==> |plain| < COUNTER
  {
    CryptTwice(s, 1, plain);
    FlatIffShort(s, 1, Crypt(s, 1, plain));
  }

  /** What one side seals, cut one way, the other side opens, cut any other way, even with
      the other limb representation. */
  method RoundTrip(s: Secret, ad: seq<Byte>, plain: seq<Byte>, out: seq<nat>, back: seq<nat>, wide: bool, wideThere: bool)
    returns (ok: bool, result: seq<Byte>)
    requires Walk(out, |plain|, false) && Walk(back, |plain|, false)
    ensures ok && result == plain
  {
    var sealed, msg := EncryptSg(s, ad, plain, out, false, wide);
    OpensExactlySealed(s, ad, msg, plain);
    ok, result := DecryptSg(s, ad, msg, back, false, wideThere);
  }

  /** Flat on both sides. */
  method RoundTripFlat(s: Secret, ad: seq<Byte>, plain: seq<Byte>, into: seq<Byte>, back: seq<Byte>, wide: bool, wideThere: bool)
    returns (ok: bool, result: seq<Byte>)
    requires |into| == |back| == |plain|
    ensures ok && result == Flat(s, 1, Flat(s, 1, plain, into), back)
    ensures |plain| < COUNTER ==> result == plain
  {
    var msg := Encrypt(s, ad, plain, into, wide);
    OpensFlat(s, ad, plain, into);
    ok, result := Decrypt(s, ad, msg, back, wideThere);
    FlatTwiceIffShort(s, plain);
  }

  /** Sealed flat, opened in pieces. */
  method RoundTripToSg(s: Secret, ad: seq<Byte>, plain: seq<Byte>, into: seq<Byte>, back: seq<nat>, wide: bool, wideThere: bool)
    returns (ok: bool, result: seq<Byte>)
    requires |into| == |plain| && Walk(back, |plain|, false)
    ensures ok && result == Crypt(s, 1, Flat(s, 1, plain, into))
    ensures |plain| < COUNTER ==> result == plain
  {
    var msg := Encrypt(s, ad, plain, into, wide);
    OpensFlat(s, ad, plain, into);
    ok, result := DecryptSg(s, ad, msg, back, false, wideThere);
    FlatSealIffShort(s, plain);
  }

  /** Sealed in pieces, opened flat. */
  method RoundTripToFlat(s: Secret, ad: seq<Byte>, plain: seq<Byte>, out: seq<nat>, back: seq<Byte>, wide: bool, wideThere: bool)
    returns (ok: bool, result: seq<Byte>)
    requires Walk(out, |plain|, false) && |back| == |plain|
    ensures ok && result == Flat(s, 1, Crypt(s, 1, plain), back)
    ensures |plain| < COUNTER ==> result == plain
  {
    var sealed, msg := EncryptSg(s, ad, plain, out, false, wide);
    OpensExactlySealed(s, ad, msg, plain);
    ok, result := Decrypt(s, ad, msg, back, wideThere);
    assert msg[..|msg| - 16] == Crypt(s, 1, plain);
    FlatOpenIffShort(s, plain);
  }

  /** What the flat form writes always opens. */
  lemma OpensFlat(s: Secret, ad: seq<Byte>, plain: seq<Byte>, into: seq<Byte>)
    requires |into| == |plain|
    ensures var msg := SealFlat(s, ad, plain, into);
            |msg| == |plain| + 16 && msg[..|msg| - 16] == Flat(s, 1, plain, into)
            && Open(s, ad, msg) == Some(Crypt(s, 1, Flat(s, 1, plain, into)))
  {
    var body := Flat(s, 1, plain, into);
    var msg := SealFlat(s, ad, plain, into);
    assert msg[..|msg| - 16] == body && msg[|msg| - 16..] == MacOf(s, ad, body);
  }
}
