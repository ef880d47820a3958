/** The ChaCha20 stream: a block counter advanced over a message. */
module ChaCha20 {
  import opened Poly1305Spec
  import opened AeadSpec
  import opened AeadLaws

  /** struct chacha20_ctx after chacha20_init; only the first counter word ever changes. */
  class Cipher {
    const secret: Secret
    var counter: nat

    constructor (secret: Secret)
      ensures this.secret == secret && counter == 0
    {
      this.secret := secret;
      counter := 0;
    }

    /** chacha20_block_generic. */
    method NextBlock() returns (stream: seq<Byte>)
      modifies this
      ensures stream == secret.block(secret.key, old(counter), secret.nonce) && counter == Advance(old(counter), 1)
    {
      stream := secret.block(secret.key, counter, secret.nonce);
      counter := (counter + 1) % COUNTER;
    }

    /** One block, or the short rest of a message. */
    method XorBlock(src: seq<Byte>) returns (dst: seq<Byte>)
      requires |src| <= 64
      modifies this
      ensures dst == Crypt(secret, old(counter), src) && counter == Advance(old(counter), 1)
    {
      var stream := NextBlock();
      dst := XorBytes(src, stream);
    }

    /** chacha20_generic. */
    method Generic(src: seq<Byte>) returns (dst: seq<Byte>)
      requires counter < COUNTER
      modifies this
      ensures dst == Crypt(secret, old(counter), src) && counter == Advance(old(counter), BlockCount(|src|))
      ensures Enciphered(secret, old(counter), src, dst)
    {
      ghost var c, n := counter, 0;
      dst, n := WholeBlocks(src);
      var len := |src| - |dst|;
      CountBlocks(|src|, n);
      if len > 0 {
        var rest := src[|dst|..];
        var piece := XorBlock(rest);
        LastPart(secret, c, n, src, rest, dst, piece);
        dst := dst + piece;
        AdvanceTwice(c, n, 1);
      } else {
        assert src[..64 * n] == src;
      }
      EncipheredIff(secret, c, src, dst);
    }

    /** The loop of chacha20_generic. */
    method WholeBlocks(src: seq<Byte>) returns (dst: seq<Byte>, ghost n: nat)
      requires counter < COUNTER
      modifies this
      ensures |dst| == 64 * n <= |src| < 64 * n + 64
      ensures dst == Crypt(secret, old(counter), src[..64 * n]) && counter == Advance(old(counter), n)
    {
      dst := [];
      var len := |src|;
      ghost var c := counter;
      n := 0;
      while len >= 64
        invariant 0 <= len == |src| - 64 * n && |dst| == 64 * n
        invariant dst == Crypt(secret, c, src[..64 * n]) && counter == Advance(c, n)
      {
        var chunk := src[|dst|..|dst| + 64];
        Extend(secret, c, n, src, 64);
        var piece := XorBlock(chunk);
        dst := dst + piece;
        AdvanceTwice(c, n, 1);
        len := len - 64;
        n := n + 1;
      }
    }

    /** chacha20: the length parameter has 32 bits, so of a longer message only the first
        |src| mod 2^32 bytes are written and the rest of the output keeps what it held. */
    method Apply(src: seq<Byte>, into: seq<Byte>) returns (dst: seq<Byte>)
      requires counter < COUNTER && |into| == |src|
      modifies this
      ensures dst == Flat(secret, old(counter), src, into) && counter == Advance(old(counter), BlockCount(|src| % COUNTER))
      ensures Written(secret, old(counter), src, into, dst)
    {
      var len := |src| % COUNTER;
      var out := Generic(src[..len]);
      dst := out + into[len..];
      WrittenIff(secret, old(counter), src, into, dst);
    }
  }

  /** The output of a call whose 32-bit length parameter may be too short. */
  function Flat(s: Secret, c: nat, src: seq<Byte>, into: seq<Byte>): (dst: seq<Byte>)
    requires |into| == |src|
    ensures |dst| == |src|
  {
    Crypt(s, c, src[..|src| % COUNTER]) + into[|src| % COUNTER..]
  }

  /** The same by position: the first |src| mod 2^32 bytes are enciphered, the others kept. */
  ghost predicate Written(s: Secret, c: nat, src: seq<Byte>, into: seq<Byte>, dst: seq<Byte>)
    requires |into| == |src|
  {
    var n := |src| % 0x1_0000_0000;
    |dst| == |src| && Enciphered(s, c, src[..n], dst[..n]) && dst[n..] == into[n..]
  }

  lemma {:induction false} WrittenIff(s: Secret, c: nat, src: seq<Byte>, into: seq<Byte>, dst: seq<Byte>)
    requires c < COUNTER && |into| == |src|
    ensures Written(s, c, src, into, dst) <==> dst == Flat(s, c, src, into)
  {
    var n := |src| % COUNTER;
    if |dst| == |src| {
      EncipheredIff(s, c, src[..n], dst[..n]);
      assert dst == dst[..n] + dst[n..];
    }
  }

  lemma FlatShort(s: Secret, c: nat, src: seq<Byte>, into: seq<Byte>)
    requires |into| == |src|
    ensures |src| < COUNTER ==> Flat(s, c, src, into) == Crypt(s, c, src)
  {
    if |src| < COUNTER {
      assert src[..|src|] == src;
    }
  }

  /** The next `len` bytes after `n` blocks. */
  lemma Extend(s: Secret, c: nat, n: nat, src: seq<Byte>, len: nat)
    requires c < COUNTER && 64 * n + len <= |src|
    ensures Crypt(s, c, src[..64 * n + len]) == Crypt(s, c, src[..64 * n]) + Crypt(s, Advance(c, n), src[64 * n..64 * n + len])
  {
    CryptConcat(s, c, n, src[..64 * n], src[64 * n..64 * n + len]);
    assert src[..64 * n] + src[64 * n..64 * n + len] == src[..64 * n + len];
  }

  lemma {:induction false} LastPart(s: Secret, c: nat, n: nat, src: seq<Byte>, rest: seq<Byte>, dst: seq<Byte>, piece: seq<Byte>)
    requires c < COUNTER && 64 * n <= |src| && rest == src[64 * n..]
    requires dst == Crypt(s, c, src[..64 * n]) && piece == Crypt(s, Advance(c, n), rest)
    ensures dst + piece == Crypt(s, c, src)
  {
    assert src == src[..64 * n] + rest;
    CryptConcat(s, c, n, src[..64 * n], rest);
  }

  lemma {:induction false} CountBlocks(total: nat, n: nat)
    requires 64 * n <= total < 64 * n + 64
    ensures BlockCount(total) == if total > 64 * n then n + 1 else n
  {
    Blocks(total);
  }

  /** How many blocks of key stream `n` bytes use up. */
  function BlockCount(n: nat): nat
  {
    if n < 64 then (if n == 0 then 0 else 1) else 1 + BlockCount(n - 64)
  }

  lemma {:induction false} Blocks(total: nat)
    ensures total <= 64 * BlockCount(total) < total + 64
  {
    if total >= 64 {
      Blocks(total - 64);
    }
  }

  /** Whatever the output buffer held before, a call computes the key stream over its whole
      input exactly when that is shorter than 2^32 bytes. */
  lemma FlatIffShort(s: Secret, c: nat, src: seq<Byte>)
    ensures (forall into: seq<Byte> :: |into| == |src| ==> Flat(s, c, src, into) == Crypt(s, c, src)) <==> |src| < COUNTER
  {
    if |src| < COUNTER {
      forall into: seq<Byte> | |into| == |src| ensures Flat(s, c, src, into) == Crypt(s, c, src) {
        FlatShort(s, c, src, into);
      }
    } else {
      var right := Crypt(s, c, src);
      var at := |src| - 1;
      var into := right[at := if right[at] == 0 then 1 else 0];
      LongKeepsLast(s, c, src, into);
      assert right != Flat(s, c, src, into);
    }
  }

  /** Of a message too long for the length parameter the last byte is never written. */
  lemma LongKeepsLast(s: Secret, c: nat, src: seq<Byte>, into: seq<Byte>)
    requires |into| == |src| >= COUNTER
    ensures Flat(s, c, src, into)[|src| - 1] == into[|src| - 1]
  {
    var n := |src| % COUNTER;
    assert into == into[..n] + into[n..];
  }
}
