/** The buffered implementation of BLAKE2s, which holds back the last block. */
module Blake2s {
  import opened Sequences
  import opened Words
  import opened Poly1305Spec
  import opened AeadSpec
  import opened Blake2sSpec

  // ------------------------------------------------------------ whole blocks

  /** Mix in whole blocks, none of them the last. */
  function Fold(f: Compression, h: seq<nat>, t: nat, data: seq<Byte>): seq<nat>
    requires |data| % 64 == 0
    decreases |data|
  {
    if data == [] then h else Fold(f, Mix(f, h, data[..64], t + 64, false), t + 64, data[64..])
  }

  lemma {:induction false} DigestSplit(f: Compression, h: seq<nat>, t: nat, head: seq<Byte>, tail: seq<Byte>)
    requires |head| % 64 == 0 && (head == [] || tail != [])
    ensures Digest(f, h, t, head + tail) == Digest(f, Fold(f, h, t, head), t + |head|, tail)
    decreases |head|
  {
    if head == [] {
      assert head + tail == tail;
    } else {
      var g, rest := Mix(f, h, head[..64], t + 64, false), head[64..];
      DigestStep(f, h, t, head, tail);
      FoldStep(f, h, t, head);
      DigestSplit(f, g, t + 64, rest, tail);
    }
  }

  lemma {:induction false} DigestStep(f: Compression, h: seq<nat>, t: nat, head: seq<Byte>, tail: seq<Byte>)
    requires |head| >= 64 && tail != []
    ensures Digest(f, h, t, head + tail) == Digest(f, Mix(f, h, head[..64], t + 64, false), t + 64, head[64..] + tail)
  {
    assert (head + tail)[..64] == head[..64] && (head + tail)[64..] == head[64..] + tail;
  }

  lemma {:induction false} FoldStep(f: Compression, h: seq<nat>, t: nat, data: seq<Byte>)
    requires data != [] && |data| % 64 == 0
    ensures |data| >= 64 && |data[64..]| % 64 == 0
    ensures Fold(f, h, t, data) == Fold(f, Mix(f, h, data[..64], t + 64, false), t + 64, data[64..])
  {
  }

  lemma {:induction false} WholeSum(a: nat, b: nat)
    requires a % 64 == 0 && b % 64 == 0
    ensures (a + b) % 64 == 0
  {
    var p, q := a / 64, b / 64;
    assert a == 64 * p && b == 64 * q;
    assert a + b == 64 * (p + q);
  }

  /** One more block at the end. */
  lemma {:induction false} FoldSnoc(f: Compression, h: seq<nat>, t: nat, a: seq<Byte>, block: seq<Byte>)
    requires |a| % 64 == 0 && |block| == 64
    ensures |a + block| % 64 == 0 && Fold(f, h, t, a + block) == Mix(f, Fold(f, h, t, a), block, t + |a| + 64, false)
    decreases |a|
  {
    WholeSum(|a|, 64);
    if a == [] {
      assert a + block == block && block[..64] == block && block[64..] == [];
    } else {
      FoldSnoc(f, Mix(f, h, a[..64], t + 64, false), t + 64, a[64..], block);
      assert (a + block)[..64] == a[..64] && (a + block)[64..] == a[64..] + block;
    }
  }

  // ------------------------------------------------------------ the counter

  /** blake2s_increment_counter: detecting the carry by comparing the sum with the increment
      gives the two words of the exact count, modulo 2^64. */
  method Increment(t0: nat, t1: nat, inc: nat, ghost count: nat) returns (u0: nat, u1: nat)
    requires inc < WORD && t0 == LowWord(count) && t1 == HighWord(count)
    ensures u0 == LowWord(count + inc) && u1 == HighWord(count + inc)
  {
    u0 := (t0 + inc) % WORD;
    u1 := (t1 + if u0 < inc then 1 else 0) % WORD;
    Carry(count, inc);
  }

  lemma Carry(count: nat, inc: nat)
    requires inc < WORD
    ensures LowWord(count + inc) == (LowWord(count) + inc) % WORD
    ensures HighWord(count + inc) == (HighWord(count) + if LowWord(count + inc) < inc then 1 else 0) % WORD
  {
    var q, r := count / WORD, count % WORD;
    assert count == q * WORD + r;
    if r + inc < WORD {
      assert (count + inc) / WORD == q && (count + inc) % WORD == r + inc;
    } else {
      assert count + inc == (q + 1) * WORD + (r + inc - WORD);
      assert (count + inc) / WORD == q + 1 && (count + inc) % WORD == r + inc - WORD;
    }
    assert q == q / WORD * WORD + q % WORD;
  }

  // ------------------------------------------------------------ the implementation

  /** struct blake2s_state. */
  class State {
    const f: Compression
    const buf: array<Byte>
    var h: seq<nat>
    var t0: nat
    var t1: nat
    var last: bool
    var buflen: nat
    ghost const start: seq<nat>
    ghost var done: seq<Byte>        // the bytes already compressed

    /** The chaining value and the counter are those of the compressed bytes. */
    ghost predicate Compressed()
      reads this
    {
      |done| % 64 == 0 && h == Fold(f, start, 0, done) && t0 == LowWord(|done|) && t1 == HighWord(|done|)
    }

    /** After the first byte at least one is always held back, and at most 64 are. */
    ghost predicate Valid()
      reads this
    {
      buf.Length == 64 && buflen <= 64 && !last && Compressed() && (done != [] ==> buflen > 0)
    }

    ghost function Absorbed(): seq<Byte>
      requires buflen <= buf.Length
      reads this, buf
    {
      done + buf[..buflen]
    }

    /** blake2s_init_param; the parameter block only determines the first chaining value. */
    constructor (f: Compression, start: seq<nat>)
      ensures Valid() && this.f == f && this.start == start && Absorbed() == [] && fresh(buf)
    {
      this.f := f;
      this.start := start;
      h, t0, t1, last, buflen := start, 0, 0, false, 0;
      buf := new Byte[64](_ => 0);
      done := [];
    }

    /** One turn of the loop in blake2s_compress, for a block that is not the last. */
    method CompressBlock(block: seq<Byte>)
      requires Compressed() && !last && |block| == 64
      modifies this`h, this`t0, this`t1, this`done
      ensures Compressed() && done == old(done) + block
    {
      t0, t1 := Increment(t0, t1, 64, |done|);
      h := f(h, block, t0, t1, last);
      FoldSnoc(f, start, 0, done, block);
      done := done + block;
    }

    /** blake2s_compress of whole blocks that are not the last. */
    method Compress(blocks: seq<Byte>)
      requires Compressed() && !last && |blocks| % 64 == 0
      modifies this`h, this`t0, this`t1, this`done
      ensures Compressed() && done == old(done) + blocks
    {
      var rest := blocks;
      while rest != []
        invariant Compressed() && |rest| % 64 == 0 && done + rest == old(done) + blocks
        decreases |rest|
      {
        ghost var before := done;
        CompressBlock(rest[..64]);
        FirstBlock(before, rest);
        rest := rest[64..];
      }
    }

    /** Append to the buffered bytes. */
    method Copy(input: seq<Byte>)
      requires buf.Length == 64 && buflen + |input| <= 64
      modifies buf, this`buflen
      ensures buflen == old(buflen) + |input| && buf[..buflen] == old(buf[..buflen]) + input
    {
      CopyInto(buf, buflen, input);
      buflen := buflen + |input|;
    }

    /** blake2s_update: the bytes join the message, wherever the call boundaries fall. */
    method Update(input: seq<Byte>)
      requires Valid()
      modifies this, buf
      ensures Valid() && Absorbed() == old(Absorbed()) + input
    {
      var fill := 64 - buflen;
      if |input| == 0 {
        assert Absorbed() + input == Absorbed();
        return;
      }
      if |input| > fill {
        ghost var before := Absorbed();
        Flush(input[..fill]);
        UpdateFlushed(input[fill..]);
        assert input == input[..fill] + input[fill..];
        Associate(before, input[..fill], input[fill..]);
      } else {
        ghost var kept := buf[..buflen];
        Copy(input);
        Associate(done, kept, input);
      }
    }

    /** The rest of an update, after the buffer was compressed. */
    method UpdateFlushed(input: seq<Byte>)
      requires buf.Length == 64 && !last && Compressed() && buflen == 0 && input != []
      modifies this, buf
      ensures Valid() && Absorbed() == old(Absorbed()) + input
    {
      assert Absorbed() == done;
      var rest := input;
      if |input| > 64 {
        rest := CompressMost(input);
      }
      Copy(rest);
      assert buf[..buflen] == rest;
    }

    /** Compress all but the last 1 to 64 bytes. */
    method CompressMost(input: seq<Byte>) returns (rest: seq<Byte>)
      requires Compressed() && !last && |input| > 64
      modifies this`h, this`t0, this`t1, this`done
      ensures Compressed() && 1 <= |rest| <= 64 && done + rest == old(done) + input
    {
      var whole := HoldBack(|input|);
      Compress(input[..whole]);
      rest := input[whole..];
      assert input == input[..whole] + rest;
      Associate(old(done), input[..whole], rest);
    }

    /** Fill up the buffer and compress it. */
    method Flush(input: seq<Byte>)
      requires buf.Length == 64 && !last && Compressed() && buflen + |input| == 64
      modifies this`h, this`t0, this`t1, this`done, this`buflen, buf
      ensures Compressed() && buflen == 0 && Absorbed() == old(Absorbed()) + input && done != []
    {
      ghost var kept := buf[..buflen];
      Copy(input);
      assert buf[..] == kept + input;
      Compress(buf[..]);
      buflen := 0;
      assert done == (old(done) + kept) + input;
    }

    /** Zeroes behind the buffered bytes. */
    method Pad()
      requires buf.Length == 64 && buflen <= 64
      modifies buf
      ensures buf[..] == Filled(old(buf[..buflen]))
    {
      FillFrom(buf, buflen, 0);
    }

    /** blake2s_final. */
    method Final(outlen: nat) returns (out: seq<Byte>)
      requires Valid() && outlen <= 32
      modifies this, buf
      ensures out == Output(Digest(f, start, 0, old(Absorbed())))[..outlen]
    {
      ghost var tail := buf[..buflen];
      LastBlock(f, start, done, tail);
      last := true;
      Pad();
      t0, t1 := Increment(t0, t1, buflen, |done|);
      h := f(h, buf[..], t0, t1, last);
      assert h == Digest(f, start, 0, done + tail);
      out := Output(h)[..outlen];
    }
  }

  lemma {:induction false} LastBlock(f: Compression, start: seq<nat>, done: seq<Byte>, tail: seq<Byte>)
    requires |done| % 64 == 0 && |tail| <= 64 && (done == [] || tail != [])
    ensures Digest(f, start, 0, done + tail) == Mix(f, Fold(f, start, 0, done), Filled(tail), |done| + |tail|, true)
  {
    DigestSplit(f, start, 0, done, tail);
  }

  lemma FirstBlock(done: seq<Byte>, rest: seq<Byte>)
    requires |rest| >= 64 && |rest| % 64 == 0
    ensures (done + rest[..64]) + rest[64..] == done + rest && |rest[64..]| % 64 == 0
  {
    assert rest == rest[..64] + rest[64..];
  }

  /** One block less than strictly possible: at least one byte stays. */
  method HoldBack(n: nat) returns (whole: nat)
    requires n > 64
    ensures whole % 64 == 0 && n - 64 <= whole < n
  {
    var nblocks := (n + 63) / 64;
    whole := 64 * (nblocks - 1);
  }

  // ------------------------------------------------------------ every way of cutting a message

  /** However the message is cut into updates, the result is the hash of the whole. */
  method Hash(f: Compression, start: seq<nat>, chunks: seq<seq<Byte>>, outlen: nat) returns (out: seq<Byte>)
    requires outlen <= 32
    ensures out == Plain(f, start, Flatten(chunks))[..outlen]
    ensures exists full :: |full| == 32 && Hashes(f, start, Flatten(chunks), full) && out == full[..outlen]
  {
    var state := new State(f, start);
    for i := 0 to |chunks|
      invariant state.Valid() && state.f == f && state.start == start && state.Absorbed() == Flatten(chunks[..i])
      invariant fresh(state) && fresh(state.buf)
    {
      state.Update(chunks[i]);
      assert chunks[..i + 1][..i] == chunks[..i];
    }
    assert chunks[..|chunks|] == chunks;
    out := state.Final(outlen);
    HashesIff(f, start, Flatten(chunks), Plain(f, start, Flatten(chunks)));
  }

  // ------------------------------------------------------------ HMAC

  lemma SwitchPads(k: seq<Byte>)
    ensures XorAll(XorAll(k, 0x36), XorByte(0x5c, 0x36)) == XorAll(k, 0x5c)
  {
    forall i | 0 <= i < |k| ensures XorAll(XorAll(k, 0x36), XorByte(0x5c, 0x36))[i] == XorAll(k, 0x5c)[i] {
      XorSwitch(k[i], 0x36, 0x5c);
    }
  }

  /** The loop that pads the key in place. */
  method XorInPlace(x: array<Byte>, pad: Byte)
    modifies x
    ensures x[..] == XorAll(old(x[..]), pad)
  {
    ghost var was := x[..];
    var i := 0;
    while i < x.Length
      invariant i <= x.Length
      invariant forall j :: 0 <= j < i ==> x[j] == XorByte(was[j], pad)
      invariant forall j :: i <= j < x.Length ==> x[j] == was[j]
    {
      x[i] := XorByte(x[i], pad);
      i := i + 1;
    }
    assert x[..] == XorAll(was, pad);
  }

  /** blake2s_hmac. */
  method ComputeHmac(f: Compression, start: seq<nat>, key: seq<Byte>, input: seq<Byte>, outlen: nat) returns (out: seq<Byte>)
    requires outlen <= 32
    ensures out == Hmac(f, start, key, input)[..outlen]
    ensures exists full :: |full| == 32 && Keyed(f, start, key, input, full) && out == full[..outlen]
  {
    var k := key;
    if |key| > 64 {
      k := HashTwo(f, start, [], key);
      assert [] + key == key;
    }
    var xKey := new Byte[64](i requires 0 <= i => if i < |k| then k[i] else 0);
    ghost var filled := xKey[..];
    assert filled == Filled(k);
    XorInPlace(xKey, 0x36);
    var inner := HashTwo(f, start, xKey[..], input);
    SwitchPads(filled);
    XorInPlace(xKey, XorByte(0x5c, 0x36));
    var outer := HashTwo(f, start, xKey[..], inner);
    out := outer[..outlen];
    KeyedIff(f, start, key, input, outer);
  }

  /** Initialise, update twice, finish. */
  method HashTwo(f: Compression, start: seq<nat>, first: seq<Byte>, second: seq<Byte>) returns (out: seq<Byte>)
    ensures out == Plain(f, start, first + second)
  {
    var state := new State(f, start);
    state.Update(first);
    assert [] + first == first;
    state.Update(second);
    out := state.Final(32);
  }
}
