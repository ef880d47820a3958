/** The streaming interface of Poly1305: buffering of partial blocks over either limb
    representation. */
module Poly1305 {
  import opened Sequences
  import opened Poly1305Spec
  import opened Poly1305Field
  import opened Poly1305Laws
  import Donna64
  import Donna32

  lemma {:induction false} AccumulateBlocksConcat(acc: nat, r: nat, a: seq<Byte>, b: seq<Byte>, padbit: nat)
    requires |a| % 16 == 0
    ensures AccumulateBlocks(acc, r, a + b, padbit) == AccumulateBlocks(AccumulateBlocks(acc, r, a, padbit), r, b, padbit)
    decreases |a|
  {
    if a == [] {
      assert a + b == b;
    } else {
      var c := a + b;
      assert c[..16] == a[..16] && c[16..] == a[16..] + b;
      AccumulateBlocksConcat(MulP(acc + (Le(a[..16]) + Pow128(padbit)), r), r, a[16..], b, padbit);
    }
  }

  /** The whole message: full blocks with the bit set, then the padded rest. */
  lemma {:induction false} AccumulateSplit(acc: nat, r: nat, head: seq<Byte>, tail: seq<Byte>)
    requires |head| % 16 == 0
    ensures Accumulate(acc, r, head + tail) == Accumulate(AccumulateBlocks(acc, r, head, 1), r, tail)
  {
    AccumulateConcat(acc, r, head, tail);
    AccumulateFullBlocks(acc, r, head);
  }

  /** The accumulator after the whole blocks of `head`. */
  ghost predicate Fed(acc: nat, r: nat, head: seq<Byte>) {
    |head| % 16 == 0 && acc == AccumulateBlocks(0, r, head, 1)
  }

  lemma {:induction false} FedMore(acc: nat, acc': nat, r: nat, head: seq<Byte>, input: seq<Byte>)
    requires Fed(acc, r, head) && |input| % 16 == 0 && acc' == AccumulateBlocks(acc, r, input, 1)
    ensures Fed(acc', r, head + input)
  {
    AccumulateBlocksConcat(0, r, head, input, 1);
  }

  /** The limb representation is fixed when the kernel is built. */
  datatype Engine = Wide(wide: Donna64.State) | Narrow(narrow: Donna32.State) {

    ghost function Repr(): object { match this case Wide(s) => s case Narrow(s) => s }

    ghost predicate Valid()
      reads Repr()
    {
      match this case Wide(s) => s.Valid() case Narrow(s) => s.Valid()
    }

    ghost function R(): nat
      reads Repr()
    {
      match this case Wide(s) => s.r case Narrow(s) => s.r
    }

    ghost function Acc(): nat
      reads Repr()
    {
      match this case Wide(s) => s.acc case Narrow(s) => s.acc
    }

    method Blocks(input: seq<Byte>, padbit: nat)
      requires Valid() && padbit <= 1
      modifies Repr()
      ensures Valid() && R() == old(R()) && Acc() == AccumulateBlocks(old(Acc()), old(R()), input, padbit)
    {
      match this {
        case Wide(s) => s.Blocks(input, padbit);
        case Narrow(s) => s.Blocks(input, padbit);
      }
    }

    method Emit(nonce: seq<Byte>) returns (mac: seq<Byte>)
      requires Valid() && |nonce| == 16
      ensures |mac| == 16 && Le(mac) == Mod128(Acc() + Le(nonce))
    {
      match this {
        case Wide(s) =>
          mac := s.Emit(nonce);
          assert Acc() == s.acc;
        case Narrow(s) =>
          mac := s.Emit(nonce);
          assert Acc() == s.acc;
      }
    }
  }

  method NewEngine(key: seq<Byte>, wide: bool) returns (e: Engine)
    requires |key| == 16
    ensures fresh(e.Repr()) && e.Valid() && e.R() == Clamp(Le(key)) && Fed(e.Acc(), e.R(), [])
  {
    if wide {
      var s := new Donna64.State(key);
      e := Wide(s);
    } else {
      var s := new Donna32.State(key);
      e := Narrow(s);
    }
  }

  /** struct poly1305_ctx.  `head` records the whole blocks already handed to the engine. */
  class Context {
    const engine: Engine
    const nonce: seq<Byte>
    const data: array<Byte>
    var num: nat
    ghost const key: seq<Byte>
    ghost const r: nat
    ghost var head: seq<Byte>

    ghost predicate Valid()
      reads this, data, engine.Repr()
    {
      engine.Repr() != this && engine.Repr() != data && data.Length == 16 && num < 16
      && engine.Valid() && engine.R() == r && Fed(engine.Acc(), r, head)
    }

    /** What was derived from the key. */
    ghost predicate Keyed() {
      |key| == 32 && nonce == key[16..] && r == Clamp(Le(key[..16]))
    }

    /** The message so far. */
    ghost function Absorbed(): seq<Byte>
      requires num <= data.Length
      reads this, data
    {
      head + data[..num]
    }

    /** poly1305_init. */
    constructor (key: seq<Byte>, wide: bool)
      requires |key| == 32
      ensures Valid() && Keyed() && this.key == key && Absorbed() == []
      ensures fresh(data) && fresh(engine.Repr())
    {
      var e := NewEngine(key[..16], wide);
      engine := e;
      nonce := key[16..];
      data := new Byte[16](_ => 0);
      num := 0;
      this.key := key;
      this.r := e.R();
      head := [];
    }

    /** Hand whole blocks to the engine. */
    method Feed(input: seq<Byte>)
      requires Valid() && |input| % 16 == 0
      modifies this`head, engine.Repr()
      ensures Valid() && head == old(head) + input
    {
      ghost var acc := engine.Acc();
      engine.Blocks(input, 1);
      FedMore(acc, engine.Acc(), r, head, input);
      head := head + input;
    }

    /** Copy bytes behind the ones already buffered. */
    method Copy(input: seq<Byte>)
      requires Valid() && num + |input| <= 16
      modifies data
      ensures Valid() && data[..num + |input|] == old(data[..num]) + input
    {
      CopyInto(data, num, input);
    }

    /** poly1305_update: the bytes join the message, wherever the call boundaries fall. */
    method Update(input: seq<Byte>)
      requires Valid()
      modifies this, data, engine.Repr()
      ensures Valid() && Absorbed() == old(Absorbed()) + input
    {
      var rest := input;
      if num > 0 {
        var rem := 16 - num;
        if |input| < rem {
          ghost var was := data[..num];
          Copy(input);
          num := num + |input|;
          Associate(head, was, input);
          return;
        }
        ghost var before, was := head, data[..num];
        Copy(input[..rem]);
        Feed(data[..16]);
        num := 0;
        rest := input[rem..];
        CompleteBlock(before, was, input, rem);
      }
      UpdateAligned(rest);
    }

    /** The rest of an update, from a block boundary on. */
    method UpdateAligned(input: seq<Byte>)
      requires Valid() && num == 0
      modifies this, data, engine.Repr()
      ensures Valid() && Absorbed() == old(Absorbed()) + input
    {
      ghost var before := head;
      assert Absorbed() == before;
      var whole, tail := SplitBlocks(input);
      FeedAll(whole);
      BufferTail(tail);
      Associate(before, whole, tail);
    }

    method FeedAll(whole: seq<Byte>)
      requires Valid() && num == 0 && |whole| % 16 == 0
      modifies this`head, engine.Repr()
      ensures Valid() && head == old(head) + whole
    {
      if |whole| >= 16 {
        Feed(whole);
      }
    }

    method BufferTail(tail: seq<Byte>)
      requires Valid() && num == 0 && |tail| < 16
      modifies this`num, data
      ensures Valid() && num == |tail| && data[..num] == tail
    {
      if |tail| > 0 {
        Copy(tail);
      }
      num := |tail|;
    }

    /** poly1305_final: the tag of section 2.5 of RFC 8439 over everything absorbed. */
    method Final() returns (mac: seq<Byte>)
      requires Valid() && Keyed()
      modifies this, data, engine.Repr()
      ensures |mac| == 16 && Le(mac) == Tag(key, old(Absorbed()))
    {
      ghost var tail := data[..num];
      AccumulateSplit(0, r, head, tail);
      if num > 0 {
        Pad();
        AccumulateLastBlock(engine.Acc(), r, tail, data[num + 1..]);
        engine.Blocks(data[..], 0);
      }
      assert engine.Acc() == Accumulate(0, r, head + tail);
      mac := engine.Emit(nonce);
      Mod128Is(engine.Acc() + Le(nonce));
    }

    /** A one byte and zeroes behind the buffered bytes. */
    method Pad()
      requires Valid() && num > 0
      modifies data
      ensures Valid() && data[..] == old(data[..num]) + [1] + data[num + 1..]
      ensures forall j :: num < j < 16 ==> data[j] == 0
    {
      ghost var tail := data[..num];
      var i := num;
      data[i] := 1;
      i := i + 1;
      while i < 16
        invariant num < i <= 16 && data[..num] == tail && data[num] == 1
        invariant forall j :: num < j < i ==> data[j] == 0
      {
        data[i] := 0;
        i := i + 1;
      }
    }
  }

  /** The whole blocks of an input, and the rest. */
  method SplitBlocks(input: seq<Byte>) returns (whole: seq<Byte>, tail: seq<Byte>)
    ensures whole + tail == input && |whole| % 16 == 0 && |tail| < 16
  {
    var rem := |input| % 16;
    var len := |input| - rem;
    whole, tail := input[..len], input[len..];
  }

  lemma CompleteBlock(head: seq<Byte>, was: seq<Byte>, input: seq<Byte>, rem: nat)
    requires rem <= |input|
    ensures (head + (was + input[..rem])) + [] + input[rem..] == (head + was) + input
  {
    assert input == input[..rem] + input[rem..];
  }

  /** For every key, every message, every way of cutting it into updates, and either limb
      representation, the streamed result is the tag of the whole message: so the two
      representations agree, and call boundaries do not matter. */
  method Mac(key: seq<Byte>, chunks: seq<seq<Byte>>, wide: bool) returns (mac: seq<Byte>)
    requires |key| == 32
    ensures |mac| == 16 && Le(mac) == Tag(key, Flatten(chunks)) && Authenticates(key, Flatten(chunks), mac)
  {
    var ctx := new Context(key, wide);
    for i := 0 to |chunks|
      invariant ctx.Valid() && ctx.Keyed() && ctx.key == key && ctx.Absorbed() == Flatten(chunks[..i])
      invariant fresh(ctx) && fresh(ctx.data) && fresh(ctx.engine.Repr())
    {
      ctx.Update(chunks[i]);
      assert chunks[..i + 1][..i] == chunks[..i];
    }
    assert chunks[..|chunks|] == chunks;
    mac := ctx.Final();
    AuthenticatesIff(key, Flatten(chunks), mac);
  }
}
