/** Sequences cut into pieces, and copied into arrays. */
module Sequences {

  ghost function Flatten<T>(pieces: seq<seq<T>>): seq<T> {
    if pieces == [] then [] else Flatten(pieces[..|pieces| - 1]) + pieces[|pieces| - 1]
  }

  lemma FlattenSnoc<T>(pieces: seq<seq<T>>, piece: seq<T>)
    ensures Flatten(pieces + [piece]) == Flatten(pieces) + piece
  {
    assert (pieces + [piece])[..|pieces|] == pieces;
  }

  lemma Associate<T>(a: seq<T>, b: seq<T>, c: seq<T>)
    ensures (a + b) + c == a + (b + c)
  {
  }

  /** memcpy behind the first `at` elements of a buffer. */
  method CopyInto<T>(data: array<T>, at: nat, input: seq<T>)
    requires at + |input| <= data.Length
    modifies data
    ensures data[..at + |input|] == old(data[..at]) + input
  {
    ghost var was := data[..at];
    forall i | 0 <= i < |input| {
      data[at + i] := input[i];
    }
    forall i | 0 <= i < at + |input| ensures data[i] == (was + input)[i] {
      assert i >= at ==> data[at + (i - at)] == input[i - at];
    }
    assert data[..at + |input|] == was + input;
  }

  /** memset of everything behind the first `at` elements. */
  method FillFrom<T>(data: array<T>, at: nat, x: T)
    requires at <= data.Length
    modifies data
    ensures data[..] == old(data[..at]) + seq(data.Length - at, _ => x)
  {
    ghost var was := data[..at];
    forall i | at <= i < data.Length {
      data[i] := x;
    }
    assert data[..at] == was;
  }
}
