/** Base64 as a bit string: which bit of the bytes every bit of every character is. */
module Base64Bits {
  import opened Wrappers
  import opened Base64

  // The bits of a byte and of a 6-bit group, highest first.
  function ByteMask(j: nat): bv8 {
    match j case 0 => 0x80 case 1 => 0x40 case 2 => 0x20 case 3 => 0x10 case 4 => 0x08 case 5 => 0x04 case 6 => 0x02 case _ => 0x01
  }

  function GroupMask(j: nat): bv8 {
    match j case 0 => 0x20 case 1 => 0x10 case 2 => 0x08 case 3 => 0x04 case 4 => 0x02 case _ => 0x01
  }

  predicate ByteBit(x: bv8, j: nat) { x & ByteMask(j) != 0 }
  predicate GroupBit(x: bv8, j: nat) { x & GroupMask(j) != 0 }

  /** Bit `k` of a byte string, counted from its start; zero behind its end. */
  predicate BitAt(b: seq<bv8>, k: nat) { k / 8 < |b| && ByteBit(b[k / 8], k % 8) }

  /** Character `i` stands for bits 6 i to 6 i + 5. */
  ghost predicate SpelledAt(b: seq<bv8>, s: seq<bv8>, i: nat)
    requires i < |s|
  {
    Position(s[i]).Some? && forall j :: 0 <= j < 6 ==> (GroupBit(Position(s[i]).value, j) <==> BitAt(b, 6 * i + j))
  }

  /** The four sextets of three bytes, bit by bit. */
  lemma FirstBits(a: bv8, b: bv8, c: bv8, j: nat)
    requires j < 6
    ensures GroupBit(Input(a, b, c)[0], j) <==> ByteBit(a, j)
  {
  }

  lemma SecondBits(a: bv8, b: bv8, c: bv8, j: nat)
    requires j < 6
    ensures GroupBit(Input(a, b, c)[1], j) <==> if j < 2 then ByteBit(a, 6 + j) else ByteBit(b, j - 2)
  {
  }

  lemma ThirdBits(a: bv8, b: bv8, c: bv8, j: nat)
    requires j < 6
    ensures GroupBit(Input(a, b, c)[2], j) <==> if j < 4 then ByteBit(b, 4 + j) else ByteBit(c, j - 4)
  {
  }

  lemma FourthBits(a: bv8, b: bv8, c: bv8, j: nat)
    requires j < 6
    ensures GroupBit(Input(a, b, c)[3], j) <==> ByteBit(c, 2 + j)
  {
  }

  lemma {:induction false} BitIs(b: seq<bv8>, k: nat, d: nat, q: nat)
    requires k == 8 * d + q && q < 8 && d < |b|
    ensures BitAt(b, k) <==> ByteBit(b[d], q)
  {
  }

  /** Which byte, and which bit of it, bit j of sextet r is. */
  lemma {:induction false} WhichBit(r: nat, j: nat) returns (d: nat, q: nat)
    requires r < 4 && j < 6
    ensures 6 * r + j == 8 * d + q && q < 8 && d < 3
    ensures r == 0 ==> d == 0 && q == j
    ensures r == 1 ==> if j < 2 then d == 0 && q == 6 + j else d == 1 && q == j - 2
    ensures r == 2 ==> if j < 4 then d == 1 && q == 4 + j else d == 2 && q == j - 4
    ensures r == 3 ==> d == 2 && q == 2 + j
  {
    d, q := (6 * r + j) / 8, (6 * r + j) % 8;
  }

  lemma {:induction false} InputBit(b: seq<bv8>, x: seq<bv8>, r: nat, j: nat, d: nat, q: nat)
    requires |b| == 3 && r < 4 && j < 6 && x == Input(b[0], b[1], b[2]) && d < 3
    requires r == 0 ==> d == 0 && q == j
    requires r == 1 ==> if j < 2 then d == 0 && q == 6 + j else d == 1 && q == j - 2
    requires r == 2 ==> if j < 4 then d == 1 && q == 4 + j else d == 2 && q == j - 4
    requires r == 3 ==> d == 2 && q == 2 + j
    ensures GroupBit(x[r], j) <==> ByteBit(b[d], q)
  {
    match r
    case 0 => FirstBits(b[0], b[1], b[2], j);
    case 1 => SecondBits(b[0], b[1], b[2], j);
    case 2 => ThirdBits(b[0], b[1], b[2], j);
    case _ => FourthBits(b[0], b[1], b[2], j);
  }

  lemma {:induction false} SextetBit(b: seq<bv8>, x: seq<bv8>, r: nat, j: nat)
    requires |b| == 3 && r < 4 && j < 6 && x == Input(b[0], b[1], b[2])
    ensures GroupBit(x[r], j) <==> BitAt(b, 6 * r + j)
  {
    var d, q := WhichBit(r, j);
    BitIs(b, 6 * r + j, d, q);
    InputBit(b, x, r, j, d, q);
  }

  lemma {:induction false} GroupSpelled(b: seq<bv8>, s: seq<bv8>, r: nat)
    requires |b| == 3 && r < 4 && s == EncodeGroup(b[0], b[1], b[2])
    ensures SpelledAt(b, s, r)
  {
    var x := Input(b[0], b[1], b[2]);
    InputIsSextets(b[0], b[1], b[2]);
    PositionInverts(s[r], x[r]);
    forall j | 0 <= j < 6 ensures GroupBit(Position(s[r]).value, j) <==> BitAt(b, 6 * r + j) {
      SextetBit(b, x, r, j);
    }
  }

  /** The bits of a character determine it. */
  lemma SameGroup(x: bv8, y: bv8)
    requires x < 64 && y < 64
    requires GroupBit(x, 0) == GroupBit(y, 0) && GroupBit(x, 1) == GroupBit(y, 1) && GroupBit(x, 2) == GroupBit(y, 2)
    requires GroupBit(x, 3) == GroupBit(y, 3) && GroupBit(x, 4) == GroupBit(y, 4) && GroupBit(x, 5) == GroupBit(y, 5)
    ensures x == y
  {
  }

  lemma {:induction false} SameCharacter(b: seq<bv8>, s: seq<bv8>, t: seq<bv8>, i: nat)
    requires i < |s| && i < |t| && SpelledAt(b, s, i) && SpelledAt(b, t, i)
    ensures s[i] == t[i]
  {
    var x, y := Position(s[i]).value, Position(t[i]).value;
    PositionInverts(s[i], x);
    PositionInverts(t[i], y);
    forall j | 0 <= j < 6 ensures GroupBit(x, j) == GroupBit(y, j) {
      assert GroupBit(Position(s[i]).value, j) <==> BitAt(b, 6 * i + j);
    }
    SameGroup(x, y);
  }

  /** A group within a longer string. */
  lemma {:induction false} SpelledWithin(b: seq<bv8>, s: seq<bv8>, g: nat, c: seq<bv8>, t: seq<bv8>, r: nat)
    requires |c| == 3 && |t| == 4 && r < 4 && 4 * g + r < |s| && s[4 * g + r] == t[r] && SpelledAt(c, t, r)
    requires forall k :: 0 <= k < 24 ==> (BitAt(b, 24 * g + k) <==> BitAt(c, k))
    ensures SpelledAt(b, s, 4 * g + r)
  {
    var i := 4 * g + r;
    forall j | 0 <= j < 6 ensures GroupBit(Position(s[i]).value, j) <==> BitAt(b, 6 * i + j) {
      assert BitAt(b, 24 * g + (6 * r + j)) <==> BitAt(c, 6 * r + j);
      assert 6 * i + j == 24 * g + (6 * r + j);
      assert GroupBit(Position(t[r]).value, j) <==> BitAt(c, 6 * r + j);
    }
  }

  /** The bits of three bytes from byte 3 g on, or of fewer at the end. */
  lemma {:induction false} BitsWithin(b: seq<bv8>, g: nat, c: seq<bv8>, k: nat)
    requires |c| == 3 && k < 24 && forall i :: 0 <= i < 3 ==> c[i] == if 3 * g + i < |b| then b[3 * g + i] else 0
    ensures BitAt(b, 24 * g + k) <==> BitAt(c, k)
  {
    assert (24 * g + k) / 8 == 3 * g + k / 8 && (24 * g + k) % 8 == k % 8;
    NoBits(k % 8);
  }

  lemma NoBits(j: nat)
    ensures !ByteBit(0, j)
  {
  }
}
