/** The branch-free base64 codec for keys, against the alphabet of section 4 of RFC 4648. */
module Base64 {
  import opened Wrappers

  // ------------------------------------------------------------ the alphabet

  /** Table 1 of RFC 4648. */
  function Alphabet(i: bv8): bv8 {
    if i < 26 then i + 65             // 'A'..'Z'
    else if i < 52 then i - 26 + 97   // 'a'..'z'
    else if i < 62 then i - 52 + 48   // '0'..'9'
    else if i == 62 then 43           // '+'
    else 47                           // '/'
  }

  /** The position of a character in the alphabet. */
  function Position(c: bv8): Option<bv8> {
    if 65 <= c <= 90 then Some(c - 65)
    else if 97 <= c <= 122 then Some(c - 97 + 26)
    else if 48 <= c <= 57 then Some(c - 48 + 52)
    else if c == 43 then Some(62)
    else if c == 47 then Some(63)
    else None
  }

  lemma PositionInverts(c: bv8, i: bv8)
    ensures Position(c) == Some(i) <==> i < 64 && Alphabet(i) == c
  {
  }

  // ------------------------------------------------------------ the arithmetic on characters

  /** An arithmetic shift right by 8 of a 32-bit int. */
  function Sar8(x: bv32): bv32 { if x >= 0x8000_0000 then (x >> 8) | 0xff00_0000 else x >> 8 }

  /** The formula of encode_base64, in 32-bit ints, truncated to a char. */
  function EncodeChar(x: bv8): bv8 {
    var w := x as bv32;
    ((w + 65 + (Sar8(25 - w) & 6) - (Sar8(51 - w) & 75) - (Sar8(61 - w) & 15) + (Sar8(62 - w) & 3)) & 0xff) as bv8
  }

  lemma EncodeCharIsAlphabet(x: bv8)
    requires x < 64
    ensures EncodeChar(x) == Alphabet(x)
  {
  }

  /** A char as an int; whether chars are signed depends on the platform. */
  function Promote(c: bv8, signed: bool): bv32 { if signed && c >= 0x80 then (c as bv32) | 0xffff_ff00 else c as bv32 }

  /** All ones when `w` lies strictly between the bounds, zero otherwise. */
  function Between(w: bv32, low: bv32, high: bv32): bv32 { Sar8((low - w) & (w - high)) }

  /** The summand of decode_base64 for one character: its position, or minus one. */
  function DecodeChar(c: bv8, signed: bool): bv32 {
    var w := Promote(c, signed);
    0xffff_ffff
    + (Between(w, 64, 91) & (w - 64))
    + (Between(w, 96, 123) & (w - 70))
    + (Between(w, 47, 58) & (w + 5))
    + (Between(w, 42, 44) & 63)
    + (Between(w, 46, 48) & 64)
  }

  lemma BetweenIs(c: bv8, signed: bool, low: bv8, high: bv8)
    requires 32 <= low < high < 128
    ensures Between(Promote(c, signed), low as bv32, high as bv32) == if low < c < high then 0xffff_ffff else 0
  {
  }

  lemma DecodeCharIsPosition(c: bv8, signed: bool)
    ensures DecodeChar(c, signed) == match Position(c) case Some(i) => i as bv32 case None => 0xffff_ffff
  {
    BetweenIs(c, signed, 64, 91);
    BetweenIs(c, signed, 96, 123);
    BetweenIs(c, signed, 47, 58);
    BetweenIs(c, signed, 42, 44);
    BetweenIs(c, signed, 46, 48);
  }

  // ------------------------------------------------------------ groups of three bytes

  /** Three bytes as one 24-bit number, first byte highest. */
  function Join(a: bv8, b: bv8, c: bv8): bv32 { ((a as bv32) << 16) | ((b as bv32) << 8) | (c as bv32) }

  /** The four 6-bit groups of a 24-bit number, highest first. */
  function Sextets(v: bv32): (s: seq<bv8>)
    ensures |s| == 4 && forall i :: 0 <= i < 4 ==> s[i] < 64
  {
    [((v >> 18) & 63) as bv8, ((v >> 12) & 63) as bv8, ((v >> 6) & 63) as bv8, (v & 63) as bv8]
  }

  /** One group as RFC 4648 encodes it. */
  function EncodeGroup(a: bv8, b: bv8, c: bv8): (s: seq<bv8>)
    ensures |s| == 4
  {
    var x := Sextets(Join(a, b, c));
    [Alphabet(x[0]), Alphabet(x[1]), Alphabet(x[2]), Alphabet(x[3])]
  }

  /** The shifts of encode_base64 compute the 6-bit groups. */
  lemma InputIsSextets(a: bv8, b: bv8, c: bv8)
    ensures Input(a, b, c) == Sextets(Join(a, b, c))
  {
  }

  /** encode_base64. */
  method EncodeThree(a: bv8, b: bv8, c: bv8) returns (dest: seq<bv8>)
    ensures dest == EncodeGroup(a, b, c)
  {
    var input := Input(a, b, c);
    InputIsSextets(a, b, c);
    dest := [];
    var i := 0;
    while i < 4
      invariant 0 <= i <= 4 && |dest| == i && |input| == 4 && (forall j :: 0 <= j < 4 ==> input[j] < 64)
      invariant forall j :: 0 <= j < i ==> dest[j] == Alphabet(input[j])
    {
      EncodeCharIsAlphabet(input[i]);
      dest := dest + [EncodeChar(input[i])];
      i := i + 1;
    }
  }

  predicate AllInAlphabet(s: seq<bv8>) { forall i :: 0 <= i < |s| ==> Position(s[i]).Some? }

  /** The summand of one character: its position, or minus one. */
  function Summand(p: Option<bv8>): bv32 { match p case Some(i) => i as bv32 case None => 0xffff_ffff }

  method DecodeOne(c: bv8, signed: bool) returns (d: bv32)
    ensures d == Summand(Position(c))
  {
    DecodeCharIsPosition(c, signed);
    d := DecodeChar(c, signed);
  }

  /** The value decode_base64 puts together. */
  function Pack(p: bv32, q: bv32, r: bv32, t: bv32): bv32 { (p << 18) | (q << 12) | (r << 6) | t }

  function DecodeValue(s: seq<bv8>): bv32
    requires |s| == 4
  {
    Pack(Summand(Position(s[0])), Summand(Position(s[1])), Summand(Position(s[2])), Summand(Position(s[3])))
  }

  lemma OrInTurn(p: bv32, q: bv32, r: bv32, t: bv32)
    ensures (((0 | (p << 18)) | (q << 12)) | (r << 6)) | t == Pack(p, q, r, t)
  {
  }

  /** decode_base64. */
  method DecodeFour(s: seq<bv8>, signed: bool) returns (val: bv32)
    requires |s| == 4
    ensures val == DecodeValue(s)
  {
    var p := DecodeOne(s[0], signed);
    var q := DecodeOne(s[1], signed);
    var r := DecodeOne(s[2], signed);
    var t := DecodeOne(s[3], signed);
    val := (((0 | (p << 18)) | (q << 12)) | (r << 6)) | t;
    OrInTurn(p, q, r, t);
  }

  function High(v: bv32): bv8 { ((v >> 16) & 0xff) as bv8 }
  function Middle(v: bv32): bv8 { ((v >> 8) & 0xff) as bv8 }
  function Low(v: bv32): bv8 { (v & 0xff) as bv8 }

  lemma SignOfPack(p: bv32, q: bv32, r: bv32, t: bv32)
    requires (p < 64 || p == 0xffff_ffff) && (q < 64 || q == 0xffff_ffff) && (r < 64 || r == 0xffff_ffff) && (t < 64 || t == 0xffff_ffff)
    ensures Pack(p, q, r, t) >> 31 == if p < 64 && q < 64 && r < 64 && t < 64 then 0 else 1
  {
  }

  lemma BytesOfPack(p: bv8, q: bv8, r: bv8, t: bv8)
    requires p < 64 && q < 64 && r < 64 && t < 64
    ensures var v := Pack(p as bv32, q as bv32, r as bv32, t as bv32);
            High(v) == (p << 2) | (q >> 4) && Middle(v) == (q << 4) | (r >> 2) && Low(v) == (r << 6) | t
  {
  }

  lemma SextetsOfBytes(p: bv8, q: bv8, r: bv8, t: bv8, a: bv8, b: bv8, c: bv8)
    requires p < 64 && q < 64 && r < 64 && t < 64
    ensures a == (p << 2) | (q >> 4) && b == (q << 4) | (r >> 2) && c == (r << 6) | t
       <==> p == (a >> 2) & 63 && q == ((a << 4) | (b >> 4)) & 63 && r == ((b << 2) | (c >> 6)) & 63 && t == c & 63
  {
  }

  lemma PositionSmall(c: bv8)
    ensures Position(c).Some? ==> Position(c).value < 64
  {
  }

  /** The sign bit tells a bad character. */
  lemma SignOfValue(s: seq<bv8>)
    requires |s| == 4
    ensures DecodeValue(s) >> 31 == if AllInAlphabet(s) then 0 else 1
  {
    var p, q, r, t := Position(s[0]), Position(s[1]), Position(s[2]), Position(s[3]);
    PositionSmall(s[0]);
    PositionSmall(s[1]);
    PositionSmall(s[2]);
    PositionSmall(s[3]);
    SignOfSummands(p, q, r, t);
    assert AllInAlphabet(s) <==> p.Some? && q.Some? && r.Some? && t.Some?;
  }

  lemma SignOfSummands(p: Option<bv8>, q: Option<bv8>, r: Option<bv8>, t: Option<bv8>)
    requires (p.Some? ==> p.value < 64) && (q.Some? ==> q.value < 64) && (r.Some? ==> r.value < 64) && (t.Some? ==> t.value < 64)
    ensures Pack(Summand(p), Summand(q), Summand(r), Summand(t)) >> 31 == if p.Some? && q.Some? && r.Some? && t.Some? then 0 else 1
  {
    SignOfPack(Summand(p), Summand(q), Summand(r), Summand(t));
  }

  /** The bytes decode_base64's caller takes out of the value. */
  function DecodeGroup(s: seq<bv8>): (b: seq<bv8>)
    requires |s| == 4
    ensures |b| == 3
  {
    [High(DecodeValue(s)), Middle(DecodeValue(s)), Low(DecodeValue(s))]
  }

  function Positions(s: seq<bv8>): (x: seq<bv8>)
    requires |s| == 4 && AllInAlphabet(s)
    ensures |x| == 4
  {
    [Position(s[0]).value, Position(s[1]).value, Position(s[2]).value, Position(s[3]).value]
  }

  /** Three bytes out of four 6-bit groups. */
  function Bytes(x: seq<bv8>): (b: seq<bv8>)
    requires |x| == 4
    ensures |b| == 3
  {
    [(x[0] << 2) | (x[1] >> 4), (x[1] << 4) | (x[2] >> 2), (x[2] << 6) | x[3]]
  }

  lemma DecodeGroupIsBytes(s: seq<bv8>)
    requires |s| == 4 && AllInAlphabet(s)
    ensures DecodeGroup(s) == Bytes(Positions(s)) && forall i :: 0 <= i < 4 ==> Positions(s)[i] < 64
  {
    PositionSmall(s[0]);
    PositionSmall(s[1]);
    PositionSmall(s[2]);
    PositionSmall(s[3]);
    var p, q, r, t := Position(s[0]).value, Position(s[1]).value, Position(s[2]).value, Position(s[3]).value;
    DecodeAt(s, p, q, r, t);
    assert Positions(s) == [p, q, r, t];
  }

  lemma DecodeAt(s: seq<bv8>, p: bv8, q: bv8, r: bv8, t: bv8)
    requires |s| == 4 && p < 64 && q < 64 && r < 64 && t < 64
    requires Position(s[0]) == Some(p) && Position(s[1]) == Some(q) && Position(s[2]) == Some(r) && Position(s[3]) == Some(t)
    ensures DecodeGroup(s) == Bytes([p, q, r, t])
  {
    var v := Pack(p as bv32, q as bv32, r as bv32, t as bv32);
    assert DecodeValue(s) == v;
    BytesOfPack(p, q, r, t);
    ThreeBytes(v, p, q, r, t);
  }

  lemma ThreeBytes(v: bv32, p: bv8, q: bv8, r: bv8, t: bv8)
    requires High(v) == (p << 2) | (q >> 4) && Middle(v) == (q << 4) | (r >> 2) && Low(v) == (r << 6) | t
    ensures [High(v), Middle(v), Low(v)] == Bytes([p, q, r, t])
  {
  }

  /** The four values encode_base64 starts from. */
  function Input(a: bv8, b: bv8, c: bv8): (x: seq<bv8>)
    ensures |x| == 4
  {
    [(a >> 2) & 63, ((a << 4) | (b >> 4)) & 63, ((b << 2) | (c >> 6)) & 63, c & 63]
  }

  lemma InputOfBytes(x: seq<bv8>)
    requires |x| == 4 && forall i :: 0 <= i < 4 ==> x[i] < 64
    ensures Input(Bytes(x)[0], Bytes(x)[1], Bytes(x)[2]) == x
  {
    SextetsOfBytes(x[0], x[1], x[2], x[3], Bytes(x)[0], Bytes(x)[1], Bytes(x)[2]);
  }

  lemma BytesOfInput(b: seq<bv8>)
    requires |b| == 3
    ensures Bytes(Input(b[0], b[1], b[2])) == b
  {
    var x := Input(b[0], b[1], b[2]);
    SextetsOfBytes(x[0], x[1], x[2], x[3], b[0], b[1], b[2]);
  }

  /** Four characters decode to three bytes exactly when those encode to them. */
  lemma GroupInverts(s: seq<bv8>, b: seq<bv8>)
    requires |s| == 4 && |b| == 3
    ensures s == EncodeGroup(b[0], b[1], b[2]) <==> AllInAlphabet(s) && b == DecodeGroup(s)
  {
    EncodeIffPositions(s, Sextets(Join(b[0], b[1], b[2])));
    if AllInAlphabet(s) {
      DecodeGroupIsBytes(s);
      InputOfBytes(Positions(s));
      BytesOfInput(b);
      InputIsSextets(b[0], b[1], b[2]);
    }
  }

  lemma EncodeIffPositions(s: seq<bv8>, x: seq<bv8>)
    requires |s| == 4 && |x| == 4 && forall i :: 0 <= i < 4 ==> x[i] < 64
    ensures s == [Alphabet(x[0]), Alphabet(x[1]), Alphabet(x[2]), Alphabet(x[3])]
       <==> AllInAlphabet(s) && x == Positions(s)
  {
    PositionInverts(s[0], x[0]);
    PositionInverts(s[1], x[1]);
    PositionInverts(s[2], x[2]);
    PositionInverts(s[3], x[3]);
  }
}
