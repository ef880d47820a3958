/** Keys in base64: 32 bytes as 43 characters and one '='. */
module Base64Keys {
  import opened Base64
  import opened Base64Bits

  // ------------------------------------------------------------ whole groups

  function Encoded(b: seq<bv8>): (s: seq<bv8>)
    requires |b| == 3
    ensures |s| == 4
  {
    EncodeGroup(b[0], b[1], b[2])
  }

  function Groups(n: nat, b: seq<bv8>): (s: seq<bv8>)
    requires |b| == 3 * n
    ensures |s| == 4 * n
    decreases |b|
  {
    if n == 0 then [] else Groups(n - 1, b[..3 * n - 3]) + Encoded(b[3 * n - 3..])
  }

  function Ungroup(n: nat, s: seq<bv8>): (b: seq<bv8>)
    requires |s| == 4 * n
    ensures |b| == 3 * n
    decreases |s|
  {
    if n == 0 then [] else Ungroup(n - 1, s[..4 * n - 4]) + DecodeGroup(s[4 * n - 4..])
  }

  lemma {:induction false} GroupsInvert(n: nat, s: seq<bv8>, b: seq<bv8>)
    requires |s| == 4 * n && |b| == 3 * n
    ensures s == Groups(n, b) <==> AllInAlphabet(s) && b == Ungroup(n, s)
  {
    GroupsInvertTo(n, s, b, Groups(n, b), Ungroup(n, s));
  }

  lemma {:induction false} GroupsInvertTo(n: nat, s: seq<bv8>, b: seq<bv8>, t: seq<bv8>, d: seq<bv8>)
    requires |s| == 4 * n && |b| == 3 * n && t == Groups(n, b) && d == Ungroup(n, s)
    ensures s == t <==> AllInAlphabet(s) && b == d
    decreases n
  {
    if n > 0 {
      var s0, s1, b0, b1, t0, t1, d0, d1 := SplitGroups(n, s, b);
      GroupsInvertTo(n - 1, s0, b0, t0, d0);
      PartsInvert(s, s0, s1, b, b0, b1, t0, t1, d0, d1);
    }
  }

  /** The last group on either side, and what it stands for on the other. */
  lemma {:induction false} SplitGroups(n: nat, s: seq<bv8>, b: seq<bv8>)
    returns (s0: seq<bv8>, s1: seq<bv8>, b0: seq<bv8>, b1: seq<bv8>, t0: seq<bv8>, t1: seq<bv8>, d0: seq<bv8>, d1: seq<bv8>)
    requires n > 0 && |s| == 4 * n && |b| == 3 * n
    ensures s == s0 + s1 && |s0| == 4 * (n - 1) && b == b0 + b1 && |b0| == 3 * (n - 1)
    ensures t0 == Groups(n - 1, b0) && Groups(n, b) == t0 + t1 && |t1| == 4
    ensures d0 == Ungroup(n - 1, s0) && Ungroup(n, s) == d0 + d1 && |d1| == 3
    ensures s1 == t1 <==> AllInAlphabet(s1) && b1 == d1
  {
    s0, s1, b0, b1 := s[..4 * n - 4], s[4 * n - 4..], b[..3 * n - 3], b[3 * n - 3..];
    t0, t1, d0, d1 := Groups(n - 1, b0), Encoded(b1), Ungroup(n - 1, s0), DecodeGroup(s1);
    GroupsSnoc(n, b, b0, b1);
    UngroupSnoc(n, s, s0, s1);
    OneInverts(s1, b1);
  }

  lemma {:induction false} GroupsSnoc(n: nat, b: seq<bv8>, b0: seq<bv8>, b1: seq<bv8>)
    requires n > 0 && |b| == 3 * n && |b0| == 3 * (n - 1) && b == b0 + b1
    ensures Groups(n, b) == Groups(n - 1, b0) + Encoded(b1)
  {
    assert b[..3 * n - 3] == b0 && b[3 * n - 3..] == b1;
  }

  lemma {:induction false} UngroupSnoc(n: nat, s: seq<bv8>, s0: seq<bv8>, s1: seq<bv8>)
    requires n > 0 && |s| == 4 * n && |s0| == 4 * (n - 1) && s == s0 + s1
    ensures Ungroup(n, s) == Ungroup(n - 1, s0) + DecodeGroup(s1)
  {
    assert s[..4 * n - 4] == s0 && s[4 * n - 4..] == s1;
  }

  lemma {:induction false} OneInverts(s: seq<bv8>, b: seq<bv8>)
    requires |s| == 4 && |b| == 3
    ensures s == Encoded(b) <==> AllInAlphabet(s) && b == DecodeGroup(s)
  {
    GroupInverts(s, b);
  }

  lemma {:induction false} PartsInvert(s: seq<bv8>, s0: seq<bv8>, s1: seq<bv8>, b: seq<bv8>, b0: seq<bv8>, b1: seq<bv8>,
                                       t0: seq<bv8>, t1: seq<bv8>, d0: seq<bv8>, d1: seq<bv8>)
    requires s == s0 + s1 && b == b0 + b1 && |s0| == |t0| && |s1| == |t1| && |b0| == |d0| && |b1| == |d1|
    requires (s0 == t0 <==> AllInAlphabet(s0) && b0 == d0) && (s1 == t1 <==> AllInAlphabet(s1) && b1 == d1)
    ensures s == t0 + t1 <==> AllInAlphabet(s) && b == d0 + d1
  {
    TwoParts(s, s0, s1, t0, t1);
    TwoParts(b, b0, b1, d0, d1);
    AlphabetParts(s, s0, s1);
  }

  lemma TwoParts(s: seq<bv8>, s0: seq<bv8>, s1: seq<bv8>, t0: seq<bv8>, t1: seq<bv8>)
    requires s == s0 + s1 && |s0| == |t0| && |s1| == |t1|
    ensures s == t0 + t1 <==> s0 == t0 && s1 == t1
  {
    if s == t0 + t1 {
      assert s0 == s[..|s0|] && t0 == (t0 + t1)[..|s0|] && s1 == s[|s0|..] && t1 == (t0 + t1)[|s0|..];
    }
  }

  lemma AlphabetParts(s: seq<bv8>, s0: seq<bv8>, s1: seq<bv8>)
    requires s == s0 + s1
    ensures AllInAlphabet(s) <==> AllInAlphabet(s0) && AllInAlphabet(s1)
  {
    if AllInAlphabet(s) {
      assert forall i :: 0 <= i < |s0| ==> s0[i] == s[i];
      assert forall i :: 0 <= i < |s1| ==> s1[i] == s[|s0| + i];
    }
  }

  // ------------------------------------------------------------ keys

  const EQUALS: bv8 := 61
  const LETTER_A: bv8 := 65

  /** Section 4 of RFC 4648 for 32 bytes: the last group has two bytes, the unused bits of
      its third character are zero (section 3.5), and one pad character follows. */
  function ToBase64(key: seq<bv8>): (s: seq<bv8>)
    requires |key| == 32
    ensures |s| == 44
  {
    Groups(10, key[..30]) + Encoded([key[30], key[31], 0])[..3] + [EQUALS]
  }

  /** Character by character: each stands for six bits of the key, zeroes behind its end, and
      the last one is the pad. */
  ghost predicate Spelled(key: seq<bv8>, s: seq<bv8>) {
    |s| == 44 && s[43] == EQUALS && forall i :: 0 <= i < 43 ==> SpelledAt(key, s, i)
  }

  lemma {:induction false} GroupsAt(n: nat, b: seq<bv8>, x: seq<bv8>, g: nat, r: nat, c: seq<bv8>, y: seq<bv8>)
    requires |b| == 3 * n && x == Groups(n, b) && g < n && r < 4 && c == b[3 * g..3 * g + 3] && y == Encoded(c)
    ensures x[4 * g + r] == y[r]
    decreases n
  {
    var b0, b1 := b[..3 * n - 3], b[3 * n - 3..];
    var x0, x1 := Groups(n - 1, b0), Encoded(b1);
    GroupsSnoc(n, b, b0, b1);
    if g < n - 1 {
      assert b0[3 * g..3 * g + 3] == c;
      GroupsAt(n - 1, b0, x0, g, r, c, y);
      InFront(x, x0, x1, 4 * g + r);
    } else {
      assert b1 == c;
      Behind(x, x0, x1, r);
    }
  }

  lemma {:induction false} InFront(x: seq<bv8>, x0: seq<bv8>, x1: seq<bv8>, i: nat)
    requires x == x0 + x1 && i < |x0|
    ensures x[i] == x0[i]
  {
  }

  lemma {:induction false} Behind(x: seq<bv8>, x0: seq<bv8>, x1: seq<bv8>, i: nat)
    requires x == x0 + x1 && i < |x1|
    ensures x[|x0| + i] == x1[i]
  {
  }

  /** Group `g` of a key. */
  function Third(key: seq<bv8>, g: nat): (c: seq<bv8>)
    requires |key| == 32 && g < 11
    ensures |c| == 3
  {
    if g < 10 then key[3 * g..3 * g + 3] else [key[30], key[31], 0]
  }

  lemma {:induction false} CharacterAt(key: seq<bv8>, g: nat, r: nat)
    requires |key| == 32 && g < 11 && r < 4 && 4 * g + r < 43
    ensures ToBase64(key)[4 * g + r] == Encoded(Third(key, g))[r]
  {
    var c := Third(key, g);
    if g < 10 {
      CharacterIn(key, g, r, 10, key[..30], Groups(10, key[..30]), Encoded([key[30], key[31], 0])[..3] + [EQUALS], ToBase64(key), c, Encoded(c));
    } else {
      Behind(ToBase64(key), Groups(10, key[..30]), Encoded(c)[..3] + [EQUALS], r);
    }
  }

  lemma {:induction false} CharacterIn(key: seq<bv8>, g: nat, r: nat, n: nat, b: seq<bv8>, x: seq<bv8>, tail: seq<bv8>, s: seq<bv8>,
                                       c: seq<bv8>, y: seq<bv8>)
    requires g < n && r < 4 && 3 * n <= |key| && b == key[..3 * n] && x == Groups(n, b) && s == x + tail
    requires c == key[3 * g..3 * g + 3] && y == Encoded(c)
    ensures s[4 * g + r] == y[r]
  {
    assert b[3 * g..3 * g + 3] == c;
    GroupsAt(n, b, x, g, r, c, y);
    InFront(s, x, tail, 4 * g + r);
  }

  lemma {:induction false} ThirdBit(key: seq<bv8>, g: nat, c: seq<bv8>, k: nat)
    requires |key| == 32 && g < 11 && k < 24 && c == Third(key, g)
    ensures BitAt(key, 24 * g + k) <==> BitAt(c, k)
  {
    BitsWithin(key, g, c, k);
  }

  lemma {:induction false} GroupInKey(key: seq<bv8>, s: seq<bv8>, g: nat, r: nat, c: seq<bv8>, t: seq<bv8>)
    requires |key| == 32 && g < 11 && r < 4 && 4 * g + r < |s| && c == Third(key, g) && |t| == 4
    requires s[4 * g + r] == t[r] && SpelledAt(c, t, r)
    ensures SpelledAt(key, s, 4 * g + r)
  {
    forall k | 0 <= k < 24 ensures BitAt(key, 24 * g + k) <==> BitAt(c, k) {
      ThirdBit(key, g, c, k);
    }
    SpelledWithin(key, s, g, c, t, r);
  }

  lemma {:induction false} EncodingSpelled(key: seq<bv8>, s: seq<bv8>, g: nat, r: nat)
    requires |key| == 32 && g < 11 && r < 4 && 4 * g + r < 43 && s == ToBase64(key)
    ensures SpelledAt(key, s, 4 * g + r)
  {
    CharacterAt(key, g, r);
    GroupSpelled(Third(key, g), Encoded(Third(key, g)), r);
    GroupInKey(key, s, g, r, Third(key, g), Encoded(Third(key, g)));
  }

  /** Exactly one string spells a key, its encoding. */
  lemma {:induction false} SpelledIff(key: seq<bv8>, s: seq<bv8>)
    requires |key| == 32
    ensures Spelled(key, s) <==> s == ToBase64(key)
  {
    OneSpelling(key, s, ToBase64(key));
  }

  lemma {:induction false} OneSpelling(key: seq<bv8>, s: seq<bv8>, t: seq<bv8>)
    requires |key| == 32 && t == ToBase64(key) && |t| == 44 && t[43] == EQUALS
    ensures Spelled(key, s) <==> s == t
  {
    forall i | 0 <= i < 43 ensures SpelledAt(key, t, i) {
      EncodingSpelled(key, t, i / 4, i % 4);
    }
    if Spelled(key, s) {
      forall i | 0 <= i < 44 ensures s[i] == t[i] {
        if i < 43 {
          SameCharacter(key, s, t, i);
        }
      }
    }
  }

  /** key_to_base64, without the terminating NUL. */
  method KeyToBase64(key: seq<bv8>) returns (s: seq<bv8>)
    requires |key| == 32
    ensures s == ToBase64(key) && Spelled(key, s)
  {
    s := [];
    var i := 0;
    while i < 10
      invariant 0 <= i <= 10 && s == Groups(i, key[..3 * i])
    {
      var four := EncodeThree(key[3 * i], key[3 * i + 1], key[3 * i + 2]);
      GroupsNext(key, i);
      s := s + four;
      i := i + 1;
    }
    var four := EncodeThree(key[30], key[31], 0);
    s := s + four[..3] + [EQUALS];
    SpelledIff(key, s);
  }

  lemma GroupsNext(key: seq<bv8>, i: nat)
    requires 3 * i + 3 <= |key|
    ensures Groups(i + 1, key[..3 * i + 3]) == Groups(i, key[..3 * i]) + EncodeGroup(key[3 * i], key[3 * i + 1], key[3 * i + 2])
  {
    var done := key[..3 * i + 3];
    assert done[..3 * i] == key[..3 * i] && done[3 * i..] == [key[3 * i], key[3 * i + 1], key[3 * i + 2]];
  }

  lemma UngroupNext(s: seq<bv8>, i: nat)
    requires 4 * i + 4 <= |s|
    ensures Ungroup(i + 1, s[..4 * i + 4]) == Ungroup(i, s[..4 * i]) + DecodeGroup(s[4 * i..4 * i + 4])
    ensures AllInAlphabet(s[..4 * i + 4]) <==> AllInAlphabet(s[..4 * i]) && AllInAlphabet(s[4 * i..4 * i + 4])
  {
    var done := s[..4 * i + 4];
    assert done[..4 * i] == s[..4 * i] && done[4 * i..] == s[4 * i..4 * i + 4];
    AlphabetParts(done, s[..4 * i], s[4 * i..4 * i + 4]);
  }

  /** The test that key_from_base64 accumulates in `ret`. */
  ghost predicate Canonical(s: seq<bv8>) {
    |s| == 44 && s[43] == EQUALS && AllInAlphabet(s[..40])
    && AllInAlphabet(s[40..43] + [LETTER_A]) && DecodeGroup(s[40..43] + [LETTER_A])[2] == 0
  }

  function Decoded(s: seq<bv8>): (key: seq<bv8>)
    requires |s| == 44
    ensures |key| == 32
  {
    Ungroup(10, s[..40]) + DecodeGroup(s[40..43] + [LETTER_A])[..2]
  }

  /** The accepted strings are exactly the encodings, and decoding inverts encoding. */
  lemma CanonicalIffEncoding(s: seq<bv8>, key: seq<bv8>)
    requires |key| == 32
    ensures s == ToBase64(key) <==> Canonical(s) && key == Decoded(s)
  {
    if |s| == 44 {
      EncodingParts(s, key);
      GroupsInvert(10, s[..40], key[..30]);
      LastInverts(s[40..43] + [LETTER_A], key[30], key[31]);
      DecodedParts(s, key);
    }
  }

  lemma DecodedParts(s: seq<bv8>, key: seq<bv8>)
    requires |key| == 32 && |s| == 44
    ensures key == Decoded(s)
       <==> key[..30] == Ungroup(10, s[..40]) && [key[30], key[31]] == DecodeGroup(s[40..43] + [LETTER_A])[..2]
  {
    var tail := [key[30], key[31]];
    assert key == key[..30] + tail;
    TwoParts(key, key[..30], tail, Ungroup(10, s[..40]), DecodeGroup(s[40..43] + [LETTER_A])[..2]);
  }

  lemma EncodingParts(s: seq<bv8>, key: seq<bv8>)
    requires |key| == 32 && |s| == 44
    ensures s == ToBase64(key)
       <==> s[..40] == Groups(10, key[..30]) && s[40..43] + [LETTER_A] == Encoded([key[30], key[31], 0]) && s[43] == EQUALS
  {
    var group := [key[30], key[31], 0];
    ThreeParts(s, Groups(10, key[..30]), Encoded(group)[..3]);
    LastGroup(s, s[40..43] + [LETTER_A], group);
  }

  lemma LastInverts(last: seq<bv8>, a: bv8, b: bv8)
    requires |last| == 4
    ensures last == Encoded([a, b, 0]) <==> AllInAlphabet(last) && DecodeGroup(last)[2] == 0 && [a, b] == DecodeGroup(last)[..2]
  {
    GroupInverts(last, [a, b, 0]);
    TwoThenZero(DecodeGroup(last), a, b);
  }

  lemma TwoThenZero(d: seq<bv8>, a: bv8, b: bv8)
    requires |d| == 3
    ensures [a, b, 0] == d <==> d[2] == 0 && [a, b] == d[..2]
  {
    assert d == d[..2] + [d[2]];
  }

  lemma ThreeParts(s: seq<bv8>, t0: seq<bv8>, t1: seq<bv8>)
    requires |s| == 44 && |t0| == 40 && |t1| == 3
    ensures s == t0 + t1 + [EQUALS] <==> s[..40] == t0 && s[40..43] == t1 && s[43] == EQUALS
  {
    var t := t0 + t1 + [EQUALS];
    assert t[..40] == t0 && t[40..43] == t1 && t[43] == EQUALS;
    assert s == s[..40] + s[40..43] + [s[43]];
  }

  /** A last byte of zero makes the last character an A. */
  lemma LastGroup(s: seq<bv8>, last: seq<bv8>, group: seq<bv8>)
    requires |s| == 44 && last == s[40..43] + [LETTER_A] && |group| == 3 && group[2] == 0
    ensures s[40..43] == Encoded(group)[..3] <==> last == Encoded(group)
  {
    EncodedZero(group[0], group[1]);
    assert Encoded(group) == Encoded(group)[..3] + [LETTER_A];
  }

  lemma EncodedZero(a: bv8, b: bv8)
    ensures EncodeGroup(a, b, 0)[3] == LETTER_A
  {
    InputIsSextets(a, b, 0);
  }

  /** Decode one group and note in `ret` whether a character was bad. */
  method TakeGroup(s: seq<bv8>, signed: bool, ret: bv8) returns (val: bv32, noted: bv8)
    requires |s| == 4
    ensures [High(val), Middle(val), Low(val)] == DecodeGroup(s)
    ensures noted == 0 <==> ret == 0 && AllInAlphabet(s)
  {
    val := DecodeFour(s, signed);
    SignOfValue(s);
    noted := ret | (((val >> 31) & 0xff) as bv8);
    SignNoted(val >> 31, ret);
  }

  lemma SignNoted(sign: bv32, ret: bv8)
    requires sign <= 1
    ensures ret | ((sign & 0xff) as bv8) == 0 <==> ret == 0 && sign == 0
  {
  }

  /** The branch-free final test. */
  lemma FinalTest(ret: bv8)
    ensures 1 & Sar8((ret as bv32) - 1) == if ret == 0 then 1 else 0
  {
  }

  lemma OrZero(r: bv8, x: bv8)
    ensures r | x == 0 <==> r == 0 && x == 0
  {
  }

  /** The loop over the whole groups. */
  method WholeGroups(s: seq<bv8>, n: nat, signed: bool) returns (ret: bv8, key: seq<bv8>)
    requires 4 * n <= |s|
    ensures key == Ungroup(n, s[..4 * n]) && (ret == 0 <==> AllInAlphabet(s[..4 * n]))
  {
    ret, key := 0, [];
    var i := 0;
    while i < n
      invariant 0 <= i <= n && key == Ungroup(i, s[..4 * i])
      invariant ret == 0 <==> AllInAlphabet(s[..4 * i])
    {
      ret, key := NextGroup(s, i, signed, ret, key);
      i := i + 1;
    }
  }

  method NextGroup(s: seq<bv8>, i: nat, signed: bool, ret: bv8, key: seq<bv8>) returns (noted: bv8, longer: seq<bv8>)
    requires 4 * i + 4 <= |s| && key == Ungroup(i, s[..4 * i]) && (ret == 0 <==> AllInAlphabet(s[..4 * i]))
    ensures longer == Ungroup(i + 1, s[..4 * (i + 1)]) && (noted == 0 <==> AllInAlphabet(s[..4 * (i + 1)]))
  {
    var val;
    val, noted := TakeGroup(s[4 * i..4 * i + 4], signed, ret);
    UngroupNext(s, i);
    longer := key + [High(val), Middle(val), Low(val)];
    assert s[..4 * i + 4] == s[..4 * (i + 1)];
  }

  /** key_from_base64: accepts exactly the encodings of keys, and returns the key. */
  method KeyFromBase64(s: seq<bv8>, signed: bool) returns (ok: bool, key: seq<bv8>)
    ensures ok <==> exists k :: |k| == 32 && Spelled(k, s)
    ensures ok ==> |key| == 32 && s == ToBase64(key) && Spelled(key, s)
  {
    AcceptedIff(s);
    if |s| != 44 || s[43] != EQUALS {
      return false, [];
    }
    var ret, front := WholeGroups(s, 10, signed);
    ok, key := LastGroupOf(s, signed, ret, front);
  }

  lemma AcceptedIff(s: seq<bv8>)
    ensures Canonical(s) <==> exists k :: |k| == 32 && Spelled(k, s)
    ensures Canonical(s) ==> s == ToBase64(Decoded(s)) && Spelled(Decoded(s), s)
  {
    forall k | |k| == 32 && Spelled(k, s) ensures Canonical(s) {
      SpelledIff(k, s);
      CanonicalIffEncoding(s, k);
    }
    if Canonical(s) {
      CanonicalIffEncoding(s, Decoded(s));
      SpelledIff(Decoded(s), s);
    }
  }

  method LastGroupOf(s: seq<bv8>, signed: bool, ret: bv8, front: seq<bv8>) returns (ok: bool, key: seq<bv8>)
    requires |s| == 44 && s[43] == EQUALS && front == Ungroup(10, s[..40]) && (ret == 0 <==> AllInAlphabet(s[..40]))
    ensures (ok <==> Canonical(s)) && key == Decoded(s)
  {
    var last := s[40..43] + [LETTER_A];
    var val, noted := TakeGroup(last, signed, ret);
    OrZero(noted, Low(val));
    noted := noted | Low(val);
    key := front + [High(val), Middle(val)];
    ghost var d := DecodeGroup(last);
    assert d[..2] == [High(val), Middle(val)] && d[2] == Low(val);
    FinalTest(noted);
    ok := 1 & Sar8((noted as bv32) - 1) == 1;
  }

  /** Keys survive the way there and back. */
  method RoundTrip(key: seq<bv8>, signed: bool) returns (ok: bool, back: seq<bv8>)
    requires |key| == 32
    ensures ok && back == key
  {
    var s := KeyToBase64(key);
    ok, back := KeyFromBase64(s, signed);
    CanonicalIffEncoding(s, key);
    CanonicalIffEncoding(s, back);
  }
}
