/** How the trie works on address bits: words in the byte order of a little-endian host,
    exclusive or and find-last-set, and a precomputed byte and shift per node. */
module AddressBits {
  import opened Sequences
  import opened Words
  import opened Poly1305Spec
  import opened Prefixes

  // ------------------------------------------------------------ bits of numbers

  /** The `w` low bits of a number, most significant first. */
  function BitsOf(x: nat, w: nat): (bits: Bits)
    ensures |bits| == w
    decreases w, x
  {
    if w == 0 then [] else BitsOf(x / 2, w - 1) + [x % 2 == 1]
  }

  /** fls, fls64: one more than the number of the highest set bit, or zero. */
  function Fls(x: nat): nat { if x == 0 then 0 else 1 + Fls(x / 2) }

  /** The characterisation of a common prefix length is unique. */
  lemma CommonUnique(a: Bits, b: Bits, c: nat)
    requires |a| == |b| && c <= |a| && a[..c] == b[..c] && (c < |a| ==> a[c] != b[c])
    ensures CommonBits(a, b) == c
  {
    var d := CommonBits(a, b);
    assert forall i :: 0 <= i < c ==> a[i] == a[..c][i] && b[i] == b[..c][i];
    assert forall i :: 0 <= i < d ==> a[i] == a[..d][i] && b[i] == b[..d][i];
  }

  lemma CommonSnoc(a: Bits, b: Bits, x: bool, y: bool)
    requires |a| == |b|
    ensures CommonBits(a + [x], b + [y]) == if a == b then (if x == y then |a| + 1 else |a|) else CommonBits(a, b)
  {
    var c := if a == b then (if x == y then |a| + 1 else |a|) else CommonBits(a, b);
    assert a == a[..|a|] && b == b[..|b|];
    assert c <= |a| ==> (a + [x])[..c] == a[..c] && (b + [y])[..c] == b[..c];
    CommonUnique(a + [x], b + [y], c);
  }

  lemma {:induction false} BitsInjective(a: nat, b: nat, w: nat)
    requires a < Pow2(w) && b < Pow2(w)
    ensures BitsOf(a, w) == BitsOf(b, w) <==> a == b
    decreases w
  {
    if w > 0 {
      BitsInjective(a / 2, b / 2, w - 1);
      var p, q := BitsOf(a / 2, w - 1), BitsOf(b / 2, w - 1);
      assert BitsOf(a, w)[..w - 1] == p && BitsOf(b, w)[..w - 1] == q;
      assert BitsOf(a, w)[w - 1] == (a % 2 == 1) && BitsOf(b, w)[w - 1] == (b % 2 == 1);
    }
  }

  /** common_bits for one word: the width less the highest bit in which two words differ is
      the number of leading bits they share. */
  lemma {:induction false} XorCountsCommonBits(a: nat, b: nat, w: nat)
    requires a < Pow2(w) && b < Pow2(w)
    ensures Fls(Xor(a, b)) <= w && w - Fls(Xor(a, b)) == CommonBits(BitsOf(a, w), BitsOf(b, w))
    decreases w
  {
    if w > 0 {
      XorCountsCommonBits(a / 2, b / 2, w - 1);
      BitsInjective(a / 2, b / 2, w - 1);
      CommonSnoc(BitsOf(a / 2, w - 1), BitsOf(b / 2, w - 1), a % 2 == 1, b % 2 == 1);
      XorStep(a, b);
      XorZero(a / 2, b / 2);
      FlsStep(Xor(a, b));
      SameParity(a, b);
    }
  }

  lemma FlsStep(x: nat)
    ensures Fls(x) == if x / 2 != 0 then 1 + Fls(x / 2) else x % 2
  {
  }

  // ------------------------------------------------------------ byte orders

  /** The bits of an address in network byte order. */
  function NetBits(net: seq<Byte>): (bits: Bits)
    ensures |bits| == 8 * |net|
  {
    if net == [] then [] else NetBits(net[..|net| - 1]) + BitsOf(net[|net| - 1], 8)
  }

  /** The number that network byte order writes down. */
  function Be(net: seq<Byte>): nat {
    if net == [] then 0 else 256 * Be(net[..|net| - 1]) + net[|net| - 1]
  }

  function Reversed(s: seq<Byte>): (r: seq<Byte>)
    ensures |r| == |s|
  {
    seq(|s|, i requires 0 <= i < |s| => s[|s| - 1 - i])
  }

  /** What swap_endian leaves in memory on a little-endian host: one reversed word for IPv4,
      two for IPv6. */
  function Swapped(net: seq<Byte>): (mem: seq<Byte>)
    requires |net| == 4 || |net| == 16
    ensures |mem| == |net|
  {
    if |net| == 4 then Reversed(net) else Reversed(net[..8]) + Reversed(net[8..])
  }

  /** A word loaded from reversed bytes is the number they meant in network byte order. */
  lemma {:induction false} LoadReversed(net: seq<Byte>)
    ensures Le(Reversed(net)) == Be(net)
  {
    if net != [] {
      LoadReversed(net[..|net| - 1]);
      assert Reversed(net)[1..] == Reversed(net[..|net| - 1]);
    }
  }

  lemma {:induction false} BeBound(net: seq<Byte>)
    ensures Be(net) < Pow2(8 * |net|)
  {
    LoadReversed(net);
    LeBound(Reversed(net));
  }

  lemma {:induction false} BitsConcat(x: nat, b: nat, w: nat, k: nat, m: nat)
    requires m == Pow2(k) && b < m
    ensures BitsOf(m * x + b, w + k) == BitsOf(x, w) + BitsOf(b, k)
    decreases k
  {
    if k > 0 {
      var h := Pow2(k - 1);
      assert m == 2 * h;
      Doubled(h, x, b);
      BitsConcat(x, b / 2, w, k - 1, h);
    } else {
      assert m * x + b == x;
    }
  }

  lemma Doubled(h: nat, x: nat, b: nat)
    ensures ((2 * h) * x + b) / 2 == h * x + b / 2 && ((2 * h) * x + b) % 2 == b % 2
  {
    var p := h * x;
    assert (2 * h) * x == 2 * p;
  }

  /** Word bits are address bits. */
  lemma {:induction false} BitsOfBe(net: seq<Byte>)
    ensures BitsOf(Be(net), 8 * |net|) == NetBits(net)
  {
    if net != [] {
      var init, last := net[..|net| - 1], net[|net| - 1];
      BitsOfBe(init);
      ByteConcat(Be(init), last, 8 * |init|);
      assert 8 * |net| == 8 * |init| + 8 && Be(net) == 256 * Be(init) + last;
    }
  }

  lemma ByteConcat(x: nat, b: Byte, w: nat)
    ensures BitsOf(256 * x + b, w + 8) == BitsOf(x, w) + BitsOf(b, 8)
  {
    BitsConcat(x, b, w, 8, 256);
  }

  // ------------------------------------------------------------ common_bits

  /** common_bits of two addresses as they lie in memory. */
  function CommonBitsOf(node: seq<Byte>, key: seq<Byte>): int
    requires |node| == |key| && (|node| == 4 || |node| == 16)
  {
    if |node| == 4 then 32 - Fls(Xor(Le(node), Le(key)))
    else 128 - Fls128(Xor(Le(node[..8]), Le(key[..8])), Xor(Le(node[8..]), Le(key[8..])))
  }

  function Fls128(a: nat, b: nat): nat { if a != 0 then Fls(a) + 64 else Fls(b) }

  /** Two halves, the second of which counts only when the first agree. */
  lemma {:induction false} CommonHalves(a: Bits, b: Bits, c: Bits, d: Bits)
    requires |a| == |b| && |c| == |d|
    ensures CommonBits(a + c, b + d) == if a == b then |a| + CommonBits(c, d) else CommonBits(a, b)
  {
    if a == b {
      CommonSecond(a, c, d);
    } else {
      CommonFirst(a, b, c, d);
    }
  }

  lemma {:induction false} CommonSecond(a: Bits, c: Bits, d: Bits)
    requires |c| == |d|
    ensures CommonBits(a + c, a + d) == |a| + CommonBits(c, d)
  {
    var n := CommonBits(c, d);
    assert (a + c)[..|a| + n] == a + c[..n] && (a + d)[..|a| + n] == a + d[..n];
    CommonUnique(a + c, a + d, |a| + n);
  }

  lemma {:induction false} CommonFirst(a: Bits, b: Bits, c: Bits, d: Bits)
    requires |a| == |b| && |c| == |d| && a != b
    ensures CommonBits(a + c, b + d) == CommonBits(a, b)
  {
    var n := CommonBits(a, b);
    assert a == a[..|a|] && b == b[..|b|];
    assert n < |a|;
    assert (a + c)[..n] == a[..n] && (b + d)[..n] == b[..n];
    CommonUnique(a + c, b + d, n);
  }

  /** common_bits, through byte swapping, exclusive or and find-last-set, is the length of
      the longest common prefix of the two addresses. */
  lemma {:induction false} CommonBitsOfIs(node: seq<Byte>, key: seq<Byte>)
    requires |node| == |key| && (|node| == 4 || |node| == 16)
    ensures CommonBitsOf(Swapped(node), Swapped(key)) == CommonBits(NetBits(node), NetBits(key))
  {
    if |node| == 4 {
      WordCommon(node, key);
    } else {
      var a, b, c, d := node[..8], node[8..], key[..8], key[8..];
      SwappedHalves(node);
      SwappedHalves(key);
      WordCommon(a, c);
      WordCommon(b, d);
      CommonHalves(NetBits(a), NetBits(c), NetBits(b), NetBits(d));
    }
  }

  lemma {:induction false} SwappedHalves(net: seq<Byte>)
    requires |net| == 16
    ensures Swapped(net)[..8] == Reversed(net[..8]) && Swapped(net)[8..] == Reversed(net[8..])
    ensures NetBits(net) == NetBits(net[..8]) + NetBits(net[8..])
  {
    assert net == net[..8] + net[8..];
    NetBitsConcat(net[..8], net[8..]);
  }

  lemma WordCommon(a: seq<Byte>, b: seq<Byte>)
    requires |a| == |b|
    ensures 8 * |a| - Fls(Xor(Le(Reversed(a)), Le(Reversed(b)))) == CommonBits(NetBits(a), NetBits(b))
    ensures Xor(Le(Reversed(a)), Le(Reversed(b))) == 0 <==> NetBits(a) == NetBits(b)
  {
    LoadReversed(a);
    LoadReversed(b);
    BeBound(a);
    BeBound(b);
    BitsOfBe(a);
    BitsOfBe(b);
    XorCountsCommonBits(Be(a), Be(b), 8 * |a|);
    BitsInjective(Be(a), Be(b), 8 * |a|);
    XorZero(Be(a), Be(b));
  }

  lemma {:induction false} NetBitsConcat(a: seq<Byte>, b: seq<Byte>)
    ensures NetBits(a + b) == NetBits(a) + NetBits(b)
  {
    if b == [] {
      assert a + b == a;
    } else {
      var init, x := b[..|b| - 1], b[|b| - 1];
      NetBitsConcat(a, init);
      assert b == init + [x] && a + b == (a + init) + [x];
      NetBitsSnoc(init, x);
      NetBitsSnoc(a + init, x);
      Associate(NetBits(a), NetBits(init), BitsOf(x, 8));
    }
  }

  lemma {:induction false} NetBitsSnoc(net: seq<Byte>, x: Byte)
    ensures NetBits(net + [x]) == NetBits(net) + BitsOf(x, 8)
  {
    assert (net + [x])[..|net|] == net;
  }

  // ------------------------------------------------------------ choose_node

  /** copy_and_assign_cidr: the byte to look at, in memory order. */
  function BitAtA(cidr: nat, bits: nat): nat
    requires bits >= 8
  {
    Xor(cidr / 8, (bits / 8 - 1) % 8)
  }

  function BitAtB(cidr: nat): nat { 7 - cidr % 8 }

  /** choose_node: which child to descend into. */
  function ChosenBit(mem: seq<Byte>, cidr: nat, bits: nat): nat
    requires bits >= 8 && BitAtA(cidr, bits) < |mem|
  {
    BitOf(mem[BitAtA(cidr, bits)], BitAtB(cidr))
  }

  lemma {:induction false} BitAt(x: nat, w: nat, k: nat)
    requires k < w
    ensures BitsOf(x, w)[k] == (BitOf(x, w - 1 - k) == 1)
    decreases w
  {
    if k < w - 1 {
      BitAt(x / 2, w - 1, k);
    }
  }

  /** Exclusive or with a mask of ones flips the lowest bit and goes on with the next. */
  lemma {:induction false} FlipStep(j: nat, m: nat, h: nat)
    requires m == 2 * h + 1
    ensures Xor(j, m) == 2 * Xor(j / 2, h) + 1 - j % 2
  {
    XorStep(j, m);
    FlipParts(j, m, h, Xor(j, m), Xor(j / 2, m / 2));
    assert m / 2 == h;
  }

  lemma {:induction false} FlipParts(j: nat, m: nat, h: nat, x: nat, y: nat)
    requires m == 2 * h + 1 && x % 2 == (j + m) % 2 && x / 2 == y
    ensures x == 2 * y + 1 - j % 2
  {
    assert x == 2 * (x / 2) + x % 2;
    EvenPlus(j + 1, h);
  }

  lemma {:induction false} Flip1(j: nat, m: nat)
    requires m == 1
    ensures Xor(j, m) == if j % 2 == 0 then j + 1 else j - 1
  {
    FlipStep(j, m, 0);
    XorNothing(j / 2);
  }

  lemma {:induction false} Flip3(j: nat, m: nat)
    requires j < 8 && m == 3
    ensures Xor(j, m) == if j < 4 then 3 - j else 11 - j
  {
    FlipStep(j, m, 1);
    Flip1(j / 2, 1);
  }

  lemma {:induction false} Flip7(j: nat, m: nat)
    requires j < 16 && m == 7
    ensures Xor(j, m) == if j < 8 then 7 - j else 23 - j
  {
    FlipStep(j, m, 3);
    Flip3(j / 2, 3);
  }

  /** Where byte `j` of network order lies in memory. */
  function Place(n: nat, j: nat): (i: nat)
    requires (n == 4 || n == 16) && j < n
    ensures i < n
  {
    if n == 4 then 3 - j else if j < 8 then 7 - j else 23 - j
  }

  lemma SwappedAt(net: seq<Byte>, j: nat)
    requires (|net| == 4 || |net| == 16) && j < |net|
    ensures Swapped(net)[Place(|net|, j)] == net[j]
  {
    if |net| == 16 {
      if j < 8 {
        assert Swapped(net)[7 - j] == Reversed(net[..8])[7 - j];
      } else {
        assert Swapped(net)[23 - j] == Reversed(net[8..])[15 - j];
      }
    }
  }

  lemma BitAtAIsPlace(n: nat, cidr: nat)
    requires (n == 4 || n == 16) && cidr < 8 * n
    ensures BitAtA(cidr, 8 * n) == Place(n, cidr / 8)
  {
    if n == 4 {
      Flip3(cidr / 8, 3);
      assert (8 * n / 8 - 1) % 8 == 3;
    } else {
      Flip7(cidr / 8, 7);
      assert (8 * n / 8 - 1) % 8 == 7;
    }
  }

  lemma {:induction false} NetBitAt(net: seq<Byte>, c: nat)
    requires c < 8 * |net|
    ensures NetBits(net)[c] == (BitOf(net[c / 8], 7 - c % 8) == 1)
  {
    if c < 8 * (|net| - 1) {
      NetBitAt(net[..|net| - 1], c);
    } else {
      BitAt(net[|net| - 1], 8, c % 8);
    }
  }

  /** choose_node follows bit number `cidr` of the address. */
  lemma ChosenBitIs(net: seq<Byte>, cidr: nat)
    requires (|net| == 4 || |net| == 16) && cidr < 8 * |net|
    ensures BitAtA(cidr, 8 * |net|) < |net|
    ensures ChosenBit(Swapped(net), cidr, 8 * |net|) == if NetBits(net)[cidr] then 1 else 0
  {
    BitAtAIsPlace(|net|, cidr);
    SwappedAt(net, cidr / 8);
    NetBitAt(net, cidr);
    ChosenAt(Swapped(net), cidr, 8 * |net|, net[cidr / 8]);
  }

  lemma ChosenAt(mem: seq<Byte>, cidr: nat, bits: nat, x: Byte)
    requires bits >= 8 && BitAtA(cidr, bits) < |mem| && mem[BitAtA(cidr, bits)] == x
    ensures ChosenBit(mem, cidr, bits) == BitOf(x, 7 - cidr % 8)
  {
  }

  // ------------------------------------------------------------ the masked address a walk reports

  function Zeroes(n: nat): (bits: Bits)
    ensures |bits| == n
  {
    seq(n, _ => false)
  }

  lemma {:induction false} BitsOfZero(w: nat)
    ensures BitsOf(0, w) == Zeroes(w)
  {
    if w > 0 {
      BitsOfZero(w - 1);
    }
  }

  /** All ones shifted left by `m`, as a 32-bit word. */
  function HighMask(m: nat): nat { 0xffff_ffff * Pow2(m) % 0x1_0000_0000 }

  lemma HighMaskIs(m: nat)
    requires m < 8
    ensures Pow2(32 - m) > 0 && HighMask(m) == Pow2(m) * (Pow2(32 - m) - 1)
  {
    Pow2At32();
    Pow2Add(m, 32 - m);
    assert Pow2(m) <= 128;
    MaskArithmetic(Pow2(m), Pow2(32 - m));
  }

  lemma MaskArithmetic(p: nat, q: nat)
    requires 1 <= p <= 128 && q > 0 && p * q == 0x1_0000_0000
    ensures 0xffff_ffff * p % 0x1_0000_0000 == p * (q - 1)
  {
    assert p * (q - 1) == 0x1_0000_0000 - p;
  }

  lemma ByteParts(b: Byte, p: nat) returns (low: nat, high: nat)
    requires p > 0
    ensures b == low + p * high && low < p && high < 256
  {
    low, high := b % p, b / p;
  }

  lemma MaskSplit(low: nat, high: nat, m: nat, p: nat, ones: nat)
    requires m < 8 && p == Pow2(m) && low < p && high < 256 && ones == Pow2(32 - m) - 1
    ensures And(low + p * high, p * ones) == p * high
  {
    AndJoin(low, high, 0, ones, m, p, low + p * high, p * ones);
    AndZero(low);
    AndOnes(high, 32 - m);
    AtLeast256(32 - m);
    SmallMod(high, Pow2(32 - m));
  }

  lemma {:induction false} AtLeast256(k: nat)
    requires k >= 8
    ensures Pow2(k) >= 256
  {
    if k > 8 {
      AtLeast256(k - 1);
    }
  }

  lemma SmallMod(x: nat, q: nat)
    requires x < q
    ensures x % q == x
  {
  }

  /** Masking with it keeps the first 8 - m bits and clears the others. */
  lemma {:induction false} MaskedByte(b: Byte, m: nat)
    requires m < 8
    ensures And(b, HighMask(m)) < 256 && BitsOf(And(b, HighMask(m)), 8) == BitsOf(b, 8)[..8 - m] + Zeroes(m)
  {
    var p := Pow2(m);
    var low, high := ByteParts(b, p);
    HighMaskIs(m);
    MaskSplit(low, high, m, p, Pow2(32 - m) - 1);
    MaskedBits(b, m, p, low, high, And(b, HighMask(m)));
  }

  lemma {:induction false} MaskedBits(b: Byte, m: nat, p: nat, low: nat, high: nat, masked: nat)
    requires m < 8 && p == Pow2(m) && b == low + p * high && low < p && masked == p * high
    ensures masked < 256 && BitsOf(masked, 8) == BitsOf(b, 8)[..8 - m] + Zeroes(m)
  {
    BitsConcat(high, low, 8 - m, m, p);
    BitsConcat(high, 0, 8 - m, m, p);
    BitsOfZero(m);
    assert BitsOf(b, 8)[..8 - m] == BitsOf(high, 8 - m);
  }

  lemma MaskedByteAt(b: Byte, m: nat, k: nat)
    requires m < 8 && k < 8
    ensures And(b, HighMask(m)) < 256
    ensures BitOf(And(b, HighMask(m)), 7 - k) == if k < 8 - m then BitOf(b, 7 - k) else 0
  {
    MaskedByte(b, m);
    BitAt(b, 8, k);
    BitAt(And(b, HighMask(m)), 8, k);
  }

  lemma {:induction false} BitOfZero(k: nat)
    ensures BitOf(0, k) == 0
  {
    if k > 0 {
      BitOfZero(k - 1);
    }
  }

  /** The address as walk_by_peer reports it: bits inside the prefix are kept, the others
      are zero. */
  method Masked(net: seq<Byte>, cidr: nat) returns (ip: seq<Byte>)
    requires (|net| == 4 || |net| == 16) && cidr <= 8 * |net|
    ensures |ip| == |net|
    ensures forall c :: 0 <= c < 8 * |net| ==> NetBits(ip)[c] == (c < cidr && NetBits(net)[c])
  {
    var cidrBytes := (cidr + 7) / 8;
    var buffer := new Byte[|net|](i requires 0 <= i < |net| => net[i]);
    var i := cidrBytes;
    while i < |net|
      invariant cidrBytes <= i <= |net|
      invariant forall j :: 0 <= j < |net| ==> buffer[j] == if cidrBytes <= j < i then 0 else net[j]
    {
      buffer[i] := 0;
      i := i + 1;
    }
    if cidr > 0 {
      var m := (8 - cidr % 8) % 8;
      MaskedByte(net[cidrBytes - 1], m);
      buffer[cidrBytes - 1] := And(buffer[cidrBytes - 1], HighMask(m));
    }
    ip := buffer[..];
    forall c | 0 <= c < 8 * |net| ensures NetBits(ip)[c] == (c < cidr && NetBits(net)[c]) {
      MaskedBit(net, ip, cidr, cidrBytes, c);
    }
  }

  lemma MaskedBit(net: seq<Byte>, ip: seq<Byte>, cidr: nat, n: nat, c: nat)
    requires |ip| == |net| && cidr <= 8 * |net| && n == (cidr + 7) / 8 && c < 8 * |net|
    requires forall j :: 0 <= j < |net| ==>
               ip[j] == if j >= n then 0 else if j == n - 1 then And(net[j], HighMask((8 - cidr % 8) % 8)) else net[j]
    ensures NetBits(ip)[c] == (c < cidr && NetBits(net)[c])
  {
    NetBitAt(ip, c);
    NetBitAt(net, c);
    MaskedBitOf(ip[c / 8], net[c / 8], cidr, n, c);
  }

  lemma MaskedBitOf(x: Byte, y: Byte, cidr: nat, n: nat, c: nat)
    requires n == (cidr + 7) / 8
    requires x == if c / 8 >= n then 0 else if c / 8 == n - 1 then And(y, HighMask((8 - cidr % 8) % 8)) else y
    ensures BitOf(x, 7 - c % 8) == 1 <==> c < cidr && BitOf(y, 7 - c % 8) == 1
  {
    Inside(cidr, n, c);
    if c / 8 >= n {
      BitOfZero(7 - c % 8);
    } else if c / 8 == n - 1 {
      MaskedByteAt(y, (8 - cidr % 8) % 8, c % 8);
    }
  }

  lemma Inside(cidr: nat, n: nat, c: nat)
    requires n == (cidr + 7) / 8
    ensures c / 8 >= n ==> c >= cidr
    ensures c / 8 == n - 1 ==> (c < cidr <==> c % 8 < 8 - (8 - cidr % 8) % 8)
    ensures c / 8 < n - 1 ==> c < cidr
  {
  }
}
