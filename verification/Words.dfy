/** Machine words as natural numbers: wrapping arithmetic and bitwise operations. */
module Words {

  function Pow2(n: nat): (p: nat)
    ensures p > 0
  {
    if n == 0 then 1 else 2 * Pow2(n - 1)
  }

  lemma {:induction false} Pow2Add(a: nat, b: nat)
    ensures Pow2(a + b) == Pow2(a) * Pow2(b)
  {
    if a > 0 {
      Pow2Add(a - 1, b);
      Assoc3(2, Pow2(a - 1), Pow2(b));
    }
  }

  lemma Pow2Sum(a: nat, b: nat, x: nat, y: nat)
    requires Pow2(a) == x && Pow2(b) == y
    ensures Pow2(a + b) == x * y
  {
    Pow2Add(a, b);
  }

  lemma Pow2At20() ensures Pow2(20) == 0x10_0000 { Pow2Sum(10, 10, 0x400, 0x400); }

  lemma Pow2At26() ensures Pow2(26) == 0x400_0000 { Pow2At20(); Pow2Sum(6, 20, 0x40, 0x10_0000); }

  lemma Pow2At32() ensures Pow2(32) == 0x1_0000_0000 { Pow2At20(); Pow2Sum(12, 20, 0x1000, 0x10_0000); }

  lemma Pow2At40() ensures Pow2(40) == 0x100_0000_0000 { Pow2At20(); Pow2Sum(20, 20, 0x10_0000, 0x10_0000); }

  lemma Pow2At44() ensures Pow2(44) == 0x1000_0000_0000 { Pow2At40(); Pow2Sum(4, 40, 0x10, 0x100_0000_0000); }

  lemma Pow2At64() ensures Pow2(64) == 0x1_0000_0000_0000_0000 {
    Pow2At20();
    Pow2At44();
    Pow2Sum(20, 44, 0x10_0000, 0x1000_0000_0000);
  }

  lemma Pow2At128() ensures Pow2(128) == 0x1_0000_0000_0000_0000_0000_0000_0000_0000 {
    Pow2At64();
    Pow2Sum(64, 64, 0x1_0000_0000_0000_0000, 0x1_0000_0000_0000_0000);
  }

  // ------------------------------------------------------------ wrapping arithmetic

  function Add32(x: nat, y: nat): (r: nat)
    ensures r < 0x1_0000_0000 && (x + y < 0x1_0000_0000 ==> r == x + y)
  {
    (x + y) % 0x1_0000_0000
  }

  function Mul32(x: nat, y: nat): (r: nat)
    ensures r < 0x1_0000_0000 && (x * y < 0x1_0000_0000 ==> r == x * y)
  {
    (x * y) % 0x1_0000_0000
  }

  function Add64(x: nat, y: nat): (r: nat)
    ensures r < 0x1_0000_0000_0000_0000 && (x + y < 0x1_0000_0000_0000_0000 ==> r == x + y)
  {
    (x + y) % 0x1_0000_0000_0000_0000
  }

  function Sub64(x: nat, y: nat): (r: nat)
    requires x < 0x1_0000_0000_0000_0000 && y < 0x1_0000_0000_0000_0000
    ensures r == if y <= x then x - y else x + 0x1_0000_0000_0000_0000 - y
  {
    (x + 0x1_0000_0000_0000_0000 - y) % 0x1_0000_0000_0000_0000
  }

  function Sub32(x: nat, y: nat): (r: nat)
    requires x < 0x1_0000_0000 && y < 0x1_0000_0000
    ensures r == if y <= x then x - y else x + 0x1_0000_0000 - y
  {
    (x + 0x1_0000_0000 - y) % 0x1_0000_0000
  }

  function Mul64(x: nat, y: nat): (r: nat)
    ensures r < 0x1_0000_0000_0000_0000 && (x * y < 0x1_0000_0000_0000_0000 ==> r == x * y)
  {
    (x * y) % 0x1_0000_0000_0000_0000
  }

  function Add128(x: nat, y: nat): (r: nat)
    ensures x + y < 0x1_0000_0000_0000_0000_0000_0000_0000_0000 ==> r == x + y
  {
    (x + y) % 0x1_0000_0000_0000_0000_0000_0000_0000_0000
  }

  function Mul128(x: nat, y: nat): (r: nat)
    ensures x * y < 0x1_0000_0000_0000_0000_0000_0000_0000_0000 ==> r == x * y
  {
    (x * y) % 0x1_0000_0000_0000_0000_0000_0000_0000_0000
  }

  function Low32(x: nat): (r: nat)
    ensures r < 0x1_0000_0000 && (x < 0x1_0000_0000 ==> r == x)
  {
    x % 0x1_0000_0000
  }

  function Low64(x: nat): (r: nat)
    ensures r < 0x1_0000_0000_0000_0000 && (x < 0x1_0000_0000_0000_0000 ==> r == x)
  {
    x % 0x1_0000_0000_0000_0000
  }

  // ------------------------------------------------------------ bitwise operations

  function And(x: nat, y: nat): nat
    decreases x
  {
    if x == 0 then 0 else (if x % 2 == 1 && y % 2 == 1 then 1 else 0) + 2 * And(x / 2, y / 2)
  }

  function Or(x: nat, y: nat): nat
    decreases x + y
  {
    if x == 0 then y
    else if y == 0 then x
    else (if x % 2 == 1 || y % 2 == 1 then 1 else 0) + 2 * Or(x / 2, y / 2)
  }

  function Xor(x: nat, y: nat): nat
    decreases x + y
  {
    if x == 0 then y
    else if y == 0 then x
    else (x + y) % 2 + 2 * Xor(x / 2, y / 2)
  }

  lemma {:induction false} AndZero(x: nat)
    ensures And(x, 0) == 0
  {
    if x != 0 { AndZero(x / 2); }
  }

  lemma {:induction false} AndLe(x: nat, y: nat)
    ensures And(x, y) <= x && And(x, y) <= y
  {
    if x != 0 { AndLe(x / 2, y / 2); }
  }

  /** Masking with k ones takes the low k bits. */
  lemma {:induction false} AndOnes(x: nat, k: nat)
    ensures And(x, Pow2(k) - 1) == x % Pow2(k)
    decreases k
  {
    if k == 0 {
      AndZero(x);
    } else {
      AndOnes(x / 2, k - 1);
      AndOdd(x, Pow2(k - 1) - 1);
      HalfMod(x, Pow2(k - 1));
    }
  }

  lemma {:induction false} AndOdd(x: nat, m: nat)
    ensures And(x, 2 * m + 1) == x % 2 + 2 * And(x / 2, m)
  {
    EvenPlus(1, m);
  }

  lemma HalfMod(x: nat, m: nat)
    requires m > 0
    ensures x % (2 * m) == x % 2 + 2 * ((x / 2) % m)
  {
    var q, r := (x / 2) / m, (x / 2) % m;
    assert x / 2 == m * q + r;
    assert x == (2 * m) * q + (2 * r + x % 2);
    DivModUnique(x, 2 * m, q, 2 * r + x % 2);
  }

  lemma DivModUnique(x: nat, m: nat, q: nat, r: nat)
    requires m > 0 && r < m && x == m * q + r
    ensures x / m == q && x % m == r
  {
    var q', r' := x / m, x % m;
    assert m * (q - q') == r' - r;
    if q > q' { MulAtLeast(m, q - q'); }
    if q < q' { MulAtLeast(m, q' - q); }
  }

  lemma MulBound(a: nat, b: nat, x: nat, y: nat)
    requires a <= x && b <= y
    ensures a * b <= x * y
  {
    assert a * b <= a * y;
    assert a * y <= x * y;
  }

  lemma MulAtLeast(m: nat, k: nat)
    requires k >= 1
    ensures m * k >= m
  {
  }

  /** Reducing modulo a multiple of m first changes nothing modulo m. */
  lemma ModOfMod(x: nat, m: nat, k: nat)
    requires m > 0 && k > 0
    ensures m * k > 0 && (x % (m * k)) % m == x % m
  {
    var n := m * k;
    MulAtLeast(m, k);
    var q, y := x / n, x % n;
    var a, b := y / m, y % m;
    Collected(x, m, k, n, q, y, a, b);
    DivModUnique(x, m, k * q + a, b);
  }

  lemma {:induction false} Collected(x: nat, m: nat, k: nat, n: nat, q: nat, y: nat, a: nat, b: nat)
    requires n == m * k && x == n * q + y && y == m * a + b
    ensures x == m * (k * q + a) + b
  {
    Assoc3(m, k, q);
  }

  /** Shifting left within a word keeps the low bits. */
  lemma ShiftWraps(x: nat, m: nat, k: nat)
    requires m > 0 && k > 0
    ensures m * k > 0 && (x * k) % (m * k) == k * (x % m)
  {
    MulAtLeast(m, k);
    var q, r := x / m, x % m;
    assert x == m * q + r;
    assert x * k == (m * k) * q + k * r;
    assert k * r < m * k;
    DivModUnique(x * k, m * k, q, k * r);
  }

  lemma EvenPlus(a: nat, t: nat)
    ensures (a + 2 * t) / 2 == a / 2 + t && (a + 2 * t) % 2 == a % 2
  {
  }

  lemma Assoc3(a: nat, b: nat, c: nat)
    ensures (a * b) * c == a * (b * c)
  {
  }

  /** x shifted left by k bits, without a word size. */
  function Shl(x: nat, k: nat): nat
    decreases k
  {
    if k == 0 then x else 2 * Shl(x, k - 1)
  }

  lemma {:induction false} ShlIs(x: nat, k: nat)
    ensures Shl(x, k) == Pow2(k) * x
  {
    if k > 0 {
      ShlIs(x, k - 1);
      Assoc3(2, Pow2(k - 1), x);
    }
  }

  /** Bitwise and works on the low and high parts separately. */
  lemma {:induction false} AndSplit(a: nat, b: nat, c: nat, d: nat, k: nat, x: nat, y: nat)
    requires a < Pow2(k) && c < Pow2(k) && x == a + Shl(b, k) && y == c + Shl(d, k)
    ensures And(x, y) == And(a, c) + Shl(And(b, d), k)
    decreases k
  {
    if k == 0 {
      assert a == 0 && c == 0 && And(a, c) == 0;
    } else {
      var s, t, z := Shl(b, k - 1), Shl(d, k - 1), Shl(And(b, d), k - 1);
      var p, q := a / 2 + s, c / 2 + t;
      assert Shl(b, k) == 2 * s && Shl(d, k) == 2 * t && Shl(And(b, d), k) == 2 * z;
      assert a / 2 < Pow2(k - 1) && c / 2 < Pow2(k - 1);
      AndSplit(a / 2, b, c / 2, d, k - 1, p, q);
      AndSplitStep(a, s, c, t, z, x, y, p, q);
    }
  }

  lemma {:induction false} AndSplitStep(a: nat, s: nat, c: nat, t: nat, z: nat, x: nat, y: nat, p: nat, q: nat)
    requires x == a + 2 * s && y == c + 2 * t && p == a / 2 + s && q == c / 2 + t && And(p, q) == And(a / 2, c / 2) + z
    ensures And(x, y) == And(a, c) + 2 * z
  {
    EvenPlus(a, s);
    EvenPlus(c, t);
    AndHalf(x, y, p, q);
    AndHalf(a, c, a / 2, c / 2);
  }

  lemma {:induction false} AndHalf(x: nat, y: nat, p: nat, q: nat)
    requires x / 2 == p && y / 2 == q
    ensures And(x, y) == (if x % 2 == 1 && y % 2 == 1 then 1 else 0) + 2 * And(p, q)
  {
  }

  /** Or of a low part and a shifted high part is their sum. */
  lemma {:induction false} OrShifted(a: nat, b: nat, k: nat)
    requires a < Pow2(k)
    ensures Or(a, Shl(b, k)) == a + Shl(b, k)
    decreases k
  {
    if k > 0 && a != 0 {
      OrShifted(a / 2, b, k - 1);
      OrStep(a, Shl(b, k - 1));
    }
  }

  lemma {:induction false} OrStep(a: nat, t: nat)
    requires Or(a / 2, t) == a / 2 + t
    ensures Or(a, 2 * t) == a + 2 * t
  {
  }

  lemma {:induction false} AndJoin(a: nat, b: nat, c: nat, d: nat, k: nat, m: nat, x: nat, y: nat)
    requires m == Pow2(k) && a < m && c < m && x == a + m * b && y == c + m * d
    ensures And(x, y) == And(a, c) + m * And(b, d)
  {
    ShlIs(b, k);
    ShlIs(d, k);
    AndSplit(a, b, c, d, k, x, y);
    ShlIs(And(b, d), k);
  }

  lemma {:induction false} OrJoin(a: nat, b: nat, k: nat, m: nat)
    requires m == Pow2(k) && a < m
    ensures Or(a, m * b) == a + m * b
  {
    OrShifted(a, b, k);
    ShlIs(b, k);
  }

  /** A mask below 2^k only sees the low k bits. */
  lemma {:induction false} AndCut(low: nat, high: nat, c: nat, k: nat, m: nat)
    requires m == Pow2(k) && c < m && low < m
    ensures And(low + m * high, c) == And(low, c)
  {
    AndZero(high);
    ShlIs(high, k);
    ShlIs(0, k);
    AndSplit(low, high, c, 0, k, low + Shl(high, k), c);
  }

  lemma {:induction false} AndAllOnes(x: nat, c: nat, k: nat)
    requires x < Pow2(k) && c == Pow2(k) - 1
    ensures And(x, c) == x
  {
    AndOnes(x, k);
    DivModUnique(x, Pow2(k), 0, x);
  }

  // ------------------------------------------------------------ exclusive or

  lemma {:induction false} XorBound(a: nat, b: nat, n: nat, p: nat)
    requires p == Pow2(n) && a < p && b < p
    ensures Xor(a, b) < p
    decreases n
  {
    if n > 0 {
      XorBound(a / 2, b / 2, n - 1, Pow2(n - 1));
    }
  }

  /** Bit 0 and the rest of an exclusive or. */
  lemma {:induction false} XorStep(a: nat, b: nat)
    ensures Xor(a, b) % 2 == (a + b) % 2 && Xor(a, b) / 2 == Xor(a / 2, b / 2)
  {
    if a == 0 {
      assert Xor(a, b) == b && Xor(a / 2, b / 2) == b / 2;
    } else if b == 0 {
      assert Xor(a, b) == a;
      XorNothing(a / 2);
    } else {
      var low, rest := (a + b) % 2, Xor(a / 2, b / 2);
      assert Xor(a, b) == low + 2 * rest;
      EvenPlus(low, rest);
    }
  }

  lemma XorNothing(a: nat)
    ensures Xor(a, 0) == a
  {
  }

  lemma SameHalves(x: nat, y: nat)
    requires x % 2 == y % 2 && x / 2 == y / 2
    ensures x == y
  {
  }

  lemma {:induction false} XorTwice(a: nat, b: nat)
    ensures Xor(Xor(a, b), b) == a
    decreases a + b
  {
    if a != 0 || b != 0 {
      var x := Xor(a, b);
      XorTwice(a / 2, b / 2);
      XorStep(a, b);
      XorStep(x, b);
      ParityBack(a, b, x);
      SameHalves(Xor(x, b), a);
    }
  }

  lemma ParityBack(a: nat, b: nat, x: nat)
    requires x % 2 == (a + b) % 2
    ensures (x + b) % 2 == a % 2
  {
  }

  lemma SumParity(a: nat, b: nat)
    ensures (a + b) % 2 == (a % 2 + b % 2) % 2
  {
  }

  lemma SameParity(a: nat, b: nat)
    ensures (a + b) % 2 == 0 <==> a % 2 == b % 2
  {
  }

  lemma {:induction false} XorZero(a: nat, b: nat)
    ensures Xor(a, b) == 0 <==> a == b
    decreases a + b
  {
    if a != 0 && b != 0 {
      XorStep(a, b);
      XorZero(a / 2, b / 2);
      SameParity(a, b);
    }
  }

  /** Replacing one pad by another with a single exclusive or. */
  lemma {:induction false} XorSwitch(k: nat, p: nat, q: nat)
    ensures Xor(Xor(k, p), Xor(q, p)) == Xor(k, q)
    decreases k + p + q
  {
    if k != 0 || p != 0 || q != 0 {
      XorSwitch(k / 2, p / 2, q / 2);
      var x, y := Xor(k, p), Xor(q, p);
      XorStep(k, p);
      XorStep(q, p);
      XorStep(x, y);
      XorStep(k, q);
      ParityOfSum(k, p, q, x, y);
      SameHalves(Xor(x, y), Xor(k, q));
    }
  }

  lemma ParityOfSum(k: nat, p: nat, q: nat, x: nat, y: nat)
    requires x % 2 == (k + p) % 2 && y % 2 == (q + p) % 2
    ensures (x + y) % 2 == (k + q) % 2
  {
  }

  // ------------------------------------------------------------ single bits

  /** Bit number `k`, counted from the low end. */
  function BitOf(x: nat, k: nat): (b: nat)
    ensures b < 2
    decreases k, x
  {
    if k == 0 then x % 2 else BitOf(x / 2, k - 1)
  }

  lemma {:induction false} BitOfIs(x: nat, k: nat)
    ensures BitOf(x, k) == x / Pow2(k) % 2
    decreases k
  {
    if k > 0 {
      BitOfIs(x / 2, k - 1);
      DivTwice(x, 2, Pow2(k - 1));
    }
  }

  lemma {:induction false} DivTwice(x: nat, m: nat, n: nat)
    requires m > 0 && n > 0
    ensures m * n > 0 && x / m / n == x / (m * n)
  {
    MulAtLeast(m, n);
    var y, t := x / m, x % m;
    var q, r := y / n, y % n;
    DivTwiceParts(x, m, n, m * n, y, q, r, t);
    DivModUnique(x, m * n, q, m * r + t);
  }

  lemma {:induction false} DivTwiceParts(x: nat, m: nat, n: nat, p: nat, y: nat, q: nat, r: nat, t: nat)
    requires p == m * n && x == m * y + t && y == n * q + r && r < n && t < m
    ensures x == p * q + (m * r + t) && m * r + t < p
  {
    Assoc3(m, n, q);
    assert m * y == m * (n * q) + m * r;
    MulBound(m, r + 1, m, n);
  }

  lemma {:induction false} XorBit(a: nat, b: nat, k: nat)
    ensures BitOf(Xor(a, b), k) == (BitOf(a, k) + BitOf(b, k)) % 2
    decreases k
  {
    XorStep(a, b);
    if k == 0 {
      SumParity(a, b);
    } else {
      XorBit(a / 2, b / 2, k - 1);
    }
  }

  /** Numbers below 2^n are told apart by their n low bits. */
  lemma {:induction false} SameBits(a: nat, b: nat, n: nat)
    requires a < Pow2(n) && b < Pow2(n) && forall k :: 0 <= k < n ==> BitOf(a, k) == BitOf(b, k)
    ensures a == b
    decreases n
  {
    if n > 0 {
      assert BitOf(a, 0) == BitOf(b, 0);
      forall k | 0 <= k < n - 1 ensures BitOf(a / 2, k) == BitOf(b / 2, k) {
        assert BitOf(a, k + 1) == BitOf(b, k + 1);
      }
      SameBits(a / 2, b / 2, n - 1);
      SameHalves(a, b);
    }
  }
}
