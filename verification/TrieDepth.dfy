/** How much of their fixed-size stacks the two walks over a trie use. */
module TrieDepth {
  import opened Prefixes
  import opened TrieModel
  import opened TriePaths

  /** The slots the stacks of the source have. */
  const STACK_SLOTS := 128

  function Max(a: nat, b: nat): nat { if a < b then b else a }

  // ------------------------------------------------------------ paths

  /** The number of nodes on the longest path from the root. */
  function Height<R>(t: Tree<R>): nat { if t.Empty? then 0 else 1 + Max(Height(t.left), Height(t.right)) }

  lemma {:induction false} HeightAt<R>(t: Tree<R>, path: Path)
    requires OnTree(t, path)
    ensures At(t, path).Fork? ==> |path| + Height(At(t, path)) <= Height(t)
  {
    if path != [] { HeightAt(Child(t, path[0]), path[1..]); }
  }

  lemma {:induction false} HeightPut<R>(t: Tree<R>, path: Path, s: Tree<R>)
    requires OnTree(t, path) && Height(s) <= Height(At(t, path))
    ensures Height(Put(t, path, s)) <= Height(t)
  {
    if path != [] { HeightPut(Child(t, path[0]), path[1..], s); }
  }

  lemma {:induction false} HeightBound<R>(t: Tree<R>, width: nat)
    requires WellFormed(t, width)
    ensures t.Fork? ==> t.cidr + Height(t) <= width + 1
  {
    if t.Fork? {
      HeightBound(t.left, width);
      HeightBound(t.right, width);
    }
  }

  /** The prefixes of all nodes, with or without a peer. */
  ghost function NodePrefixes<R>(t: Tree<R>): set<Bits> {
    if t.Empty? then {}
    else (if t.cidr <= |t.bits| then {t.bits[..t.cidr]} else {}) + NodePrefixes(t.left) + NodePrefixes(t.right)
  }

  /** Every prefix of one address, from some length on, is the prefix of a node. */
  ghost predicate AllPrefixesFrom<R>(t: Tree<R>, key: Bits, c: nat) {
    forall i :: c <= i <= |key| ==> key[..i] in NodePrefixes(t)
  }

  lemma {:induction false} PrefixesExtend<R>(t: Tree<R>, width: nat, p: Bits)
    requires WellFormed(t, width) && p in NodePrefixes(t)
    ensures t.Fork? && t.cidr <= |p| <= width && p[..t.cidr] == t.bits[..t.cidr]
  {
    if p in NodePrefixes(t.left) {
      PrefixesExtend(t.left, width, p);
      PrefixThrough(p, t.left.bits, t.bits, t.cidr, t.left.cidr);
    } else if p in NodePrefixes(t.right) {
      PrefixesExtend(t.right, width, p);
      PrefixThrough(p, t.right.bits, t.bits, t.cidr, t.right.cidr);
    }
  }

  lemma {:induction false} PrefixThrough(p: Bits, q: Bits, r: Bits, c: nat, d: nat)
    requires c <= d <= |p| && d <= |q| && c <= |r| && p[..d] == q[..d] && q[..c] == r[..c]
    ensures p[..c] == r[..c]
  {
    assert p[..c] == p[..d][..c] && q[..c] == q[..d][..c];
  }

  lemma {:induction false} PrefixesOfChild<R>(t: Tree<R>, width: nat, b: bool, p: Bits)
    requires t.Fork? && WellFormed(t, width) && p in NodePrefixes(Child(t, b))
    ensures t.cidr < |p| <= width && p[t.cidr] == b
  {
    var c := Child(t, b);
    PrefixesExtend(c, width, p);
    assert p[t.cidr] == p[..c.cidr][t.cidr];
    assert c.bits[..c.cidr][t.cidr] == c.bits[t.cidr];
  }

  /** Nested prefixes lie on one path. */
  lemma {:induction false} NestedOnPath<R>(t: Tree<R>, key: Bits, c: nat)
    requires WellFormed(t, |key|) && c <= |key| && AllPrefixesFrom(t, key, c)
    ensures Height(t) >= |key| + 1 - c
  {
    assert key[..c] in NodePrefixes(t);
    PrefixesExtend(t, |key|, key[..c]);
    if c < |key| || t.cidr < c {
      var from := if t.cidr == c then c + 1 else c;
      var b := key[t.cidr];
      forall i | from <= i <= |key| ensures key[..i] in NodePrefixes(Child(t, b)) {
        BelowOn(t, key, i, b);
      }
      NestedOnPath(Child(t, b), key, from);
    }
  }

  lemma {:induction false} BelowOn<R>(t: Tree<R>, key: Bits, i: nat, b: bool)
    requires t.Fork? && WellFormed(t, |key|) && t.cidr < i <= |key| && key[..i] in NodePrefixes(t) && b == key[t.cidr]
    ensures key[..i] in NodePrefixes(Child(t, b))
  {
    if key[..i] in NodePrefixes(Child(t, !b)) {
      PrefixesOfChild(t, |key|, !b, key[..i]);
    }
  }

  /** A tree as high as the width allows has, at the end of its longest path, an address all
      of whose prefixes are nodes. */
  lemma {:induction false} TallIsNested<R>(t: Tree<R>, width: nat) returns (key: Bits)
    requires WellFormed(t, width) && t.Fork? && t.cidr + Height(t) == width + 1
    ensures |key| == width && key[..t.cidr] == t.bits[..t.cidr] && AllPrefixesFrom(t, key, t.cidr)
  {
    if t.cidr == width {
      key := t.bits;
    } else {
      var b := Height(t.left) < Height(t.right);
      HeightBound(Child(t, b), width);
      key := TallIsNested(Child(t, b), width);
      NestedAbove(t, width, key, b);
    }
  }

  lemma {:induction false} NestedAbove<R>(t: Tree<R>, width: nat, key: Bits, b: bool)
    requires WellFormed(t, width) && t.Fork? && |key| == width && Child(t, b).Fork? && Child(t, b).cidr == t.cidr + 1 <= width
    requires key[..t.cidr + 1] == Child(t, b).bits[..t.cidr + 1] && AllPrefixesFrom(Child(t, b), key, t.cidr + 1)
    ensures key[..t.cidr] == t.bits[..t.cidr] && AllPrefixesFrom(t, key, t.cidr)
  {
    PrefixThrough(key, Child(t, b).bits, t.bits, t.cidr, t.cidr + 1);
    forall i | t.cidr <= i <= |key| ensures key[..i] in NodePrefixes(t) {
      if i > t.cidr {
        assert key[..i] in NodePrefixes(Child(t, b));
      }
    }
  }

  /** The trie is one node higher than the width exactly when it has a node for every prefix
      of some address, the empty one and the full one included. */
  lemma {:induction false} TallIff<R>(t: Tree<R>, width: nat)
    requires WellFormed(t, width)
    ensures Height(t) <= width + 1
    ensures Height(t) == width + 1 <==> exists key: Bits :: |key| == width && AllPrefixesFrom(t, key, 0)
  {
    HeightBound(t, width);
    if Height(t) == width + 1 {
      var key := TallIsNested(t, width);
      assert AllPrefixesFrom(t, key, 0);
    }
    if key: Bits :| |key| == width && AllPrefixesFrom(t, key, 0) {
      NestedOnPath(t, key, 0);
    }
  }

  /** When the slots reserved are enough for a stack that holds a path. */
  lemma {:induction false} PathFitsIff<R>(t: Tree<R>, width: nat)
    requires WellFormed(t, width) && width <= STACK_SLOTS
    ensures Height(t) <= STACK_SLOTS
       <==> !(width == STACK_SLOTS && exists key: Bits :: |key| == width && AllPrefixesFrom(t, key, 0))
  {
    TallIff(t, width);
  }

  /** Every stored route has its node. */
  lemma {:induction false} RoutesAreNodes<R>(t: Tree<R>, r: Route)
    requires r in Routes(t)
    ensures r.prefix in NodePrefixes(t)
  {
    if r in Routes(t.left) {
      RoutesAreNodes(t.left, r);
    } else if r in Routes(t.right) {
      RoutesAreNodes(t.right, r);
    }
  }

  // ------------------------------------------------------------ the walk of the removal

  /** Where the walk that holds one path on its stack stands. */
  datatype Phase = Enter | FromLeft | Finish

  /** The height the right siblings of the path reach. */
  ghost function Beside<R>(t: Tree<R>, path: Path): nat
    requires OnTree(t, path)
  {
    if path == [] then 0
    else 1 + Max(if path[0] then 0 else Height(t.right), Beside(Child(t, path[0]), path[1..]))
  }

  lemma {:induction false} BesideSnoc<R>(t: Tree<R>, path: Path, b: bool)
    requires OnTree(t, path) && At(t, path).Fork?
    ensures OnTree(t, path + [b])
    ensures Beside(t, path + [b]) == Max(Beside(t, path), |path| + 1 + if b then 0 else Height(At(t, path).right))
  {
    if path == [] {
      assert [b][1..] == [];
    } else {
      BesideSnoc(Child(t, path[0]), path[1..], b);
      assert (path + [b])[1..] == path[1..] + [b];
    }
  }

  lemma {:induction false} BesidePut<R>(t: Tree<R>, path: Path, s: Tree<R>)
    requires OnTree(t, path)
    ensures OnTree(Put(t, path, s), path) && Beside(Put(t, path, s), path) == Beside(t, path)
  {
    if path != [] { BesidePut(Child(t, path[0]), path[1..], s); }
  }

  /** The height the walk still has before it. */
  ghost function Ahead<R>(t: Tree<R>, path: Path, phase: Phase): nat
    requires OnTree(t, path) && At(t, path).Fork?
  {
    var n := At(t, path);
    Max(Beside(t, path), |path| + match phase case Enter => Height(n) case FromLeft => 1 + Height(n.right) case Finish => 1)
  }

  lemma {:induction false} AheadDown<R>(t: Tree<R>, path: Path, phase: Phase, b: bool)
    requires OnTree(t, path) && At(t, path).Fork? && Child(At(t, path), b).Fork?
    requires if phase == Enter then b ==> At(t, path).left.Empty? else phase == FromLeft && b
    ensures OnTree(t, path + [b]) && At(t, path + [b]).Fork? && Ahead(t, path, phase) <= Ahead(t, path + [b], Enter)
  {
    AtSnoc(t, path, b);
    BesideSnoc(t, path, b);
    assert Height<R>(Empty) == 0;
  }

  lemma {:induction false} AheadStay<R>(t: Tree<R>, path: Path, phase: Phase)
    requires OnTree(t, path) && At(t, path).Fork? && phase != Finish
    requires At(t, path).right.Empty? && (phase == Enter ==> At(t, path).left.Empty?)
    ensures Ahead(t, path, phase) <= Ahead(t, path, Finish)
  {
    assert Height<R>(Empty) == 0;
  }

  ghost function PhaseAbove<R>(t: Tree<R>, path: Path): Phase
    requires OnTree(t, path) && |path| > 0
  {
    if At(t, path).Empty? then Enter else if path[|path| - 1] then Finish else FromLeft
  }

  lemma {:induction false} AheadUp<R>(t: Tree<R>, path: Path, up: Path, b: bool)
    requires path == up + [b] && OnTree(t, path) && OnTree(t, up) && At(t, up).Fork?
    ensures Beside(t, path) <= Max(|path|, Ahead(t, up, PhaseAbove(t, path)))
  {
    AheadSnoc(t, up, PhaseAbove(t, path), b);
  }

  lemma {:induction false} AheadSnoc<R>(t: Tree<R>, up: Path, phase: Phase, b: bool)
    requires OnTree(t, up) && At(t, up).Fork? && (phase == Finish ==> b)
    ensures OnTree(t, up + [b]) && Beside(t, up + [b]) <= Max(|up| + 1, Ahead(t, up, phase))
  {
    BesideSnoc(t, up, b);
    AheadCovers(t, up, phase, b);
  }

  lemma {:induction false} AheadCovers<R>(t: Tree<R>, up: Path, phase: Phase, b: bool)
    requires OnTree(t, up) && At(t, up).Fork? && (phase == Finish ==> b)
    ensures Beside(t, up) <= Ahead(t, up, phase) && |up| + 1 <= Ahead(t, up, phase)
    ensures !b ==> |up| + 1 + Height(At(t, up).right) <= Ahead(t, up, phase)
  {
    assert Height(At(t, up)) == 1 + Max(Height(At(t, up).left), Height(At(t, up).right));
  }

  // ------------------------------------------------------------ the stack of the cursor

  /** The slots the listing needs for a subtree: while the right child is walked the left one
      waits below it. */
  function CombHeight<R>(t: Tree<R>): nat {
    if t.Empty? then 0
    else Max(1, Max(CombHeight(t.left), (if t.left.Fork? then 1 else 0) + CombHeight(t.right)))
  }

  /** The slots it needs for what is on the stack. */
  function StackNeed<R>(trees: seq<Tree<R>>): nat {
    if trees == [] then 0 else Max(StackNeed(trees[..|trees| - 1]), |trees| - 1 + CombHeight(trees[|trees| - 1]))
  }

  lemma {:induction false} CombHeightBound<R>(t: Tree<R>, width: nat)
    requires WellFormed(t, width)
    ensures t.Fork? ==> t.cidr + CombHeight(t) <= width + 1
  {
    if t.Fork? {
      CombHeightBound(t.left, width);
      CombHeightBound(t.right, width);
    }
  }

  function Ones(width: nat): (bits: Bits)
    ensures |bits| == width && forall i :: 0 <= i < width ==> bits[i]
  {
    seq(width, i => true)
  }

  /** There is a node on the way of all ones for `i` bits and of a zero next. */
  ghost predicate TurnsOff<R>(t: Tree<R>, width: nat, i: nat)
    requires i < width
  {
    exists p :: p in NodePrefixes(t) && i < |p| && p[..i] == Ones(width)[..i] && !p[i]
  }

  /** Every prefix of the address of all ones is a node, and something turns off after each. */
  ghost predicate CombFrom<R>(t: Tree<R>, width: nat, c: nat) {
    AllPrefixesFrom(t, Ones(width), c) && forall i :: c <= i < width ==> TurnsOff(t, width, i)
  }

  lemma {:induction false} TurnsOffBelow<R>(t: Tree<R>, width: nat, i: nat)
    requires t.Fork? && WellFormed(t, width) && t.cidr < i < width && TurnsOff(t, width, i)
    ensures TurnsOff(t.right, width, i)
  {
    var p :| p in NodePrefixes(t) && i < |p| && p[..i] == Ones(width)[..i] && !p[i];
    assert p[t.cidr] == p[..i][t.cidr];
    if p in NodePrefixes(t.left) {
      PrefixesOfChild(t, width, false, p);
    }
    assert p in NodePrefixes(t.right);
  }

  lemma {:induction false} TurnsOffHere<R>(t: Tree<R>, width: nat)
    requires t.Fork? && WellFormed(t, width) && t.cidr < width && TurnsOff(t, width, t.cidr)
    ensures t.left.Fork?
  {
    var p :| p in NodePrefixes(t) && t.cidr < |p| && p[..t.cidr] == Ones(width)[..t.cidr] && !p[t.cidr];
    if p in NodePrefixes(t.right) {
      PrefixesOfChild(t, width, true, p);
    }
    assert p in NodePrefixes(t.left);
    PrefixesExtend(t.left, width, p);
  }

  lemma {:induction false} CombBelow<R>(t: Tree<R>, width: nat, c: nat)
    requires t.Fork? && WellFormed(t, width) && t.cidr < c <= width && CombFrom(t, width, c)
    ensures CombFrom(t.right, width, c)
  {
    var ones := Ones(width);
    forall i | c <= i <= width ensures ones[..i] in NodePrefixes(t.right) {
      BelowOn(t, ones, i, true);
    }
    forall i | c <= i < width ensures TurnsOff(t.right, width, i) {
      TurnsOffBelow(t, width, i);
    }
  }

  lemma {:induction false} CombIsHigh<R>(t: Tree<R>, width: nat, c: nat)
    requires WellFormed(t, width) && c <= width && CombFrom(t, width, c)
    ensures CombHeight(t) >= width + 1 - c
  {
    var ones := Ones(width);
    assert ones[..c] in NodePrefixes(t);
    PrefixesExtend(t, width, ones[..c]);
    if t.cidr < c {
      CombBelow(t, width, c);
      CombIsHigh(t.right, width, c);
    } else if c < width {
      assert TurnsOff(t, width, c);
      TurnsOffHere(t, width);
      assert CombFrom(t, width, c + 1);
      CombBelow(t, width, c + 1);
      CombIsHigh(t.right, width, c + 1);
    }
  }

  lemma {:induction false} HighIsComb<R>(t: Tree<R>, width: nat)
    requires WellFormed(t, width) && t.Fork? && t.bits[..t.cidr] == Ones(width)[..t.cidr] && t.cidr + CombHeight(t) == width + 1
    ensures CombFrom(t, width, t.cidr)
  {
    if t.cidr < width {
      CombHeightBound(t.left, width);
      CombHeightBound(t.right, width);
      assert CombHeight<R>(Empty) == 0;
      var l, r, ones := t.left, t.right, Ones(width);
      assert l.Fork? && r.Fork? && r.cidr == t.cidr + 1 && r.cidr + CombHeight(r) == width + 1;
      assert r.bits[..r.cidr] == ones[..r.cidr] by { OneMore(r.bits, ones, t.cidr); }
      HighIsComb(r, width);
      CombAbove(t, width);
    }
  }

  lemma {:induction false} OneMore(a: Bits, b: Bits, c: nat)
    requires c < |a| && c < |b| && a[..c] == b[..c] && a[c] == b[c]
    ensures a[..c + 1] == b[..c + 1]
  {
    assert a[..c + 1] == a[..c] + [a[c]] && b[..c + 1] == b[..c] + [b[c]];
  }

  lemma {:induction false} CombAbove<R>(t: Tree<R>, width: nat)
    requires WellFormed(t, width) && t.Fork? && t.bits[..t.cidr] == Ones(width)[..t.cidr] && t.left.Fork? && t.cidr < width
    requires CombFrom(t.right, width, t.cidr + 1)
    ensures CombFrom(t, width, t.cidr)
  {
    var l, r, ones := t.left, t.right, Ones(width);
    forall i | t.cidr <= i <= width ensures ones[..i] in NodePrefixes(t) {
      assert i > t.cidr ==> ones[..i] in NodePrefixes(r);
    }
    forall i | t.cidr <= i < width ensures TurnsOff(t, width, i) {
      if i == t.cidr {
        var p := l.bits[..l.cidr];
        assert p[..i] == l.bits[..i];
        assert p in NodePrefixes(l);
      } else {
        assert TurnsOff(r, width, i);
        var p :| p in NodePrefixes(r) && i < |p| && p[..i] == ones[..i] && !p[i];
        assert p in NodePrefixes(t);
      }
    }
  }

  /** The listing needs a slot more than the width exactly for a full comb. */
  lemma {:induction false} CombIff<R>(t: Tree<R>, width: nat)
    requires WellFormed(t, width)
    ensures CombHeight(t) <= width + 1
    ensures CombHeight(t) == width + 1 <==> CombFrom(t, width, 0)
  {
    CombHeightBound(t, width);
    if CombHeight(t) == width + 1 {
      HighIsComb(t, width);
    }
    if CombFrom(t, width, 0) {
      CombIsHigh(t, width, 0);
    }
  }

  /** When the slots reserved are enough for the cursor. */
  lemma {:induction false} CombFitsIff<R>(t: Tree<R>, width: nat)
    requires WellFormed(t, width) && width <= STACK_SLOTS
    ensures CombHeight(t) <= STACK_SLOTS <==> !(width == STACK_SLOTS && CombFrom(t, width, 0))
  {
    CombIff(t, width);
  }
}
