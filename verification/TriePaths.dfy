/** Positions in a trie: the branch taken at every fork on the way down from the root.
    They give the loops of the heap trie their ghost state. */
module TriePaths {
  import opened Wrappers
  import opened Prefixes
  import opened TrieModel

  type Path = seq<bool>

  /** `path` names a child pointer of the tree (possibly an empty one). */
  ghost predicate OnTree<R>(t: Tree<R>, path: Path) {
    path == [] || (t.Fork? && OnTree(Child(t, path[0]), path[1..]))
  }

  ghost function At<R>(t: Tree<R>, path: Path): Tree<R>
    requires OnTree(t, path)
  {
    if path == [] then t else At(Child(t, path[0]), path[1..])
  }

  /** The tree with the subtree at `path` replaced. */
  ghost function Put<R>(t: Tree<R>, path: Path, s: Tree<R>): Tree<R>
    requires OnTree(t, path)
  {
    if path == [] then s else WithChild(t, path[0], Put(Child(t, path[0]), path[1..], s))
  }

  lemma {:induction false} AtSnoc<R>(t: Tree<R>, path: Path, b: bool)
    requires OnTree(t, path) && At(t, path).Fork?
    ensures OnTree(t, path + [b]) && At(t, path + [b]) == Child(At(t, path), b)
  {
    if path != [] {
      AtSnoc(Child(t, path[0]), path[1..], b);
      assert (path + [b])[1..] == path[1..] + [b];
    }
  }

  lemma {:induction false} AtPrefix<R>(t: Tree<R>, path: Path, k: nat)
    requires OnTree(t, path) && k <= |path|
    ensures OnTree(t, path[..k]) && (k < |path| ==> At(t, path[..k]).Fork?)
    ensures k < |path| ==> OnTree(t, path[..k + 1]) && At(t, path[..k + 1]) == Child(At(t, path[..k]), path[k])
  {
    if k > 0 {
      AtPrefix(Child(t, path[0]), path[1..], k - 1);
      assert path[..k][1..] == path[1..][..k - 1];
      if k < |path| {
        assert path[..k + 1][1..] == path[1..][..k];
      }
    } else if k < |path| {
      assert path[..1][1..] == [];
    }
  }

  lemma {:induction false} AtPut<R>(t: Tree<R>, path: Path, s: Tree<R>)
    requires OnTree(t, path)
    ensures OnTree(Put(t, path, s), path) && At(Put(t, path, s), path) == s
  {
    if path != [] { AtPut(Child(t, path[0]), path[1..], s); }
  }

  lemma {:induction false} AtIds<R>(t: Tree<R>, path: Path)
    requires OnTree(t, path)
    ensures Ids(At(t, path)) <= Ids(t)
    ensures Distinct(t) ==> Distinct(At(t, path))
  {
    if path != [] { AtIds(Child(t, path[0]), path[1..]); }
  }

  lemma {:induction false} AtWellFormed<R>(t: Tree<R>, path: Path, width: nat)
    requires OnTree(t, path) && WellFormed(t, width)
    ensures WellFormed(At(t, path), width)
  {
    if path != [] { AtWellFormed(Child(t, path[0]), path[1..], width); }
  }

  /** Replacing a subtree by one with the same or new nodes keeps nodes distinct. */
  lemma {:induction false} PutDistinct<R>(t: Tree<R>, path: Path, s: Tree<R>)
    requires OnTree(t, path) && Distinct(t) && Distinct(s)
    requires Ids(s) !! (Ids(t) - Ids(At(t, path)))
    ensures Distinct(Put(t, path, s))
    ensures Ids(Put(t, path, s)) == (Ids(t) - Ids(At(t, path))) + Ids(s)
  {
    if path == [] {
      assert Ids(t) - Ids(At(t, path)) == {};
    } else {
      var c := Child(t, path[0]);
      AtIds(c, path[1..]);
      PutDistinct(c, path[1..], s);
    }
  }

  /** `path` is a stretch of the descent of node_placement. */
  ghost predicate Descent<R>(t: Tree<R>, path: Path, key: Bits, cidr: nat) {
    path == [] ||
    (Descends(t, key, cidr) && t.cidr < cidr <= |key| && path[0] == key[t.cidr]
     && Descent(Child(t, path[0]), path[1..], key, cidr))
  }

  lemma {:induction false} DescentSnoc<R>(t: Tree<R>, path: Path, key: Bits, cidr: nat)
    requires Descent(t, path, key, cidr) && OnTree(t, path)
    requires Descends(At(t, path), key, cidr) && At(t, path).cidr < cidr <= |key|
    ensures Descent(t, path + [key[At(t, path).cidr]], key, cidr)
  {
    var b := key[At(t, path).cidr];
    if path != [] {
      DescentSnoc(Child(t, path[0]), path[1..], key, cidr);
      assert (path + [b])[1..] == path[1..] + [b];
    }
  }

  /** Inserting at the root is inserting at the place node_placement walks to. */
  lemma {:induction false} InsertAtPlace<R>(t: Tree<R>, path: Path, key: Bits, cidr: nat, peer: Peer, added: R, glue: R)
    requires Descent(t, path, key, cidr) && OnTree(t, path) && WellFormed(t, |key|) && cidr <= |key|
    ensures WellFormed(At(t, path), |key|)
    ensures Insert(t, key, cidr, peer, added, glue)
         == Put(t, path, Insert(At(t, path), key, cidr, peer, added, glue))
  {
    if path != [] { InsertAtPlace(Child(t, path[0]), path[1..], key, cidr, peer, added, glue); }
  }

  /** How many nodes add has to allocate. */
  function Needed<R>(t: Tree<R>, key: Bits, cidr: nat): nat
    requires cidr <= |key| && WellFormed(t, |key|)
  {
    if !Descends(t, key, cidr) then if t.Fork? && CommonBits(t.bits, key) < cidr then 2 else 1
    else if t.cidr == cidr then 0
    else Needed(Child(t, key[t.cidr]), key, cidr)
  }

  lemma SizeWithChild<R>(t: Tree<R>, b: bool, c: Tree<R>)
    requires t.Fork?
    ensures Size(WithChild(t, b, c)) == 1 + Size(c) + Size(Child(t, !b))
  {
  }

  lemma GrowthHere<R>(t: Tree<R>, key: Bits, cidr: nat, peer: Peer, added: R, glue: R)
    requires cidr <= |key| && WellFormed(t, |key|) && !Descends(t, key, cidr)
    ensures Size(InsertHere(t, key, cidr, peer, added, glue)) == Size(t) + Needed(t, key, cidr)
  {
    var leaf := Leaf(added, key, cidr, Some(peer));
    assert Size(leaf) == 1;
    if t.Fork? {
      SplitPoint(t, key, cidr);
      var c := Min(cidr, CommonBits(t.bits, key));
      if c == cidr {
        SizeWithChild(leaf, t.bits[c], t);
      } else {
        var joint := Leaf(glue, key, c, None);
        SizeWithChild(joint, t.bits[c], t);
        SizeWithChild(WithChild(joint, t.bits[c], t), key[c], leaf);
        assert Child(WithChild(joint, t.bits[c], t), !key[c]) == t;
      }
    }
  }

  /** It is by how much the trie grows. */
  lemma {:induction false} NeededIsGrowth<R>(t: Tree<R>, key: Bits, cidr: nat, peer: Peer, added: R, glue: R)
    requires cidr <= |key| && WellFormed(t, |key|)
    ensures Size(Insert(t, key, cidr, peer, added, glue)) == Size(t) + Needed(t, key, cidr)
  {
    if !Descends(t, key, cidr) {
      GrowthHere(t, key, cidr, peer, added, glue);
    } else if t.cidr != cidr {
      NeededIsGrowth(Child(t, key[t.cidr]), key, cidr, peer, added, glue);
    }
  }

  lemma {:induction false} NeededAt<R>(t: Tree<R>, path: Path, key: Bits, cidr: nat)
    requires Descent(t, path, key, cidr) && OnTree(t, path) && WellFormed(t, |key|) && cidr <= |key|
    ensures WellFormed(At(t, path), |key|) && Needed(t, key, cidr) == Needed(At(t, path), key, cidr)
  {
    if path != [] { NeededAt(Child(t, path[0]), path[1..], key, cidr); }
  }

  /** Everything the publishing store of add relies on. */
  lemma {:induction false} InsertAtPlaceCorrect<R>(t: Tree<R>, path: Path, key: Bits, cidr: nat, peer: Peer, added: R, glue: R)
    requires cidr <= |key| && Descent(t, path, key, cidr) && OnTree(t, path) && WellFormed(t, |key|) && Distinct(t)
    requires WellFormed(At(t, path), |key|) && !Descends(At(t, path), key, cidr) && added !in Ids(t)
    requires At(t, path).Fork? && CommonBits(At(t, path).bits, key) < cidr ==> glue !in Ids(t) && glue != added
    requires !(At(t, path).Fork? && CommonBits(At(t, path).bits, key) < cidr) ==> glue == added
    ensures var s := InsertHere(At(t, path), key, cidr, peer, added, glue);
            Distinct(s) && Ids(s) !! (Ids(t) - Ids(At(t, path)))
            && WellFormed(Put(t, path, s), |key|) && Routes(Put(t, path, s)) == Inserted(Routes(t), key[..cidr], peer)
  {
    AtIds(t, path);
    InsertAtPlace(t, path, key, cidr, peer, added, glue);
    InsertCorrect(t, key, cidr, peer, added, glue);
    InsertHereIds(At(t, path), key, cidr, peer, added, glue);
  }
}
