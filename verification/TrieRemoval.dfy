/** Facts about trees that the removal walk needs: how many nodes a peer owns, what a
    replaced subtree does to the routes, and how much of a walk is left. */
module TrieRemoval {
  import opened Wrappers
  import opened Prefixes
  import opened TrieModel
  import opened TriePaths

  /** Number of nodes owned by `peer`. */
  ghost function Owned<R>(t: Tree<R>, peer: Peer): nat {
    match t
    case Empty => 0
    case Fork(_, _, _, p, l, r) => (if p == Some(peer) then 1 else 0) + Owned(l, peer) + Owned(r, peer)
  }

  lemma {:induction false} OwnedRoutes<R>(t: Tree<R>, width: nat, peer: Peer)
    requires WellFormed(t, width)
    ensures Owned(t, peer) == 0 <==> forall r :: r in Routes(t) ==> r.peer != peer
  {
    if t.Fork? {
      OwnedRoutes(t.left, width, peer);
      OwnedRoutes(t.right, width, peer);
      if t.peer == Some(peer) {
        assert Route(t.bits[..t.cidr], peer) in Routes(t);
      }
    }
  }

  lemma {:induction false} OwnedPut<R>(t: Tree<R>, path: Path, s: Tree<R>, peer: Peer)
    requires OnTree(t, path)
    ensures Owned(Put(t, path, s), peer) == Owned(t, peer) - Owned(At(t, path), peer) + Owned(s, peer)
    ensures Owned(At(t, path), peer) <= Owned(t, peer)
  {
    if path != [] { OwnedPut(Child(t, path[0]), path[1..], s, peer); }
  }

  /** The routes stored outside the subtree at `path`. */
  ghost function RoutesAround<R>(t: Tree<R>, path: Path): set<Route>
    requires OnTree(t, path)
  {
    if path == [] then {}
    else OwnRoute(t) + Routes(Child(t, !path[0])) + RoutesAround(Child(t, path[0]), path[1..])
  }

  lemma {:induction false} RoutesPut<R>(t: Tree<R>, path: Path, s: Tree<R>)
    requires OnTree(t, path)
    ensures Routes(Put(t, path, s)) == RoutesAround(t, path) + Routes(s)
    ensures Routes(t) == RoutesAround(t, path) + Routes(At(t, path))
  {
    if path != [] {
      RoutesPut(Child(t, path[0]), path[1..], s);
      RoutesWithChild(t, path[0], Put(Child(t, path[0]), path[1..], s));
    }
  }

  /** `s` may stand where `u` stood: its prefix extends that of `u`. */
  ghost predicate Fits<R>(s: Tree<R>, u: Tree<R>) {
    s.Empty? || (u.Fork? && u.cidr <= s.cidr <= |s.bits| && u.cidr <= |u.bits| && s.bits[..u.cidr] == u.bits[..u.cidr])
  }

  lemma FitsHangs<R>(s: Tree<R>, u: Tree<R>, cidr: nat, bits: Bits, b: bool)
    requires Fits(s, u) && HangsBelow(cidr, bits, b, u)
    ensures HangsBelow(cidr, bits, b, s)
  {
    if s.Fork? {
      assert s.bits[..cidr] == s.bits[..u.cidr][..cidr] && u.bits[..u.cidr][..cidr] == u.bits[..cidr];
      assert s.bits[cidr] == s.bits[..u.cidr][cidr] && u.bits[..u.cidr][cidr] == u.bits[cidr];
    }
  }

  lemma {:induction false} WellFormedPut<R>(t: Tree<R>, path: Path, s: Tree<R>, width: nat)
    requires OnTree(t, path) && WellFormed(t, width) && WellFormed(s, width) && Fits(s, At(t, path))
    ensures WellFormed(Put(t, path, s), width) && Fits(Put(t, path, s), t)
  {
    if path != [] {
      var c := Child(t, path[0]);
      WellFormedPut(c, path[1..], s, width);
      FitsHangs(Put(c, path[1..], s), c, t.cidr, t.bits, path[0]);
    }
  }

  /** Every branch taken to the right leaves a left subtree behind that `peer` no longer owns. */
  ghost predicate LeftsClean<R>(t: Tree<R>, path: Path, peer: Peer)
    requires OnTree(t, path)
  {
    path == [] || ((path[0] ==> Owned(t.left, peer) == 0) && LeftsClean(Child(t, path[0]), path[1..], peer))
  }

  lemma {:induction false} LeftsCleanPut<R>(t: Tree<R>, path: Path, s: Tree<R>, peer: Peer)
    requires OnTree(t, path) && LeftsClean(t, path, peer)
    ensures OnTree(Put(t, path, s), path) && LeftsClean(Put(t, path, s), path, peer)
  {
    if path != [] { LeftsCleanPut(Child(t, path[0]), path[1..], s, peer); }
  }

  lemma {:induction false} LeftsCleanSnoc<R>(t: Tree<R>, path: Path, b: bool, peer: Peer)
    requires OnTree(t, path) && At(t, path).Fork? && OnTree(t, path + [b])
    ensures LeftsClean(t, path + [b], peer)
       <==> LeftsClean(t, path, peer) && (b ==> Owned(At(t, path).left, peer) == 0)
  {
    if path == [] {
      assert [b][1..] == [];
    } else {
      assert (path + [b])[1..] == path[1..] + [b];
      LeftsCleanSnoc(Child(t, path[0]), path[1..], b, peer);
    }
  }

  /** An upper bound on the loop iterations a full walk of `t` takes. */
  ghost function WalkCost<R>(t: Tree<R>): nat {
    match t
    case Empty => 0
    case Fork(_, _, _, _, l, r) => 3 + WalkCost(l) + WalkCost(r)
  }

  /** Iterations still owed to the ancestors of the node at `path`. */
  ghost function Pending<R>(t: Tree<R>, path: Path): nat
    requires OnTree(t, path)
  {
    if path == [] then 0
    else (if path[0] then 1 else 2 + WalkCost(t.right)) + Pending(Child(t, path[0]), path[1..])
  }

  lemma {:induction false} PendingSnoc<R>(t: Tree<R>, path: Path, b: bool)
    requires OnTree(t, path) && At(t, path).Fork? && OnTree(t, path + [b])
    ensures Pending(t, path + [b]) == Pending(t, path) + if b then 1 else 2 + WalkCost(At(t, path).right)
  {
    if path == [] {
      assert [b][1..] == [];
    } else {
      assert (path + [b])[1..] == path[1..] + [b];
      PendingSnoc(Child(t, path[0]), path[1..], b);
    }
  }
}
