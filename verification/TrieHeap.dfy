/** The trie as the kernel keeps it: nodes linked by pointers and spliced in place. */
module TrieHeap {
  import opened Wrappers
  import opened Prefixes
  import opened TrieModel
  import opened TriePaths

  /** struct allowedips_node.  The prefix is written before the node is published and
      never again; the peer and the two child pointers change in place. */
  class Node {
    const cidr: nat
    const bits: Bits
    var peer: Option<Peer>
    var left: Node?
    var right: Node?

    constructor (cidr: nat, bits: Bits, peer: Option<Peer>)
      ensures this.cidr == cidr && this.bits == bits && this.peer == peer
      ensures left == null && right == null
    {
      this.cidr := cidr;
      this.bits := bits;
      this.peer := peer;
      this.left := null;
      this.right := null;
    }

    function Bit(b: bool): Node?
      reads this
    {
      if b then right else left
    }

    ghost function Contents(): Cell
      reads this
    {
      Cell(peer, left, right)
    }
  }

  /** The mutable part of a node. */
  datatype Cell = Cell(peer: Option<Peer>, left: Node?, right: Node?) {
    function Bit(b: bool): Node? { if b then right else left }
    function WithBit(b: bool, n: Node?): Cell { if b then this.(right := n) else this.(left := n) }
  }

  type Heap = map<Node, Cell>

  /** The nodes reachable from `p` are linked exactly as the tree `t`. */
  ghost predicate Mirrors(h: Heap, p: Node?, t: Tree<Node>) {
    match t
    case Empty => p == null
    case Fork(n, cidr, bits, peer, l, r) =>
      p == n && n in h && n.cidr == cidr && n.bits == bits && h[n].peer == peer
      && Mirrors(h, h[n].left, l) && Mirrors(h, h[n].right, r)
  }

  ghost function Root(t: Tree<Node>): Node? { if t.Fork? then t.id else null }

  lemma {:induction false} MirrorsAt(h: Heap, p: Node?, t: Tree<Node>, path: Path)
    requires Mirrors(h, p, t) && OnTree(t, path)
    ensures Mirrors(h, Root(At(t, path)), At(t, path))
  {
    if path != [] {
      MirrorsAt(h, h[t.id].Bit(path[0]), Child(t, path[0]), path[1..]);
    }
  }

  lemma {:induction false} MirrorsIds(h: Heap, p: Node?, t: Tree<Node>)
    requires Mirrors(h, p, t)
    ensures Ids(t) <= h.Keys
  {
    if t.Fork? {
      MirrorsIds(h, h[t.id].left, t.left);
      MirrorsIds(h, h[t.id].right, t.right);
    }
  }

  /** Writes outside a tree leave it in place. */
  lemma {:induction false} MirrorsFrame(h: Heap, k: Heap, p: Node?, t: Tree<Node>)
    requires Mirrors(h, p, t)
    requires forall n :: n in Ids(t) && n in h ==> n in k && k[n] == h[n]
    ensures Mirrors(k, p, t)
  {
    if t.Fork? {
      MirrorsFrame(h, k, h[t.id].left, t.left);
      MirrorsFrame(h, k, h[t.id].right, t.right);
    }
  }

  /** One store to the child pointer named by `path + [b]`: the root now reaches the
      tree with that subtree replaced by whatever the stored pointer reaches. */
  lemma {:induction false} MirrorsSplice(h: Heap, k: Heap, p: Node?, t: Tree<Node>, path: Path, b: bool, s: Tree<Node>)
    requires Mirrors(h, p, t) && Distinct(t)
    requires OnTree(t, path) && At(t, path).Fork? && OnTree(t, path + [b])
    requires forall n :: n in Ids(t) && n in h && n != At(t, path).id && n !in Ids(At(t, path + [b])) ==> n in k && k[n] == h[n]
    requires var q := At(t, path).id;
             q in h && q in k && Mirrors(k, k[q].Bit(b), s) && k[q].WithBit(b, null) == h[q].WithBit(b, null)
    ensures Mirrors(k, p, Put(t, path + [b], s))
    decreases path
  {
    AtIds(t, path);
    AtSnoc(t, path, b);
    if path == [] {
      assert Put(t, [b], s) == WithChild(t, b, Put(Child(t, b), [b][1..], s));
      MirrorsFrame(h, k, h[t.id].Bit(!b), Child(t, !b));
    } else {
      var c := Child(t, path[0]);
      assert (path + [b])[1..] == path[1..] + [b];
      AtIds(c, path[1..]);
      AtIds(c, path[1..] + [b]);
      MirrorsFrame(h, k, h[t.id].Bit(!path[0]), Child(t, !path[0]));
      MirrorsSplice(h, k, h[t.id].Bit(path[0]), c, path[1..], b, s);
    }
  }

  /** Rewriting the subtree at `path` in place, with the pointer to it unchanged. */
  lemma {:induction false} MirrorsInPlace(h: Heap, k: Heap, p: Node?, t: Tree<Node>, path: Path, s: Tree<Node>)
    requires Mirrors(h, p, t) && Distinct(t) && OnTree(t, path)
    requires forall n :: n in Ids(t) && n in h && n !in Ids(At(t, path)) ==> n in k && k[n] == h[n]
    requires Mirrors(k, Root(At(t, path)), s)
    ensures Mirrors(k, p, Put(t, path, s))
    decreases path
  {
    if path != [] {
      var c := Child(t, path[0]);
      AtIds(c, path[1..]);
      MirrorsFrame(h, k, h[t.id].Bit(!path[0]), Child(t, !path[0]));
      MirrorsInPlace(h, k, h[t.id].Bit(path[0]), c, path[1..], s);
    }
  }

  /** A new node whose child pointer on the right branch reaches the displaced subtree. */
  lemma MirrorsAbove(h: Heap, added: Node, peer: Peer, sub: Tree<Node>)
    requires sub.Fork? && WellFormed(sub, |added.bits|) && added.cidr < |added.bits|
    requires added.cidr <= CommonBits(sub.bits, added.bits)
    requires added in h && h[added] == Cell(Some(peer), null, null).WithBit(sub.bits[added.cidr], sub.id)
    requires Mirrors(h, sub.id, sub)
    ensures Mirrors(h, added, InsertHere(sub, added.bits, added.cidr, peer, added, added))
  {
  }

  /** A joining node whose pointers reach the displaced subtree and the new leaf. */
  lemma MirrorsGlue(h: Heap, glue: Node, added: Node, peer: Peer, sub: Tree<Node>)
    requires sub.Fork? && WellFormed(sub, |added.bits|) && glue.bits == added.bits
    requires glue.cidr == CommonBits(sub.bits, added.bits) < added.cidr <= |added.bits|
    requires sub.bits[glue.cidr] != added.bits[glue.cidr]
    requires added in h && h[added] == Cell(Some(peer), null, null)
    requires glue in h && h[glue] == Cell(None, null, null).WithBit(sub.bits[glue.cidr], sub.id).WithBit(added.bits[glue.cidr], added)
    requires Mirrors(h, sub.id, sub)
    ensures Mirrors(h, glue, InsertHere(sub, added.bits, added.cidr, peer, added, glue))
  {
    assert Mirrors(h, added, Leaf(added, added.bits, added.cidr, Some(peer)));
  }
}
