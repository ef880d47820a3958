/** Lookup and insertion on the linked trie. */
module AllowedIps {
  import opened Wrappers
  import opened Prefixes
  import opened TrieModel
  import opened TriePaths
  import opened TrieHeap

  datatype Errno = Ok | EInval | ENoMem

  /** Of two allocations, one that is needed fails. */
  predicate Lacks(needed: nat, memory: (bool, bool)) { (needed >= 1 && !memory.0) || (needed >= 2 && !memory.1) }

  /** One of the two roots of struct allowedips, with the address width it serves. */
  class Trie {
    const width: nat
    var root: Node?
    /** What the nodes hold, as a value. */
    ghost var heap: Heap
    /** The tree the pointers spell out. */
    ghost var tree: Tree<Node>
    /** Every tree a reader entering at the root could have walked after some store so far. */
    ghost var seen: set<Tree<Node>>

    ghost predicate InSync()
      reads this, heap.Keys
    {
      forall n :: n in heap ==> heap[n] == n.Contents()
    }

    ghost predicate Linked()
      reads this, heap.Keys
    {
      InSync() && Mirrors(heap, root, tree)
    }

    ghost predicate Valid()
      reads this, heap.Keys
    {
      Linked() && Distinct(tree) && WellFormed(tree, width)
    }

    constructor (width: nat)
      ensures Valid() && tree == Empty && this.width == width && seen == {} && heap == map[]
    {
      this.width := width;
      this.root := null;
      this.heap := map[];
      this.tree := Empty;
      this.seen := {};
    }

    // ------------------------------------------------------------ stores

    method Alloc(cidr: nat, bits: Bits, peer: Option<Peer>) returns (n: Node)
      requires InSync()
      modifies this`heap
      ensures InSync() && fresh(n) && n !in old(heap) && heap == old(heap)[n := Cell(peer, null, null)]
      ensures heap.Keys == old(heap.Keys) + {n}
      ensures n.cidr == cidr && n.bits == bits
    {
      n := new Node(cidr, bits, peer);
      heap := heap[n := Cell(peer, null, null)];
    }

    // Every store into a node or the root is one of the next three methods.  Each says which
    // tree the pointers spell out afterwards and logs it.

    method StorePeer(n: Node, peer: Option<Peer>, ghost t: Tree<Node>)
      requires InSync() && n in heap && Distinct(t) && WellFormed(t, width)
      requires Mirrors(heap[n := heap[n].(peer := peer)], root, t)
      modifies this`heap, this`tree, this`seen, n
      ensures Valid() && tree == t && seen == old(seen) + {t}
      ensures heap == old(heap)[n := old(heap)[n].(peer := peer)] && heap.Keys == old(heap.Keys)
    {
      n.peer := peer;
      heap, tree, seen := heap[n := heap[n].(peer := peer)], t, seen + {t};
    }

    method StoreBit(n: Node, b: bool, c: Node?, ghost t: Tree<Node>)
      requires InSync() && n in heap && Distinct(t) && WellFormed(t, width)
      requires Mirrors(heap[n := heap[n].WithBit(b, c)], root, t)
      modifies this`heap, this`tree, this`seen, n
      ensures Valid() && tree == t && seen == old(seen) + {t}
      ensures heap == old(heap)[n := old(heap)[n].WithBit(b, c)] && heap.Keys == old(heap.Keys)
    {
      if b { n.right := c; } else { n.left := c; }
      heap, tree, seen := heap[n := heap[n].WithBit(b, c)], t, seen + {t};
    }

    method StoreRoot(c: Node?, ghost t: Tree<Node>)
      requires InSync() && Distinct(t) && WellFormed(t, width) && Mirrors(heap, c, t)
      modifies this`root, this`tree, this`seen
      ensures Valid() && tree == t && seen == old(seen) + {t} && root == c
    {
      root, tree, seen := c, t, seen + {t};
    }

    // ------------------------------------------------------------ lookup

    method FindNode(addr: Bits) returns (found: Node?)
      requires Valid() && |addr| == width
      ensures found != null ==> found in heap
      ensures Find(tree, addr) == if found == null then None else found.peer
    {
      var node := root;
      found := null;
      ghost var sub := tree;
      while node != null && CommonBits(node.bits, addr) >= node.cidr
        invariant Mirrors(heap, node, sub) && WellFormed(sub, width)
        invariant found != null ==> found in heap && found.peer.Some?
        invariant FindFrom(sub, addr, if found == null then None else found.peer) == Find(tree, addr)
        decreases sub
      {
        if node.peer.Some? {
          found := node;
        }
        if node.cidr == width {
          break;
        }
        sub := Child(sub, addr[node.cidr]);
        node := node.Bit(addr[node.cidr]);
      }
    }

    /** The peer an address routes to: the owner of the longest stored prefix of it. */
    method Lookup(addr: Bits) returns (peer: Option<Peer>)
      requires Valid() && |addr| == width
      ensures peer == Find(tree, addr)
      ensures IsLongestMatch(Routes(tree), addr, peer)
    {
      var node := FindNode(addr);
      peer := if node == null then None else node.peer;
      FindIsLongestMatch(tree, width, addr);
    }

    // ------------------------------------------------------------ insertion

    /** `parent` is the node above position `path`, null at the root. */
    ghost predicate IsParent(parent: Node?, path: Path, key: Bits, cidr: nat)
      reads this
      requires |key| == width && cidr <= width
    {
      if parent == null then path == []
      else
        |path| > 0 && OnTree(tree, path[..|path| - 1])
        && var p := At(tree, path[..|path| - 1]);
           p.Fork? && p.id == parent && p.cidr == parent.cidr && p.bits == parent.bits
           && |parent.bits| == width && parent.cidr < cidr && path[|path| - 1] == key[parent.cidr]
    }

    /** The walk of node_placement ended below `parent`, at `path`, without an exact match. */
    ghost predicate Placed(key: Bits, cidr: nat, parent: Node?, path: Path)
      reads this
    {
      |key| == width && cidr <= width
      && Descent(tree, path, key, cidr) && OnTree(tree, path) && WellFormed(At(tree, path), width)
      && !Descends(At(tree, path), key, cidr) && IsParent(parent, path, key, cidr)
    }

    /** Deepest node whose prefix covers the new one, and whether it is that very prefix. */
    method NodePlacement(key: Bits, cidr: nat) returns (exact: bool, parent: Node?, ghost path: Path)
      requires Valid() && |key| == width && cidr <= width
      ensures Descent(tree, path, key, cidr) && OnTree(tree, path) && WellFormed(At(tree, path), width)
      ensures exact ==> Descends(At(tree, path), key, cidr) && At(tree, path).cidr == cidr && parent == At(tree, path).id
      ensures !exact ==> !Descends(At(tree, path), key, cidr) && IsParent(parent, path, key, cidr)
    {
      var node := root;
      parent := null;
      exact := false;
      path := [];
      while node != null && node.cidr <= cidr && CommonBits(node.bits, key) >= node.cidr
        invariant OnTree(tree, path) && Mirrors(heap, node, At(tree, path)) && WellFormed(At(tree, path), width)
        invariant Descent(tree, path, key, cidr)
        invariant IsParent(parent, path, key, cidr)
        decreases At(tree, path)
      {
        parent := node;
        if parent.cidr == cidr {
          exact := true;
          break;
        }
        var b := key[parent.cidr];
        AtSnoc(tree, path, b);
        DescentSnoc(tree, path, key, cidr);
        assert (path + [b])[..|path|] == path;
        path := path + [b];
        node := parent.Bit(b);
      }
    }

    /** choose_node(parent, key): the subtree the new node will displace or join. */
    method FindDown(parent: Node, ghost path: Path, key: Bits, ghost cidr: nat) returns (down: Node?)
      requires Valid() && |key| == width && cidr <= width && OnTree(tree, path) && IsParent(parent, path, key, cidr)
      ensures down == Root(At(tree, path))
    {
      ghost var up := path[..|path| - 1];
      LastStep(path);
      AtSnoc(tree, up, key[parent.cidr]);
      MirrorsAt(heap, root, tree, up);
      down := parent.Bit(key[parent.cidr]);
    }

    /** The publishing store of add: hang the finished subtree `s` in place of the one at
        `path`, through the parent's child pointer or the root. */
    method Publish(parent: Node?, ghost path: Path, key: Bits, ghost cidr: nat, top: Node, ghost s: Tree<Node>)
      requires Valid() && |key| == width && cidr <= width && OnTree(tree, path) && IsParent(parent, path, key, cidr)
      requires Distinct(s) && Ids(s) !! (Ids(tree) - Ids(At(tree, path))) && Mirrors(heap, top, s)
      requires WellFormed(Put(tree, path, s), width)
      modifies this, heap.Keys
      ensures Valid() && tree == Put(old(tree), path, s) && heap.Keys == old(heap.Keys)
      ensures seen == old(seen) + {tree}
    {
      ghost var t := Put(tree, path, s);
      PutDistinct(tree, path, s);
      if parent == null {
        StoreRoot(top, t);
      } else {
        ghost var up, b := path[..|path| - 1], key[parent.cidr];
        LastStep(path);
        AtSnoc(tree, up, b);
        AtIds(tree, up);
        MirrorsAt(heap, root, tree, up);
        ghost var k := heap[parent := heap[parent].WithBit(b, top)];
        MirrorsFrame(heap, k, top, s);
        MirrorsSplice(heap, k, root, tree, up, b, s);
        StoreBit(parent, key[parent.cidr], top, t);
      }
    }

    method AddExact(key: Bits, cidr: nat, peer: Peer, node: Node, ghost path: Path) returns (ret: Errno)
      requires Valid() && |key| == width && cidr <= width
      requires Descent(tree, path, key, cidr) && OnTree(tree, path)
      requires Descends(At(tree, path), key, cidr) && At(tree, path).cidr == cidr && node == At(tree, path).id
      modifies this, heap.Keys
      ensures Valid() && heap.Keys == old(heap.Keys) && ret == Ok
      ensures Routes(tree) == Inserted(old(Routes(tree)), key[..cidr], peer)
      ensures seen == old(seen) + {tree}
    {
      ghost var sub := At(tree, path);
      AtIds(tree, path);
      MirrorsAt(heap, root, tree, path);
      ghost var k := heap[node := heap[node].(peer := Some(peer))];
      ghost var s := sub.(peer := Some(peer));
      MirrorsFrame(heap, k, heap[node].left, s.left);
      MirrorsFrame(heap, k, heap[node].right, s.right);
      MirrorsInPlace(heap, k, root, tree, path, s);
      PutDistinct(tree, path, s);
      InsertAtPlace(tree, path, key, cidr, peer, node, node);
      InsertCorrect(tree, key, cidr, peer, node, node);
      StorePeer(node, Some(peer), Put(tree, path, s));
      return Ok;
    }

    /** A new node that no reader can reach yet. */
    method AllocBeside(cidr: nat, bits: Bits, peer: Option<Peer>) returns (n: Node)
      requires Valid()
      modifies this`heap
      ensures Valid() && fresh(n) && n !in old(heap) && n !in Ids(tree) && heap == old(heap)[n := Cell(peer, null, null)]
      ensures heap.Keys == old(heap.Keys) + {n}
      ensures n.cidr == cidr && n.bits == bits
    {
      ghost var h := heap;
      MirrorsIds(heap, root, tree);
      n := Alloc(cidr, bits, peer);
      MirrorsFrame(h, heap, root, tree);
    }

    method AddBelow(key: Bits, cidr: nat, peer: Peer, parent: Node?, ghost path: Path, memory: bool) returns (ret: Errno)
      requires Valid() && Placed(key, cidr, parent, path)
      requires root != null
      modifies this, heap.Keys
      ensures Valid() && fresh(heap.Keys - old(heap.Keys))
      ensures ret == Ok || ret == ENoMem
      ensures ret == Ok ==> Routes(tree) == Inserted(old(Routes(tree)), key[..cidr], peer)
      ensures ret == ENoMem <==> !memory && Needed(old(tree), key, cidr) == 2
      ensures ret == ENoMem ==> tree == old(tree) && seen == old(seen)
      ensures seen <= old(seen) + {old(tree), tree}
    {
      var newnode := AllocBeside(cidr, key, Some(peer));
      ret := AddNode(key, cidr, peer, parent, path, memory, newnode);
    }

    /** Link the new node in, beside, above or below what is there. */
    method AddNode(key: Bits, cidr: nat, peer: Peer, parent: Node?, ghost path: Path, memory: bool, newnode: Node) returns (ret: Errno)
      requires Valid() && Placed(key, cidr, parent, path) && root != null
      requires newnode in heap && newnode !in Ids(tree) && heap[newnode] == Cell(Some(peer), null, null)
      requires newnode.cidr == cidr && newnode.bits == key
      modifies this, heap.Keys
      ensures Valid() && fresh(heap.Keys - old(heap.Keys))
      ensures ret == Ok || ret == ENoMem
      ensures ret == Ok ==> Routes(tree) == Inserted(old(Routes(tree)), key[..cidr], peer)
      ensures ret == ENoMem <==> !memory && Needed(old(tree), key, cidr) == 2
      ensures ret == ENoMem ==> tree == old(tree) && seen == old(seen)
      ensures seen <= old(seen) + {old(tree), tree}
    {
      MirrorsAt(heap, root, tree, path);
      NeededAt(tree, path, key, cidr);
      var down := root;
      if parent != null {
        down := FindDown(parent, path, key, cidr);
      }
      if down == null {
        PublishInsert(key, cidr, peer, parent, path, newnode, newnode, newnode);
        return Ok;
      }
      var c := Min(cidr, CommonBits(down.bits, key));
      if newnode.cidr == c {
        AddAbove(key, cidr, peer, parent, path, newnode, down);
        return Ok;
      }
      if !memory {
        return ENoMem;
      }
      AddGlue(key, cidr, peer, parent, path, newnode, down, c);
      return Ok;
    }

    /** A store into a node that is not published yet is invisible to readers. */
    method StoreUnreached(n: Node, b: bool, c: Node?)
      requires Valid() && n in heap && n !in Ids(tree)
      modifies this`heap, this`tree, this`seen, n
      ensures Valid() && heap == old(heap)[n := old(heap)[n].WithBit(b, c)] && tree == old(tree)
      ensures heap.Keys == old(heap.Keys)
      ensures seen == old(seen) + {tree}
    {
      MirrorsFrame(heap, heap[n := heap[n].WithBit(b, c)], root, tree);
      StoreBit(n, b, c, tree);
    }

    method StoreTwice(n: Node, b: bool, c: Node?, b': bool, c': Node?)
      requires Valid() && n in heap && n !in Ids(tree)
      modifies this`heap, this`tree, this`seen, n
      ensures Valid() && heap == old(heap)[n := old(heap)[n].WithBit(b, c).WithBit(b', c')] && tree == old(tree)
      ensures heap.Keys == old(heap.Keys)
      ensures seen == old(seen) + {tree}
    {
      StoreUnreached(n, b, c);
      StoreUnreached(n, b', c');
    }

    /** Publish the finished replacement of the subtree where the walk ended. */
    method PublishInsert(key: Bits, ghost cidr: nat, ghost peer: Peer, parent: Node?, ghost path: Path, top: Node,
                         ghost added: Node, ghost glue: Node)
      requires Valid() && Placed(key, cidr, parent, path) && added !in Ids(tree)
      requires if At(tree, path).Fork? && CommonBits(At(tree, path).bits, key) < cidr
               then glue !in Ids(tree) && glue != added else glue == added
      requires Mirrors(heap, top, InsertHere(At(tree, path), key, cidr, peer, added, glue))
      modifies this, heap.Keys
      ensures Valid() && heap.Keys == old(heap.Keys)
      ensures Routes(tree) == Inserted(old(Routes(tree)), key[..cidr], peer)
      ensures seen == old(seen) + {tree}
    {
      InsertAtPlaceCorrect(tree, path, key, cidr, peer, added, glue);
      Publish(parent, path, key, cidr, top, InsertHere(At(tree, path), key, cidr, peer, added, glue));
    }

    /** The new prefix covers the one in its place, which moves below it. */
    method AddAbove(key: Bits, cidr: nat, peer: Peer, parent: Node?, ghost path: Path, newnode: Node, down: Node)
      requires Valid() && Placed(key, cidr, parent, path)
      requires newnode in heap && newnode !in Ids(tree) && heap[newnode] == Cell(Some(peer), null, null)
      requires newnode.cidr == cidr && newnode.bits == key
      requires At(tree, path).Fork? && At(tree, path).id == down
      requires cidr <= CommonBits(At(tree, path).bits, key)
      modifies this, heap.Keys
      ensures Valid() && heap.Keys == old(heap.Keys)
      ensures Routes(tree) == Inserted(old(Routes(tree)), key[..cidr], peer)
      ensures seen == old(seen) + {old(tree), tree}
    {
      HangBelow(key, cidr, peer, path, newnode, down);
      PublishInsert(key, cidr, peer, parent, path, newnode, newnode, newnode);
    }

    /** Hang the displaced subtree below the new node, which nobody can reach yet. */
    method HangBelow(key: Bits, cidr: nat, ghost peer: Peer, ghost path: Path, newnode: Node, down: Node)
      requires Valid() && OnTree(tree, path) && WellFormed(At(tree, path), width) && At(tree, path).Fork? && At(tree, path).id == down
      requires |key| == width && cidr <= width && !Descends(At(tree, path), key, cidr)
      requires newnode in heap && newnode !in Ids(tree) && heap[newnode] == Cell(Some(peer), null, null)
      requires newnode.cidr == cidr && newnode.bits == key && cidr <= CommonBits(At(tree, path).bits, key)
      modifies this`heap, this`tree, this`seen, newnode
      ensures Valid() && tree == old(tree) && heap.Keys == old(heap.Keys) && seen == old(seen) + {tree}
      ensures Mirrors(heap, newnode, InsertHere(At(tree, path), key, cidr, peer, newnode, newnode))
    {
      ghost var h, sub := heap, At(tree, path);
      SplitPoint(sub, key, cidr);
      MirrorsAt(heap, root, tree, path);
      StoreUnreached(newnode, down.bits[newnode.cidr], down);
      AtIds(tree, path);
      MirrorsFrame(h, heap, down, sub);
      MirrorsAbove(heap, newnode, peer, sub);
    }

    /** The two prefixes part at bit `c`: a node without a peer joins them. */
    method AddGlue(key: Bits, cidr: nat, peer: Peer, parent: Node?, ghost path: Path, newnode: Node, down: Node, c: nat)
      requires Valid() && Placed(key, cidr, parent, path)
      requires newnode in heap && newnode !in Ids(tree) && heap[newnode] == Cell(Some(peer), null, null)
      requires newnode.cidr == cidr && newnode.bits == key
      requires At(tree, path).Fork? && At(tree, path).id == down
      requires c == CommonBits(At(tree, path).bits, key) < cidr
      modifies this, heap.Keys
      ensures Valid() && fresh(heap.Keys - old(heap.Keys))
      ensures Routes(tree) == Inserted(old(Routes(tree)), key[..cidr], peer)
      ensures seen == old(seen) + {old(tree), tree}
    {
      var node := AllocBeside(c, newnode.bits, None);
      LinkGlue(key, cidr, peer, parent, path, newnode, down, c, node);
    }

    method LinkGlue(key: Bits, cidr: nat, peer: Peer, parent: Node?, ghost path: Path, newnode: Node, down: Node, c: nat, node: Node)
      requires Valid() && Placed(key, cidr, parent, path)
      requires newnode in heap && newnode !in Ids(tree) && heap[newnode] == Cell(Some(peer), null, null)
      requires newnode.cidr == cidr && newnode.bits == key
      requires At(tree, path).Fork? && At(tree, path).id == down
      requires c == CommonBits(At(tree, path).bits, key) < cidr
      requires node in heap && node != newnode && node !in Ids(tree) && heap[node] == Cell(None, null, null)
      requires node.cidr == c && node.bits == key
      modifies this, heap.Keys
      ensures Valid() && heap.Keys == old(heap.Keys)
      ensures Routes(tree) == Inserted(old(Routes(tree)), key[..cidr], peer)
      ensures seen == old(seen) + {old(tree), tree}
    {
      FillGlue(key, cidr, peer, path, newnode, down, c, node);
      PublishInsert(key, cidr, peer, parent, path, node, newnode, node);
    }

    /** Hang both subtrees below the glue node, which nobody can reach yet. */
    method FillGlue(key: Bits, cidr: nat, ghost peer: Peer, ghost path: Path, newnode: Node, down: Node, c: nat, node: Node)
      requires Valid() && OnTree(tree, path) && WellFormed(At(tree, path), width) && At(tree, path).Fork? && At(tree, path).id == down
      requires |key| == width && cidr <= width && !Descends(At(tree, path), key, cidr)
      requires newnode in heap && newnode !in Ids(tree) && heap[newnode] == Cell(Some(peer), null, null)
      requires newnode.cidr == cidr && newnode.bits == key && c == CommonBits(At(tree, path).bits, key) < cidr
      requires node in heap && node != newnode && node !in Ids(tree) && heap[node] == Cell(None, null, null)
      requires node.cidr == c && node.bits == key
      modifies this`heap, this`tree, this`seen, node
      ensures Valid() && tree == old(tree) && heap.Keys == old(heap.Keys) && seen == old(seen) + {tree}
      ensures Mirrors(heap, node, InsertHere(At(tree, path), key, cidr, peer, newnode, node))
    {
      ghost var h, sub := heap, At(tree, path);
      SplitPoint(sub, key, cidr);
      MirrorsAt(heap, root, tree, path);
      StoreTwice(node, down.bits[c], down, newnode.bits[c], newnode);
      AtIds(tree, path);
      MirrorsFrame(h, heap, down, sub);
      MirrorsGlue(heap, node, newnode, peer, sub);
    }

    /** add: `memory` says which of the two allocations succeed.  The table changes by one
        route or not at all, and after every single store a reader entering at the root
        walks either the old tree or the final one. */
    method Add(key: Bits, cidr: nat, peer: Option<Peer>, memory: (bool, bool)) returns (ret: Errno)
      requires Valid() && |key| == width
      modifies this, heap.Keys
      ensures Valid() && fresh(heap.Keys - old(heap.Keys))
      ensures ret == EInval <==> cidr > width || peer == None
      ensures ret == Ok ==> Routes(tree) == Inserted(old(Routes(tree)), key[..cidr], peer.value)
      ensures ret != Ok ==> tree == old(tree) && seen == old(seen)
      ensures ret == ENoMem <==> cidr <= width && peer != None && Lacks(Needed(old(tree), key, cidr), memory)
      ensures seen <= old(seen) + {old(tree), tree}
    {
      if cidr > width || peer == None {
        return EInval;
      }
      if root == null {
        if !memory.0 {
          return ENoMem;
        }
        var only := Alloc(cidr, key, peer);
        InsertCorrect(tree, key, cidr, peer.value, only, only);
        StoreRoot(only, Insert(tree, key, cidr, peer.value, only, only));
        return Ok;
      }
      var exact, parent, path := NodePlacement(key, cidr);
      NeededAt(tree, path, key, cidr);
      if exact {
        ret := AddExact(key, cidr, peer.value, parent, path);
      } else if !memory.0 {
        ret := ENoMem;
      } else {
        ret := AddBelow(key, cidr, peer.value, parent, path, memory.1);
      }
    }
  }

  lemma LastStep(path: Path)
    requires |path| > 0
    ensures path == path[..|path| - 1] + [path[|path| - 1]]
  {
  }
}
