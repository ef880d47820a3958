/** Addresses, prefixes and routing tables.

    An address is the sequence of its bits, most significant first, so a prefix of
    length `cidr` is the first `cidr` bits, and "the prefix matches the address" is
    Dafny's own prefix order on sequences. */
module Prefixes {
  import opened Wrappers

  datatype Peer = Peer(id: nat)

  type Bits = seq<bool>

  /** One table entry: the masked prefix and the peer that owns it. */
  datatype Route = Route(prefix: Bits, peer: Peer)

  /** Length of the longest common prefix of two addresses. */
  function CommonBits(a: Bits, b: Bits): (c: nat)
    ensures c <= |a| && c <= |b|
    ensures a[..c] == b[..c]
    ensures c < |a| && c < |b| ==> a[c] != b[c]
  {
    if a == [] || b == [] || a[0] != b[0] then 0
    else
      var c := CommonBits(a[1..], b[1..]);
      assert a[..c + 1] == [a[0]] + a[1..][..c];
      assert b[..c + 1] == [b[0]] + b[1..][..c];
      c + 1
  }

  /** The macro prefix_matches compares a count of common bits with the prefix
      length; it decides exactly whether the first `cidr` bits agree. */
  lemma PrefixMatchesIffAgree(a: Bits, b: Bits, cidr: nat)
    requires cidr <= |a| && cidr <= |b|
    ensures CommonBits(a, b) >= cidr <==> a[..cidr] == b[..cidr]
  {
    var c := CommonBits(a, b);
    if c >= cidr {
      assert a[..cidr] == a[..c][..cidr];
      assert b[..cidr] == b[..c][..cidr];
    } else {
      assert a[..cidr][c] == a[c] && b[..cidr][c] == b[c];
    }
  }

  ghost predicate Functional(rs: set<Route>) {
    forall r, s :: r in rs && s in rs && r.prefix == s.prefix ==> r.peer == s.peer
  }

  /** What a lookup must return: the owner of the longest stored prefix of the address. */
  ghost predicate IsLongestMatch(rs: set<Route>, addr: Bits, res: Option<Peer>) {
    match res
    case None => forall r :: r in rs ==> !(r.prefix <= addr)
    case Some(p) =>
      exists r :: r in rs && r.peer == p && r.prefix <= addr
                  && forall s :: s in rs && s.prefix <= addr ==> |s.prefix| <= |r.prefix|
  }

  /** In a functional table that answer is unique. */
  lemma LongestMatchUnique(rs: set<Route>, addr: Bits, x: Option<Peer>, y: Option<Peer>)
    requires Functional(rs)
    requires IsLongestMatch(rs, addr, x) && IsLongestMatch(rs, addr, y)
    ensures x == y
  {
    if x.Some? && y.Some? {
      var r :| r in rs && r.peer == x.value && r.prefix <= addr
               && forall s :: s in rs && s.prefix <= addr ==> |s.prefix| <= |r.prefix|;
      var s :| s in rs && s.peer == y.value && s.prefix <= addr
               && forall q :: q in rs && q.prefix <= addr ==> |q.prefix| <= |s.prefix|;
      assert r.prefix == addr[..|r.prefix|] && s.prefix == addr[..|s.prefix|];
    }
  }

  /** The table after inserting `peer` at `prefix`: any previous owner is replaced. */
  ghost function Inserted(rs: set<Route>, prefix: Bits, peer: Peer): set<Route> {
    (set r | r in rs && r.prefix != prefix) + {Route(prefix, peer)}
  }

  /** The table after removing every route of `peer`. */
  ghost function Without(rs: set<Route>, peer: Peer): set<Route> {
    set r | r in rs && r.peer != peer
  }

  /** Inserting where part of the table cannot hold the prefix only touches the rest. */
  lemma InsertedBeside(rs: set<Route>, ss: set<Route>, prefix: Bits, peer: Peer)
    requires forall r :: r in rs ==> r.prefix != prefix
    ensures Inserted(rs + ss, prefix, peer) == rs + Inserted(ss, prefix, peer)
  {
  }

}
