/** The self-test's naive table: one list ordered by prefix length, searched linearly. */
module NaiveAllowedIps {
  import opened Wrappers
  import opened Prefixes

  /** struct horrible_allowedips_node: the masked address and its mask are the prefix. */
  datatype Item = Item(version: nat, prefix: Bits, value: Peer)

  /** The value stored first under a prefix; later duplicates are shadowed. */
  ghost function ValueOf(items: seq<Item>, version: nat, prefix: Bits): Option<Peer> {
    if items == [] then None
    else if items[0].version == version && items[0].prefix == prefix then Some(items[0].value)
    else ValueOf(items[1..], version, prefix)
  }

  ghost predicate Ordered(items: seq<Item>) {
    forall i, j :: 0 <= i < j < |items| ==> |items[i].prefix| >= |items[j].prefix|
  }

  function InsertOrdered(items: seq<Item>, x: Item): seq<Item> {
    if items == [] then [x]
    else if items[0].version == x.version && items[0].prefix == x.prefix then [x] + items[1..]
    else if |items[0].prefix| <= |x.prefix| then [x] + items
    else [items[0]] + InsertOrdered(items[1..], x)
  }

  lemma {:induction false} InsertOrderedMembers(items: seq<Item>, x: Item)
    ensures forall y :: y in InsertOrdered(items, x) ==> y == x || y in items
  {
    if items != [] { InsertOrderedMembers(items[1..], x); }
  }

  lemma {:induction false} InsertOrderedOrdered(items: seq<Item>, x: Item)
    requires Ordered(items)
    ensures Ordered(InsertOrdered(items, x))
  {
    if items != [] {
      InsertOrderedOrdered(items[1..], x);
      InsertOrderedMembers(items[1..], x);
      var rest := InsertOrdered(items[1..], x);
      forall y | y in items[1..] ensures |items[0].prefix| >= |y.prefix| {
        var k :| 0 <= k < |items[1..]| && items[1..][k] == y;
        assert items[k + 1] == y;
      }
      if items[0].version == x.version && items[0].prefix == x.prefix {
        OrderedCons(x, items[1..]);
      } else if |items[0].prefix| <= |x.prefix| {
        OrderedCons(x, items);
      } else {
        OrderedCons(items[0], rest);
      }
    }
  }

  lemma OrderedCons(x: Item, items: seq<Item>)
    requires Ordered(items) && forall y :: y in items ==> |x.prefix| >= |y.prefix|
    ensures Ordered([x] + items)
  {
  }

  /** Insertion sets the value of its own prefix and no other, although it may leave an
      older item for the same prefix further down the list. */
  lemma {:induction false} InsertOrderedValue(items: seq<Item>, x: Item, version: nat, prefix: Bits)
    requires Ordered(items)
    ensures ValueOf(InsertOrdered(items, x), version, prefix)
         == if version == x.version && prefix == x.prefix then Some(x.value) else ValueOf(items, version, prefix)
  {
    if items == [] {
      assert ([x] + items)[1..] == [];
    } else if items[0].version == x.version && items[0].prefix == x.prefix {
      assert ([x] + items[1..])[1..] == items[1..];
    } else if |items[0].prefix| <= |x.prefix| {
      assert ([x] + items)[1..] == items;
    } else {
      InsertOrderedValue(items[1..], x, version, prefix);
      assert ([items[0]] + InsertOrdered(items[1..], x))[1..] == InsertOrdered(items[1..], x);
    }
  }

  function LookupFirst(items: seq<Item>, version: nat, addr: Bits): Option<Peer> {
    if items == [] then None
    else if items[0].version == version && items[0].prefix <= addr then Some(items[0].value)
    else LookupFirst(items[1..], version, addr)
  }

  /** The list stores exactly the given routes for this address family. */
  ghost predicate Stores(items: seq<Item>, version: nat, rs: set<Route>) {
    forall p, v :: Route(p, v) in rs <==> ValueOf(items, version, p) == Some(v)
  }

  lemma {:induction false} ValueMember(items: seq<Item>, version: nat, prefix: Bits)
    requires ValueOf(items, version, prefix).Some?
    ensures Item(version, prefix, ValueOf(items, version, prefix).value) in items
  {
    if !(items[0].version == version && items[0].prefix == prefix) { ValueMember(items[1..], version, prefix); }
  }

  /** The first match of an ordered list is the longest one. */
  lemma {:induction false} LookupFirstLongest(items: seq<Item>, version: nat, addr: Bits)
    requires Ordered(items)
    ensures match LookupFirst(items, version, addr)
            case None => forall x :: x in items && x.version == version ==> !(x.prefix <= addr)
            case Some(v) =>
              exists p :: p <= addr && ValueOf(items, version, p) == Some(v)
                          && forall x :: x in items && x.version == version && x.prefix <= addr ==> |x.prefix| <= |p|
  {
    if items != [] {
      if items[0].version == version && items[0].prefix <= addr {
        assert ValueOf(items, version, items[0].prefix) == Some(items[0].value);
      } else {
        LookupFirstLongest(items[1..], version, addr);
        assert forall x :: x in items ==> x == items[0] || x in items[1..];
        if LookupFirst(items[1..], version, addr).Some? {
          var p :| p <= addr && ValueOf(items[1..], version, p) == LookupFirst(items[1..], version, addr)
                   && forall x :: x in items[1..] && x.version == version && x.prefix <= addr ==> |x.prefix| <= |p|;
          assert ValueOf(items, version, p) == ValueOf(items[1..], version, p);
        }
      }
    }
  }

  /** So the naive table answers with the longest match among the routes it stores. */
  lemma NaiveIsLongestMatch(items: seq<Item>, version: nat, rs: set<Route>, addr: Bits)
    requires Ordered(items) && Stores(items, version, rs)
    ensures IsLongestMatch(rs, addr, LookupFirst(items, version, addr))
  {
    LookupFirstLongest(items, version, addr);
    forall r | r in rs && r.prefix <= addr
      ensures Item(version, r.prefix, r.peer) in items
    {
      assert r == Route(r.prefix, r.peer);
      assert ValueOf(items, version, r.prefix) == Some(r.peer);
      ValueMember(items, version, r.prefix);
    }
    var res := LookupFirst(items, version, addr);
    if res.Some? {
      var p :| p <= addr && ValueOf(items, version, p) == res
               && forall x :: x in items && x.version == version && x.prefix <= addr ==> |x.prefix| <= |p|;
      assert Route(p, res.value) in rs;
      forall s | s in rs && s.prefix <= addr ensures |s.prefix| <= |p| {
        assert Item(version, s.prefix, s.peer).prefix == s.prefix;
      }
    }
  }

  lemma InsertStores(items: seq<Item>, x: Item, version: nat, rs: set<Route>)
    requires Ordered(items) && Stores(items, version, rs)
    ensures Stores(InsertOrdered(items, x), version, if version == x.version then Inserted(rs, x.prefix, x.value) else rs)
  {
    forall p ensures ValueOf(InsertOrdered(items, x), version, p)
                  == if version == x.version && p == x.prefix then Some(x.value) else ValueOf(items, version, p) {
      InsertOrderedValue(items, x, version, p);
    }
  }

  lemma {:induction false} UpdateHere(items: seq<Item>, i: nat, x: Item)
    requires i < |items| && InsertOrdered(items, x) == items[..i] + InsertOrdered(items[i..], x)
    requires items[i].version == x.version && items[i].prefix == x.prefix
    ensures items[i := x] == InsertOrdered(items, x)
  {
    assert InsertOrdered(items[i..], x) == [x] + items[i..][1..];
  }

  lemma {:induction false} GoOn(items: seq<Item>, i: nat, x: Item)
    requires i < |items| && InsertOrdered(items, x) == items[..i] + InsertOrdered(items[i..], x)
    requires !(items[i].version == x.version && items[i].prefix == x.prefix) && |items[i].prefix| > |x.prefix|
    ensures InsertOrdered(items, x) == items[..i + 1] + InsertOrdered(items[i + 1..], x)
  {
    var rest := InsertOrdered(items[i + 1..], x);
    assert items[i..][1..] == items[i + 1..] && items[i..][0] == items[i];
    assert InsertOrdered(items[i..], x) == [items[i]] + rest;
    assert items[..i] + ([items[i]] + rest) == items[..i + 1] + rest;
  }

  lemma {:induction false} StopHere(items: seq<Item>, i: nat, x: Item)
    requires i <= |items| && InsertOrdered(items, x) == items[..i] + InsertOrdered(items[i..], x)
    requires i < |items| ==> |items[i].prefix| <= |x.prefix| && !(items[i].version == x.version && items[i].prefix == x.prefix)
    ensures items[..i] + [x] + items[i..] == InsertOrdered(items, x)
  {
    assert InsertOrdered(items[i..], x) == [x] + items[i..];
  }

  /** struct horrible_allowedips. */
  class Naive {
    var items: seq<Item>

    ghost predicate Valid()
      reads this
    {
      Ordered(items)
    }

    constructor ()
      ensures Valid() && items == []
    {
      items := [];
    }

    /** horrible_insert_ordered: update an equal item met on the way, or insert before the
        first item that is not longer, or append. */
    method Insert(x: Item)
      requires Valid()
      modifies this
      ensures Valid() && items == InsertOrdered(old(items), x)
    {
      InsertOrderedOrdered(items, x);
      var i := 0;
      while i < |items|
        invariant 0 <= i <= |items| && items == old(items)
        invariant InsertOrdered(items, x) == items[..i] + InsertOrdered(items[i..], x)
      {
        if items[i].version == x.version && items[i].prefix == x.prefix {
          UpdateHere(items, i, x);
          items := items[i := x];
          return;
        }
        if |items[i].prefix| <= |x.prefix| {
          break;
        }
        GoOn(items, i, x);
        i := i + 1;
      }
      StopHere(items, i, x);
      items := items[..i] + [x] + items[i..];
    }

    /** horrible_allowedips_lookup: the first item of the family that matches. */
    method Lookup(version: nat, addr: Bits) returns (ret: Option<Peer>)
      requires Valid()
      ensures ret == LookupFirst(items, version, addr)
    {
      ret := None;
      for i := 0 to |items|
        invariant ret == None
        invariant LookupFirst(items, version, addr) == LookupFirst(items[i..], version, addr)
      {
        if items[i].version != version {
          continue;
        }
        if items[i].prefix <= addr {
          ret := Some(items[i].value);
          return;
        }
      }
    }
  }
}
