/** The byte cache with time-to-live, as a recency-ordered sequence of entries. */
module LruCache {
  import opened Wrappers
  import opened ByteStrings

  datatype Node = Node(key: Str, data: Str, expiry: real)

  function Bytes(order: seq<Node>): nat {
    if order == [] then 0 else |order[0].data| + Bytes(order[1..])
  }

  ghost predicate Distinct(order: seq<Node>) {
    forall i, j | 0 <= i < j < |order| :: order[i].key != order[j].key
  }

  function Without(order: seq<Node>, key: Str): seq<Node> {
    if order == [] then []
    else if order[0].key == key then Without(order[1..], key)
    else [order[0]] + Without(order[1..], key)
  }

  function Lookup(order: seq<Node>, key: Str): Option<Node> {
    if order == [] then None else if order[0].key == key then Some(order[0]) else Lookup(order[1..], key)
  }

  /** Drops the oldest entries until the rest fits in `room`. */
  function DropFor(order: seq<Node>, room: nat): seq<Node> {
    if order != [] && Bytes(order) > room then DropFor(order[1..], room) else order
  }

  datatype Operation = Get(key: Str, now: real) | Put(key: Str, data: Str, now: real) | Evict(key: Str)

  /** The entries after an operation, oldest first. */
  function After(order: seq<Node>, op: Operation, maxBytes: nat, ttl: real): seq<Node> {
    match op
    case Get(key, now) =>
      (match Lookup(order, key)
       case None => order
       case Some(node) => if now > node.expiry then Without(order, key) else Without(order, key) + [node])
    case Put(key, data, now) =>
      if |data| > maxBytes then order
      else DropFor(Without(order, key), maxBytes - |data|) + [Node(key, data, now + ttl)]
    case Evict(key) => Without(order, key)
  }

  function AfterAll(ops: seq<Operation>, maxBytes: nat, ttl: real): seq<Node> {
    if ops == [] then [] else After(AfterAll(ops[..|ops| - 1], maxBytes, ttl), ops[|ops| - 1], maxBytes, ttl)
  }

  // Facts about the entry sequence.

  lemma {:induction false} WithoutMeans(order: seq<Node>, key: Str)
    requires Distinct(order)
    ensures Distinct(Without(order, key))
    ensures forall n :: n in Without(order, key) <==> n in order && n.key != key
    ensures Bytes(Without(order, key)) == Bytes(order) - (if Lookup(order, key).Some? then |Lookup(order, key).value.data| else 0)
  {
    if order != [] {
      var rest := order[1..];
      WithoutMeans(rest, key);
      assert order == [order[0]] + rest;
      if order[0].key == key {
        LookupMeans(rest, key);
      } else {
        assert Without(order, key) == [order[0]] + Without(rest, key);
        ConsDistinct(order[0], Without(rest, key));
      }
    }
  }

  lemma ConsDistinct(n: Node, rest: seq<Node>)
    requires Distinct(rest) && forall m | m in rest :: m.key != n.key
    ensures Distinct([n] + rest)
  {
  }

  lemma {:induction false} LookupMeans(order: seq<Node>, key: Str)
    requires Distinct(order)
    ensures match Lookup(order, key)
            case Some(n) => n in order && n.key == key
            case None => forall n | n in order :: n.key != key
    ensures forall n | n in order && n.key == key :: Lookup(order, key) == Some(n)
  {
    if order != [] {
      LookupMeans(order[1..], key);
      assert order == [order[0]] + order[1..];
    }
  }

  lemma {:induction false} BytesSnoc(order: seq<Node>, n: Node)
    ensures Bytes(order + [n]) == Bytes(order) + |n.data|
  {
    if order == [] {
      assert order + [n] == [n];
    } else {
      BytesSnoc(order[1..], n);
      assert (order + [n])[1..] == order[1..] + [n];
    }
  }

  /** Exactly the shortest run of least recently used entries goes that makes room. */
  lemma {:induction false} DropForIsShortest(order: seq<Node>, room: nat) returns (k: nat)
    ensures k <= |order| && DropFor(order, room) == order[k..]
    ensures Bytes(DropFor(order, room)) <= room
    ensures forall j | 0 <= j < k :: Bytes(order[j..]) > room
  {
    if order != [] && Bytes(order) > room {
      var l := DropForIsShortest(order[1..], room);
      k := l + 1;
      assert order[1..][l..] == order[k..];
      forall j | 0 <= j < k
        ensures Bytes(order[j..]) > room
      {
        if j == 0 {
          assert order[0..] == order;
        } else {
          assert order[1..][j - 1..] == order[j..];
        }
      }
    } else {
      k := 0;
    }
  }

  /** Without the entry of a key, the others stay in their order. */
  lemma {:induction false} WithoutAt(order: seq<Node>, key: Str, i: nat)
    requires Distinct(order) && i < |order| && order[i].key == key
    ensures Without(order, key) == order[..i] + order[i + 1..]
  {
    if i == 0 {
      WithoutFirst(order);
    } else {
      WithoutAt(order[1..], key, i - 1);
      assert order[..i] == [order[0]] + order[1..][..i - 1] && order[1..][i..] == order[i + 1..];
    }
  }

  lemma {:induction false} LookupAt(order: seq<Node>, key: Str, i: nat)
    requires Distinct(order) && i < |order| && order[i].key == key
    ensures Lookup(order, key) == Some(order[i])
  {
    if i > 0 {
      LookupAt(order[1..], key, i - 1);
    }
  }

  /** The cache after an operation on a key that it holds at position `i`. */
  lemma AfterHit(order: seq<Node>, op: Operation, maxBytes: nat, ttl: real, i: nat)
    requires Distinct(order) && i < |order| && order[i].key == op.key && !op.Put?
    ensures After(order, op, maxBytes, ttl) ==
            order[..i] + order[i + 1..] + (if op.Get? && op.now <= order[i].expiry then [order[i]] else [])
  {
    WithoutAt(order, op.key, i);
    LookupAt(order, op.key, i);
    assert order[..i] + order[i + 1..] + [] == order[..i] + order[i + 1..];
  }

  /** Nothing changes for a key that is not there. */
  lemma AfterMiss(order: seq<Node>, op: Operation, maxBytes: nat, ttl: real)
    requires Distinct(order) && !op.Put? && forall n | n in order :: n.key != op.key
    ensures After(order, op, maxBytes, ttl) == order
  {
    LookupMeans(order, op.key);
    WithoutMissing(order, op.key);
  }

  /**
    * A put makes its entry the newest, in place of the one before, and drops the fewest of the oldest others that make
    * room for it; one that is too large changes nothing.
    */
  lemma AfterPut(order: seq<Node>, key: Str, data: Str, now: real, maxBytes: nat, ttl: real) returns (k: nat)
    requires Distinct(order)
    ensures |data| > maxBytes ==> After(order, Put(key, data, now), maxBytes, ttl) == order
    ensures |data| <= maxBytes ==>
              var others := Without(order, key);
              && k <= |others| && After(order, Put(key, data, now), maxBytes, ttl) == others[k..] + [Node(key, data, now + ttl)]
              && Bytes(others[k..]) + |data| <= maxBytes && forall j | 0 <= j < k :: Bytes(others[j..]) + |data| > maxBytes
  {
    hide Bytes, DropFor, Without;
    if |data| <= maxBytes {
      k := DropForIsShortest(Without(order, key), maxBytes - |data|);
    } else {
      k := 0;
    }
  }

  ghost predicate WellKept(order: seq<Node>, maxBytes: nat) {
    Distinct(order) && Bytes(order) <= maxBytes
  }

  lemma SnocIsWellKept(order: seq<Node>, n: Node, maxBytes: nat)
    requires Distinct(order) && (forall m | m in order :: m.key != n.key) && Bytes(order) + |n.data| <= maxBytes
    ensures WellKept(order + [n], maxBytes)
  {
    BytesSnoc(order, n);
  }

  lemma DropForKeeps(order: seq<Node>, room: nat)
    requires Distinct(order)
    ensures Distinct(DropFor(order, room)) && Bytes(DropFor(order, room)) <= room
    ensures forall n | n in DropFor(order, room) :: n in order
  {
    var k := DropForIsShortest(order, room);
    hide DropFor, Bytes;
    assert forall i | 0 <= i < |order[k..]| :: order[k..][i] == order[k + i];
  }

  lemma AfterIsWellKept(order: seq<Node>, op: Operation, maxBytes: nat, ttl: real)
    requires WellKept(order, maxBytes)
    ensures WellKept(After(order, op, maxBytes, ttl), maxBytes)
  {
    hide Without, Lookup, DropFor, Bytes;
    WithoutMeans(order, op.key);
    LookupMeans(order, op.key);
    var rest := Without(order, op.key);
    if op.Get? && Lookup(order, op.key).Some? {
      SnocIsWellKept(rest, Lookup(order, op.key).value, maxBytes);
    } else if op.Put? && |op.data| <= maxBytes {
      DropForKeeps(rest, maxBytes - |op.data|);
      SnocIsWellKept(DropFor(rest, maxBytes - |op.data|), Node(op.key, op.data, op.now + ttl), maxBytes);
    }
  }

  /** The last put of `key` that was not too large, as an entry. */
  function LatestPut(ops: seq<Operation>, key: Str, maxBytes: nat, ttl: real): Option<Node> {
    if ops == [] then None
    else
      var last := ops[|ops| - 1];
      if last.Put? && last.key == key && |last.data| <= maxBytes then Some(Node(key, last.data, last.now + ttl))
      else LatestPut(ops[..|ops| - 1], key, maxBytes, ttl)
  }

  /** Whatever the cache holds for a key is what was last put for it. */
  lemma {:induction false} HoldsLatestPut(ops: seq<Operation>, maxBytes: nat, ttl: real)
    ensures var order := AfterAll(ops, maxBytes, ttl);
            && WellKept(order, maxBytes)
            && forall n | n in order :: LatestPut(ops, n.key, maxBytes, ttl) == Some(n)
  {
    if ops != [] {
      var before, op := AfterAll(ops[..|ops| - 1], maxBytes, ttl), ops[|ops| - 1];
      HoldsLatestPut(ops[..|ops| - 1], maxBytes, ttl);
      AfterIsWellKept(before, op, maxBytes, ttl);
      WithoutMeans(before, op.key);
      LookupMeans(before, op.key);
      if op.Put? && |op.data| <= maxBytes {
        DropForKeeps(Without(before, op.key), maxBytes - |op.data|);
      }
    }
  }

  // The cache object: a list, an index into it and a byte count.

  class Cache {
    const maxBytes: nat
    const ttl: real
    var order: seq<Node>
    var index: map<Str, Node>
    var currentBytes: int

    ghost predicate Agrees()
      reads this
    {
      && Distinct(order)
      && (forall k :: k in index <==> Lookup(order, k).Some?)
      && (forall k | k in index :: Some(index[k]) == Lookup(order, k))
      && currentBytes == Bytes(order)
    }

    ghost predicate Valid()
      reads this
    {
      Agrees() && currentBytes <= maxBytes
    }

    constructor (maxBytes: nat, ttl: real)
      ensures Valid() && order == [] && this.maxBytes == maxBytes && this.ttl == ttl
    {
      this.maxBytes, this.ttl, order, index, currentBytes := maxBytes, ttl, [], map[], 0;
    }

    method EvictKey(key: Str)
      requires Agrees()
      modifies this
      ensures Agrees() && order == Without(old(order), key)
    {
      WithoutMeans(order, key);
      WithoutLookup(order, key);
      if key !in index {
        WithoutMissing(order, key);
        return;
      }
      currentBytes := currentBytes - |index[key].data|;
      order := Without(order, key);
      index := index - {key};
    }

    method GetData(key: Str, now: real) returns (r: Option<Str>)
      requires Valid()
      modifies this
      ensures Valid() && order == After(old(order), Get(key, now), maxBytes, ttl)
      ensures r == match old(Lookup(order, key))
                   case Some(n) => if now > n.expiry then None else Some(n.data)
                   case None => None
    {
      AfterIsWellKept(order, Get(key, now), maxBytes, ttl);
      if key !in index {
        return None;
      }
      var node := index[key];
      WithoutMeans(order, key);
      WithoutLookup(order, key);
      LookupMeans(order, key);
      if now > node.expiry {
        EvictKey(key);
        return None;
      }
      BytesSnoc(Without(order, key), node);
      SnocLookup(Without(order, key), node);
      order := Without(order, key) + [node];
      return Some(node.data);
    }

    method PutData(key: Str, data: Str, now: real)
      requires Valid()
      modifies this
      ensures Valid() && order == After(old(order), Put(key, data, now), maxBytes, ttl)
    {
      hide Without, Lookup, DropFor, Bytes;
      AfterIsWellKept(order, Put(key, data, now), maxBytes, ttl);
      if |data| > maxBytes {
        return;
      }
      WithoutMeans(order, key);
      EvictKey(key);
      ghost var rest := order;
      MakeRoom(maxBytes - |data|);
      DropForKeeps(rest, maxBytes - |data|);
      var node := Node(key, data, now + ttl);
      BytesSnoc(order, node);
      SnocLookup(order, node);
      order := order + [node];
      currentBytes := currentBytes + |data|;
      index := index[key := node];
    }

    /** The eviction loop of `put`. */
    method MakeRoom(room: nat)
      requires Agrees()
      modifies this
      ensures Agrees() && order == DropFor(old(order), room)
    {
      while currentBytes > room && order != []
        invariant Agrees() && DropFor(order, room) == DropFor(old(order), room)
        decreases |order|
      {
        WithoutFirst(order);
        EvictKey(order[0].key);
      }
    }
  }

  lemma {:induction false} WithoutMissing(order: seq<Node>, key: Str)
    requires Lookup(order, key).None?
    ensures Without(order, key) == order
  {
    if order != [] {
      WithoutMissing(order[1..], key);
      assert order == [order[0]] + order[1..];
    }
  }

  lemma WithoutFirst(order: seq<Node>)
    requires Distinct(order) && order != []
    ensures Without(order, order[0].key) == order[1..]
  {
    LookupMeans(order[1..], order[0].key);
    WithoutMissing(order[1..], order[0].key);
  }

  lemma {:induction false} WithoutLookup(order: seq<Node>, key: Str)
    ensures forall k :: Lookup(Without(order, key), k) == if k == key then None else Lookup(order, k)
  {
    if order != [] {
      WithoutLookup(order[1..], key);
      if order[0].key != key {
        assert ([order[0]] + Without(order[1..], key))[1..] == Without(order[1..], key);
      }
    }
  }

  lemma {:induction false} SnocLookup(order: seq<Node>, n: Node)
    requires forall m | m in order :: m.key != n.key
    ensures forall k :: Lookup(order + [n], k) == if k == n.key then Some(n) else Lookup(order, k)
  {
    if order == [] {
      assert order + [n] == [n];
    } else {
      SnocLookup(order[1..], n);
      assert (order + [n])[1..] == order[1..] + [n];
    }
  }
}
