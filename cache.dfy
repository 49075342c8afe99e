/** A fixed-capacity cache with least-recently-used eviction: a map from keys to records
    plus a doubly linked recency queue, most recently used at the head. The ghost `queue`
    lists the queue's nodes from head to tail. */
module LruCache {
  import opened JavaInt

  class QueueNode<K> {
    var next: QueueNode?<K>
    var previous: QueueNode?<K>
    const key: K

    constructor (k: K)
      ensures key == k && next == null && previous == null
    {
      key := k;
      next, previous := null, null;
    }
  }

  /** A record together with its key's node in the queue. The cache's CacheValue objects are
      private and reachable only from the table, so a value that put replaces stands for the
      object it updates. */
  datatype CacheValue<K, R> = CacheValue(node: QueueNode<K>, record: R)

  /** The keys of a run of queue nodes (keys never change, so this reads nothing). */
  function Keys<K>(q: seq<QueueNode<K>>): (ks: seq<K>)
    ensures |ks| == |q| && forall i {:trigger ks[i]} :: 0 <= i < |q| ==> ks[i] == q[i].key
  {
    seq(|q|, i requires 0 <= i < |q| => q[i].key)
  }

  lemma KeysConcat<K>(a: seq<QueueNode<K>>, b: seq<QueueNode<K>>)
    ensures Keys(a + b) == Keys(a) + Keys(b)
  {
  }

  lemma KeysSlice<K>(q: seq<QueueNode<K>>, lo: nat, hi: nat)
    requires lo <= hi <= |q|
    ensures Keys(q[lo..hi]) == Keys(q)[lo..hi]
  {
  }

  /** s without its occurrences of x. */
  function Without<K(==)>(s: seq<K>, x: K): seq<K>
  {
    if s == [] then [] else (if s[0] == x then [] else [s[0]]) + Without(s[1..], x)
  }

  /** Without keeps exactly the elements of s other than x. */
  lemma {:induction false} WithoutElements<K>(s: seq<K>, x: K)
    ensures forall y :: y in Without(s, x) <==> y in s && y != x
  {
    if s != [] {
      WithoutElements(s[1..], x);
      assert s == [s[0]] + s[1..];
    }
  }

  ghost predicate Distinct<T>(s: seq<T>)
  {
    forall i, j :: 0 <= i < j < |s| ==> s[i] != s[j]
  }

  lemma {:induction false} DistinctSize<T>(s: seq<T>)
    requires Distinct(s)
    ensures |set x | x in s| == |s|
  {
    if s != [] {
      var rest := set x | x in s[1..];
      assert (set x | x in s) == {s[0]} + rest;
      assert s[0] !in rest;
      DistinctSize(s[1..]);
    }
  }

  /** Removing entry i shifts the later entries down by one and keeps s without repeats. */
  lemma RemovedAt<T>(s: seq<T>, i: nat)
    requires i < |s| && Distinct(s)
    ensures var r := s[..i] + s[i + 1..];
      && |r| == |s| - 1
      && (forall j :: 0 <= j < |r| ==> r[j] == if j < i then s[j] else s[j + 1])
      && Distinct(r)
  {
    var r := s[..i] + s[i + 1..];
    forall j | 0 <= j < |r|
      ensures r[j] == if j < i then s[j] else s[j + 1]
    {
    }
    forall a, b | 0 <= a < b < |r|
      ensures r[a] != r[b]
    {
      var a' := if a < i then a else a + 1;
      var b' := if b < i then b else b + 1;
      assert r[a] == s[a'] && r[b] == s[b'] && a' < b';
    }
  }

  /** The record stored under each key of t. */
  ghost function Records<K, R>(t: map<K, CacheValue<K, R>>): map<K, R>
  {
    map k | k in t :: t[k].record
  }

  /** The table and the nodes of q point at each other: one node per key. */
  ghost predicate Indexes<K, R>(t: map<K, CacheValue<K, R>>, q: seq<QueueNode<K>>)
  {
    && (forall i :: 0 <= i < |q| ==> q[i].key in t && t[q[i].key].node == q[i])
    && (forall k :: k in t ==> t[k].node in q && t[k].node.key == k)
  }

  class Cache<K(==), R> {
    var table: map<K, CacheValue<K, R>>
    var head: QueueNode?<K>
    var tail: QueueNode?<K>
    const capacity: int
    var filled: int
    ghost var queue: seq<QueueNode<K>>

    /** head, tail and the next/previous links spell out `queue`. */
    ghost predicate Linked()
      reads this`head, this`tail, this`queue, queue
    {
      && (|queue| == 0 ==> head == null && tail == null)
      && (|queue| > 0 ==> head == queue[0] && tail == queue[|queue| - 1])
      && Distinct(queue)
      && (forall i {:trigger queue[i].next} :: 0 <= i < |queue| ==> queue[i].next == if i + 1 < |queue| then queue[i + 1] else null)
      && (forall i {:trigger queue[i].previous} :: 0 <= i < |queue| ==> queue[i].previous == if i > 0 then queue[i - 1] else null)
    }

    /** The queue holds one node per key of `table`, and `filled` counts them. */
    ghost predicate Consistent()
      reads this, queue
    {
      Linked() && filled == |queue| && Indexes(table, queue)
    }

    /** Consistent, and no fuller than the capacity allows. */
    ghost predicate Valid()
      reads this, queue
    {
      Consistent() && filled <= (if capacity > 0 then capacity else 0)
    }

    /** The keys from most to least recently used. */
    ghost function Order(): seq<K>
      reads this`queue
    {
      Keys(queue)
    }

    /** The record stored for each key. */
    ghost function Contents(): map<K, R>
      reads this`table
    {
      Records(table)
    }

    constructor (size: int)
      ensures Valid() && capacity == size && Order() == [] && Contents() == map[]
    {
      capacity := size;
      table := map[];
      head, tail := null, null;
      filled := 0;
      queue := [];
    }

    /** The key order is without repeats and holds exactly the keys of `table`. */
    lemma OrderHoldsTableKeys()
      requires Valid()
      ensures Distinct(Order())
      ensures forall k :: k in table <==> k in Order()
    {
      var o := Order();
      forall i, j | 0 <= i < j < |o|
        ensures o[i] != o[j]
      {
        assert table[o[i]].node == queue[i] && table[o[j]].node == queue[j];
      }
      forall k | k in table
        ensures k in o
      {
        var i :| 0 <= i < |queue| && queue[i] == table[k].node;
        assert o[i] == k;
      }
    }

    /** `filled` is the number of entries in the table. */
    lemma FilledIsSize()
      requires Valid()
      ensures filled == |table|
    {
      var o := Order();
      OrderHoldsTableKeys();
      DistinctSize(o);
      assert table.Keys == set k | k in o;
    }

    /** Unlinks node n (at position i of the queue), patching head, tail and its neighbours. */
    method RemoveFromQueue(n: QueueNode<K>, ghost i: nat)
      requires Linked() && i < |queue| && queue[i] == n
      modifies this`head, this`tail, this`queue, queue
      ensures Linked() && queue == old(queue[..i] + queue[i + 1..])
      ensures n.next == null && n.previous == null
    {
      ghost var q := queue;
      assert n.previous == if i > 0 then q[i - 1] else null;
      assert n.next == if i + 1 < |q| then q[i + 1] else null;
      if n == head {
        head := n.next;
      }
      if n == tail {
        tail := n.previous;
      }
      if n.previous != null {
        n.previous.next := n.next;
      }
      if n.next != null {
        n.next.previous := n.previous;
      }
      n.next := null;
      n.previous := null;
      queue := q[..i] + q[i + 1..];
      RemovedAt(q, i);
      forall j | 0 <= j < |queue|
        ensures queue[j].next == if j + 1 < |queue| then queue[j + 1] else null
        ensures queue[j].previous == if j > 0 then queue[j - 1] else null
      {
        if j < i {
          assert queue[j] == q[j] && q[j] != n;
        } else {
          assert queue[j] == q[j + 1] && q[j + 1] != n;
        }
      }
    }

    /** Drops n's key from the table. */
    method RemoveFromTable(n: QueueNode<K>)
      modifies this`table
      ensures table == old(table) - {n.key}
    {
      table := table - {n.key};
    }

    /** Puts an unlinked node n in front of the head; a node put into an empty queue is
        also its tail. */
    method LinkAtHead(n: QueueNode<K>)
      requires Linked() && n !in queue && n.next == null && n.previous == null
      modifies this`head, this`tail, this`queue, queue, n
      ensures Linked() && queue == [n] + old(queue)
    {
      ghost var q := queue;
      n.next := head;
      if head != null {
        head.previous := n;
      }
      head := n;
      if tail == null {
        tail := head;
      }
      queue := [n] + q;
      assert Distinct(queue) by {
        forall a, b | 0 <= a < b < |queue|
          ensures queue[a] != queue[b]
        {
          assert queue[b] == q[b - 1];
          if a > 0 {
            assert queue[a] == q[a - 1];
          }
        }
      }
      forall j | 0 <= j < |queue|
        ensures queue[j].next == if j + 1 < |queue| then queue[j + 1] else null
        ensures queue[j].previous == if j > 0 then queue[j - 1] else null
      {
        if j > 0 {
          assert queue[j] == q[j - 1];
        }
      }
    }

    /** The record for k, or None; a hit moves k to the head of the queue. */
    method Get(k: K) returns (r: Option<R>)
      requires Valid()
      modifies this`head, this`tail, this`queue, queue
      ensures Valid() && Contents() == old(Contents())
      ensures k !in old(table) ==> r == None && Order() == old(Order())
      ensures k in old(table) ==> r == Some(old(Contents())[k]) && Order() == [k] + Without(old(Order()), k)
    {
      if k !in table {
        return None;
      }
      var c := table[k];
      var n := c.node;
      MoveToHead(n);
      r := Some(c.record);
    }

    /** Moves the node of a key in the table to the head of the queue. */
    method MoveToHead(n: QueueNode<K>)
      requires Valid() && n.key in table && table[n.key].node == n
      modifies this`head, this`tail, this`queue, queue
      ensures Valid() && Order() == [n.key] + Without(old(Order()), n.key)
    {
      ghost var i :| 0 <= i < |queue| && queue[i] == n;
      ghost var q := queue;
      assert Distinct(Keys(q)) by {
        OrderHoldsTableKeys();
      }
      Relink(n, i);
      MovedIndexes(table, q, i, queue);
      assert Linked() && filled == |queue| && Indexes(table, queue);
      MoveToFront(q, i, queue);
    }

    /** Unlinks node n (at position i of the queue) and links it in again at the head. */
    method Relink(n: QueueNode<K>, ghost i: nat)
      requires Linked() && i < |queue| && queue[i] == n
      modifies this`head, this`tail, this`queue, queue
      ensures Linked() && queue == [n] + (old(queue)[..i] + old(queue)[i + 1..])
    {
      ghost var q := queue;
      RemoveFromQueue(n, i);
      assert n !in queue by {
        forall j | 0 <= j < |queue|
          ensures queue[j] != n
        {
          assert queue[j] == if j < i then q[j] else q[j + 1];
        }
      }
      // get as written stops at n.next = head; head = n, and leaves tail null when n was the only node
      LinkAtHead(n);
    }

    /** get exactly as written: on a one-entry cache it leaves head set but tail null. */
    method GetAsWritten(k: K) returns (r: Option<R>)
      requires Valid()
      modifies this`head, this`tail, this`queue, queue
      ensures r == if k in old(table) then Some(old(Contents())[k]) else None
      ensures k in old(table) && old(|queue|) == 1 ==> head != null && tail == null && !Valid()
    {
      if k !in table {
        return None;
      }
      var c := table[k];
      var n := c.node;
      ghost var i :| 0 <= i < |queue| && queue[i] == n;
      RemoveFromQueue(n, i);
      n.next := head;
      if head != null {
        head.previous := n;
      }
      head := n;
      queue := [n] + queue;
      r := Some(c.record);
    }

    /** Stores r under k. A present key keeps its place; a new key goes to the head and,
        when that overfills the cache, the tail (least recently used) key is evicted. */
    method Put(k: K, r: R)
      requires Valid()
      modifies this, queue
      ensures Valid()
      ensures k in old(table) ==> Order() == old(Order()) && Contents() == old(Contents())[k := r]
      ensures k !in old(table) ==> var o := [k] + old(Order());
        if |o| > capacity then
          Order() == o[..|o| - 1] && Contents() == old(Contents())[k := r] - {o[|o| - 1]}
        else
          Order() == o && Contents() == old(Contents())[k := r]
    {
      if k in table {
        Replace(k, r);
      } else {
        Add(k, r);
      }
    }

    /** A present key gets the new record and keeps its place in the queue. */
    method Replace(k: K, r: R)
      requires Valid() && k in table
      modifies this`table
      ensures Valid() && Order() == old(Order()) && Contents() == old(Contents())[k := r]
    {
      var d := table[k];
      table := table[k := d.(record := r)];
      ReplacedIndexes(old(table), queue, k, r);
    }

    /** A new key goes to the head; an overfull cache then evicts its tail. */
    method Add(k: K, r: R)
      requires Valid() && k !in table
      modifies this`table, this`head, this`tail, this`queue, this`filled, queue
      ensures Valid()
      ensures var o := [k] + old(Order());
        if |o| > capacity then
          Order() == o[..|o| - 1] && Contents() == old(Contents())[k := r] - {o[|o| - 1]}
        else
          Order() == o && Contents() == old(Contents())[k := r]
    {
      ghost var o := [k] + Order();
      ghost var c := Contents()[k := r];
      Insert(k, r);
      assert Order() == o && Contents() == c && filled == |o|;
      if filled > capacity {
        EvictTail();
        assert Order() == o[..|o| - 1] && Contents() == c - {o[|o| - 1]};
      }
    }

    /** A new key's record and node, linked in at the head; the cache may now be one too full. */
    method Insert(k: K, r: R)
      requires Valid() && k !in table
      modifies this`table, this`head, this`tail, this`queue, this`filled, queue
      ensures Consistent() && filled == old(filled) + 1
      ensures |queue| > 0 && fresh(queue[0]) && queue == [queue[0]] + old(queue)
      ensures Order() == [k] + old(Order()) && Contents() == old(Contents())[k := r]
    {
      ghost var q := queue;
      ghost var t := table;
      var n := new QueueNode(k);
      LinkAtHead(n);
      KeysConcat([n], q);
      assert Keys([n]) == [k];
      assert Order() == [k] + Keys(q);
      var c := CacheValue(n, r);
      table := table[k := c];
      filled := filled + 1;
      assert table == t[k := c] && queue == [c.node] + q;
      AddedIndexes(t, q, k, c);
      assert Linked() && filled == |queue| && Indexes(table, queue);
    }

    /** Unlinks the tail node, makes t, its predecessor, the new tail and counts one
        entry less. */
    method UnlinkTail(t: QueueNode?<K>)
      requires Linked() && |queue| > 0 && t == tail.previous
      modifies this`head, this`tail, this`queue, this`filled, queue
      ensures Linked() && queue == old(queue[..|queue| - 1]) && filled == old(filled) - 1
    {
      ghost var q := queue;
      RemoveFromQueue(tail, |queue| - 1);
      assert queue == q[..|q| - 1] by {
        assert q[|q|..] == [];
      }
      assert t == tail;
      tail := t;
      assert Linked();
      filled := filled - 1;
    }

    /** Evicts the key at the tail of the queue, the least recently used one. */
    method EvictTail()
      requires Consistent() && |queue| > 0
      modifies this`table, this`head, this`tail, this`queue, this`filled, queue
      ensures Consistent() && filled == old(filled) - 1
      ensures Order() == old(Order()[..|Order()| - 1])
      ensures Contents() == old(Contents()) - {old(Order()[|Order()| - 1])}
    {
      ghost var q := queue;
      ghost var t0 := table;
      ghost var last := q[|q| - 1].key;
      assert last == Order()[|Order()| - 1];
      var t := tail.previous;
      RemoveFromTable(tail);
      UnlinkTail(t);
      assert table == t0 - {last} && queue == q[..|q| - 1];
      DroppedIndexes(t0, q);
      assert Linked() && filled == |queue| && Indexes(table, queue);
      assert Contents() == Records(t0) - {last};
      KeysSlice(q, 0, |q| - 1);
    }
  }

  /** Moving node i of a queue to its front moves its key to the front of the key order. */
  lemma MoveToFront<K>(q: seq<QueueNode<K>>, i: nat, p: seq<QueueNode<K>>)
    requires i < |q| && Distinct(Keys(q)) && p == [q[i]] + (q[..i] + q[i + 1..])
    ensures Keys(p) == [q[i].key] + Without(Keys(q), q[i].key)
  {
    WithoutAt(Keys(q), i);
    KeysConcat([q[i]], q[..i] + q[i + 1..]);
    KeysConcat(q[..i], q[i + 1..]);
    KeysSlice(q, 0, i);
    KeysSlice(q, i + 1, |q|);
    assert q[..i] == q[0..i] && q[i + 1..] == q[i + 1..|q|];
  }

  /** Moving a node to the front of q keeps the table pointing at the nodes. */
  lemma MovedIndexes<K, R>(t: map<K, CacheValue<K, R>>, q: seq<QueueNode<K>>, i: nat, p: seq<QueueNode<K>>)
    requires i < |q| && p == [q[i]] + (q[..i] + q[i + 1..]) && Indexes(t, q)
    ensures Indexes(t, p)
  {
    forall j | 0 <= j < |p|
      ensures p[j].key in t && t[p[j].key].node == p[j]
    {
      var j' := if j == 0 then i else if j <= i then j - 1 else j;
      assert p[j] == q[j'];
    }
    forall kk | kk in t
      ensures t[kk].node in p
    {
      var j' :| 0 <= j' < |q| && q[j'] == t[kk].node;
      var j := if j' == i then 0 else if j' < i then j' + 1 else j';
      assert p[j] == q[j'];
    }
  }

  /** A new key whose value points at a new node in front of q. */
  lemma AddedIndexes<K, R>(t: map<K, CacheValue<K, R>>, q: seq<QueueNode<K>>, k: K, c: CacheValue<K, R>)
    requires Indexes(t, q) && k !in t && c.node.key == k
    ensures Indexes(t[k := c], [c.node] + q)
    ensures Records(t[k := c]) == Records(t)[k := c.record]
  {
    var t', p := t[k := c], [c.node] + q;
    forall j | 0 <= j < |p|
      ensures p[j].key in t' && t'[p[j].key].node == p[j]
    {
      if j > 0 {
        assert p[j] == q[j - 1];
      }
    }
  }

  /** A record replaced under a present key leaves the nodes where they are. */
  lemma ReplacedIndexes<K, R>(t: map<K, CacheValue<K, R>>, q: seq<QueueNode<K>>, k: K, r: R)
    requires Indexes(t, q) && k in t
    ensures Indexes(t[k := t[k].(record := r)], q)
    ensures Records(t[k := t[k].(record := r)]) == Records(t)[k := r]
  {
  }

  /** Dropping the last node of a repeat-free q and its key. */
  lemma DroppedIndexes<K, R>(t: map<K, CacheValue<K, R>>, q: seq<QueueNode<K>>)
    requires Indexes(t, q) && |q| > 0 && Distinct(q)
    ensures Indexes(t - {q[|q| - 1].key}, q[..|q| - 1])
    ensures Records(t - {q[|q| - 1].key}) == Records(t) - {q[|q| - 1].key}
  {
    var last := q[|q| - 1];
    var t', p := t - {last.key}, q[..|q| - 1];
    forall j | 0 <= j < |p|
      ensures p[j].key in t' && t'[p[j].key].node == p[j]
    {
      assert p[j] == q[j] && q[j] != last;
    }
    forall kk | kk in t'
      ensures t'[kk].node in p
    {
      var j :| 0 <= j < |q| && q[j] == t[kk].node;
      assert j != |q| - 1;
      assert p[j] == q[j];
    }
  }

  /** Removing the element at i of a repeat-free sequence is removing its value. */
  lemma {:induction false} WithoutAt<K>(s: seq<K>, i: nat)
    requires i < |s| && Distinct(s)
    ensures Without(s, s[i]) == s[..i] + s[i + 1..]
  {
    var t := s[1..];
    DistinctTail(s);
    if i == 0 {
      WithoutAbsent(t, s[0]);
      assert s[..0] + s[1..] == t;
    } else {
      WithoutAt(t, i - 1);
      assert t[i - 1] == s[i] && s[0] != s[i];
      assert s[..i] == [s[0]] + t[..i - 1];
      assert s[i + 1..] == t[i..];
    }
  }

  /** The tail of a repeat-free sequence is repeat-free and misses its head. */
  lemma DistinctTail<K>(s: seq<K>)
    requires |s| > 0 && Distinct(s)
    ensures Distinct(s[1..]) && s[0] !in s[1..]
  {
    var t := s[1..];
    forall a, b | 0 <= a < b < |t|
      ensures t[a] != t[b]
    {
      assert t[a] == s[a + 1] && t[b] == s[b + 1];
    }
  }

  lemma {:induction false} WithoutAbsent<K>(s: seq<K>, x: K)
    requires x !in s
    ensures Without(s, x) == s
  {
    if s != [] {
      WithoutAbsent(s[1..], x);
    }
  }
}
