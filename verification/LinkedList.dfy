/** The linked list of src/common/list.c. */
module LinkedList {
  // With its live iterators.  The address of a `next` field is written as the node it
  // belongs to, and that of the `head` field of the list as null.

  import opened Options
  import opened Sequences

  class Node<T> {
    const data: T
    var next: Node?<T>

    constructor (data: T, next: Node?<T>)
      ensures this.data == data && this.next == next
    {
      this.data, this.next := data, next;
    }
  }

  /** struct listIterator: the node to come, and the address that leads to the
      node that was returned last, or to the one to come.  The places of both in
      the list are ghosts. */
  class Iterator<T> {
    var pos: Node?<T>
    var prev: Node?<T>
    ghost var at: Cursor

    constructor (head: Node?<T>)
      ensures pos == head && prev == null && at == Cursor(0, 0)
    {
      pos, prev, at := head, null, Cursor(0, 0);
    }
  }

  /** `prev` leads to the node number `prev`, `pos` is the node number `pos`. */
  datatype Cursor = Cursor(prev: nat, pos: nat)

  // ---- Places in a list

  function NodeAt<T>(ns: seq<Node<T>>, k: nat): Node?<T> {
    if k < |ns| then ns[k] else null
  }

  /** The address of what leads to node `k`. */
  function SlotAt<T>(ns: seq<Node<T>>, k: nat): Node?<T>
    requires k <= |ns|
  {
    if k == 0 then null else ns[k - 1]
  }

  lemma Differ<T>(ns: seq<Node<T>>, i: nat, j: nat)
    requires Distinct(ns) && i < |ns| && j < |ns| && i != j
    ensures ns[i] != ns[j]
  {
    if i < j {
      assert ns[i] != ns[j];
    } else {
      assert ns[j] != ns[i];
    }
  }

  lemma SlotUnique<T>(ns: seq<Node<T>>, i: nat, j: nat)
    requires Distinct(ns) && i <= |ns| && j <= |ns|
    ensures SlotAt(ns, i) == SlotAt(ns, j) <==> i == j
    ensures NodeAt(ns, i) == NodeAt(ns, j) <==> i == j
  {
    if i < j {
      assert i > 0 ==> ns[i - 1] != ns[j - 1];
      assert j < |ns| ==> ns[i] != ns[j];
    } else if j < i {
      assert j > 0 ==> ns[j - 1] != ns[i - 1];
      assert i < |ns| ==> ns[j] != ns[i];
    }
  }

  /** What a cursor may be: it leads to the node to come, or to the one before. */
  predicate Placed(c: Cursor, n: nat) {
    c.prev <= c.pos <= c.prev + 1 && c.pos <= n
  }

  function Inserted(c: Cursor, k: nat): Cursor {
    if c.prev >= k then Cursor(c.prev + 1, c.pos + 1) else c
  }

  function Removed(c: Cursor, k: nat): Cursor
    requires c.prev <= c.pos
  {
    if c.pos == k || (c.prev == k && c.pos == k + 1) then Cursor(k, k)
    else if c.prev > k then Cursor(c.prev - 1, c.pos - 1)
    else c
  }

  /** After one removal after the other. */
  function RemovedAll(c: Cursor, ks: seq<nat>): (r: Cursor)
    requires c.prev <= c.pos
    ensures r.prev <= r.pos
  {
    if ks == [] then c else Removed(RemovedAll(c, ks[..|ks| - 1]), ks[|ks| - 1])
  }

  function Advanced(c: Cursor, n: nat): Cursor {
    Cursor(c.pos, if c.pos < n then c.pos + 1 else c.pos)
  }

  function InsertAt<X>(s: seq<X>, k: nat, x: X): (r: seq<X>)
    requires k <= |s|
    ensures |r| == |s| + 1
  {
    s[..k] + [x] + s[k..]
  }

  function RemoveAt<X>(s: seq<X>, k: nat): (r: seq<X>)
    requires k < |s|
    ensures |r| == |s| - 1
  {
    s[..k] + s[k + 1..]
  }

  /** What a cursor points to after an insertion, from what it pointed to. */
  lemma InsertedPoints<T>(ns: seq<Node<T>>, k: nat, p: Node<T>, c: Cursor)
    requires Distinct(ns) && p !in ns && k <= |ns| && Placed(c, |ns|)
    ensures var ns', c' := InsertAt(ns, k, p), Inserted(c, k);
      && Distinct(ns') && Placed(c', |ns'|)
      && SlotAt(ns', c'.prev) == (if SlotAt(ns, c.prev) == SlotAt(ns, k) then p else SlotAt(ns, c.prev))
      && NodeAt(ns', c'.pos) ==
        (if SlotAt(ns, c.prev) != SlotAt(ns, k) && NodeAt(ns, c.pos) == NodeAt(ns, k) then p else NodeAt(ns, c.pos))
  {
    SlotUnique(ns, c.prev, k);
    SlotUnique(ns, c.pos, k);
  }

  /** And after a removal. */
  lemma RemovedPoints<T>(ns: seq<Node<T>>, k: nat, c: Cursor)
    requires Distinct(ns) && k < |ns| && Placed(c, |ns|)
    ensures var ns', c' := RemoveAt(ns, k), Removed(c, k);
      && Distinct(ns') && Placed(c', |ns'|)
      && SlotAt(ns', c'.prev) ==
        (if NodeAt(ns, c.pos) == ns[k] || SlotAt(ns, c.prev) == ns[k] then SlotAt(ns, k) else SlotAt(ns, c.prev))
      && NodeAt(ns', c'.pos) == (if NodeAt(ns, c.pos) == ns[k] then NodeAt(ns, k + 1) else NodeAt(ns, c.pos))
  {
    SlotUnique(ns, c.prev, k + 1);
    SlotUnique(ns, c.pos, k);
  }

  lemma InsertedNodes<T>(ns: seq<Node<T>>, k: nat, p: Node<T>)
    requires Distinct(ns) && p !in ns && k <= |ns|
    ensures var ns' := InsertAt(ns, k, p);
      && Distinct(ns') && ns'[k] == p && SlotAt(ns', |ns'|) == (if k == |ns| then p else ns[|ns| - 1])
      && (forall j :: 0 <= j < k ==> ns'[j] == ns[j])
      && (forall j :: k < j < |ns'| ==> ns'[j] == ns[j - 1])
  {
  }

  lemma InsertedAt<T>(ns: seq<Node<T>>, k: nat, p: Node<T>, j: nat)
    requires k <= |ns| && j <= |ns| + 1
    ensures NodeAt(InsertAt(ns, k, p), j) == if j < k then NodeAt(ns, j) else if j == k then p else NodeAt(ns, j - 1)
  {
  }

  lemma RemovedAt<T>(ns: seq<Node<T>>, k: nat, j: nat)
    requires k < |ns| && j < |ns|
    ensures NodeAt(RemoveAt(ns, k), j) == NodeAt(ns, if j < k then j else j + 1)
  {
  }

  lemma MovedAt<T>(ns: seq<Node<T>>, j: nat, m: nat, t: nat)
    requires m < j < |ns| && t <= |ns|
    ensures NodeAt(Moved(ns, j, m), t) ==
      if t < m || t > j then NodeAt(ns, t) else if t == m then ns[j] else NodeAt(ns, t - 1)
  {
  }

  lemma RemovedNodes<T>(ns: seq<Node<T>>, k: nat)
    requires Distinct(ns) && k < |ns|
    ensures var ns' := RemoveAt(ns, k);
      && Distinct(ns') && SlotAt(ns', |ns'|) == (if k == |ns| - 1 then SlotAt(ns, k) else ns[|ns| - 1])
      && (forall j :: 0 <= j < k ==> ns'[j] == ns[j])
      && (forall j :: k <= j < |ns'| ==> ns'[j] == ns[j + 1])
  {
  }

  // ---- The list

  class List<T> {
    var head: Node?<T>
    var tail: Node?<T>           // the address of the last `next` field
    var count: int
    var iters: seq<Iterator<T>>  // the iterator chain
    ghost var nodes: seq<Node<T>>

    /** The nodes are linked in their order. */
    ghost predicate Linked()
      reads this, nodes
    {
      && Distinct(nodes) && head == NodeAt(nodes, 0)
      && forall k :: 0 <= k < |nodes| ==> nodes[k].next == NodeAt(nodes, k + 1)
    }

    ghost predicate Follows(i: Iterator<T>)
      reads this, i
    {
      Placed(i.at, |nodes|) && i.prev == SlotAt(nodes, i.at.prev) && i.pos == NodeAt(nodes, i.at.pos)
    }

    ghost predicate Valid()
      reads this, nodes, iters
    {
      && Linked() && tail == SlotAt(nodes, |nodes|) && count == |nodes|
      && (forall i, j :: 0 <= i < j < |iters| ==> iters[i] != iters[j])
      && (forall i :: 0 <= i < |iters| ==> Follows(iters[i]))
    }

    /** list_create */
    constructor ()
      ensures Valid() && nodes == [] && iters == []
    {
      head, tail, count, iters, nodes := null, null, 0, [], [];
    }

    /** *pp */
    function Deref(pp: Node?<T>): Node?<T>
      reads this, pp
    {
      if pp == null then head else pp.next
    }

    /** list_node_create, at the address that leads to node `k` */
    method NodeCreate(pp: Node?<T>, x: T, ghost k: nat) returns (ghost node: Node<T>)
      requires Valid() && k <= |nodes| && pp == SlotAt(nodes, k)
      modifies this, nodes, iters
      ensures Valid() && iters == old(iters)
      ensures fresh(node) && node.data == x && nodes == InsertAt(old(nodes), k, node)
      ensures forall i :: 0 <= i < |iters| ==> iters[i].at == Inserted(old(iters[i].at), k)
    {
      hide SlotAt, NodeAt, InsertAt, Inserted;
      var p := Splice(pp, x, k);
      node := p;
      for j := 0 to |iters|
        invariant iters == old(iters) && nodes == InsertAt(old(nodes), k, p) && tail == SlotAt(nodes, |nodes|)
          && count == |nodes|
        invariant Linked() && p.next == NodeAt(old(nodes), k)
        invariant forall i :: 0 <= i < j ==> Follows(iters[i]) && iters[i].at == Inserted(old(iters[i].at), k)
        invariant forall i :: j <= i < |iters| ==>
          iters[i].prev == old(iters[i].prev) && iters[i].pos == old(iters[i].pos) && iters[i].at == old(iters[i].at)
      {
        InsertRepair(iters[j], pp, p, k, old(nodes));
      }
    }

    /** The node is put in its place. */
    method Splice(pp: Node?<T>, x: T, ghost k: nat) returns (p: Node<T>)
      requires Linked() && tail == SlotAt(nodes, |nodes|) && count == |nodes| && k <= |nodes| && pp == SlotAt(nodes, k)
      modifies this`head, this`tail, this`count, this`nodes, nodes
      ensures fresh(p) && p.data == x && nodes == InsertAt(old(nodes), k, p)
      ensures Linked() && tail == SlotAt(nodes, |nodes|) && count == |nodes|
      ensures p.next == NodeAt(old(nodes), k) && p !in old(nodes)
    {
      hide Distinct, InsertAt, NodeAt;
      DerefAt(pp, k);
      p := new Node(x, Deref(pp));
      if p.next == null {
        tail := p;
      }
      if pp == null {
        head := p;
      } else {
        pp.next := p;
      }
      count := count + 1;
      nodes := InsertAt(nodes, k, p);
      InsertedNodes(old(nodes), k, p);
      InsertedAt(old(nodes), k, p, 0);
      forall t | 0 <= t < |nodes|
        ensures nodes[t].next == NodeAt(nodes, t + 1)
      {
        InsertedAt(old(nodes), k, p, t + 1);
        if t != k && t != k - 1 {
          var u := if t < k then t else t - 1;
          assert old(nodes[u].next) == NodeAt(old(nodes), u + 1);
          if k > 0 {
            Differ(old(nodes), u, k - 1);
          }
        }
      }
    }

    /** An iterator is repaired after an insertion at `pp`. */
    method InsertRepair(i: Iterator<T>, pp: Node?<T>, p: Node<T>, ghost k: nat, ghost was: seq<Node<T>>)
      requires Distinct(was) && p !in was && k <= |was| && nodes == InsertAt(was, k, p)
      requires pp == SlotAt(was, k) && p.next == NodeAt(was, k)
      requires Placed(i.at, |was|) && i.prev == SlotAt(was, i.at.prev) && i.pos == NodeAt(was, i.at.pos)
      modifies i
      ensures Follows(i) && i.at == Inserted(old(i.at), k)
    {
      hide SlotAt, NodeAt, InsertAt;
      InsertedPoints(was, k, p, i.at);
      if i.prev == pp {
        i.prev := p;
      } else if i.pos == p.next {
        i.pos := p;
      }
      i.at := Inserted(i.at, k);
    }

    /** list_node_destroy, at the address that leads to node `k` */
    method NodeDestroy(pp: Node?<T>, ghost k: nat) returns (v: Option<T>)
      requires Valid() && k <= |nodes| && pp == SlotAt(nodes, k)
      modifies this, nodes, iters
      ensures Valid() && iters == old(iters)
      ensures k == |old(nodes)| ==> v == None && nodes == old(nodes) && forall i :: 0 <= i < |iters| ==>
        iters[i].at == old(iters[i].at)
      ensures k < |old(nodes)| ==>
        && v == Some(old(nodes)[k].data) && nodes == RemoveAt(old(nodes), k)
        && forall i :: 0 <= i < |iters| ==>
          Placed(old(iters[i].at), |old(nodes)|) && iters[i].at == Removed(old(iters[i].at), k)
    {
      hide SlotAt, NodeAt, RemoveAt, Removed;
      DerefAt(pp, k);
      if Deref(pp) == null {
        return None;
      }
      var p := Unlink(pp, k);
      v := Some(p.data);
      for j := 0 to |iters|
        invariant iters == old(iters) && nodes == RemoveAt(old(nodes), k) && tail == SlotAt(nodes, |nodes|)
          && count == |nodes|
        invariant Linked() && p.next == NodeAt(old(nodes), k + 1)
        invariant forall i :: 0 <= i < j ==>
          Follows(iters[i]) && Placed(old(iters[i].at), |old(nodes)|) && iters[i].at == Removed(old(iters[i].at), k)
        invariant forall i :: j <= i < |iters| ==>
          iters[i].prev == old(iters[i].prev) && iters[i].pos == old(iters[i].pos) && iters[i].at == old(iters[i].at)
      {
        RemoveRepair(iters[j], pp, p, k, old(nodes));
      }
    }

    lemma IsLinked()
      requires Valid()
      ensures Linked() && forall i :: 0 <= i < |iters| ==>
        Placed(iters[i].at, |nodes|) && iters[i].at.prev <= iters[i].at.pos
    {
    }

    lemma DerefAt(pp: Node?<T>, k: nat)
      requires Linked() && k <= |nodes| && pp == SlotAt(nodes, k)
      ensures Deref(pp) == NodeAt(nodes, k) && (Deref(pp) == null <==> k == |nodes|)
      ensures k < |nodes| ==> Deref(pp) == nodes[k]
    {
    }

    /** The node is taken out of its place. */
    method Unlink(pp: Node?<T>, ghost k: nat) returns (p: Node<T>)
      requires Linked() && tail == SlotAt(nodes, |nodes|) && count == |nodes| && k < |nodes| && pp == SlotAt(nodes, k)
      modifies this`head, this`tail, this`count, this`nodes, nodes
      ensures p == old(nodes)[k] && nodes == RemoveAt(old(nodes), k)
      ensures Linked() && tail == SlotAt(nodes, |nodes|) && count == |nodes|
      ensures p.next == NodeAt(old(nodes), k + 1)
    {
      hide Distinct, RemoveAt, NodeAt;
      DerefAt(pp, k);
      p := Deref(pp);
      DerefAt(p, k + 1);
      if pp == null {
        head := p.next;
      } else {
        pp.next := p.next;
      }
      if p.next == null {
        tail := pp;
      }
      count := count - 1;
      nodes := RemoveAt(nodes, k);
      RemovedNodes(old(nodes), k);
      RemovedAt(old(nodes), k, 0);
      forall t | 0 <= t < |nodes|
        ensures nodes[t].next == NodeAt(nodes, t + 1)
      {
        RemovedAt(old(nodes), k, t + 1);
        var u := if t < k then t else t + 1;
        assert old(nodes[u].next) == NodeAt(old(nodes), u + 1);
        if k > 0 && t != k - 1 {
          Differ(old(nodes), u, k - 1);
        }
      }
      if k > 0 {
        Differ(old(nodes), k, k - 1);
      }
    }

    /** An iterator is repaired after a removal at `pp`. */
    method RemoveRepair(i: Iterator<T>, pp: Node?<T>, p: Node<T>, ghost k: nat, ghost was: seq<Node<T>>)
      requires Distinct(was) && k < |was| && p == was[k] && nodes == RemoveAt(was, k)
      requires pp == SlotAt(was, k) && p.next == NodeAt(was, k + 1)
      requires Placed(i.at, |was|) && i.prev == SlotAt(was, i.at.prev) && i.pos == NodeAt(was, i.at.pos)
      modifies i
      ensures Follows(i) && i.at == Removed(old(i.at), k)
    {
      hide SlotAt, NodeAt, RemoveAt;
      RemovedPoints(was, k, i.at);
      if i.pos == p {
        i.pos, i.prev := p.next, pp;
      } else if i.prev == p {
        i.prev := pp;
      }
      i.at := Removed(i.at, k);
    }

    /** list_append, and list_enqueue */
    method Append(x: T) returns (ghost node: Node<T>)
      requires Valid()
      modifies this, nodes, iters
      ensures Valid() && iters == old(iters)
      ensures fresh(node) && node.data == x && nodes == InsertAt(old(nodes), |old(nodes)|, node)
      ensures forall i :: 0 <= i < |iters| ==> iters[i].at == Inserted(old(iters[i].at), |old(nodes)|)
    {
      node := NodeCreate(tail, x, |nodes|);
    }

    /** list_prepend, and list_push */
    method Prepend(x: T) returns (ghost node: Node<T>)
      requires Valid()
      modifies this, nodes, iters
      ensures Valid() && iters == old(iters)
      ensures fresh(node) && node.data == x && nodes == InsertAt(old(nodes), 0, node)
      ensures forall i :: 0 <= i < |iters| ==> iters[i].at == Inserted(old(iters[i].at), 0)
    {
      node := NodeCreate(null, x, 0);
    }

    /** list_iterator_create */
    method IteratorCreate() returns (i: Iterator<T>)
      requires Valid()
      modifies this`iters
      ensures Valid() && fresh(i) && iters == [i] + old(iters) && i.at == Cursor(0, 0)
    {
      i := new Iterator(head);
      iters := [i] + iters;
    }

    /** list_iterator_reset */
    method IteratorReset(i: Iterator<T>)
      requires Valid() && i in iters
      modifies i
      ensures Valid() && i.at == Cursor(0, 0)
    {
      i.pos, i.prev, i.at := head, null, Cursor(0, 0);
    }

    /** list_iterator_destroy */
    method IteratorDestroy(i: Iterator<T>)
      requires Valid()
      modifies this`iters
      ensures Valid() && i !in iters
      ensures i !in old(iters) ==> iters == old(iters)
      ensures forall k :: 0 <= k < |old(iters)| && old(iters)[k] == i ==> iters == RemoveAt(old(iters), k)
    {
      for k := 0 to |iters|
        invariant i !in iters[..k]
      {
        if iters[k] == i {
          iters := RemoveAt(iters, k);
          return;
        }
      }
    }

    /** list_next */
    method Next(i: Iterator<T>) returns (v: Option<T>)
      requires Valid() && i in iters
      modifies i
      ensures Valid() && i.at == Advanced(old(i.at), |nodes|)
      ensures v == if old(i.at.pos) < |nodes| then Some(nodes[old(i.at.pos)].data) else None
    {
      hide SlotAt, NodeAt, Advanced;
      assert Follows(i);
      v := Step(i);
    }

    method Step(i: Iterator<T>) returns (v: Option<T>)
      requires Linked() && Follows(i)
      modifies i
      ensures Follows(i) && i.at == Advanced(old(i.at), |nodes|)
      ensures v == if old(i.at.pos) < |nodes| then Some(nodes[old(i.at.pos)].data) else None
    {
      DerefAt(i.prev, i.at.prev);
      SlotUnique(nodes, i.at.prev, i.at.pos);
      var p := i.pos;
      if p != null {
        i.pos := p.next;
      }
      if Deref(i.prev) != p {
        i.prev := Deref(i.prev);
      }
      i.at := Advanced(i.at, |nodes|);
      v := if p == null then None else Some(p.data);
    }

    /** list_insert: before what was returned last, if it is still there. */
    method Insert(i: Iterator<T>, x: T) returns (ghost node: Node<T>)
      requires Valid() && i in iters
      modifies this, nodes, iters
      ensures Valid() && iters == old(iters)
      ensures fresh(node) && node.data == x
      ensures old(i.at.prev) <= |old(nodes)| && nodes == InsertAt(old(nodes), old(i.at.prev), node)
      ensures forall j :: 0 <= j < |iters| ==> iters[j].at == Inserted(old(iters[j].at), old(i.at.prev))
    {
      assert Follows(i);
      node := NodeCreate(i.prev, x, i.at.prev);
    }

    /** list_remove: what was returned last goes, if the iterator still leads to
        it; list_delete adds the deletion of the data. */
    method Remove(i: Iterator<T>) returns (v: Option<T>)
      requires Valid() && i in iters
      modifies this, nodes, iters
      ensures Valid() && iters == old(iters)
      ensures old(i.at.pos == i.at.prev) ==>
        v == None && nodes == old(nodes) && forall j :: 0 <= j < |iters| ==> iters[j].at == old(iters[j].at)
      ensures old(i.at.pos != i.at.prev) ==>
        && old(i.at.prev) < |old(nodes)| && v == Some(old(nodes)[old(i.at.prev)].data)
        && nodes == RemoveAt(old(nodes), old(i.at.prev))
        && forall j :: 0 <= j < |iters| ==>
          Placed(old(iters[j].at), |old(nodes)|) && iters[j].at == Removed(old(iters[j].at), old(i.at.prev))
    {
      assert Follows(i);
      DerefAt(i.prev, i.at.prev);
      SlotUnique(nodes, i.at.prev, i.at.pos);
      v := None;
      if Deref(i.prev) != i.pos {
        v := NodeDestroy(i.prev, i.at.prev);
      }
    }

    /** list_delete_all */
    method DeleteAll(f: T -> bool) returns (n: nat)
      requires Valid()
      modifies this, nodes, iters
      ensures Valid() && iters == old(iters)
      ensures nodes == Without(old(nodes), f) && n == |old(nodes)| - |nodes|
      ensures forall i :: 0 <= i < |iters| ==>
        Placed(old(iters[i].at), |old(nodes)|) && iters[i].at == RemovedAll(old(iters[i].at), Places(old(nodes), f))
    {
      hide SlotAt, NodeAt, RemoveAt, Without, Linked, RemovedAll, Places, Valid, Placed, Cleared, Picked;
      ghost var was, ats := nodes, Ats();
      ghost var j, k := 0, 0;
      var pp: Node?<T> := null;
      n := 0;
      PickedStart(was, f);
      IsLinked();
      ClearedStart(|was|);
      while Deref(pp) != null
        invariant Valid() && iters == old(iters) && k <= j <= |was| && n == j - k
        invariant Picked(nodes, was, j, k, f) && k <= |nodes| && pp == SlotAt(nodes, k)
        invariant forall x :: 0 <= x < |nodes| ==> nodes[x] in was
        invariant Cleared(ats, |was|, Places(was[..j], f))
        decreases |was| - j
      {
        IsLinked();
        DerefAt(pp, k);
        PickedStep(nodes, was, j, k, f);
        if f(Deref(pp).data) {
          TakeOut(pp, k, ats, |was|, Places(was[..j], f));
          n := n + 1;
        } else {
          pp := Deref(pp);
          k := k + 1;
        }
        j := j + 1;
        PickedWithin(nodes, was, j, k, f);
      }
      IsLinked();
      DerefAt(pp, k);
      PickedEnd(nodes, was, j, k, f);
      ClearedEnd(ats, |was|, Places(was, f));
    }

    /** The places of the iterators. */
    ghost function Ats(): (ats: seq<Cursor>)
      reads this, iters
      ensures |ats| == |iters| && forall i :: 0 <= i < |iters| ==> ats[i] == iters[i].at
    {
      seq(|iters|, i requires 0 <= i < |iters| reads this, iters => iters[i].at)
    }

    /** The iterators were at `ats` in a list of `n` nodes, and the nodes at `ks`
        have gone since, one after the other. */
    ghost predicate Cleared(ats: seq<Cursor>, n: nat, ks: seq<nat>)
      reads this, iters
    {
      |ats| == |iters| && forall i :: 0 <= i < |iters| ==> Placed(ats[i], n) && iters[i].at == RemovedAll(ats[i], ks)
    }

    lemma ClearedStart(n: nat)
      requires forall i :: 0 <= i < |iters| ==> Placed(iters[i].at, n)
      ensures Cleared(Ats(), n, [])
    {
    }

    lemma ClearedEnd(ats: seq<Cursor>, n: nat, ks: seq<nat>)
      requires Cleared(ats, n, ks)
      ensures forall i :: 0 <= i < |iters| ==> Placed(ats[i], n) && iters[i].at == RemovedAll(ats[i], ks)
    {
    }

    method TakeOut(pp: Node?<T>, ghost k: nat, ghost ats: seq<Cursor>, ghost n: nat, ghost ks: seq<nat>)
      requires Valid() && k < |nodes| && pp == SlotAt(nodes, k) && Cleared(ats, n, ks)
      modifies this, nodes, iters
      ensures Valid() && iters == old(iters) && nodes == RemoveAt(old(nodes), k) && Cleared(ats, n, ks + [k])
    {
      hide SlotAt, NodeAt, RemoveAt, Removed, Linked, Valid;
      var v := NodeDestroy(pp, k);
      assert (ks + [k])[..|ks|] == ks;
    }

    /** list_sort.  Whatever the comparison function answers, the list stays a list
        of the same nodes; if it orders their data, the list is sorted, and what
        compares equal keeps its order. */
    method Sort(f: (T, T) -> int)
      requires Valid()
      modifies this, nodes, iters
      ensures Valid() && iters == old(iters)
      ensures multiset(nodes) == multiset(old(nodes))
      ensures OrdersAll(f, old(nodes)) ==> StablySorted(nodes, old(nodes), f)
      ensures |nodes| > 1 ==> forall k :: 0 <= k < |iters| ==> iters[k].at == Cursor(0, 0)
    {
      hide SlotAt, NodeAt, StablySorted, OrdersAll, Placed;
      ghost var was := nodes;
      if count > 1 {
        var pp := SortNodes(f);
        tail := pp;
        ResetAll();
      } else {
        SortedShort(nodes, f);
      }
    }

    /** The iterators go back to the start of the list. */
    method ResetAll()
      requires Linked() && tail == SlotAt(nodes, |nodes|) && count == |nodes|
      requires forall i, j :: 0 <= i < j < |iters| ==> iters[i] != iters[j]
      modifies iters
      ensures Valid() && forall k :: 0 <= k < |iters| ==> iters[k].at == Cursor(0, 0)
    {
      for k := 0 to |iters|
        invariant Linked() && forall j :: 0 <= j < k ==> Follows(iters[j]) && iters[j].at == Cursor(0, 0)
      {
        iters[k].pos, iters[k].prev, iters[k].at := head, null, Cursor(0, 0);
      }
    }

    /** The loop of list_sort: the nodes before the one that `pp` leads to are
        sorted; the address of the last `next` field is returned. */
    method SortNodes(f: (T, T) -> int) returns (pp: Node?<T>)
      requires Linked() && |nodes| > 1
      modifies this`head, this`nodes, nodes
      ensures Linked() && multiset(nodes) == multiset(old(nodes)) && |nodes| == |old(nodes)|
      ensures pp == SlotAt(nodes, |nodes|)
      ensures OrdersAll(f, old(nodes)) ==> StablySorted(nodes, old(nodes), f)
    {
      hide SlotAt, NodeAt, StablySorted, OrdersAll, Moved, Distinct, SortedTo;
      ghost var was := nodes;
      ghost var j: nat := 1;
      AtHead();
      var ppPrev: Node?<T> := null;
      pp := head;
      SortedStart(was, f);
      Here(1);
      while Deref(pp) != null
        invariant 1 <= j <= |nodes| == |was| && Linked() && pp == SlotAt(nodes, j) && ppPrev == SlotAt(nodes, j - 1)
        invariant Deref(pp) == NodeAt(nodes, j) && (NodeAt(nodes, j) == null <==> j == |nodes|)
        invariant SortedTo(nodes, was, j, f) && forall x :: 0 <= x < |nodes| ==> nodes[x] in was
        decreases |was| - j
      {
        Here(j);
        if f(Deref(pp).data, Deref(ppPrev).data) < 0 {
          ppPrev := MoveBack(f, pp, ppPrev, j, was);
        } else {
          SortKeep(nodes, was, j, f);
          ppPrev := pp;
          pp := Deref(pp);
        }
        j := j + 1;
        Here(j);
        Within(nodes, was, j, f);
      }
      SortedEnd(nodes, was, f);
    }

    /** What the addresses around node `j` lead to. */
    lemma Here(j: nat)
      requires Linked() && 1 <= j <= |nodes|
      ensures Deref(SlotAt(nodes, j)) == NodeAt(nodes, j) && (NodeAt(nodes, j) == null <==> j == |nodes|)
      ensures j < |nodes| ==> NodeAt(nodes, j) == nodes[j] && SlotAt(nodes, j + 1) == nodes[j]
      ensures SlotAt(nodes, j) == nodes[j - 1] == Deref(SlotAt(nodes, j - 1))
    {
    }

    lemma AtHead()
      requires Linked() && nodes != []
      ensures SlotAt(nodes, 0) == null && head == SlotAt(nodes, 1)
    {
    }

    /** The node that `pp` leads to is smaller than the one before it: it goes in
        front of the first that is larger. */
    method MoveBack(f: (T, T) -> int, pp: Node?<T>, ppPrev: Node?<T>, ghost j: nat, ghost was: seq<Node<T>>)
      returns (ppPrev': Node?<T>)
      requires Linked() && 1 <= j < |nodes| && pp == SlotAt(nodes, j) && ppPrev == SlotAt(nodes, j - 1)
      requires SortedTo(nodes, was, j, f) && Distinct(was) && f(nodes[j].data, nodes[j - 1].data) < 0
      modifies this`head, this`nodes, nodes
      ensures Linked() && |nodes| == |old(nodes)| && SortedTo(nodes, was, j + 1, f)
      ensures pp == SlotAt(nodes, j + 1) && ppPrev' == SlotAt(nodes, j)
    {
      hide SlotAt, NodeAt, StablySorted, OrdersAll, Moved, Distinct, SortedTo;
      var ppPos;
      ghost var m;
      ppPos, m := FindPlace(f, pp, j);
      SortStep(nodes, was, j, m, f);
      MovedSlots(nodes, j, m);
      Relink(pp, ppPos, j, m);
      ppPrev' := ppPrev;
      if ppPrev == ppPos {
        Here(j);
        ppPrev' := Deref(ppPrev);
      }
    }

    /** The address of the first node that is larger than the one `pp` leads to. */
    method FindPlace(f: (T, T) -> int, pp: Node?<T>, ghost j: nat) returns (ppPos: Node?<T>, ghost m: nat)
      requires Linked() && 1 <= j < |nodes| && pp == SlotAt(nodes, j) && f(nodes[j].data, nodes[j - 1].data) < 0
      ensures m < j && ppPos == SlotAt(nodes, m) && f(nodes[j].data, nodes[m].data) < 0
      ensures forall t :: 0 <= t < m ==> f(nodes[j].data, nodes[t].data) >= 0
    {
      hide SlotAt, NodeAt, Distinct;
      AtHead();
      Here(j);
      ppPos, m := null, 0;
      Here(1);
      while f(Deref(pp).data, Deref(ppPos).data) >= 0
        invariant m < j && ppPos == SlotAt(nodes, m) && Deref(ppPos) == nodes[m]
        invariant forall t :: 0 <= t < m ==> f(nodes[j].data, nodes[t].data) >= 0
        decreases j - m
      {
        Here(m + 1);
        Here(m + 2);
        ppPos := Deref(ppPos);
        m := m + 1;
      }
    }

    /** The node that `pp` leads to is moved to where `ppPos` leads to. */
    method Relink(pp: Node?<T>, ppPos: Node?<T>, ghost j: nat, ghost m: nat)
      requires Linked() && m < j < |nodes| && pp == SlotAt(nodes, j) && ppPos == SlotAt(nodes, m)
      modifies this`head, this`nodes, nodes
      ensures Linked() && nodes == Moved(old(nodes), j, m)
    {
      hide Moved, Distinct, NodeAt;
      Here(j);
      Here(m + 1);
      MovedNodes(nodes, j, m);
      var p := Deref(pp);
      var pTmp := p.next;
      p.next := Deref(ppPos);
      if ppPos == null {
        head := p;
      } else {
        ppPos.next := p;
      }
      pp.next := pTmp;
      nodes := Moved(nodes, j, m);
      MovedAt(old(nodes), j, m, 0);
      forall t | 0 <= t < |nodes|
        ensures nodes[t].next == NodeAt(nodes, t + 1)
      {
        MovedAt(old(nodes), j, m, t + 1);
        if t != m && t + 1 != m && t != j {
          var u := if m < t < j then t - 1 else t;
          assert old(nodes[u].next) == NodeAt(old(nodes), u + 1);
          Differ(old(nodes), u, j);
          Differ(old(nodes), u, j - 1);
          if m > 0 {
            Differ(old(nodes), u, m - 1);
          }
        } else {
          Differ(old(nodes), j, j - 1);
          if m > 0 {
            Differ(old(nodes), j, m - 1);
            Differ(old(nodes), j - 1, m - 1);
          }
        }
      }
    }
  }

  /** The nodes whose data is not picked. */
  function Without<T>(ns: seq<Node<T>>, f: T -> bool): seq<Node<T>> {
    if ns == [] then [] else
      Without(ns[..|ns| - 1], f) + (if f(ns[|ns| - 1].data) then [] else [ns[|ns| - 1]])
  }

  /** Where those are that go, as the others before them have gone. */
  function Places<T>(ns: seq<Node<T>>, f: T -> bool): seq<nat> {
    if ns == [] then [] else
      Places(ns[..|ns| - 1], f) + (if f(ns[|ns| - 1].data) then [|Without(ns[..|ns| - 1], f)|] else [])
  }

  lemma PlacesStep<T>(was: seq<Node<T>>, j: nat, f: T -> bool)
    requires j < |was|
    ensures var ks := Places(was[..j], f); var ks' := Places(was[..j + 1], f);
      ks' == if f(was[j].data) then ks + [|Without(was[..j], f)|] else ks
  {
    assert was[..j + 1][..j] == was[..j];
  }

  /** Those that are not picked are left, in their order. */
  lemma {:induction false} WithoutLeaves<T>(ns: seq<Node<T>>, f: T -> bool) returns (at: seq<nat>)
    ensures |at| == |Without(ns, f)|
    ensures forall i :: 0 <= i < |at| ==> at[i] < |ns| && Without(ns, f)[i] == ns[at[i]] && !f(ns[at[i]].data)
    ensures forall i, j :: 0 <= i < j < |at| ==> at[i] < at[j]
    ensures forall k :: 0 <= k < |ns| && !f(ns[k].data) ==> k in at
  {
    if ns == [] {
      at := [];
    } else {
      var n := |ns| - 1;
      at := WithoutLeaves(ns[..n], f);
      if !f(ns[n].data) {
        at := at + [n];
      }
    }
  }

  lemma {:induction false} WithoutIn<T>(ns: seq<Node<T>>, f: T -> bool)
    ensures forall x :: x in Without(ns, f) ==> x in ns
  {
    if ns != [] {
      WithoutIn(ns[..|ns| - 1], f);
    }
  }

  lemma WithoutStart<T>(was: seq<Node<T>>, f: T -> bool)
    ensures Without(was[..0], f) == [] && was == [] + was[0..] && SlotAt(was, 0) == null
    ensures Places(was[..0], f) == []
  {
  }

  lemma WithoutStep<T>(was: seq<Node<T>>, j: nat, f: T -> bool)
    requires j < |was|
    ensures var done := Without(was[..j], f); var now := done + was[j..]; var k := |done|;
      && k < |now| && NodeAt(now, k) == was[j]
      && (if f(was[j].data) then Without(was[..j + 1], f) == done && RemoveAt(now, k) == done + was[j + 1..]
            && SlotAt(RemoveAt(now, k), k) == SlotAt(now, k)
          else Without(was[..j + 1], f) == done + [was[j]] && now == done + [was[j]] + was[j + 1..]
               && SlotAt(now, k + 1) == was[j])
  {
    assert was[..j + 1][..j] == was[..j];
  }

  /** The nodes that are left when `j` of them have been looked at and `k` of
      these have stayed. */
  ghost predicate Picked<T>(ns: seq<Node<T>>, was: seq<Node<T>>, j: nat, k: nat, f: T -> bool) {
    j <= |was| && k == |Without(was[..j], f)| && ns == Without(was[..j], f) + was[j..]
  }

  lemma PickedStart<T>(was: seq<Node<T>>, f: T -> bool)
    ensures Picked(was, was, 0, 0, f) && SlotAt(was, 0) == null && Places(was[..0], f) == []
  {
  }

  lemma PickedStep<T>(ns: seq<Node<T>>, was: seq<Node<T>>, j: nat, k: nat, f: T -> bool)
    requires Picked(ns, was, j, k, f) && k < |ns|
    ensures j < |was| && NodeAt(ns, k) == was[j]
    ensures if f(was[j].data) then
        && Picked(RemoveAt(ns, k), was, j + 1, k, f) && SlotAt(RemoveAt(ns, k), k) == SlotAt(ns, k)
        && Places(was[..j + 1], f) == Places(was[..j], f) + [k]
      else
        && Picked(ns, was, j + 1, k + 1, f) && SlotAt(ns, k + 1) == was[j]
        && Places(was[..j + 1], f) == Places(was[..j], f)
  {
    hide Without, Places;
    WithoutStep(was, j, f);
    PlacesStep(was, j, f);
  }

  lemma PickedWithin<T>(ns: seq<Node<T>>, was: seq<Node<T>>, j: nat, k: nat, f: T -> bool)
    requires Picked(ns, was, j, k, f)
    ensures k <= |ns| && forall x :: 0 <= x < |ns| ==> ns[x] in was
  {
    WithoutIn(was[..j], f);
    forall x | 0 <= x < |ns|
      ensures ns[x] in was
    {
      if x < k {
        assert ns[x] in Without(was[..j], f);
      }
    }
  }

  lemma PickedEnd<T>(ns: seq<Node<T>>, was: seq<Node<T>>, j: nat, k: nat, f: T -> bool)
    requires Picked(ns, was, j, k, f) && k == |ns|
    ensures j == |was| && was[..j] == was && ns == Without(was, f)
  {
  }

  // ---- Sorting

  /** The nodes with node `j` in front of node `m`. */
  function Moved<T>(ns: seq<Node<T>>, j: nat, m: nat): (r: seq<Node<T>>)
    requires m < j < |ns|
    ensures |r| == |ns|
  {
    ns[..m] + [ns[j]] + ns[m..j] + ns[j + 1..]
  }

  predicate Orders<T>(f: (T, T) -> int, x: T, y: T, z: T) {
    && (f(x, y) < 0 <==> f(y, x) > 0)
    && (f(x, y) <= 0 && f(y, z) <= 0 ==> f(x, z) <= 0)
  }

  /** The function orders the data of the nodes. */
  predicate OrdersAll<T>(f: (T, T) -> int, ns: seq<Node<T>>) {
    forall i, j, k :: 0 <= i < |ns| && 0 <= j < |ns| && 0 <= k < |ns| ==> Orders(f, ns[i].data, ns[j].data, ns[k].data)
  }

  /** Where a node stood. */
  function IndexOf<T(==)>(ns: seq<Node<T>>, x: Node<T>): nat {
    if ns == [] || ns[0] == x then 0 else 1 + IndexOf(ns[1..], x)
  }

  predicate Precedes<T(==)>(was: seq<Node<T>>, f: (T, T) -> int, x: Node<T>, y: Node<T>) {
    f(x.data, y.data) < 0 || (f(x.data, y.data) == 0 && IndexOf(was, x) < IndexOf(was, y))
  }

  predicate StablySorted<T(==)>(ns: seq<Node<T>>, was: seq<Node<T>>, f: (T, T) -> int) {
    forall p, q :: 0 <= p < q < |ns| ==> Precedes(was, f, ns[p], ns[q])
  }

  ghost function Bag<X>(s: seq<X>): multiset<X> {
    multiset(s)
  }

  /** The nodes before `j` are sorted, the others untouched. */
  ghost predicate SortedTo<T>(ns: seq<Node<T>>, was: seq<Node<T>>, j: nat, f: (T, T) -> int) {
    && |ns| == |was| && j <= |ns| && ns[j..] == was[j..] && Bag(ns[..j]) == Bag(was[..j])
    && (OrdersAll(f, was) ==> StablySorted(ns[..j], was, f))
  }

  lemma MovedNodes<T>(ns: seq<Node<T>>, j: nat, m: nat)
    requires m < j < |ns| && Distinct(ns)
    ensures var r := Moved(ns, j, m);
      && Distinct(r) && r[m] == ns[j]
      && (forall t :: 0 <= t < m ==> r[t] == ns[t])
      && (forall t :: m < t <= j ==> r[t] == ns[t - 1])
      && (forall t :: j < t < |r| ==> r[t] == ns[t])
  {
  }

  /** What the addresses become that list_sort holds. */
  lemma MovedSlots<T>(ns: seq<Node<T>>, j: nat, m: nat)
    requires m < j < |ns| && Distinct(ns)
    ensures var r := Moved(ns, j, m);
      && SlotAt(r, j + 1) == SlotAt(ns, j)
      && (SlotAt(ns, j - 1) == SlotAt(ns, m) <==> m == j - 1)
      && SlotAt(ns, j - 1) == SlotAt(r, if m == j - 1 then j - 1 else j)
  {
    MovedNodes(ns, j, m);
    SlotUnique(ns, j - 1, m);
  }

  lemma {:induction false} IndexIs<T>(ns: seq<Node<T>>, k: nat)
    requires Distinct(ns) && k < |ns|
    ensures IndexOf(ns, ns[k]) == k
  {
    if k > 0 {
      assert ns[0] != ns[k];
      IndexIs(ns[1..], k - 1);
    }
  }

  lemma OrdersThem<T>(f: (T, T) -> int, was: seq<Node<T>>, x: Node<T>, y: Node<T>, z: Node<T>)
    requires OrdersAll(f, was) && x in was && y in was && z in was
    ensures Orders(f, x.data, y.data, z.data)
  {
    var i :| 0 <= i < |was| && was[i] == x;
    var j :| 0 <= j < |was| && was[j] == y;
    var k :| 0 <= k < |was| && was[k] == z;
    assert Orders(f, was[i].data, was[j].data, was[k].data);
  }

  /** A node from behind takes its place among sorted ones. */
  lemma StableInsert<T>(s: seq<Node<T>>, x: Node<T>, m: nat, was: seq<Node<T>>, f: (T, T) -> int)
    requires OrdersAll(f, was) && StablySorted(s, was, f) && m <= |s| && x in was
    requires forall t :: 0 <= t < |s| ==> s[t] in was && IndexOf(was, s[t]) < IndexOf(was, x)
    requires forall t :: 0 <= t < m ==> f(x.data, s[t].data) >= 0
    requires m < |s| ==> f(x.data, s[m].data) < 0
    ensures StablySorted(InsertAt(s, m, x), was, f)
  {
    hide OrdersAll, IndexOf;
    forall t | 0 <= t < |s|
      ensures if t < m then Precedes(was, f, s[t], x) else Precedes(was, f, x, s[t])
    {
      if t < m {
        OrdersThem(f, was, s[t], x, x);
        OrdersThem(f, was, x, s[t], x);
      } else {
        OrdersThem(f, was, s[m], s[t], x);
        OrdersThem(f, was, x, s[m], s[t]);
        OrdersThem(f, was, x, s[t], x);
        OrdersThem(f, was, s[t], x, s[m]);
        assert t > m ==> Precedes(was, f, s[m], s[t]);
      }
    }
  }

  lemma Earlier<T>(ns: seq<Node<T>>, was: seq<Node<T>>, j: nat)
    requires Distinct(was) && j < |was| == |ns| && Bag(ns[..j]) == Bag(was[..j]) && ns[j..] == was[j..]
    ensures ns[j] == was[j] && ns[j] in was && IndexOf(was, ns[j]) == j
    ensures forall t :: 0 <= t < j ==> ns[..j][t] in was && IndexOf(was, ns[..j][t]) < j
  {
    assert ns[j] == ns[j..][0] == was[j..][0];
    IndexIs(was, j);
    forall t | 0 <= t < j
      ensures ns[..j][t] in was && IndexOf(was, ns[..j][t]) < j
    {
      assert ns[..j][t] in Bag(ns[..j]);
      assert ns[..j][t] in Bag(was[..j]);
      var i :| 0 <= i < j && was[..j][i] == ns[..j][t];
      IndexIs(was, i);
    }
  }

  lemma SortedStart<T>(was: seq<Node<T>>, f: (T, T) -> int)
    requires |was| > 0
    ensures SortedTo(was, was, 1, f) && forall x :: 0 <= x < |was| ==> was[x] in was
  {
  }

  lemma SortedEnd<T>(ns: seq<Node<T>>, was: seq<Node<T>>, f: (T, T) -> int)
    requires SortedTo(ns, was, |ns|, f)
    ensures multiset(ns) == multiset(was) && (OrdersAll(f, was) ==> StablySorted(ns, was, f))
  {
    assert ns[..|ns|] == ns && was[..|ns|] == was;
  }

  lemma SortedShort<T>(ns: seq<Node<T>>, f: (T, T) -> int)
    requires |ns| <= 1
    ensures StablySorted(ns, ns, f)
  {
  }

  lemma Within<T>(ns: seq<Node<T>>, was: seq<Node<T>>, j: nat, f: (T, T) -> int)
    requires SortedTo(ns, was, j, f)
    ensures forall x :: 0 <= x < |ns| ==> ns[x] in was
  {
    forall x | 0 <= x < |ns|
      ensures ns[x] in was
    {
      if x < j {
        assert ns[..j][x] in Bag(was[..j]);
      } else {
        assert ns[x] == ns[j..][x - j] == was[j..][x - j];
      }
    }
  }

  lemma SortStep<T>(ns: seq<Node<T>>, was: seq<Node<T>>, j: nat, m: nat, f: (T, T) -> int)
    requires SortedTo(ns, was, j, f) && Distinct(was) && m < j < |ns|
    requires f(ns[j].data, ns[m].data) < 0 && forall t :: 0 <= t < m ==> f(ns[j].data, ns[t].data) >= 0
    ensures SortedTo(Moved(ns, j, m), was, j + 1, f)
  {
    hide StablySorted, OrdersAll, Distinct;
    var r, s, x := Moved(ns, j, m), ns[..j], ns[j];
    Earlier(ns, was, j);
    if OrdersAll(f, was) {
      StableInsert(s, x, m, was, f);
    }
    assert r[..j + 1] == InsertAt(s, m, x);
    InsertMulti(s, m, x);
    assert was[..j + 1] == was[..j] + [was[j]];
    assert r[j + 1..] == ns[j + 1..] == ns[j..][1..] == was[j..][1..] == was[j + 1..];
  }

  lemma InsertMulti<X>(s: seq<X>, m: nat, x: X)
    requires m <= |s|
    ensures multiset(InsertAt(s, m, x)) == multiset(s) + multiset{x}
  {
    assert s == s[..m] + s[m..];
  }

  lemma SortKeep<T>(ns: seq<Node<T>>, was: seq<Node<T>>, j: nat, f: (T, T) -> int)
    requires SortedTo(ns, was, j, f) && Distinct(was) && 0 < j < |ns| && f(ns[j].data, ns[j - 1].data) >= 0
    ensures SortedTo(ns, was, j + 1, f)
  {
    hide Distinct;
    var s, x := ns[..j], ns[j];
    Earlier(ns, was, j);
    if OrdersAll(f, was) {
      forall t | 0 <= t < j
        ensures f(x.data, s[t].data) >= 0
      {
        OrdersThem(f, was, x, s[j - 1], x);
        OrdersThem(f, was, s[j - 1], x, x);
        OrdersThem(f, was, s[t], s[j - 1], x);
        OrdersThem(f, was, x, s[t], x);
        assert t < j - 1 ==> Precedes(was, f, s[t], s[j - 1]);
      }
      StableInsert(s, x, j, was, f);
    }
    assert ns[..j + 1] == InsertAt(s, j, x);
    assert ns[..j + 1] == s + [x] && was[..j + 1] == was[..j] + [was[j]];
    assert ns[j + 1..] == ns[j..][1..] == was[j..][1..] == was[j + 1..];
  }
}
