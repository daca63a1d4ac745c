/** What a list iterator returns. */
module ListRuns {
  // While the list (src/common/list.c) is changed under it, by whatever interleaving
  // of insertions and removals.

  import opened LinkedList
  import opened Sequences

  /** A step that concerns one iterator: an insertion or a removal somewhere, by
      the list itself or through any iterator, or a call of list_next on it. */
  datatype Op<X> = Insert(k: nat, x: X) | Remove(k: nat) | Next

  /** The elements of the list, the cursor of the iterator, what it has returned,
      what was inserted behind it, and what has ever been in the list. */
  datatype State<X> = State(items: seq<X>, at: Cursor, returned: seq<X>, passed: set<X>, used: set<X>)

  ghost predicate Enabled<X>(s: State<X>, op: Op<X>) {
    match op
    case Insert(k, x) => k <= |s.items| && x !in s.used
    case Remove(k) => k < |s.items|
    case Next => true
  }

  ghost function Do<X>(s: State<X>, op: Op<X>): State<X>
    requires Enabled(s, op) && Placed(s.at, |s.items|)
  {
    match op
    case Insert(k, x) => State(InsertAt(s.items, k, x), Inserted(s.at, k), s.returned,
                               if s.at.prev >= k then s.passed + {x} else s.passed, s.used + {x})
    case Remove(k) => s.(items := RemoveAt(s.items, k), at := Removed(s.at, k))
    case Next => s.(at := Advanced(s.at, |s.items|),
                    returned := if s.at.pos < |s.items| then s.returned + [s.items[s.at.pos]] else s.returned)
  }

  /** Two elements that have both been returned, and are both still there, were
      returned in the order in which they stand. */
  ghost predicate InOrder<X>(items: seq<X>, returned: seq<X>) {
    forall i, j, p, q :: 0 <= i < |items| && 0 <= j < |items| && 0 <= p < q < |returned| ==>
      items[i] == returned[p] && items[j] == returned[q] ==> i < j
  }

  /** Behind the cursor stands what was returned or inserted there, and nothing
      of that stands ahead of it. */
  ghost predicate Inv<X>(s: State<X>) {
    && Placed(s.at, |s.items|) && Distinct(s.items) && Distinct(s.returned)
    && (forall i :: 0 <= i < |s.items| ==> s.items[i] in s.used)
    && (forall i :: 0 <= i < |s.returned| ==> s.returned[i] in s.used)
    && (forall i :: 0 <= i < s.at.pos ==> s.items[i] in s.returned || s.items[i] in s.passed)
    && (forall i :: s.at.pos <= i < |s.items| ==> s.items[i] !in s.returned && s.items[i] !in s.passed)
    && s.passed <= s.used
    && InOrder(s.items, s.returned)
  }

  lemma StepInsert<X>(s: State<X>, k: nat, x: X)
    requires Inv(s) && Enabled(s, Insert(k, x))
    ensures Inv(Do(s, Insert(k, x)))
  {
    hide InOrder;
    var t := Do(s, Insert(k, x));
    forall i | 0 <= i < |t.items|
      ensures t.items[i] == if i < k then s.items[i] else if i == k then x else s.items[i - 1]
    {
    }
    assert x !in s.returned && x !in s.items;
    InsertKeepsOrder(s.items, s.returned, k, x);
  }

  lemma InsertKeepsOrder<X>(items: seq<X>, returned: seq<X>, k: nat, x: X)
    requires k <= |items| && x !in returned && InOrder(items, returned)
    ensures InOrder(InsertAt(items, k, x), returned)
  {
    var items' := InsertAt(items, k, x);
    forall i, j, p, q | 0 <= i < |items'| && 0 <= j < |items'| && 0 <= p < q < |returned|
      && items'[i] == returned[p] && items'[j] == returned[q]
      ensures i < j
    {
      assert i != k && j != k;
      var a, b := if i < k then i else i - 1, if j < k then j else j - 1;
      assert items[a] == returned[p] && items[b] == returned[q];
    }
  }

  lemma StepRemove<X>(s: State<X>, k: nat)
    requires Inv(s) && Enabled(s, Remove(k))
    ensures Inv(Do(s, Remove(k)))
  {
    hide InOrder;
    var t := Do(s, Remove(k));
    forall i | 0 <= i < |t.items|
      ensures t.items[i] == if i < k then s.items[i] else s.items[i + 1]
    {
    }
    RemoveKeepsOrder(s.items, s.returned, k);
  }

  lemma RemoveKeepsOrder<X>(items: seq<X>, returned: seq<X>, k: nat)
    requires k < |items| && InOrder(items, returned)
    ensures InOrder(RemoveAt(items, k), returned)
  {
    var items' := RemoveAt(items, k);
    forall i, j, p, q | 0 <= i < |items'| && 0 <= j < |items'| && 0 <= p < q < |returned|
      && items'[i] == returned[p] && items'[j] == returned[q]
      ensures i < j
    {
      var a, b := if i < k then i else i + 1, if j < k then j else j + 1;
      assert items[a] == returned[p] && items[b] == returned[q];
    }
  }

  lemma StepNext<X>(s: State<X>)
    requires Inv(s)
    ensures Inv(Do(s, Next))
  {
    hide InOrder;
    if s.at.pos < |s.items| {
      var x := s.items[s.at.pos];
      assert x !in s.returned;
      var t := Do(s, Next);
      assert forall i :: 0 <= i < |s.returned| ==> t.returned[i] == s.returned[i];
      assert t.returned[|s.returned|] == x;
      NextKeepsOrder(s);
    }
  }

  lemma NextKeepsOrder<X>(s: State<X>)
    requires Inv(s) && s.at.pos < |s.items|
    ensures InOrder(s.items, s.returned + [s.items[s.at.pos]])
  {
    var n := s.at.pos;
    var returned := s.returned + [s.items[n]];
    forall i, j, p, q | 0 <= i < |s.items| && 0 <= j < |s.items| && 0 <= p < q < |returned|
      && s.items[i] == returned[p] && s.items[j] == returned[q]
      ensures i < j
    {
      if q == |s.returned| {
        assert s.items[j] == s.items[n];
        assert s.items[i] in s.returned;
      }
    }
  }

  ghost predicate Run<X>(s: State<X>, ops: seq<Op<X>>, t: State<X>)
    requires Placed(s.at, |s.items|)
    decreases |ops|
  {
    if ops == [] then s == t
    else Enabled(s, ops[0]) && Placed(Do(s, ops[0]).at, |Do(s, ops[0]).items|) && Run(Do(s, ops[0]), ops[1..], t)
  }

  lemma {:induction false} RunInv<X>(s: State<X>, ops: seq<Op<X>>, t: State<X>)
    requires Inv(s) && Run(s, ops, t)
    ensures Inv(t) && s.used <= t.used
    ensures forall x :: x in s.used && x !in s.passed ==> x !in t.passed
    decreases |ops|
  {
    hide InOrder;
    if ops != [] {
      match ops[0] {
        case Insert(k, x) => StepInsert(s, k, x);
        case Remove(k) => StepRemove(s, k);
        case Next => StepNext(s);
      }
      RunInv(Do(s, ops[0]), ops[1..], t);
    }
  }

  /** A new iterator, or one that was reset. */
  ghost predicate Fresh<X>(s: State<X>) {
    && Distinct(s.items) && s.at == Cursor(0, 0) && s.returned == [] && s.passed == {}
    && s.used == set x | x in s.items
  }

  /** Whatever happens to the list meanwhile, the iterator returns nothing twice,
      and in the order of the list; and when it is at the end, it has returned
      everything that was there at the start and has stayed. */
  lemma NeverSkipsNorRepeats<X>(s: State<X>, ops: seq<Op<X>>, t: State<X>)
    requires Fresh(s) && Run(s, ops, t)
    ensures Placed(t.at, |t.items|) && Distinct(t.returned) && InOrder(t.items, t.returned)
    ensures t.at.pos == |t.items| ==> forall x :: x in s.items && x in t.items ==> x in t.returned
    ensures forall x :: x in t.items && x in s.items ==> (x in t.returned <==> x in t.items[..t.at.pos])
  {
    RunInv(s, ops, t);
    forall x | x in s.items && x in t.items
      ensures x in t.returned <==> x in t.items[..t.at.pos]
      ensures t.at.pos == |t.items| ==> x in t.returned
    {
      assert x in s.used;
      var i :| 0 <= i < |t.items| && t.items[i] == x;
      if i < t.at.pos {
        assert t.items[..t.at.pos][i] == x;
      } else {
        assert forall j :: 0 <= j < t.at.pos ==> t.items[j] != t.items[i];
      }
    }
  }

  /** list_remove takes what list_next returned last as long as neither that nor
      the element to come has been removed meanwhile; after the removal of the
      element to come by other means it does nothing. */
  lemma StillLeadsToIt(c: Cursor, k: nat, n: nat)
    requires Placed(c, n) && c.pos == c.prev + 1 && k < n
    ensures Removed(c, k).pos != Removed(c, k).prev <==> k != c.prev && k != c.pos
  {
  }

  // ---- The calls of class List are such steps

  /** What a program may call; `j` is the number of an iterator in the chain. */
  datatype Call<!T> =
    | Append(x: T)
    | Prepend(x: T)
    | Pop
    | DeleteAll(f: T -> bool)
    | InsertBy(j: nat, x: T)
    | RemoveBy(j: nat)
    | NextOf(j: nat)

  /** The list and its iterator are as the state says. */
  ghost predicate Shows<T>(l: List<T>, i: Iterator<T>, s: State<Node<T>>)
    reads l, i
  {
    s.items == l.nodes && s.at == i.at && (forall x :: x in s.items ==> x in s.used)
  }

  function DataOf<T>(ns: seq<Node<T>>): (r: seq<T>)
    ensures |r| == |ns|
  {
    if ns == [] then [] else DataOf(ns[..|ns| - 1]) + [ns[|ns| - 1].data]
  }

  lemma DataSnoc<T>(ns: seq<Node<T>>, n: Node<T>)
    ensures DataOf(ns + [n]) == DataOf(ns) + [n.data]
  {
    assert (ns + [n])[..|ns|] == ns;
  }

  lemma {:induction false} RunJoin<X>(s: State<X>, ops: seq<Op<X>>, t: State<X>, more: seq<Op<X>>, u: State<X>)
    requires Placed(s.at, |s.items|) && Run(s, ops, t) && Placed(t.at, |t.items|) && Run(t, more, u)
    ensures Run(s, ops + more, u)
    decreases |ops|
  {
    if ops == [] {
      assert ops + more == more;
    } else {
      RunJoin(Do(s, ops[0]), ops[1..], t, more, u);
      assert (ops + more)[1..] == ops[1..] + more;
    }
  }

  lemma RunNothing<X>(s: State<X>)
    requires Placed(s.at, |s.items|)
    ensures Run(s, [], s)
  {
  }

  lemma RunOne<X>(s: State<X>, op: Op<X>)
    requires Placed(s.at, |s.items|) && Enabled(s, op) && Placed(Do(s, op).at, |Do(s, op).items|)
    ensures Run(s, [op], Do(s, op))
  {
    assert [op][1..] == [];
    assert Run(Do(s, op), [], Do(s, op));
  }

  lemma InsertIsStep<T>(l: List<T>, i: Iterator<T>, s: State<Node<T>>, k: nat, node: Node<T>)
    returns (t: State<Node<T>>)
    requires Placed(s.at, |s.items|) && k <= |s.items| && node !in s.used && (forall x :: x in s.items ==> x in s.used)
    requires l.nodes == InsertAt(s.items, k, node) && i.at == Inserted(s.at, k)
    ensures Run(s, [Insert(k, node)], t) && Shows(l, i, t) && t.returned == s.returned
  {
    t := Do(s, Insert(k, node));
    RunOne(s, Insert(k, node));
  }

  lemma RemoveIsStep<T>(l: List<T>, i: Iterator<T>, s: State<Node<T>>, k: nat) returns (t: State<Node<T>>)
    requires Placed(s.at, |s.items|) && k < |s.items| && (forall x :: x in s.items ==> x in s.used)
    requires l.nodes == RemoveAt(s.items, k) && i.at == Removed(s.at, k)
    ensures Run(s, [Remove(k)], t) && Shows(l, i, t) && t.returned == s.returned
  {
    t := Do(s, Remove(k));
    RunOne<Node<T>>(s, Remove(k));
  }

  function Removals<X>(ks: seq<nat>): seq<Op<X>> {
    seq(|ks|, j requires 0 <= j < |ks| => Remove(ks[j]))
  }

  lemma RemovePlaced(c: Cursor, k: nat, n: nat)
    requires Placed(c, n) && k < n
    ensures Placed(Removed(c, k), n - 1)
  {
  }

  /** list_delete_all is one removal after the other. */
  lemma {:induction false} DeletedIsRun<T>(s: State<Node<T>>, j: nat, f: T -> bool) returns (t: State<Node<T>>)
    requires Placed(s.at, |s.items|) && j <= |s.items|
    ensures Run(s, Removals(Places(s.items[..j], f)), t)
    ensures t.items == Without(s.items[..j], f) + s.items[j..] && t.at == RemovedAll(s.at, Places(s.items[..j], f))
    ensures Placed(t.at, |t.items|) && t.returned == s.returned && t.used == s.used
  {
    hide Without, Places, RemovedAll, Removed, RemoveAt, Run, SlotAt, NodeAt;
    if j == 0 {
      t := s;
      WithoutStart(s.items, f);
      RunNothing(s);
      RemovedSnoc(s.at, [], 0);
      assert Removals<Node<T>>(Places(s.items[..j], f)) == [];
    } else {
      var b := DeletedIsRun(s, j - 1, f);
      t := DeletedStep(s, b, j - 1, f);
    }
  }

  lemma DeletedStep<T>(s: State<Node<T>>, b: State<Node<T>>, j: nat, f: T -> bool) returns (t: State<Node<T>>)
    requires Placed(s.at, |s.items|) && j < |s.items|
    requires Run(s, Removals(Places(s.items[..j], f)), b)
    requires b.items == Without(s.items[..j], f) + s.items[j..] && b.at == RemovedAll(s.at, Places(s.items[..j], f))
    requires Placed(b.at, |b.items|) && b.returned == s.returned && b.used == s.used
    ensures Run(s, Removals(Places(s.items[..j + 1], f)), t)
    ensures t.items == Without(s.items[..j + 1], f) + s.items[j + 1..]
    ensures t.at == RemovedAll(s.at, Places(s.items[..j + 1], f))
    ensures Placed(t.at, |t.items|) && t.returned == s.returned && t.used == s.used
  {
    hide Without, Places, RemovedAll, Removed, RemoveAt, Run, Removals, SlotAt, NodeAt;
    var ks, k := Places(s.items[..j], f), |Without(s.items[..j], f)|;
    WithoutStep(s.items, j, f);
    PlacesStep(s.items, j, f);
    t := b;
    if f(s.items[j].data) {
      t := Do(b, Remove(k));
      RemovePlaced(b.at, k, |b.items|);
      RunOne<Node<T>>(b, Remove(k));
      RunJoin<Node<T>>(s, Removals(ks), b, [Remove(k)], t);
      RemovalsSnoc<Node<T>>(ks, k);
      RemovedSnoc(s.at, ks, k);
    }
  }

  lemma RemovedSnoc(c: Cursor, ks: seq<nat>, k: nat)
    requires c.prev <= c.pos
    ensures RemovedAll(c, []) == c && RemovedAll(c, ks + [k]) == Removed(RemovedAll(c, ks), k)
  {
    assert (ks + [k])[..|ks|] == ks;
  }

  lemma RemovalsSnoc<X>(ks: seq<nat>, k: nat)
    ensures Removals<X>(ks + [k]) == Removals(ks) + [Remove(k)]
  {
  }

  /** The list and the iterator have made the steps `ops`, and list_next has
      returned `got` for this iterator meanwhile. */
  ghost predicate Made<T>(l: List<T>, i: Iterator<T>, s: State<Node<T>>, ops: seq<Op<Node<T>>>, t: State<Node<T>>,
      got: seq<T>)
    reads l, i
  {
    && Placed(s.at, |s.items|) && Run(s, ops, t) && Shows(l, i, t)
    && DataOf(t.returned) == DataOf(s.returned) + got
  }

  lemma MadeNothing<T>(l: List<T>, i: Iterator<T>, s: State<Node<T>>)
    requires Placed(s.at, |s.items|) && Shows(l, i, s)
    ensures Made(l, i, s, [], s, [])
  {
    RunNothing<Node<T>>(s);
  }

  /** One call of list_next, through the iterator or through another one. */
  method NextStep<T>(l: List<T>, i: Iterator<T>, j: Iterator<T>, ghost s: State<Node<T>>)
      returns (got: seq<T>, ghost ops: seq<Op<Node<T>>>, ghost t: State<Node<T>>)
    requires l.Valid() && i in l.iters && j in l.iters && Shows(l, i, s)
    modifies j
    ensures l.Valid() && Made(l, i, s, ops, t, got)
  {
    l.IsLinked();
    var v := l.Next(j);
    got, ops, t := [], [], s;
    if j == i {
      ops, t := [Next], Do(s, Next);
      RunOne<Node<T>>(s, Next);
      if v.Some? {
        got := [v.value];
        DataSnoc(s.returned, s.items[s.at.pos]);
      }
    } else {
      MadeNothing(l, i, s);
    }
  }

  /** One call that puts a node into the list. */
  method InsertStep<T>(l: List<T>, i: Iterator<T>, c: Call<T>, ghost s: State<Node<T>>)
      returns (ghost ops: seq<Op<Node<T>>>, ghost t: State<Node<T>>)
    requires l.Valid() && i in l.iters && Shows(l, i, s)
    requires c.Append? || c.Prepend? || (c.InsertBy? && c.j < |l.iters|)
    modifies l, l.nodes, l.iters
    ensures l.Valid() && l.iters == old(l.iters) && (forall n :: n in l.nodes ==> n in old(l.nodes) || fresh(n))
    ensures Made(l, i, s, ops, t, [])
  {
    hide Run, Inserted, DataOf, List.Valid;
    l.IsLinked();
    ghost var m :| 0 <= m < |l.iters| && l.iters[m] == i;
    ghost var node, k: nat;
    match c {
      case Append(x) =>
        k := |l.nodes|;
        node := l.Append(x);
      case Prepend(x) =>
        k := 0;
        node := l.Prepend(x);
      case InsertBy(j, x) =>
        k := l.iters[j].at.prev;
        node := l.Insert(l.iters[j], x);
    }
    ops := [Insert(k, node)];
    t := InsertIsStep(l, i, s, k, node);
  }

  /** One call that may take a node out. */
  method RemoveStep<T>(l: List<T>, i: Iterator<T>, c: Call<T>, ghost s: State<Node<T>>)
      returns (ghost ops: seq<Op<Node<T>>>, ghost t: State<Node<T>>)
    requires l.Valid() && i in l.iters && Shows(l, i, s)
    requires c.Pop? || (c.RemoveBy? && c.j < |l.iters|)
    modifies l, l.nodes, l.iters
    ensures l.Valid() && l.iters == old(l.iters) && (forall n :: n in l.nodes ==> n in old(l.nodes))
    ensures Made(l, i, s, ops, t, [])
  {
    hide Run, Removed, DataOf, List.Valid;
    l.IsLinked();
    ghost var m :| 0 <= m < |l.iters| && l.iters[m] == i;
    ghost var k: nat;
    if c.Pop? {
      k := 0;
      var v := l.NodeDestroy(null, 0);
    } else {
      k := l.iters[c.j].at.prev;
      var v := l.Remove(l.iters[c.j]);
    }
    if l.nodes == s.items {
      ops, t := [], s;
      MadeNothing(l, i, s);
    } else {
      ops := [Remove(k)];
      t := RemoveIsStep(l, i, s, k);
    }
  }

  /** One call of list_delete_all. */
  method DeleteStep<T>(l: List<T>, i: Iterator<T>, f: T -> bool, ghost s: State<Node<T>>)
      returns (ghost ops: seq<Op<Node<T>>>, ghost t: State<Node<T>>)
    requires l.Valid() && i in l.iters && Shows(l, i, s)
    modifies l, l.nodes, l.iters
    ensures l.Valid() && l.iters == old(l.iters) && (forall n :: n in l.nodes ==> n in old(l.nodes))
    ensures Made(l, i, s, ops, t, [])
  {
    hide Run, Removed, RemovedAll, DataOf, List.Valid, Without, Places;
    l.IsLinked();
    ghost var m :| 0 <= m < |l.iters| && l.iters[m] == i;
    t := DeletedIsRun(s, |s.items|, f);
    assert s.items[..|s.items|] == s.items;
    ops := Removals(Places(s.items, f));
    WithoutIn(s.items, f);
    var n := l.DeleteAll(f);
  }

  /** One call, whatever it is; through an iterator that is not there none. */
  method Perform<T>(l: List<T>, i: Iterator<T>, c: Call<T>, ghost s: State<Node<T>>)
      returns (got: seq<T>, ghost ops: seq<Op<Node<T>>>, ghost t: State<Node<T>>)
    requires l.Valid() && i in l.iters && Shows(l, i, s)
    modifies l, l.nodes, l.iters
    ensures l.Valid() && l.iters == old(l.iters) && (forall n :: n in l.nodes ==> n in old(l.nodes) || fresh(n))
    ensures Made(l, i, s, ops, t, got)
  {
    hide Run, Made, DataOf, List.Valid;
    l.IsLinked();
    ghost var m :| 0 <= m < |l.iters| && l.iters[m] == i;
    got, ops, t := [], [], s;
    MadeNothing(l, i, s);
    match c {
      case NextOf(j) =>
        if j < |l.iters| {
          got, ops, t := NextStep(l, i, l.iters[j], s);
        }
      case DeleteAll(f) =>
        ops, t := DeleteStep(l, i, f, s);
      case Pop =>
        ops, t := RemoveStep(l, i, c, s);
      case RemoveBy(j) =>
        if j < |l.iters| {
          ops, t := RemoveStep(l, i, c, s);
        }
      case InsertBy(j, _) =>
        if j < |l.iters| {
          ops, t := InsertStep(l, i, c, s);
        }
      case _ =>
        ops, t := InsertStep(l, i, c, s);
    }
  }

  lemma MadeMore<T>(l: List<T>, i: Iterator<T>, s: State<Node<T>>, ops: seq<Op<Node<T>>>, t: State<Node<T>>,
                    more: seq<Op<Node<T>>>, u: State<Node<T>>, got: seq<T>, last: seq<T>)
    requires Placed(s.at, |s.items|) && Run(s, ops, t) && DataOf(t.returned) == DataOf(s.returned) + got
    requires Made(l, i, t, more, u, last)
    ensures Made(l, i, s, ops + more, u, got + last)
  {
    RunJoin<Node<T>>(s, ops, t, more, u);
    Assoc(DataOf(s.returned), got, last);
  }

  lemma MadeParts<T>(l: List<T>, i: Iterator<T>, s: State<Node<T>>, ops: seq<Op<Node<T>>>, t: State<Node<T>>,
      got: seq<T>)
    requires Made(l, i, s, ops, t, got)
    ensures Run(s, ops, t) && Shows(l, i, t) && DataOf(t.returned) == DataOf(s.returned) + got
  {
  }

  lemma NewIsFresh<T>(l: List<T>, s: State<Node<T>>)
    requires l.Valid() && s == State(l.nodes, Cursor(0, 0), [], {}, set x | x in l.nodes)
    ensures Fresh(s) && DataOf(s.returned) == []
  {
  }

  /** list_iterator_create, and then any calls at all: what the iterator returns
      meanwhile is the data of nodes, of none twice, in the order of the list,
      and at the end of the list it has returned those that were there at the
      start and have stayed. */
  method Iterate<T>(l: List<T>, calls: seq<Call<T>>) returns (i: Iterator<T>, got: seq<T>, ghost returned: seq<Node<T>>)
    requires l.Valid()
    modifies l, l.nodes, l.iters
    ensures l.Valid() && l.iters == [i] + old(l.iters)
    ensures got == DataOf(returned) && Distinct(returned) && InOrder(l.nodes, returned)
    ensures i.at.pos == |l.nodes| ==> forall x :: x in old(l.nodes) && x in l.nodes ==> x in returned
  {
    hide Run, Made, DataOf, List.Valid, InOrder, Distinct;
    i := l.IteratorCreate();
    ghost var s := State(l.nodes, i.at, [], {}, set x | x in l.nodes);
    ghost var t, ops := s, [];
    got := [];
    NewIsFresh(l, s);
    MadeNothing(l, i, s);
    for k := 0 to |calls|
      invariant l.Valid() && l.iters == [i] + old(l.iters) && Shows(l, i, t)
      invariant forall n :: n in l.nodes ==> n in old(l.nodes) || fresh(n)
      invariant Made(l, i, s, ops, t, got)
    {
      ghost var more;
      var last;
      ghost var u;
      MadeParts(l, i, s, ops, t, got);
      assert forall n :: 0 <= n < |l.nodes| ==> l.nodes[n] in old(l.nodes) || fresh(l.nodes[n]);
      last, more, u := Perform(l, i, calls[k], t);
      MadeMore(l, i, s, ops, t, more, u, got, last);
      ops, t, got := ops + more, u, got + last;
    }
    MadeParts(l, i, s, ops, t, got);
    NeverSkipsNorRepeats<Node<T>>(s, ops, t);
    returned := t.returned;
  }
}
