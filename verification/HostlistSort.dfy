/** hostlist_sort of src/common/hostlist.c. */
module HostlistSort {
  import opened Decimal
  import opened Widths
  import opened HostRanges
  import opened Expansion
  import opened RangeOrder
  import opened Overlap
  import opened Coalesce
  import opened HostOrder
  import opened Hostlist
  import opened Options

  // ---- qsort

  /** Ranges the comparator orders right: within an int of `base`. */
  predicate Near(r: HostRange, base: string -> nat) {
    && r.Valid() && r.width < 0x8000_0000
    && (!r.single ==> base(r.prefix) <= r.lo < base(r.prefix) + 0x8000_0000)
  }

  predicate AllNear(hr: seq<HostRange>, base: string -> nat) {
    forall i :: 0 <= i < |hr| ==> Near(hr[i], base)
  }

  /** And their parts too. */
  predicate Close(r: HostRange, base: string -> nat) {
    Near(r, base) && (!r.single ==> r.hi < base(r.prefix) + 0x8000_0000)
  }

  predicate AllClose(hr: seq<HostRange>, base: string -> nat) {
    forall i :: 0 <= i < |hr| ==> Close(hr[i], base)
  }

  lemma NearOrder(h1: HostRange, h2: HostRange, base: string -> nat)
    requires Near(h1, base) && Near(h2, base)
    ensures Sign(CmpValue(h1, h2)) == KeyCmp(h1, h2)
  {
    hide Sign, KeyCmp, CmpValue;
    if h1.prefix == h2.prefix || h1.single || h2.single {
      CmpIsOrder(h1, h2);
      if h1.single != h2.single { CmpElsewhere(h1, h2); }
    } else {
      CmpElsewhere(h1, h2);
    }
  }

  lemma CmpElsewhere(h1: HostRange, h2: HostRange)
    requires h1.prefix != h2.prefix || h1.single != h2.single
    ensures Sign(CmpValue(h1, h2)) == KeyCmp(h1, h2)
  {
    StrCmpEqual(h1.prefix, h2.prefix);
  }

  lemma CanonMultiset(a: seq<HostRange>, b: seq<HostRange>, x: HostRange)
    ensures multiset(CanonAll(a + [x] + b)) == multiset(CanonAll(a + b)) + multiset{x.Canon()}
  {
    hide HostRange.Canon;
    assert CanonAll(a + [x] + b) == CanonAll(a) + [x.Canon()] + CanonAll(b);
    assert CanonAll(a + b) == CanonAll(a) + CanonAll(b);
  }

  lemma LeFromCmp(h1: HostRange, h2: HostRange, h1': HostRange, h2': HostRange, base: string -> nat)
    requires Near(h1, base) && Near(h2, base)
    requires h1'.Canon() == h1.Canon() && h2'.Canon() == h2.Canon()
    ensures if CmpValue(h1, h2) <= 0 then Le(h1', h2') else Le(h2', h1')
  {
    hide HostRange.Canon, KeyCmp, CmpValue;
    NearOrder(h1, h2, base);
    LeByCanon(h1, h2, h1', h2');
    LeTotal(h1', h2');
  }

  lemma NearCanon(h: HostRange, h': HostRange, base: string -> nat)
    requires Near(h, base) && h'.Valid() && h'.Canon() == h.Canon() && h'.width < 0x8000_0000
    ensures Near(h', base)
  {
    assert h'.Canon().lo == h.Canon().lo && h'.Canon().prefix == h.Canon().prefix
      && h'.Canon().single == h.Canon().single;
  }

  /** A list with the widths of one range rewritten within its class. */
  lemma RewriteKeeps(d: seq<HostRange>, j: nat, h: HostRange, base: string -> nat)
    requires AllNear(d, base) && Sorted(d) && j < |d| && h.Canon() == d[j].Canon() && Near(h, base)
    ensures AllNear(d[j := h], base) && Sorted(d[j := h]) && CanonAll(d[j := h]) == CanonAll(d)
  {
    var e := d[j := h];
    forall i | 0 <= i < |e| - 1
      ensures Le(e[i], e[i + 1])
    {
      assert Le(d[i], d[i + 1]);
      LeByCanon(d[i], d[i + 1], e[i], e[i + 1]);
    }
  }

  /** The search of an insertion, from the end: the position, and what the
      comparisons left of the list and of the range to insert. */
  method FindPlace(done: seq<HostRange>, x: HostRange, ghost base: string -> nat)
    returns (d: seq<HostRange>, y: HostRange, j: int)
    requires AllNear(done, base) && Near(x, base) && Sorted(done)
    ensures 0 <= j <= |d| && AllNear(d, base) && Sorted(d) && Near(y, base)
    ensures CanonAll(d) == CanonAll(done) && y.Canon() == x.Canon()
    ensures j < |d| ==> Le(y, d[j])
    ensures j > 0 ==> Le(d[j - 1], y)
  {
    hide HostRange.Canon, Le, Sorted, Near, CmpValue, CanonAll;
    d, y, j := done, x, |done|;
    while j > 0
      invariant 0 <= j <= |d| && AllNear(d, base) && Sorted(d) && Near(y, base)
      invariant CanonAll(d) == CanonAll(done) && y.Canon() == x.Canon()
      invariant j < |d| ==> Le(y, d[j])
    {
      var c, h, y' := CmpNear(d[j - 1], y, base);
      LeFromCmp(d[j - 1], y, h, y', base);
      if j < |d| {
        LeSame(y, d[j], y', d[j]);
      }
      RewriteKeeps(d, j - 1, h, base);
      d := d[j - 1 := h];
      y := y';
      if c <= 0 {
        break;
      }
      j := j - 1;
    }
  }

  lemma PutKeeps(d: seq<HostRange>, y: HostRange, j: nat, base: string -> nat)
    requires j <= |d| && AllNear(d, base) && Sorted(d) && Near(y, base)
    requires j < |d| ==> Le(y, d[j])
    requires j > 0 ==> Le(d[j - 1], y)
    ensures var r := d[..j] + [y] + d[j..];
      && AllNear(r, base) && Sorted(r)
      && multiset(CanonAll(r)) == multiset(CanonAll(d)) + multiset{y.Canon()}
  {
    hide HostRange.Canon, Le, Sorted, Near, CanonAll;
    SortedSlice(d, 0, j);
    SortedSlice(d, j, |d|);
    assert d[0..j] == d[..j] && d[j..|d|] == d[j..];
    SortedOne(y);
    SortedConcat(d[..j], [y]);
    SortedConcat(d[..j] + [y], d[j..]);
    CanonMultiset(d[..j], d[j..], y);
    assert d[..j] + d[j..] == d;
  }

  method InsertSorted(done: seq<HostRange>, x: HostRange, ghost base: string -> nat) returns (r: seq<HostRange>)
    requires AllNear(done, base) && Near(x, base) && Sorted(done)
    ensures AllNear(r, base) && Sorted(r)
    ensures multiset(CanonAll(r)) == multiset(CanonAll(done)) + multiset{x.Canon()}
  {
    hide HostRange.Canon, Le, Sorted, Near, CanonAll;
    var d, y, j := FindPlace(done, x, base);
    PutKeeps(d, y, j, base);
    r := d[..j] + [y] + d[j..];
  }

  lemma SortedOne(y: HostRange)
    ensures Sorted([y])
  {
  }

  method CmpNear(h1: HostRange, h2: HostRange, ghost base: string -> nat)
    returns (c: int, h1': HostRange, h2': HostRange)
    requires Near(h1, base) && Near(h2, base)
    ensures c == CmpValue(h1, h2)
    ensures Near(h1', base) && h1'.Canon() == h1.Canon()
    ensures Near(h2', base) && h2'.Canon() == h2.Canon()
  {
    hide HostRange.Canon, CmpValue;
    c, h1', h2' := Cmp(h1, h2);
    NearCanon(h1, h1', base);
    NearCanon(h2, h2', base);
  }

  /** Stands for the qsort of the C library, of which no more is used than that
      it permutes the list into the order of the comparator it is given; the
      comparator rewrites widths as it compares. */
  method QSort(hl: Hostlist, ghost base: string -> nat)
    requires AllNear(hl.hr, base)
    modifies hl`hr
    ensures AllNear(hl.hr, base) && Sorted(hl.hr)
    ensures multiset(CanonAll(hl.hr)) == multiset(CanonAll(old(hl.hr)))
  {
    hide HostRange.Canon, Near, Sorted;
    var done := [];
    SortedNone();
    for i := 0 to |hl.hr|
      invariant hl.hr == old(hl.hr)
      invariant AllNear(done, base) && Sorted(done)
      invariant multiset(CanonAll(done)) == multiset(CanonAll(hl.hr[..i]))
    {
      CanonMultiset(hl.hr[..i], [], hl.hr[i]);
      assert hl.hr[..i] + [hl.hr[i]] + [] == hl.hr[..i + 1];
      assert hl.hr[..i] + [] == hl.hr[..i];
      done := InsertSorted(done, hl.hr[i], base);
    }
    assert hl.hr[..|hl.hr|] == hl.hr;
    hl.hr := done;
  }

  lemma SortedNone()
    ensures Sorted([])
  {
  }

  /** Permuting ranges and rewriting their widths permutes the hosts. */
  lemma {:induction false} PermutationHosts(a: seq<HostRange>, b: seq<HostRange>)
    requires AllValid(a) && AllValid(b) && multiset(CanonAll(a)) == multiset(CanonAll(b))
    ensures multiset(Expand(a)) == multiset(Expand(b))
  {
    hide HostRange.Canon, HostRange.Hosts, CanonAll, HostRange.Valid;
    if a == [] {
      CanonSame(a, b);
      assert b == [];
    } else {
      var n := |a| - 1;
      var k := CanonPartner(a, b);
      var b' := b[..k] + b[k + 1..];
      PermutationHosts(a[..n], b');
      ExpandAt(b, k);
      ExpandConcat(b[..k], b[k + 1..]);
      a[n].CanonHosts(b[k]);
      Deal(multiset(Expand(b[..k])), multiset(Expand(b[k + 1..])), multiset(b[k].Hosts()), multiset{});
    }
  }

  lemma CanonSame(a: seq<HostRange>, b: seq<HostRange>)
    requires multiset(CanonAll(a)) == multiset(CanonAll(b))
    ensures |a| == |b|
  {
    assert |multiset(CanonAll(a))| == |CanonAll(a)| && |multiset(CanonAll(b))| == |CanonAll(b)|;
  }

  /** The range of `b` that the last range of `a` became. */
  lemma CanonPartner(a: seq<HostRange>, b: seq<HostRange>) returns (k: nat)
    requires a != [] && multiset(CanonAll(a)) == multiset(CanonAll(b))
    ensures k < |b| && b[k].Canon() == a[|a| - 1].Canon()
    ensures multiset(CanonAll(a[..|a| - 1])) == multiset(CanonAll(b[..k] + b[k + 1..]))
  {
    hide HostRange.Canon;
    var n := |a| - 1;
    var x := a[n].Canon();
    assert CanonAll(a)[n] == x;
    assert x in multiset(CanonAll(b));
    k :| 0 <= k < |CanonAll(b)| && CanonAll(b)[k] == x;
    assert a == a[..n] + [a[n]] + [] && b == b[..k] + [b[k]] + b[k + 1..];
    assert a[..n] + [] == a[..n];
    CanonMultiset(a[..n], [], a[n]);
    CanonMultiset(b[..k], b[k + 1..], b[k]);
    MinusOne(multiset(CanonAll(a[..n])), multiset(CanonAll(b[..k] + b[k + 1..])), x);
  }

  lemma MinusOne<T>(p: multiset<T>, q: multiset<T>, x: T)
    requires p + multiset{x} == q + multiset{x}
    ensures p == q
  {
    assert p == (p + multiset{x}) - multiset{x};
    assert q == (q + multiset{x}) - multiset{x};
  }

  // ---- hostlist_coalesce

  /** hostrange_intersect; `ok` is whether its assertion holds. */
  method Intersect(h1: HostRange, h2: HostRange)
    returns (ok: bool, r: Option<HostRange>, h1': HostRange, h2': HostRange)
    requires h1.Valid() && h2.Valid()
    ensures ok <==> h1.single || h2.single || CmpValue(h1, h2) <= 0
    ensures r.Some? <==> ok && SameGroup(h1, h2) && h1.hi > h2.lo && Unifiable(h1, h2)
    ensures Unifies(h1, h1') && Unifies(h2, h2')
    ensures r.Some? ==>
      && h1'.width == h2'.width && h1'.width in [h1.width, h2.width]
      && r.value == h1'.(lo := h2.lo, hi := if h2.hi < h1.hi then h2.hi else h1.hi)
  {
    hide Unify, HostRange.Canon, Padded, CmpValue;
    StrCmpEqual(h1.prefix, h2.prefix);
    ok, r, h1', h2' := true, None, h1, h2;
    if h1.single || h2.single {
      return;
    }
    var c;
    c, h1', h2' := Cmp(h1, h2);
    CanonRest(h1', h1);
    CanonRest(h2', h2);
    ok := c <= 0;
    if ok && PrefixCmp(h1', h2') == 0 && h1'.hi > h2'.lo {
      UnifiableAgain(h1, h2, h1', h2');
      var done, x, y := WidthCombine(h1', h2');
      CanonKept(h1', x.width);
      CanonKept(h2', y.width);
      h1', h2' := x, y;
      if done {
        r := Some(h1'.(lo := h2.lo, hi := if h2.hi < h1.hi then h2.hi else h1.hi));
      }
    }
  }

  lemma UnifiableAgain(h1: HostRange, h2: HostRange, x: HostRange, y: HostRange)
    requires Unifies(h1, x) && Unifies(h2, y) && PrefixCmp(x, y) == 0 && !x.single && !y.single
    ensures Unify(x.lo, x.width, y.lo, y.width).Unified? == Unifiable(h1, h2)
  {
    StrCmpEqual(x.prefix, y.prefix);
    UnifiableByCanon(h1, h2, x, y);
  }

  lemma CanonRest(x: HostRange, r: HostRange)
    requires x.Canon() == r.Canon()
    ensures x == r.(width := x.width)
  {
    assert x.Canon().prefix == r.Canon().prefix && x.Canon().lo == r.Canon().lo && x.Canon().hi == r.Canon().hi
      && x.Canon().single == r.Canon().single;
  }

  /** Iterators that stand at the start. */
  predicate Rewound(ilist: seq<Iter>) {
    forall k :: 0 <= k < |ilist| ==> ilist[k] == Iter(0, -1)
  }

  /** The rebuilding at the heart of hostlist_coalesce: `x` and `y` overlap in
      `new`, and stand at `i - 1` and `i`. */
  method SplitAt(hl: Hostlist, i: nat, overlap: HostRange, x: HostRange, y: HostRange)
    requires 0 < i < |hl.hr| && Overlapping(x, y)
    requires overlap == x.(lo := y.lo, hi := if y.hi < x.hi then y.hi else x.hi)
    requires Rewound(hl.ilist)
    modifies hl`hr, hl`ilist
    ensures hl.hr == After(old(hl.hr), i, x, y)
    ensures Rewound(hl.ilist) && |hl.ilist| == |old(hl.ilist)|
  {
    ghost var was := hl.hr;
    var hprev, hnext, j := x, y, i;
    if overlap.hi < hprev.hi {
      hnext := hnext.(hi := hprev.hi);
    }
    hprev := hprev.(hi := overlap.lo);
    hnext := hnext.(lo := overlap.hi);
    hl.hr := hl.hr[i - 1 := hprev][i := hnext];
    if hprev.Empty() {
      // the source would delete a range here; the branch is never taken
      assert false;
    }
    ghost var front, tail, m := was[..i - 1] + [hprev], [hnext] + was[i + 1..], overlap.hi;
    assert hl.hr == front + tail;
    hide Doubles;
    NoDoubles(x, y.lo, m);
    assert hl.hr == front + [] + tail;
    var k := overlap.lo;
    while k <= overlap.hi
      invariant y.lo <= k <= m + 1
      invariant j == |front| + |Doubles(x, y.lo, m, k)|
      invariant hl.hr == front + Doubles(x, y.lo, m, k) + tail
      invariant Rewound(hl.ilist) && |hl.ilist| == |old(hl.ilist)|
    {
      var one := HostRange(overlap.prefix, k, k, overlap.width, false);
      ghost var d := Doubles(x, y.lo, m, k);
      DoublesStep(x, y.lo, m, k);
      if k > hprev.hi {
        InsertBehind(hl, j, one, front, d, tail);
        d := d + [one];
        j := j + 1;
      }
      if k < hnext.lo {
        InsertBehind(hl, j, one, front, d, tail);
        d := d + [one];
        j := j + 1;
      }
      assert d == Doubles(x, y.lo, m, k + 1);
      k := k + 1;
    }
    AfterParts(was, i, x, y, front, Doubles(x, y.lo, m, m + 1), tail);
  }

  lemma AfterParts(was: seq<HostRange>, i: nat, x: HostRange, y: HostRange,
                   front: seq<HostRange>, d: seq<HostRange>, tail: seq<HostRange>)
    requires 0 < i < |was| && x.lo <= y.lo < x.hi && y.lo <= y.hi
    requires var m, top := if y.hi < x.hi then y.hi else x.hi, if y.hi < x.hi then x.hi else y.hi;
      && front == was[..i - 1] + [x.(hi := y.lo)]
      && d == Doubles(x, y.lo, m, m + 1)
      && tail == [y.(lo := m, hi := top)] + was[i + 1..]
    ensures front + d + tail == After(was, i, x, y)
  {
    hide Doubles;
  }

  lemma DoublesStep(x: HostRange, c: nat, m: nat, k: nat)
    requires c <= k <= m
    ensures var one := HostRange(x.prefix, k, k, x.width, false);
      Doubles(x, c, m, k + 1) == Doubles(x, c, m, k) + (if k > c then [one] else []) + (if k < m then [one] else [])
  {
  }

  method InsertBehind(hl: Hostlist, j: nat, one: HostRange, ghost front: seq<HostRange>, ghost d: seq<HostRange>,
      ghost tail: seq<HostRange>)
    requires hl.hr == front + d + tail && j == |front| + |d| > 0 && Rewound(hl.ilist)
    modifies hl`hr, hl`ilist
    ensures hl.hr == front + (d + [one]) + tail
    ensures Rewound(hl.ilist) && |hl.ilist| == |old(hl.ilist)|
  {
    assert hl.hr[..j] == front + d && hl.hr[j..] == tail;
    var ok := hl.InsertRange(one, j);
  }

  // ---- The whole of hostlist_coalesce and hostlist_sort

  /** Ranges of one group stand together, and the groups in order. */
  predicate Grouped(hr: seq<HostRange>) {
    forall j :: 0 <= j < |hr| - 1 && !SameGroup(hr[j], hr[j + 1]) ==> Le(hr[j], hr[j + 1])
  }

  lemma SortedGrouped(hr: seq<HostRange>)
    requires Sorted(hr)
    ensures Grouped(hr)
  {
    hide Le;
  }

  lemma ScannedSorted(hr: seq<HostRange>)
    requires ScannedFrom(hr, 0)
    ensures Sorted(hr)
  {
    hide Le;
  }

  /** The scan starts again after every overlap that it resolves, and yet it ends:
      in an assertion that fails (`ok` is false), or with a list without overlaps.
      No host is lost, gained or miscounted on the way, and the list stays sorted
      and sortable exactly if it was. */
  method CoalesceOverlaps(hl: Hostlist, ghost base: string -> nat) returns (ok: bool)
    requires hl.Valid() && AllClose(hl.hr, base) && Grouped(hl.hr) && Rewound(hl.ilist)
    modifies hl`hr, hl`ilist
    ensures hl.Valid() && multiset(hl.Names()) == multiset(old(hl.Names()))
    ensures Rewound(hl.ilist) && |hl.ilist| == |old(hl.ilist)|
    ensures Sorted(hl.hr) && Sortable(hl.hr) <==> Sorted(old(hl.hr)) && Sortable(old(hl.hr))
    ensures if ok then ScannedFrom(hl.hr, 0) else !Sorted(hl.hr)
  {
    hide HostRange.Canon, Unifiable, CmpValue, Sorted, Sortable, Close, After, TotalLen, Weight, HostRange.Valid,
      Expand, Le, Clear, Overlapping, Grouped, Rewound;
    var i := |hl.hr| - 1;
    ok := true;
    while i > 0
      invariant i < |hl.hr| || i <= 0
      invariant hl.Valid() && AllClose(hl.hr, base) && Grouped(hl.hr) && ScannedFrom(hl.hr, i)
      invariant multiset(hl.Names()) == multiset(old(hl.Names()))
      invariant Rewound(hl.ilist) && |hl.ilist| == |old(hl.ilist)|
      invariant Sorted(hl.hr) && Sortable(hl.hr) <==> Sorted(old(hl.hr)) && Sortable(old(hl.hr))
      decreases TotalLen(hl.hr), Weight(hl.hr), i
    {
      ghost var was := hl.hr;
      var overlap, x, y;
      ok, overlap, x, y := Intersect(hl.hr[i - 1], hl.hr[i]);
      ScannedNext(was, i, ok, overlap.Some?, base);
      if !ok {
        return;
      }
      if overlap.Some? {
        OverlapStep(was, i, x, y, base);
        SplitAt(hl, i, overlap.value, x, y);
        i := |hl.hr|;
      }
      i := i - 1;
    }
  }

  /** What the assertion and the answer of hostrange_intersect say. */
  lemma ScannedNext(hr: seq<HostRange>, i: nat, ok: bool, found: bool, base: string -> nat)
    requires 0 < i < |hr| && AllClose(hr, base) && Grouped(hr) && ScannedFrom(hr, i)
    requires ok <==> hr[i - 1].single || hr[i].single || CmpValue(hr[i - 1], hr[i]) <= 0
    requires found <==> ok && SameGroup(hr[i - 1], hr[i]) && hr[i - 1].hi > hr[i].lo && Unifiable(hr[i - 1], hr[i])
    ensures !ok ==> !Sorted(hr)
    ensures ok && !found ==> ScannedFrom(hr, i - 1)
    ensures found ==> hr[i - 1].Valid() && hr[i].Valid() && Le(hr[i - 1], hr[i])
  {
    hide CmpValue, KeyCmp, Unifiable;
    NearOrder(hr[i - 1], hr[i], base);
  }

  lemma OverlapStep(hr: seq<HostRange>, i: nat, x: HostRange, y: HostRange, base: string -> nat)
    requires AllValid(hr) && AllClose(hr, base) && Grouped(hr) && 0 < i < |hr| && ScannedFrom(hr, i)
    requires SameGroup(hr[i - 1], hr[i]) && hr[i - 1].hi > hr[i].lo && Unifiable(hr[i - 1], hr[i])
      && Le(hr[i - 1], hr[i])
    requires Unifies(hr[i - 1], x) && Unifies(hr[i], y) && x.width == y.width
      && x.width in [hr[i - 1].width, hr[i].width]
    ensures Overlapping(x, y) && AllValid(After(hr, i, x, y))
    ensures AllClose(After(hr, i, x, y), base) && Grouped(After(hr, i, x, y))
    ensures multiset(Expand(After(hr, i, x, y))) == multiset(Expand(hr))
    ensures |Expand(After(hr, i, x, y))| == |Expand(hr)|
    ensures Sorted(hr) && Sortable(hr) <==> Sorted(After(hr, i, x, y)) && Sortable(After(hr, i, x, y))
    ensures Smaller(After(hr, i, x, y), hr)
  {
    hide HostRange.Canon, After, Expand, Sorted, Sortable, TotalLen, Weight, Le, Unifiable, Close;
    UnifiedOrder(hr[i - 1], hr[i]);
    WidthsRewritten(hr[i - 1], x);
    WidthsRewritten(hr[i], y);
    AfterClose(hr, i, x, y, base);
    AfterGrouped(hr, i, x, y);
    AfterHosts(hr, i, x, y);
    AfterSmaller(hr, i, x, y);
    AfterInOrder(hr, i, x, y);
    SameSize(Expand(After(hr, i, x, y)), Expand(hr));
  }

  lemma WidthsRewritten(r: HostRange, x: HostRange)
    requires r.Valid() && !r.single && Unifies(r, x)
    ensures x.Valid() && x.lo == r.lo && x.hi == r.hi && x.prefix == r.prefix && !x.single
  {
  }

  lemma AfterClose(hr: seq<HostRange>, i: nat, x: HostRange, y: HostRange, base: string -> nat)
    requires AllClose(hr, base) && 0 < i < |hr| && Overlapping(x, y) && Unifies(hr[i - 1], x) && Unifies(hr[i], y)
    requires x.width in [hr[i - 1].width, hr[i].width]
    ensures AllClose(After(hr, i, x, y), base)
  {
    hide HostRange.Canon, Split, IsPiece;
    var s := Split(x, y);
    forall k | 0 <= k < |s|
      ensures Close(s[k], base)
    {
      SplitPieces(x, y, k);
      assert Close(hr[i - 1], base) && Close(hr[i], base);
      PieceClose(x, y, s[k], base);
    }
  }

  lemma PieceClose(x: HostRange, y: HostRange, z: HostRange, base: string -> nat)
    requires Overlapping(x, y) && IsPiece(z, x, y) && Close(x, base) && Close(y, base)
    ensures Close(z, base)
  {
  }

  lemma AfterGrouped(hr: seq<HostRange>, i: nat, x: HostRange, y: HostRange)
    requires Grouped(hr) && 0 < i < |hr| && Overlapping(x, y) && Unifies(hr[i - 1], x) && Unifies(hr[i], y)
    ensures Grouped(After(hr, i, x, y))
  {
    hide HostRange.Canon, Split, Le;
    var s, e, n := Split(x, y), After(hr, i, x, y), |Split(x, y)|;
    SplitSorted(x, y);
    forall j | 0 <= j < |e| - 1 && !SameGroup(e[j], e[j + 1])
      ensures Le(e[j], e[j + 1])
    {
      if j < i - 2 {
        assert !SameGroup(hr[j], hr[j + 1]);
      } else if j == i - 2 {
        SplitPieces(x, y, 0);
        LikeGroup(hr[i - 1], e[j + 1], e[j]);
      } else if j < i - 2 + n {
        SplitPieces(x, y, j - (i - 1));
        SplitPieces(x, y, j - (i - 2));
      } else if j == i - 2 + n {
        SplitPieces(x, y, n - 1);
        LikeGroup(hr[i], e[j], e[j + 1]);
      } else {
        assert e[j] == hr[j + 2 - n] && e[j + 1] == hr[j + 3 - n];
      }
    }
  }

  lemma SameSize<T>(a: seq<T>, b: seq<T>)
    requires multiset(a) == multiset(b)
    ensures |a| == |b|
  {
    assert |multiset(a)| == |a| && |multiset(b)| == |b|;
  }

  /** hostlist_collapse joins ranges that adjoin; the hosts stay as they are, in
      the same order. */
  method Collapse(hl: Hostlist)
    requires hl.Valid() && Rewound(hl.ilist)
    modifies hl`hr, hl`ilist
    ensures hl.Valid() && hl.Names() == old(hl.Names())
    ensures SinglesSorted(hl.hr) == SinglesSorted(old(hl.hr))
    ensures Rewound(hl.ilist) && |hl.ilist| == |old(hl.ilist)|
  {
    hide HostRange.Canon, Unify, Expand, HostRange.Hosts, Padded, SinglesSorted, CanonAll;
    var i := |hl.hr| - 1;
    while i > 0
      invariant i < |hl.hr| || i <= 0
      invariant hl.Valid() && hl.Names() == old(hl.Names())
      invariant SinglesSorted(hl.hr) == SinglesSorted(old(hl.hr))
      invariant Rewound(hl.ilist) && |hl.ilist| == |old(hl.ilist)|
      decreases i
    {
      var hprev, hnext := hl.hr[i - 1], hl.hr[i];
      if PrefixCmp(hprev, hnext) == 0 && hprev.hi == hnext.lo - 1 {
        var ok, x, y := WidthCombine(hprev, hnext);
        CanonKept(hprev, x.width);
        CanonKept(hnext, y.width);
        RewriteTwo(hl.hr, i, x, y);
        ghost var was := hl.hr[i - 1 := x][i := y];
        HostsSortedByCanon(hl.hr, was);
        hl.hr := hl.hr[i - 1 := x][i := y];
        if ok {
          JoinAdjoining(was, i);
          hl.hr := hl.hr[i - 1 := x.(hi := y.hi)];
          hl.DeleteRange(i);
          assert hl.hr == was[..i - 1] + [x.(hi := y.hi)] + was[i + 1..];
        }
      }
      i := i - 1;
    }
  }

  lemma RewriteTwo(hr: seq<HostRange>, i: nat, x: HostRange, y: HostRange)
    requires AllValid(hr) && 0 < i < |hr| && x.Valid() && y.Valid()
    requires x.Canon() == hr[i - 1].Canon() && y.Canon() == hr[i].Canon()
    ensures AllValid(hr[i - 1 := x][i := y])
    ensures Expand(hr[i - 1 := x][i := y]) == Expand(hr)
    ensures CanonAll(hr[i - 1 := x][i := y]) == CanonAll(hr)
  {
    hide HostRange.Canon, Expand;
    var hr' := hr[i - 1 := x][i := y];
    assert CanonAll(hr') == CanonAll(hr);
    ExpandByCanon(hr', hr);
  }

  lemma JoinAdjoining(hr: seq<HostRange>, i: nat)
    requires AllValid(hr) && 0 < i < |hr|
    requires PrefixCmp(hr[i - 1], hr[i]) == 0 && hr[i - 1].hi == hr[i].lo - 1 && hr[i - 1].width == hr[i].width
    ensures var joint := hr[..i - 1] + [hr[i - 1].(hi := hr[i].hi)] + hr[i + 1..];
      AllValid(joint) && Expand(joint) == Expand(hr) && SinglesSorted(joint) == SinglesSorted(hr)
  {
    hide Expand, HostRange.Hosts, AllSingles;
    var p, q, two, one := hr[..i - 1], hr[i + 1..], [hr[i - 1], hr[i]], hr[i - 1].(hi := hr[i].hi);
    StrCmpEqual(hr[i - 1].prefix, hr[i].prefix);
    HostsJoin(hr[i - 1], hr[i]);
    SinglesJoin(p, hr[i - 1], hr[i], q);
    assert hr == (p + two) + q;
    ExpandTwo(hr[i - 1], hr[i]);
    ExpandOne(one);
    ExpandConcat(p, two);
    ExpandConcat(p + two, q);
    ExpandConcat(p, [one]);
    ExpandConcat(p + [one], q);
  }

  /** hostlist_sort.  No host is lost, gained or miscounted; and no assertion
      fails and the hosts come out in order if and only if the list is sortable. */
  method Sort(hl: Hostlist, ghost base: string -> nat) returns (ok: bool)
    requires hl.Valid() && AllClose(hl.hr, base)
    modifies hl`hr, hl`ilist
    ensures hl.Valid() && multiset(hl.Names()) == multiset(old(hl.Names()))
    ensures ok && HostsSorted(hl.hr) <==> Sortable(old(hl.hr))
    ensures |old(hl.hr)| <= 1 ==> hl.ilist == old(hl.ilist)
    ensures |old(hl.hr)| > 1 ==> Rewound(hl.ilist) && |hl.ilist| == |old(hl.ilist)|
  {
    hide HostRange.Canon, Sorted, Sortable, HostRange.Valid, Expand, Near, Close, CanonAll, SinglesSorted, HostsSorted;
    if |hl.hr| <= 1 {
      FewSorted(hl.hr);
      HostsSortedIs(hl.hr);
      return true;
    }
    CloseNear(hl.hr, base);
    QSort(hl, base);
    QSortHosts(old(hl.hr), hl.hr, base);
    ResetIterators(hl);
    ok := CoalesceOverlaps(hl, base);
    if ok {
      ScannedSorted(hl.hr);
      if Sortable(hl.hr) { HostsInOrder(hl.hr); }
      if SinglesSorted(hl.hr) { SortedHostsSortable(hl.hr); }
      Collapse(hl);
      HostsSortedIs(hl.hr);
    }
  }

  lemma CloseNear(hr: seq<HostRange>, base: string -> nat)
    requires AllClose(hr, base)
    ensures AllNear(hr, base)
  {
  }

  lemma QSortHosts(a: seq<HostRange>, b: seq<HostRange>, base: string -> nat)
    requires AllValid(a) && AllClose(a, base) && AllNear(b, base) && Sorted(b)
      && multiset(CanonAll(a)) == multiset(CanonAll(b))
    ensures AllValid(b) && AllClose(b, base) && Grouped(b) && Sortable(b) == Sortable(a)
    ensures multiset(Expand(b)) == multiset(Expand(a)) && |Expand(b)| == |Expand(a)|
  {
    hide Expand, CanonAll, Close, Sortable, Sorted, Grouped;
    NearValid(b, base);
    CloseByMultiset(a, b, base);
    PermutationHosts(a, b);
    SortableByMultiset(a, b);
    SortedGrouped(b);
    SameSize(Expand(a), Expand(b));
  }

  lemma NearValid(hr: seq<HostRange>, base: string -> nat)
    requires AllNear(hr, base)
    ensures AllValid(hr)
  {
  }

  lemma CloseByMultiset(a: seq<HostRange>, b: seq<HostRange>, base: string -> nat)
    requires AllClose(a, base) && AllNear(b, base) && multiset(CanonAll(a)) == multiset(CanonAll(b))
    ensures AllClose(b, base)
  {
    hide HostRange.Canon;
    CanonPartners(a, b);
    forall i | 0 <= i < |b|
      ensures Close(b[i], base)
    {
      assert b[i] in b;
      var r :| r in a && r.Canon() == b[i].Canon();
      CanonParts(r, b[i]);
      assert Close(r, base);
    }
  }

  lemma FewSorted(hr: seq<HostRange>)
    requires |hr| <= 1 && AllValid(hr)
    ensures Sorted(hr) && ScannedFrom(hr, 0) && Sortable(hr) && SinglesSorted(hr)
  {
    forall r, t | r in hr && t in hr && SameGroup(r, t) && Le(r, t)
      ensures Clean(r, t)
    {
      OneWidthUnifies(r, t);
    }
    hide Sortable, Sorted;
    HostsInOrder(hr);
  }

  method ResetIterators(hl: Hostlist)
    modifies hl`ilist
    ensures hl.ilist == seq(|old(hl.ilist)|, i => Iter(0, -1))
  {
    for k := 0 to |hl.ilist|
      invariant |hl.ilist| == |old(hl.ilist)|
      invariant forall i :: 0 <= i < k ==> hl.ilist[i] == Iter(0, -1)
    {
      hl.ilist := hl.ilist[k := Iter(0, -1)];
    }
  }

  /** A list that is not sortable: behind f[007-008], which print three digits
      long, belong f100 to f200 of the other two ranges. */
  lemma MixedWidthsBreakSort(p: string)
    ensures var x, y := HostRange(p, 50, 200, 2, false), HostRange(p, 60, 150, 2, false);
      var z := HostRange(p, 7, 8, 3, false);
      AllValid([x, y, z]) && Sorted([x, y, z]) && !Sortable([x, y, z])
  {
    var x, y, z := HostRange(p, 50, 200, 2, false), HostRange(p, 60, 150, 2, false), HostRange(p, 7, 8, 3, false);
    TwoDigits(50);
    TwoDigits(60);
    ThreeDigits(200);
    OneDigit(7);
    InTheWay(x, y, z);
    hide KeyCmp, Clean, HostRange.Length;
    assert x in [x, y, z] && z in [x, y, z];
  }

  lemma InTheWay(x: HostRange, y: HostRange, z: HostRange)
    requires x.Valid() && SameGroup(x, y) && SameGroup(x, z) && x.width == y.width == 2 && z.width == 3 && x.lo <= y.lo
      && z.lo < x.hi
    requires DigitCount(x.lo) == DigitCount(y.lo) == 2 && DigitCount(z.lo) == 1 && DigitCount(x.hi) == 3
    ensures Le(x, y) && Le(y, z) && Le(x, z) && !Clean(x, z)
  {
    hide Unifiable, KeyCmp, HostRange.Length;
    LengthOf(x);
    LengthOf(y);
    LengthOf(z);
    LengthOf(One(x, x.hi));
    GroupOrder(x, y);
    GroupOrder(y, z);
    GroupOrder(x, z);
    GroupOrder(One(x, x.hi), z);
  }

  lemma OneDigit(n: nat)
    requires n < 10
    ensures DigitCount(n) == 1
  {
  }

  lemma TwoDigits(n: nat)
    requires 10 <= n < 100
    ensures DigitCount(n) == 2
  {
    OneDigit(n / 10);
  }

  lemma ThreeDigits(n: nat)
    requires 100 <= n < 1000
    ensures DigitCount(n) == 3
  {
    TwoDigits(n / 10);
  }
}
