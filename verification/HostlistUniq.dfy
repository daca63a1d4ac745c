/** hostlist_uniq of src/common/hostlist.c. */
module HostlistUniq {
  import opened Decimal
  import opened Widths
  import opened HostRanges
  import opened Expansion
  import opened RangeOrder
  import opened HostOrder
  import opened Joining
  import opened Hostlist
  import opened HostlistSort
  import opened Sequences

  /** hostrange_join, whose assertion is its precondition: the hosts the two
      ranges shared, or -1 if they do not join; `h1'` takes what `h2` adds. */
  method Join(h1: HostRange, h2: HostRange) returns (duplicated: int, h1': HostRange, h2': HostRange)
    requires h1.Valid() && h2.Valid() && CmpValue(h1, h2) <= 0
    requires SameGroup(h1, h2) && Unify(h1.lo, h1.width, h2.lo, h2.width).Unified? ==> h1.lo <= h2.lo
    ensures duplicated >= -1 && h1'.Valid() && h2'.Valid()
    ensures h2'.Canon() == h2.Canon() && h1'.(hi := h1.hi).Canon() == h1.Canon()
    ensures h1'.width in {h1.width, h2.width} && h2'.width in {h1.width, h2.width}
    ensures duplicated == -1 <==> !Joins(h1, h2)
    ensures h2'.hi == h2.hi && (duplicated == -1 ==> h1'.hi == h1.hi)
    ensures duplicated >= 0 ==>
      && h1'.hi == (if h1.hi < h2.hi then h2.hi else h1.hi)
      && h1'.Count() + duplicated == h1.Count() + h2.Count()
      && NameSet(h1'.Hosts()) == NameSet(h1.Hosts()) + NameSet(h2.Hosts())
  {
    hide Unify, HostRange.Canon, Padded, HostRange.Hosts, NameSet;
    StrCmpEqual(h1.prefix, h2.prefix);
    UnifySame(0, 0, 0);
    duplicated, h1', h2' := -1, h1, h2;
    if PrefixCmp(h1, h2) == 0 {
      var ok;
      ok, h1', h2' := WidthCombine(h1, h2);
      CanonKept(h1, h1'.width);
      CanonKept(h2, h2'.width);
      if ok {
        JoinHosts(h1, h2, h1', h2');
        if h1.single && h2.single {
          duplicated := 1;
        } else if h1.hi == h2.lo - 1 {
          h1' := h1'.(hi := h2.hi);
          duplicated := 0;
        } else if h1.hi >= h2.lo {
          if h1.hi < h2.hi {
            duplicated := h1.hi - h2.lo + 1;
            h1' := h1'.(hi := h2.hi);
          } else {
            duplicated := h2.Count();
          }
        }
      }
    }
  }

  lemma NamesFromTo(r: HostRange)
    requires r.Valid() && !r.single
    ensures forall s ::
      s in NameSet(r.Hosts()) <==>
        exists k {:trigger Padded(k, r.width)} :: r.lo <= k <= r.hi && s == r.prefix + Padded(k, r.width)
  {
    forall s
      ensures s in NameSet(r.Hosts()) <==>
        exists k {:trigger Padded(k, r.width)} :: r.lo <= k <= r.hi && s == r.prefix + Padded(k, r.width)
    {
      if s in NameSet(r.Hosts()) {
        var i :| 0 <= i < r.Count() && r.Hosts()[i] == s;
        assert s == r.Name(r.lo + i);
      }
      if k :| r.lo <= k <= r.hi && s == r.prefix + Padded(k, r.width) {
        assert r.Hosts()[k - r.lo] == r.Name(k) == s;
      }
    }
  }

  lemma JoinHosts(h1: HostRange, h2: HostRange, x: HostRange, y: HostRange)
    requires h1.Valid() && h2.Valid() && x.Valid() && y.Valid()
    requires h1.prefix == h2.prefix && h1.single == h2.single
    requires x == h1.(width := x.width) && y == h2.(width := y.width) && x.width == y.width
    requires x.Canon() == h1.Canon() && y.Canon() == h2.Canon()
    ensures h1.single ==> NameSet(x.Hosts()) == NameSet(h1.Hosts()) + NameSet(h2.Hosts())
    ensures !h1.single && h1.lo <= h2.lo <= h1.hi + 1 && h1.hi <= h2.hi ==>
      NameSet(x.(hi := h2.hi).Hosts()) == NameSet(h1.Hosts()) + NameSet(h2.Hosts())
    ensures !h1.single && h1.lo <= h2.lo && h2.hi <= h1.hi ==>
      NameSet(x.Hosts()) == NameSet(h1.Hosts()) + NameSet(h2.Hosts())
  {
    x.CanonHosts(h1);
    y.CanonHosts(h2);
    if h1.single {
      assert x.Hosts()[0] == x.Name(0) == y.Name(0) == y.Hosts()[0];
      assert x.Hosts() == y.Hosts();
    } else {
      hide HostRange.Hosts, NameSet, Padded;
      NamesFromTo(x);
      NamesFromTo(y);
      if h1.lo <= h2.lo <= h1.hi + 1 && h1.hi <= h2.hi {
        NamesFromTo(x.(hi := h2.hi));
      }
    }
  }

  lemma JoinInList(hr: seq<HostRange>, i: nat, x: HostRange)
    requires AllValid(hr) && 0 < i < |hr| && x.Valid()
    requires NameSet(x.Hosts()) == NameSet(hr[i - 1].Hosts()) + NameSet(hr[i].Hosts())
    ensures var hr' := hr[..i - 1] + [x] + hr[i + 1..];
      && AllValid(hr')
      && NameSet(Expand(hr')) == NameSet(Expand(hr))
      && |Expand(hr')| + hr[i - 1].Count() + hr[i].Count() == |Expand(hr)| + x.Count()
  {
    hide Expand, HostRange.Hosts, NameSet;
    var p, q, two := hr[..i - 1], hr[i + 1..], [hr[i - 1], hr[i]];
    assert hr == (p + two) + q;
    ExpandTwo(hr[i - 1], hr[i]);
    ExpandOne(x);
    ExpandConcat(p, two);
    ExpandConcat(p + two, q);
    ExpandConcat(p, [x]);
    ExpandConcat(p + [x], q);
    NameSetConcat(Expand(p), Expand(two));
    NameSetConcat(Expand(p) + Expand(two), Expand(q));
    NameSetConcat(Expand(p), Expand([x]));
    NameSetConcat(Expand(p) + Expand([x]), Expand(q));
    NameSetConcat(hr[i - 1].Hosts(), hr[i].Hosts());
  }

  /** What the loop of hostlist_uniq keeps: the ranges before `i` are blocks of
      the neighbours `parts`, the others are still those of the sorted list `all`. */
  ghost predicate Underway(hr: seq<HostRange>, i: int, parts: seq<seq<HostRange>>, rest: seq<HostRange>,
      all: seq<HostRange>, base: string -> nat)
  {
    && 1 <= i <= |hr| && AllNear(hr, base) && AllValid(hr) && AllValid(all) && AllValid(rest) && Sorted(hr)
    && Blocks(hr[..i], parts) && Parted(hr[..i], parts)
    && CanonAll(rest) == CanonAll(hr[i..]) && Concat(parts) + rest == all
    && (Sortable(hr) <==> Sortable(all))
  }

  lemma NeighbourOrder(hr: seq<HostRange>, i: nat, base: string -> nat)
    requires AllNear(hr, base) && Sorted(hr) && 0 < i < |hr|
    ensures hr[i - 1].Valid() && hr[i].Valid() && Le(hr[i - 1], hr[i]) && CmpValue(hr[i - 1], hr[i]) <= 0
    ensures SameGroup(hr[i - 1], hr[i]) && Unifiable(hr[i - 1], hr[i]) ==> hr[i - 1].lo <= hr[i].lo
  {
    hide CmpValue, KeyCmp, Unifiable;
    SortedAt(hr, i - 1);
    NearOrder(hr[i - 1], hr[i], base);
    if SameGroup(hr[i - 1], hr[i]) && Unifiable(hr[i - 1], hr[i]) {
      UnifiedOrder(hr[i - 1], hr[i]);
    }
  }

  lemma NearLike(h: HostRange, x: HostRange, base: string -> nat)
    requires Near(h, base) && x.Valid() && x.width < 0x8000_0000
    requires x.prefix == h.prefix && x.single == h.single && x.lo == h.lo
    ensures Near(x, base)
  {
  }

  lemma CanonOfRest(hr: seq<HostRange>, i: nat, rest: seq<HostRange>)
    requires i < |hr| && CanonAll(rest) == CanonAll(hr[i..])
    ensures rest != [] && rest[0].Canon() == hr[i].Canon() && CanonAll(rest[1..]) == CanonAll(hr[i + 1..])
  {
    hide HostRange.Canon;
    CanonLength(rest, hr[i..]);
    assert CanonAll(rest)[0] == CanonAll(hr[i..])[0];
    forall k | 0 <= k < |rest| - 1
      ensures rest[1..][k].Canon() == hr[i + 1..][k].Canon()
    {
      assert CanonAll(rest)[k + 1] == CanonAll(hr[i..])[k + 1];
    }
  }

  /** Two neighbours that did not join: only widths were rewritten, and the next
      block begins. */
  lemma NotJoined(hr: seq<HostRange>, i: nat, x: HostRange, y: HostRange, parts: seq<seq<HostRange>>,
      rest: seq<HostRange>, all: seq<HostRange>, base: string -> nat)
    requires Underway(hr, i, parts, rest, all, base) && i < |hr| && !Joins(hr[i - 1], hr[i])
    requires x.Valid() && y.Valid() && x.Canon() == hr[i - 1].Canon() && y.Canon() == hr[i].Canon()
    requires x.width in {hr[i - 1].width, hr[i].width} && y.width in {hr[i - 1].width, hr[i].width}
    ensures rest != [] && Underway(hr[i - 1 := x][i := y], i + 1, parts + [[rest[0]]], rest[1..], all, base)
  {
    hide HostRange.Canon, Le, Sorted, Unify, IsBlock, Joins, Concat, Sortable, Near, Parted, CanonAll;
    var mid := hr[i - 1 := x];
    var e, parts' := mid[i := y], parts + [[rest[0]]];
    CanonOfRest(hr, i, rest);
    NearRewritten(hr[i - 1], hr[i], x, y, base);
    NearCanon(hr[i - 1], x, base);
    NearCanon(hr[i], y, base);
    RewriteKeeps(hr, i - 1, x, base);
    RewriteKeeps(mid, i, y, base);
    SortableBySeq(hr, e);
    assert e[i + 1..] == hr[i + 1..];
    NextBlock(hr, i, x, y, parts, rest[0]);
    ConcatSnoc(parts, [rest[0]]);
    assert Concat(parts') + rest[1..] == Concat(parts) + rest;
  }

  lemma NearRewritten(h1: HostRange, h2: HostRange, x: HostRange, y: HostRange, base: string -> nat)
    requires Near(h1, base) && Near(h2, base) && x.width in {h1.width, h2.width} && y.width in {h1.width, h2.width}
    ensures x.width < 0x8000_0000 && y.width < 0x8000_0000
  {
  }

  lemma NextBlock(hr: seq<HostRange>, i: nat, x: HostRange, y: HostRange, parts: seq<seq<HostRange>>, first: HostRange)
    requires 0 < i < |hr| && Blocks(hr[..i], parts) && Parted(hr[..i], parts) && !Joins(hr[i - 1], hr[i])
    requires x.Valid() && y.Valid() && x.Canon() == hr[i - 1].Canon() && y.Canon() == hr[i].Canon()
    requires first.Valid() && first.Canon() == hr[i].Canon()
    ensures var e, parts' := hr[i - 1 := x][i := y], parts + [[first]];
      Blocks(e[..i + 1], parts') && Parted(e[..i + 1], parts')
  {
    hide HostRange.Canon, IsBlock, Joins;
    var e, parts' := hr[i - 1 := x][i := y], parts + [[first]];
    var b := e[..i + 1];
    assert IsBlock(hr[..i][i - 1], parts[i - 1]);
    BlockByCanon(hr[i - 1], x, parts[i - 1]);
    BlockOne(first, y);
    forall j | 0 <= j < |b|
      ensures IsBlock(b[j], parts'[j])
    {
      assert j < i - 1 ==> b[j] == hr[..i][j] && parts'[j] == parts[j];
    }
    JoinsByCanon(hr[i - 1], hr[i], x, first);
    forall j | 0 <= j < |b| - 1
      ensures parts'[j + 1] != [] && !Joins(b[j], parts'[j + 1][0])
    {
      BlockNotEmpty(b[j + 1], parts'[j + 1]);
      if j < i - 1 {
        assert !Joins(hr[..i][j], parts[j + 1][0]);
      }
    }
  }

  /** Two neighbours that did: the block grows. */
  lemma Joined(hr: seq<HostRange>, i: nat, z: HostRange, parts: seq<seq<HostRange>>, rest: seq<HostRange>,
      all: seq<HostRange>, base: string -> nat)
    requires Underway(hr, i, parts, rest, all, base) && i < |hr| && Joins(hr[i - 1], hr[i])
    requires z.Valid() && z.(hi := hr[i - 1].hi).Canon() == hr[i - 1].Canon() && z.hi == Joint(hr[i - 1], hr[i]).hi
    requires z.width in {hr[i - 1].width, hr[i].width}
    requires NameSet(z.Hosts()) == NameSet(hr[i - 1].Hosts()) + NameSet(hr[i].Hosts())
    ensures rest != [] && |parts| == i
    ensures Underway(hr[..i - 1] + [z] + hr[i + 1..], i, parts[..i - 1] + [parts[i - 1] + [rest[0]]], rest[1..], all,
      base)
  {
    hide HostRange.Canon, Le, Sorted, Unify, IsBlock, Joins, Sortable, Near, HostRange.Hosts, NameSet, CanonAll, Parted,
      Joint;
    var e := hr[..i - 1] + [z] + hr[i + 1..];
    CanonOfRest(hr, i, rest);
    SortedAt(hr, i - 1);
    JointByCanon(hr[i - 1], hr[i], z);
    JoinInOrder(hr, i, z);
    JoinedSorted(hr, i, z, base);
    assert e[i..] == hr[i + 1..];
    BlockGrown(hr, i, z, parts, rest[0]);
    assert parts == parts[..i - 1] + [parts[i - 1]];
    PartGrown(parts[..i - 1], parts[i - 1], rest);
  }

  lemma JointByCanon(x: HostRange, y: HostRange, z: HostRange)
    requires z.(hi := x.hi).Canon() == x.Canon() && z.hi == Joint(x, y).hi
    ensures z.Canon() == Joint(x, y).Canon()
  {
    CanonShorter(z.(hi := x.hi), x, z.hi);
  }

  lemma PartGrown(front: seq<seq<HostRange>>, p: seq<HostRange>, rest: seq<HostRange>)
    requires rest != []
    ensures Concat(front + [p + [rest[0]]]) + rest[1..] == Concat(front + [p]) + rest
  {
    hide Concat;
    ConcatSnoc(front, p);
    ConcatSnoc(front, p + [rest[0]]);
    MoveOne(Concat(front), p, rest);
  }

  lemma MoveOne(c: seq<HostRange>, p: seq<HostRange>, rest: seq<HostRange>)
    requires rest != []
    ensures (c + (p + [rest[0]])) + rest[1..] == (c + p) + rest
  {
  }

  lemma JoinedSorted(hr: seq<HostRange>, i: nat, z: HostRange, base: string -> nat)
    requires AllNear(hr, base) && Sorted(hr) && 0 < i < |hr| && z.Valid()
    requires z.(hi := hr[i - 1].hi).Canon() == hr[i - 1].Canon() && z.width in {hr[i - 1].width, hr[i].width}
    ensures var e := hr[..i - 1] + [z] + hr[i + 1..];
      AllNear(e, base) && Sorted(e)
  {
    hide HostRange.Canon, Le, Sorted;
    var p, q, x := hr[..i - 1], hr[i + 1..], hr[i - 1];
    assert hr == p + [x, hr[i]] + q;
    CanonParts(z.(hi := x.hi), x);
    assert Near(x, base) && Near(hr[i], base);
    NearLike(x, z, base);
    SortedParts(p + [x, hr[i]], q);
    SortedParts(p, [x, hr[i]]);
    SortedOne(z);
    if p != [] {
      KeyOfJoint(x, z, p[|p| - 1]);
    }
    SortedConcat(p, [z]);
    if q != [] {
      SortedAt(hr, i - 1);
      SortedAt(hr, i);
      LeTransitive(x, hr[i], q[0]);
      KeyOfJoint(x, z, q[0]);
    }
    SortedConcat(p + [z], q);
  }

  lemma KeyOfJoint(x: HostRange, z: HostRange, t: HostRange)
    requires z.(hi := x.hi).Canon() == x.Canon()
    ensures (Le(x, t) ==> Le(z, t)) && (Le(t, x) ==> Le(t, z))
  {
    hide HostRange.Canon, KeyCmp;
    var u := z.(hi := x.hi);
    EndFree(z, u, t);
    if Le(x, t) { LeSame(x, t, u, t); }
    if Le(t, x) { LeSame(t, x, t, u); }
  }

  lemma BlockGrown(hr: seq<HostRange>, i: nat, z: HostRange, parts: seq<seq<HostRange>>, first: HostRange)
    requires 0 < i < |hr| && Blocks(hr[..i], parts) && Parted(hr[..i], parts) && Joins(hr[i - 1], hr[i])
      && hr[i].Valid()
    requires z.Valid() && z.(hi := hr[i - 1].hi).Canon() == hr[i - 1].Canon() && z.hi == Joint(hr[i - 1], hr[i]).hi
    requires hr[i - 1].Valid() && NameSet(z.Hosts()) == NameSet(hr[i - 1].Hosts()) + NameSet(hr[i].Hosts())
    requires first.Valid() && first.Canon() == hr[i].Canon()
    ensures var e, parts' := hr[..i - 1] + [z] + hr[i + 1..], parts[..i - 1] + [parts[i - 1] + [first]];
      Blocks(e[..i], parts') && Parted(e[..i], parts')
  {
    hide HostRange.Canon, IsBlock, Joins, HostRange.Hosts, NameSet, Joint;
    var e, parts' := hr[..i - 1] + [z] + hr[i + 1..], parts[..i - 1] + [parts[i - 1] + [first]];
    var b := e[..i];
    assert IsBlock(hr[..i][i - 1], parts[i - 1]);
    BlockGrows(hr[i - 1], parts[i - 1], hr[i], first, z);
    forall j | 0 <= j < |b|
      ensures IsBlock(b[j], parts'[j])
    {
      assert j < i - 1 ==> b[j] == hr[..i][j] && parts'[j] == parts[j];
    }
    forall j | 0 <= j < |b| - 1
      ensures parts'[j + 1] != [] && !Joins(b[j], parts'[j + 1][0])
    {
      assert IsBlock(hr[..i][j + 1], parts[j + 1]);
      BlockNotEmpty(hr[j + 1], parts[j + 1]);
      assert !Joins(hr[..i][j], parts[j + 1][0]);
    }
  }

  /** _attempt_range_join */
  method AttemptRangeJoin(hl: Hostlist, i: nat, ghost parts: seq<seq<HostRange>>, ghost rest: seq<HostRange>,
      ghost all: seq<HostRange>, ghost base: string -> nat)
    returns (ndup: int, ghost parts': seq<seq<HostRange>>)
    requires hl.Valid() && 0 < i < |hl.hr| && Underway(hl.hr, i, parts, rest, all, base)
    modifies hl`hr, hl`nhosts, hl`ilist
    ensures hl.Valid() && NameSet(hl.Names()) == NameSet(old(hl.Names()))
    ensures rest != [] && Underway(hl.hr, if ndup < 0 then i + 1 else i, parts', rest[1..], all, base)
    ensures |hl.hr| == if ndup < 0 then |old(hl.hr)| else |old(hl.hr)| - 1
    ensures |hl.ilist| == |old(hl.ilist)|
  {
    hide HostRange.Canon, Sorted, Unify, CmpValue, Underway, Expand, NameSet, HostRange.Hosts, Joins, Le,
      HostRange.Valid, Concat;
    ghost var was := hl.hr;
    UnderwayOrder(hl.hr, i, parts, rest, all, base);
    var x, y;
    ndup, x, y := Join(hl.hr[i - 1], hl.hr[i]);
    hl.hr := hl.hr[i - 1 := x][i := y];
    if ndup >= 0 {
      JoinInList(was, i, x);
      Joined(was, i, x, parts, rest, all, base);
      parts' := parts[..i - 1] + [parts[i - 1] + [rest[0]]];
      hl.DeleteRange(i);
      assert hl.hr == was[..i - 1] + [x] + was[i + 1..];
      hl.nhosts := hl.nhosts - ndup;
    } else {
      assert x.(hi := was[i - 1].hi) == x;
      NotJoined(was, i, x, y, parts, rest, all, base);
      parts' := parts + [[rest[0]]];
      RewriteTwo(was, i, x, y);
    }
  }

  lemma UnderwayOrder(hr: seq<HostRange>, i: nat, parts: seq<seq<HostRange>>, rest: seq<HostRange>, all: seq<HostRange>,
      base: string -> nat)
    requires Underway(hr, i, parts, rest, all, base) && 0 < i < |hr|
    ensures AllValid(hr) && CmpValue(hr[i - 1], hr[i]) <= 0
    ensures SameGroup(hr[i - 1], hr[i]) && Unify(hr[i - 1].lo, hr[i - 1].width, hr[i].lo, hr[i].width).Unified? ==>
      hr[i - 1].lo <= hr[i].lo
  {
    hide CmpValue, Unify, Sorted, Concat, Blocks, Sortable;
    NeighbourOrder(hr, i, base);
  }

  /** hostlist_uniq.  No name is lost or invented, the number of hosts stays
      exact, and the ranges end up sorted.  All names are different then if and
      only if the list is separable, and the hosts are in order if and only if it
      is sortable. */
  method Uniq(hl: Hostlist, ghost base: string -> nat)
    requires hl.Valid() && AllNear(hl.hr, base)
    modifies hl`hr, hl`nhosts, hl`ilist
    ensures hl.Valid() && NameSet(hl.Names()) == NameSet(old(hl.Names()))
    ensures Sorted(hl.hr)
    ensures Distinct(hl.Names()) <==> Separable(old(hl.hr))
    ensures HostsSorted(hl.hr) <==> Sortable(old(hl.hr))
    ensures |old(hl.hr)| <= 1 ==> hl.ilist == old(hl.ilist)
    ensures |old(hl.hr)| > 1 ==> Rewound(hl.ilist) && |hl.ilist| == |old(hl.ilist)|
  {
    hide HostRange.Canon, Sorted, Near, Expand, NameSet, Underway, CanonAll, Separable, Sortable, SinglesSorted,
      Distinct, HostsSorted;
    if |hl.hr| <= 1 {
      HostsSortedIs(hl.hr);
      FewSorted(hl.hr);
      FewSeparable(hl.hr);
      return;
    }
    QSort(hl, base);
    ghost var all := hl.hr;
    UniqStart(old(hl.hr), all, base);
    var i := 1;
    ghost var parts, rest := [[all[0]]], all[1..];
    while i < |hl.hr|
      invariant 1 <= i && hl.Valid() && NameSet(hl.Names()) == NameSet(old(hl.Names()))
      invariant Underway(hl.hr, i, parts, rest, all, base) && |hl.ilist| == |old(hl.ilist)|
      decreases |hl.hr| - i
    {
      var ndup;
      ndup, parts := AttemptRangeJoin(hl, i, parts, rest, all, base);
      rest := rest[1..];
      if ndup < 0 {
        i := i + 1;
      }
    }
    UniqEnd(hl.hr, i, parts, rest, all, base);
    HostsSortedIs(hl.hr);
    ResetIterators(hl);
  }

  lemma FewSeparable(hr: seq<HostRange>)
    requires AllValid(hr) && |hr| <= 1
    ensures Distinct(Expand(hr)) && Separable(hr)
  {
    hide HostRange.Hosts;
    DistinctNames(hr);
    forall r, t, s | r in hr && t in hr && s in hr && SameGroup(r, t)
      ensures Unifiable(r, t)
    {
      OneWidthUnifies(r, t);
    }
  }

  lemma UniqEnd(hr: seq<HostRange>, i: nat, parts: seq<seq<HostRange>>, rest: seq<HostRange>, all: seq<HostRange>,
      base: string -> nat)
    requires Underway(hr, i, parts, rest, all, base) && i >= |hr| && Sorted(all)
    ensures AllValid(hr) && AllValid(all) && Sorted(hr)
    ensures Distinct(Expand(hr)) <==> Separable(all)
    ensures SinglesSorted(hr) <==> Sortable(all)
  {
    hide Sorted, HostRange.Canon, Concat, Blocks, Parted, Sortable, Separable, SinglesSorted, Distinct, Expand;
    CanonLength(rest, hr[i..]);
    assert rest == [] && hr[..i] == hr;
    assert Concat(parts) == all;
    BlocksDistinct(hr, parts);
    BlocksScanned(hr, parts);
    if Sortable(hr) { HostsInOrder(hr); }
    if SinglesSorted(hr) { SortedHostsSortable(hr); }
  }

  lemma UniqStart(a: seq<HostRange>, b: seq<HostRange>, base: string -> nat)
    requires AllValid(a) && |a| > 0 && AllNear(b, base) && Sorted(b) && multiset(CanonAll(a)) == multiset(CanonAll(b))
    ensures |b| == |a| && AllValid(b) && Underway(b, 1, [[b[0]]], b[1..], b, base)
    ensures |Expand(b)| == |Expand(a)| && NameSet(Expand(b)) == NameSet(Expand(a))
    ensures Separable(b) == Separable(a) && Sortable(b) == Sortable(a)
  {
    hide CanonAll, Sorted, Expand, Separable, Sortable, NameSet, HostRange.Canon;
    CanonSame(a, b);
    NearValid(b, base);
    PermutationHosts(a, b);
    SameSize(Expand(a), Expand(b));
    SameMembers(Expand(a), Expand(b));
    SeparableByMultiset(a, b);
    SortableByMultiset(a, b);
    FirstBlock(b);
  }

  lemma FirstBlock(b: seq<HostRange>)
    requires AllValid(b) && b != []
    ensures Blocks(b[..1], [[b[0]]]) && Parted(b[..1], [[b[0]]]) && Concat([[b[0]]]) + b[1..] == b
  {
    hide IsBlock;
    BlockOne(b[0], b[0]);
    ConcatSnoc([], [b[0]]);
    assert [] + [[b[0]]] == [[b[0]]];
  }

  lemma SameMembers(a: seq<string>, b: seq<string>)
    requires multiset(a) == multiset(b)
    ensures NameSet(a) == NameSet(b)
  {
    assert forall s :: s in a <==> s in multiset(a);
    assert forall s :: s in b <==> s in multiset(b);
  }
}
