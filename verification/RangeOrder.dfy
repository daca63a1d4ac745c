/** The order of ranges and of the hosts in them, and the lists that can be sorted. */
module RangeOrder {
  // A sort moves whole ranges, so it can put all hosts in order only if no other
  // range belongs between the first and the last host of a range.  Ranges that
  // share a format width can be cut or joined; `Sortable` asks that all others
  // leave each other alone.

  import opened Decimal
  import opened Widths
  import opened HostRanges
  import opened Expansion

  /** Ranges that print in one bracketed list. */
  predicate SameGroup(h1: HostRange, h2: HostRange) {
    h1.prefix == h2.prefix && !h1.single && !h2.single
  }

  /** Whether hostrange_width_combine gives the two one width. */
  predicate Unifiable(h1: HostRange, h2: HostRange) {
    Unify(h1.lo, h1.width, h2.lo, h2.width).Unified?
  }

  /** Number `k` with the prefix and the width of `x`. */
  function One(x: HostRange, k: nat): HostRange {
    HostRange(x.prefix, k, k, x.width, false)
  }

  /** Within a group only printed lengths and values count. */
  lemma GroupOrder(r: HostRange, t: HostRange)
    requires SameGroup(r, t)
    ensures PrefixCmp(r, t) == 0
    ensures Le(r, t) <==> r.Length() < t.Length() || (r.Length() == t.Length() && r.lo <= t.lo)
    ensures Unifiable(r, t) <==>
      || r.Length() == t.Length()
      || (r.Length() < t.Length() && t.Length() == DigitCount(t.lo))
      || (t.Length() < r.Length() && r.Length() == DigitCount(r.lo))
  {
    hide DigitCount, StrCmp;
    StrCmpEqual(r.prefix, t.prefix);
  }

  lemma LengthOf(r: HostRange)
    requires !r.single
    ensures r.Length() == if r.width > DigitCount(r.lo) then r.width else DigitCount(r.lo)
  {
    hide DigitCount;
  }

  lemma SameKeySameWidth(r: HostRange, t: HostRange)
    requires SameGroup(r, t) && Le(r, t) && Le(t, r)
    ensures Unifiable(r, t)
  {
    hide Unifiable, KeyCmp, HostRange.Length;
    GroupOrder(r, t);
    GroupOrder(t, r);
  }

  lemma UnifiableFlip(r: HostRange, t: HostRange)
    requires SameGroup(r, t)
    ensures Unifiable(r, t) == Unifiable(t, r)
  {
    hide Unifiable, KeyCmp, HostRange.Length;
    GroupOrder(r, t);
    GroupOrder(t, r);
  }

  /** Where a range ends matters neither to the order nor to the widths. */
  lemma EndFree(r: HostRange, u: HostRange, t: HostRange)
    requires u == r.(hi := u.hi)
    ensures Le(r, t) == Le(u, t) && Le(t, r) == Le(t, u)
    ensures Unifiable(r, t) == Unifiable(u, t) && Unifiable(t, r) == Unifiable(t, u)
  {
    hide StrCmp, PrintedLength;
  }

  lemma LeItself(r: HostRange)
    ensures Le(r, r)
  {
    StrCmpEqual(r.prefix, r.prefix);
  }

  /** The numbers of one width are in order. */
  lemma OnesInOrder(r: HostRange, k: nat, n: nat)
    requires k <= n
    ensures Le(One(r, k), One(r, n)) && Unifiable(One(r, k), One(r, n))
  {
    hide Unifiable, KeyCmp, HostRange.Length;
    GroupOrder(One(r, k), One(r, n));
    LengthOf(One(r, k));
    LengthOf(One(r, n));
    DigitCountMonotone(k, n);
  }

  /** Between ranges of one width the lower number comes first. */
  lemma UnifiedOrder(r: HostRange, t: HostRange)
    requires SameGroup(r, t) && Unifiable(r, t)
    ensures Le(r, t) <==> r.lo <= t.lo
  {
    hide Unifiable, KeyCmp, HostRange.Length;
    GroupOrder(r, t);
    LengthOf(r);
    LengthOf(t);
    if r.lo <= t.lo { DigitCountMonotone(r.lo, t.lo); } else { DigitCountMonotone(t.lo, r.lo); }
  }

  /** What is unifiable with a range is so with all of its numbers. */
  lemma UnifiableAbove(r: HostRange, k: nat, t: HostRange)
    requires SameGroup(r, t) && Unifiable(r, t) && r.lo <= k
    ensures Unifiable(One(r, k), t)
  {
    hide Padded, DigitCount;
    UnifyComplete(r.lo, r.width, t.lo, t.width);
    var w :| Padded(r.lo, w) == Padded(r.lo, r.width) && Padded(t.lo, w) == Padded(t.lo, t.width);
    PaddedSame(r.lo, w, r.width);
    SameWidthAbove(r.lo, k, w, r.width);
    UnifyComplete(k, r.width, t.lo, t.width);
  }

  /** And what comes after a range and is not unifiable with it is so with none of
      the numbers that it comes after. */
  lemma StillApart(r: HostRange, k: nat, t: HostRange)
    requires SameGroup(r, t) && !Unifiable(r, t) && Le(r, t) && r.lo <= k && Le(One(r, k), t)
    ensures !Unifiable(One(r, k), t)
  {
    hide Unifiable, KeyCmp, HostRange.Length;
    GroupOrder(r, t);
    GroupOrder(One(r, k), t);
    LengthOf(r);
    LengthOf(t);
    LengthOf(One(r, k));
    DigitCountMonotone(r.lo, k);
    if k <= t.lo { DigitCountMonotone(k, t.lo); }
  }

  /** Along the order unifiability is transitive. */
  lemma UnifiableOn(r: HostRange, s: HostRange, t: HostRange)
    requires SameGroup(r, s) && SameGroup(s, t) && Le(r, s) && Le(s, t) && Unifiable(r, s)
    ensures Unifiable(s, t) <==> Unifiable(r, t)
  {
    hide Unifiable, KeyCmp, HostRange.Length;
    GroupOrder(r, s);
    GroupOrder(s, t);
    GroupOrder(r, t);
    LengthOf(t);
    if s.lo <= t.lo { DigitCountMonotone(s.lo, t.lo); }
  }

  lemma LastBefore(r: HostRange, t: HostRange)
    requires SameGroup(r, t) && Unifiable(r, t) && r.lo <= r.hi <= t.lo
    ensures Le(One(r, r.hi), t)
  {
    hide Unifiable, KeyCmp;
    UnifiableAbove(r, r.hi, t);
    UnifiedOrder(One(r, r.hi), t);
  }

  lemma OneWidthUnifies(x: HostRange, y: HostRange)
    requires SameGroup(x, y) && x.width == y.width
    ensures Unifiable(x, y)
  {
    UnifySame(x.lo, y.lo, x.width);
  }

  /** A range that is put behind a number is put behind all lower ones. */
  lemma BehindLower(x: HostRange, k: nat, n: nat, t: HostRange)
    requires k <= n && Le(One(x, n), t)
    ensures Le(One(x, k), t)
  {
    hide KeyCmp, Unifiable;
    OnesInOrder(x, k, n);
    LeTransitive(One(x, k), One(x, n), t);
  }

  /** The key of a range is that of its first host. */
  lemma FirstHost(r: HostRange, x: HostRange, t: HostRange)
    requires SameGroup(r, x) && r.width == x.width
    ensures Le(r, t) == Le(One(x, r.lo), t) && Le(t, r) == Le(t, One(x, r.lo))
    ensures Unifiable(r, t) == Unifiable(One(x, r.lo), t) && Unifiable(t, r) == Unifiable(t, One(x, r.lo))
  {
    hide KeyCmp, Unifiable;
    EndFree(r, One(x, r.lo), t);
  }

  /** Between ranges of different groups the numbers do not count. */
  lemma LikeGroup(y: HostRange, z: HostRange, n: HostRange)
    requires SameGroup(y, z) && !SameGroup(y, n)
    ensures Le(y, n) == Le(z, n) && Le(n, y) == Le(n, z)
  {
    StrCmpEqual(y.prefix, n.prefix);
    StrCmpEqual(n.prefix, y.prefix);
  }

  // ---- Lists of ranges

  predicate Sorted(hr: seq<HostRange>) {
    forall i :: 0 <= i < |hr| - 1 ==> Le(hr[i], hr[i + 1])
  }

  lemma SortedAt(hr: seq<HostRange>, i: nat)
    requires Sorted(hr) && i < |hr| - 1
    ensures Le(hr[i], hr[i + 1])
  {
  }

  lemma {:induction false} SortedPairs(hr: seq<HostRange>, i: nat, j: nat)
    requires Sorted(hr) && i <= j < |hr|
    ensures Le(hr[i], hr[j])
    decreases j - i
  {
    hide Le;
    if i == j {
      LeItself(hr[i]);
    } else {
      SortedPairs(hr, i, j - 1);
      SortedAt(hr, j - 1);
      LeTransitive(hr[i], hr[j - 1], hr[j]);
    }
  }

  lemma SortedAcross(a: seq<HostRange>, b: seq<HostRange>, r: HostRange, t: HostRange)
    requires Sorted(a + b) && r in a && t in b
    ensures Le(r, t)
  {
    hide Le;
    var i :| 0 <= i < |a| && a[i] == r;
    var j :| 0 <= j < |b| && b[j] == t;
    SortedPairs(a + b, i, |a| + j);
  }

  lemma SortedConcat(a: seq<HostRange>, b: seq<HostRange>)
    requires Sorted(a) && Sorted(b)
    requires a != [] && b != [] ==> Le(a[|a| - 1], b[0])
    ensures Sorted(a + b)
  {
    hide Le;
    var s := a + b;
    forall i | 0 <= i < |s| - 1
      ensures Le(s[i], s[i + 1])
    {
      if i < |a| - 1 {
        assert Le(a[i], a[i + 1]);
      } else if i >= |a| {
        assert Le(b[i - |a|], b[i - |a| + 1]);
      }
    }
  }

  lemma SortedSlice(hr: seq<HostRange>, a: nat, b: nat)
    requires Sorted(hr) && a <= b <= |hr|
    ensures Sorted(hr[a..b])
  {
    hide Le;
    var s := hr[a..b];
    forall j | 0 <= j < |s| - 1
      ensures Le(s[j], s[j + 1])
    {
      assert Le(hr[a + j], hr[a + j + 1]);
    }
  }

  lemma SortedParts(a: seq<HostRange>, b: seq<HostRange>)
    requires Sorted(a + b)
    ensures Sorted(a) && Sorted(b)
    ensures a != [] && b != [] ==> Le(a[|a| - 1], b[0])
  {
    hide Le;
    SortedSlice(a + b, 0, |a|);
    SortedSlice(a + b, |a|, |a + b|);
    assert (a + b)[0..|a|] == a && (a + b)[|a|..|a + b|] == b;
    if a != [] && b != [] {
      SortedAt(a + b, |a| - 1);
    }
  }

  /** Where a range of the list stands with respect to the two. */
  lemma Around(p: seq<HostRange>, x: HostRange, y: HostRange, q: seq<HostRange>, t: HostRange)
    requires Sorted(p + [x, y] + q)
    ensures t in p ==> Le(t, x) && Le(t, y)
    ensures t in q ==> Le(x, t) && Le(y, t)
  {
    hide Le;
    SortedParts(p + [x, y], q);
    if t in p {
      SortedAcross(p, [x, y], t, x);
      SortedAcross(p, [x, y], t, y);
    }
    if t in q {
      SortedAcross(p + [x, y], q, x, t);
      SortedAcross(p + [x, y], q, y, t);
    }
  }

  lemma SortedByCanon(a: seq<HostRange>, b: seq<HostRange>)
    requires CanonAll(a) == CanonAll(b) && Sorted(a)
    ensures Sorted(b)
  {
    hide HostRange.Canon, Le;
    assert |CanonAll(a)| == |CanonAll(b)|;
    forall i | 0 <= i < |b| - 1
      ensures Le(b[i], b[i + 1])
    {
      assert CanonAll(a)[i] == CanonAll(b)[i] && CanonAll(a)[i + 1] == CanonAll(b)[i + 1];
      SortedAt(a, i);
      LeSame(a[i], a[i + 1], b[i], b[i + 1]);
    }
  }

  lemma LeSame(h1: HostRange, h2: HostRange, r1: HostRange, r2: HostRange)
    requires Le(h1, h2) && h1.Canon() == r1.Canon() && h2.Canon() == r2.Canon()
    ensures Le(r1, r2)
  {
    LeByCanon(h1, h2, r1, r2);
  }

  // ---- Which lists can be sorted

  /** The later range has the width of the earlier one or comes after its last
      host. */
  predicate Clean(r: HostRange, t: HostRange)
    requires r.Valid()
  {
    Unifiable(r, t) || Le(One(r, r.hi), t)
  }

  lemma CleanIfUnifiable(r: HostRange, t: HostRange)
    requires r.Valid() && Unifiable(r, t)
    ensures Clean(r, t)
  {
  }

  predicate Sortable(hr: seq<HostRange>)
    requires AllValid(hr)
  {
    forall r, t :: r in hr && t in hr && SameGroup(r, t) && Le(r, t) ==> Clean(r, t)
  }

  lemma UnifiableByCanon(r: HostRange, t: HostRange, r': HostRange, t': HostRange)
    requires SameGroup(r, t) && r.Canon() == r'.Canon() && t.Canon() == t'.Canon()
    ensures SameGroup(r', t') && Unifiable(r, t) == Unifiable(r', t')
  {
    hide Unifiable, KeyCmp, HostRange.Length, PrintedLength;
    assert r.Length() == r.Canon().width && r'.Length() == r'.Canon().width;
    assert t.Length() == t.Canon().width && t'.Length() == t'.Canon().width;
    assert r.lo == r.Canon().lo == r'.lo && t.lo == t.Canon().lo == t'.lo;
    assert r.prefix == r.Canon().prefix == r'.prefix && t.prefix == t.Canon().prefix == t'.prefix;
    assert r.single == r.Canon().single == r'.single && t.single == t.Canon().single == t'.single;
    GroupOrder(r, t);
    GroupOrder(r', t');
  }

  lemma OneByCanon(r: HostRange, r': HostRange, k: nat)
    requires !r.single && r.Canon() == r'.Canon() && r.lo <= k
    ensures One(r, k).Canon() == One(r', k).Canon()
  {
    hide Padded, DigitCount;
    assert r.Length() == r.Canon().width && r'.Length() == r'.Canon().width;
    assert r.lo == r.Canon().lo == r'.lo && r.prefix == r.Canon().prefix == r'.prefix
      && r.single == r.Canon().single == r'.single;
    PaddedSame(r.lo, r.width, r'.width);
    SameWidthAbove(r.lo, k, r.width, r'.width);
    PaddedSame(k, r.width, r'.width);
  }

  lemma CleanByCanon(r: HostRange, t: HostRange, r': HostRange, t': HostRange)
    requires r.Valid() && r'.Valid() && SameGroup(r, t) && r.Canon() == r'.Canon() && t.Canon() == t'.Canon()
    ensures Clean(r, t) == Clean(r', t')
  {
    hide Unifiable, KeyCmp;
    UnifiableByCanon(r, t, r', t');
    assert r.hi == r.Canon().hi == r'.hi;
    OneByCanon(r, r', r.hi);
    LeByCanon(One(r, r.hi), t, One(r', r.hi), t');
  }

  /** Sortability asks only which ranges there are. */
  lemma SortableByCanon(a: seq<HostRange>, b: seq<HostRange>)
    requires AllValid(a) && AllValid(b) && Sortable(a)
    requires forall r :: r in b ==> exists r' :: r' in a && r'.Canon() == r.Canon()
    ensures Sortable(b)
  {
    hide HostRange.Canon, Le, Clean, HostRange.Valid;
    forall r, t | r in b && t in b && SameGroup(r, t) && Le(r, t)
      ensures Clean(r, t)
    {
      var r' :| r' in a && r'.Canon() == r.Canon();
      var t' :| t' in a && t'.Canon() == t.Canon();
      UnifiableByCanon(r, t, r', t');
      LeSame(r, t, r', t');
      CleanByCanon(r, t, r', t');
    }
  }

  lemma SortableBySeq(a: seq<HostRange>, b: seq<HostRange>)
    requires AllValid(a) && AllValid(b) && CanonAll(a) == CanonAll(b)
    ensures Sortable(a) == Sortable(b)
  {
    hide HostRange.Canon, Sortable, HostRange.Valid;
    assert multiset(CanonAll(a)) == multiset(CanonAll(b));
    SortableByMultiset(a, b);
  }

  lemma SortableByMultiset(a: seq<HostRange>, b: seq<HostRange>)
    requires AllValid(a) && AllValid(b) && multiset(CanonAll(a)) == multiset(CanonAll(b))
    ensures Sortable(a) == Sortable(b)
  {
    hide HostRange.Canon, Sortable, HostRange.Valid;
    CanonPartners(a, b);
    CanonPartners(b, a);
    if Sortable(a) { SortableByCanon(a, b); }
    if Sortable(b) { SortableByCanon(b, a); }
  }

  lemma CanonPartners(a: seq<HostRange>, b: seq<HostRange>)
    requires multiset(CanonAll(a)) == multiset(CanonAll(b))
    ensures forall r :: r in b ==> exists r' :: r' in a && r'.Canon() == r.Canon()
  {
    hide HostRange.Canon;
    forall r | r in b
      ensures exists r' :: r' in a && r'.Canon() == r.Canon()
    {
      var i :| 0 <= i < |b| && b[i] == r;
      assert CanonAll(b)[i] == r.Canon();
      assert r.Canon() in multiset(CanonAll(a));
      var k :| 0 <= k < |CanonAll(a)| && CanonAll(a)[k] == r.Canon();
      assert a[k] in a && a[k].Canon() == r.Canon();
    }
  }
}
