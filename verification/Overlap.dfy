/** What hostlist_coalesce of src/common/hostlist.c does to two overlapping
    ranges, and why it can do so only finitely often: the ranges are cut where the
    overlap begins and ends, the hosts in between become ranges of one host, and
    the hosts that both held stand there twice. */
module Overlap {
  import opened Decimal
  import opened HostRanges
  import opened Expansion
  import opened RangeOrder

  // ---- The names of a stretch of numbers

  function NamesOf(prefix: string, width: nat, a: nat, b: int): (s: seq<string>)
    requires a <= b + 1
    ensures |s| == b + 1 - a
  {
    seq(b + 1 - a, i requires 0 <= i < b + 1 - a => prefix + Padded(a + i, width))
  }

  lemma NamesOfHosts(r: HostRange)
    requires r.Valid() && !r.single
    ensures r.Hosts() == NamesOf(r.prefix, r.width, r.lo, r.hi)
  {
    forall i | 0 <= i < r.Count()
      ensures r.Hosts()[i] == NamesOf(r.prefix, r.width, r.lo, r.hi)[i]
    {
      assert r.Hosts()[i] == r.Name(r.lo + i);
    }
  }

  /** The single hosts inserted for the numbers from `c` up to, not including,
      `k`: those strictly between `c` and `m` twice, `c` and `m` once. */
  function Doubles(x: HostRange, c: nat, m: nat, k: nat): (s: seq<HostRange>)
    requires c <= k <= m + 1
    decreases k
  {
    if k == c then [] else
      Doubles(x, c, m, k - 1)
      + (if k - 1 > c then [One(x, k - 1)] else [])
      + (if k - 1 < m then [One(x, k - 1)] else [])
  }

  /** The two overlapping ranges `x` and `y` after the step. */
  function Split(x: HostRange, y: HostRange): seq<HostRange>
    requires x.lo <= y.lo < x.hi && y.lo <= y.hi
  {
    var m := if y.hi < x.hi then y.hi else x.hi;
    [x.(hi := y.lo)] + Doubles(x, y.lo, m, m + 1) + [y.(lo := m, hi := if y.hi < x.hi then x.hi else y.hi)]
  }

  predicate IsOne(r: HostRange, x: HostRange, a: nat, b: int) {
    r == One(x, r.lo) && a <= r.lo <= b
  }

  lemma {:induction false} DoublesAreOnes(x: HostRange, c: nat, m: nat, k: nat)
    requires c <= k <= m + 1
    ensures var s := Doubles(x, c, m, k);
      && (forall i :: 0 <= i < |s| ==> IsOne(s[i], x, c, k - 1))
      && (forall i :: 0 <= i < |s| - 1 ==> s[i].lo <= s[i + 1].lo)
      && (|s| == 0 <==> k == c || c == m)
  {
    if k > c {
      DoublesAreOnes(x, c, m, k - 1);
    }
  }

  /** The names of the numbers from `a` to `b`, as often as they occur. */
  function Bag(x: HostRange, a: nat, b: int): multiset<string>
  {
    if a <= b + 1 then multiset(NamesOf(x.prefix, x.width, a, b)) else multiset{}
  }

  lemma BagSnoc(x: HostRange, a: nat, b: nat)
    requires a <= b
    ensures Bag(x, a, b) == Bag(x, a, b - 1) + multiset{x.prefix + Padded(b, x.width)}
  {
    assert NamesOf(x.prefix, x.width, a, b) == NamesOf(x.prefix, x.width, a, b - 1) + [x.prefix + Padded(b, x.width)];
  }

  lemma BagCut(x: HostRange, a: nat, k: nat, b: int)
    requires a <= k <= b + 1
    ensures Bag(x, a, b) == Bag(x, a, k - 1) + Bag(x, k, b)
  {
    assert NamesOf(x.prefix, x.width, a, b) == NamesOf(x.prefix, x.width, a, k - 1) + NamesOf(x.prefix, x.width, k, b);
  }

  lemma AddOne(s: seq<HostRange>, x: HostRange, k: nat, really: bool)
    requires AllValid(s) && k < ULONG_MAX
    ensures var t := s + (if really then [One(x, k)] else []);
      && AllValid(t)
      && multiset(Expand(t))
        == multiset(Expand(s)) + (if really then multiset{x.prefix + Padded(k, x.width)} else multiset{})
  {
    if really {
      ExpandSnoc(s, One(x, k));
      assert One(x, k).Hosts() == [One(x, k).Name(k)];
    } else {
      assert s + [] == s;
    }
  }

  lemma Deal<T>(p: multiset<T>, q: multiset<T>, e: multiset<T>, f: multiset<T>)
    ensures (p + q) + e + f == (p + e) + (q + f)
  {
  }

  /** The hosts of one more round of the inserting loop. */
  lemma DoublesNext(x: HostRange, c: nat, m: nat, k: nat)
    requires c <= m < ULONG_MAX && c < k <= m + 1
    requires AllValid(Doubles(x, c, m, k - 1))
    ensures AllValid(Doubles(x, c, m, k))
    ensures var e := multiset{x.prefix + Padded(k - 1, x.width)};
      multiset(Expand(Doubles(x, c, m, k))) == multiset(Expand(Doubles(x, c, m, k - 1)))
        + (if k - 1 > c then e else multiset{}) + (if k - 1 < m then e else multiset{})
  {
    hide Expand, NamesOf, AllValid;
    var s := Doubles(x, c, m, k - 1);
    var first := if k - 1 > c then [One(x, k - 1)] else [];
    AddOne(s, x, k - 1, k - 1 > c);
    AddOne(s + first, x, k - 1, k - 1 < m);
  }

  lemma {:induction false} DoublesHosts(x: HostRange, c: nat, m: nat, k: nat)
    requires c <= m < ULONG_MAX && c <= k <= m + 1
    ensures AllValid(Doubles(x, c, m, k))
    ensures multiset(Expand(Doubles(x, c, m, k)))
      == Bag(x, c + 1, k - 1) + Bag(x, c, if k == m + 1 then m - 1 else k - 1)
  {
    hide Bag, Expand, NamesOf, AllValid, Doubles;
    if k == c {
      NoBag(x, c, c - 1);
      NoBag(x, c + 1, c - 1);
      NoDoubles(x, c, m);
    } else {
      DoublesHosts(x, c, m, k - 1);
      DoublesNext(x, c, m, k);
      var e := multiset{x.prefix + Padded(k - 1, x.width)};
      BagGrow(x, c + 1, k - 1, k - 1 > c);
      BagGrow(x, c, k - 1, k - 1 < m);
      Deal(Bag(x, c + 1, k - 2), Bag(x, c, k - 2), if k - 1 > c then e else multiset{},
           if k - 1 < m then e else multiset{});
    }
  }

  lemma BagGrow(x: HostRange, a: nat, b: nat, really: bool)
    requires really ==> a <= b
    requires !really && b < a ==> b + 1 == a
    ensures Bag(x, a, b - 1) + (if really then multiset{x.prefix + Padded(b, x.width)} else multiset{})
      == Bag(x, a, if really || b < a then b else b - 1)
  {
    hide NamesOf;
    if really {
      BagSnoc(x, a, b);
    } else if b < a {
      NoBag(x, a, b);
      NoBag(x, a, b - 1);
    }
  }

  lemma NoDoubles(x: HostRange, c: nat, m: nat)
    requires c <= m
    ensures AllValid(Doubles(x, c, m, c)) && Expand(Doubles(x, c, m, c)) == []
  {
  }

  lemma NoBag(x: HostRange, a: nat, b: int)
    requires b < a
    ensures Bag(x, a, b) == multiset{}
  {
  }

  lemma BagHosts(r: HostRange)
    requires r.Valid() && !r.single
    ensures multiset(r.Hosts()) == Bag(r, r.lo, r.hi)
  {
    NamesOfHosts(r);
  }

  /** The step loses no host and invents none. */
  lemma SplitHosts(x: HostRange, y: HostRange)
    requires x.Valid() && y.Valid() && !x.single && !y.single
    requires x.prefix == y.prefix && x.width == y.width
    requires x.lo <= y.lo < x.hi
    ensures AllValid(Split(x, y))
    ensures multiset(Expand(Split(x, y))) == multiset(x.Hosts()) + multiset(y.Hosts())
  {
    hide Bag, Expand, NamesOf, Doubles, HostRange.Hosts;
    var c := y.lo;
    var m := if y.hi < x.hi then y.hi else x.hi;
    var top := if y.hi < x.hi then x.hi else y.hi;
    SplitParts(x, y, m, top);
    BagHosts(x);
    BagHosts(y);
    SameBag(x, y, c, y.hi);
    BagCut(x, x.lo, c + 1, x.hi);
    if y.hi < x.hi {
      // x: lo..c, c+1..m, m+1..top    y: c..m-1, m
      BagCut(x, c + 1, m + 1, x.hi);
      BagCut(x, c, m, m);
      BagCut(x, m, m + 1, top);
      Deal(Bag(x, x.lo, c) + Bag(x, c + 1, m), Bag(x, c, m - 1), Bag(x, m + 1, top), Bag(x, m, m));
    } else {
      // x: lo..c, c+1..m    y: c..m-1, m..top
      BagCut(x, c, m, y.hi);
    }
  }

  lemma SplitParts(x: HostRange, y: HostRange, m: nat, top: nat)
    requires x.Valid() && y.Valid() && !x.single && !y.single
    requires x.prefix == y.prefix && x.width == y.width
    requires x.lo <= y.lo < x.hi
    requires m == (if y.hi < x.hi then y.hi else x.hi) && top == if y.hi < x.hi then x.hi else y.hi
    ensures AllValid(Split(x, y))
    ensures multiset(Expand(Split(x, y)))
      == Bag(x, x.lo, y.lo) + (Bag(x, y.lo + 1, m) + Bag(x, y.lo, m - 1)) + Bag(x, m, top)
  {
    hide Bag, Expand, NamesOf, Doubles, HostRange.Hosts;
    var c := y.lo;
    var x', y', d := x.(hi := c), y.(lo := m, hi := top), Doubles(x, c, m, m + 1);
    DoublesHosts(x, c, m, m + 1);
    ExpandOne(x');
    ExpandOne(y');
    ExpandConcat([x'], d);
    ExpandConcat([x'] + d, [y']);
    BagHosts(x');
    BagHosts(y');
    SameBag(x, x', x.lo, c);
    SameBag(x, y', m, top);
  }

  lemma SameBag(x: HostRange, y: HostRange, a: nat, b: int)
    requires x.prefix == y.prefix && x.width == y.width
    ensures Bag(x, a, b) == Bag(y, a, b)
  {
  }

  /** What the two ranges are cut into: the part before the overlap, and parts
      that begin in it. */
  predicate IsPiece(z: HostRange, x: HostRange, y: HostRange) {
    && SameGroup(z, x) && z.width == x.width && x.lo <= z.lo <= z.hi && (z.hi <= x.hi || z.hi <= y.hi)
    && (z == x.(hi := y.lo) || (y.lo <= z.lo <= y.hi && z.lo <= x.hi))
  }

  lemma SplitPieces(x: HostRange, y: HostRange, i: nat)
    requires SameGroup(x, y) && x.width == y.width && x.lo <= y.lo < x.hi && y.lo <= y.hi && i < |Split(x, y)|
    ensures IsPiece(Split(x, y)[i], x, y)
  {
    var m := if y.hi < x.hi then y.hi else x.hi;
    DoublesAreOnes(x, y.lo, m, m + 1);
    var s, d := Split(x, y), Doubles(x, y.lo, m, m + 1);
    hide Doubles;
    if 0 < i < |s| - 1 {
      assert s[i] == d[i - 1];
      assert IsOne(d[i - 1], x, y.lo, m);
    }
  }

  /** The pieces are in order; the second one begins where the overlap does. */
  lemma SplitSorted(x: HostRange, y: HostRange)
    requires SameGroup(x, y) && x.width == y.width && x.lo <= y.lo < x.hi && y.lo <= y.hi
    ensures var s := Split(x, y);
      && Sorted(s) && |s| >= 2 && s[0] == x.(hi := y.lo) && s[1].lo == y.lo
  {
    var m := if y.hi < x.hi then y.hi else x.hi;
    DoublesAreOnes(x, y.lo, m, m + 1);
    DoublesFirst(x, y.lo, m, m + 1);
    var s, d := Split(x, y), Doubles(x, y.lo, m, m + 1);
    hide Doubles, Le;
    forall i | 0 <= i < |s| - 1
      ensures Le(s[i], s[i + 1])
    {
      assert 0 < i ==> IsOne(d[i - 1], x, y.lo, m);
      assert i < |d| ==> IsOne(d[i], x, y.lo, m);
      SplitPieces(x, y, i);
      SplitPieces(x, y, i + 1);
      OnesInOrder(x, s[i].lo, s[i + 1].lo);
      EndFree(One(x, s[i].lo), s[i], One(x, s[i + 1].lo));
      EndFree(One(x, s[i + 1].lo), s[i + 1], s[i]);
    }
  }

  lemma {:induction false} DoublesFirst(x: HostRange, c: nat, m: nat, k: nat)
    requires c <= k <= m + 1
    ensures c < k && c < m ==> Doubles(x, c, m, k) != [] && Doubles(x, c, m, k)[0] == One(x, c)
  {
    if c + 1 < k {
      DoublesFirst(x, c, m, k - 1);
    }
  }
}
