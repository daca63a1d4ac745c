/** One step of hostlist_coalesce on a whole list, and the measure that makes
    its restarting scan end. */
module Coalesce {
  import opened HostRanges
  import opened Expansion
  import opened Overlap
  import opened RangeOrder

  // ---- The measure

  function Len(r: HostRange): nat {
    if r.single || r.hi < r.lo then 0 else r.hi - r.lo
  }

  function TotalLen(hr: seq<HostRange>): nat {
    if hr == [] then 0 else TotalLen(hr[..|hr| - 1]) + Len(hr[|hr| - 1])
  }

  /** The lengths, each counted once for every range from its own to the last:
      length that moves to the right weighs less. */
  function Weight(hr: seq<HostRange>): nat {
    if hr == [] then 0 else Weight(hr[..|hr| - 1]) + TotalLen(hr)
  }

  lemma {:induction false} TotalLenConcat(a: seq<HostRange>, b: seq<HostRange>)
    ensures TotalLen(a + b) == TotalLen(a) + TotalLen(b)
  {
    if b == [] {
      assert a + b == a;
    } else {
      TotalLenConcat(a, b[..|b| - 1]);
      assert (a + b)[..|a + b| - 1] == a + b[..|b| - 1];
    }
  }

  lemma TotalLenTwo(x: HostRange, y: HostRange)
    ensures TotalLen([x]) == Len(x) && TotalLen([x, y]) == Len(x) + Len(y)
  {
    assert [x][..0] == [] && [x, y][..1] == [x];
  }

  lemma {:induction false} OnesHaveNoLength(s: seq<HostRange>)
    requires forall i :: 0 <= i < |s| ==> Len(s[i]) == 0
    ensures TotalLen(s) == 0
  {
    if s != [] {
      OnesHaveNoLength(s[..|s| - 1]);
    }
  }

  lemma {:induction false} LighterBefore(a: seq<HostRange>, b: seq<HostRange>, q: seq<HostRange>)
    requires TotalLen(a) == TotalLen(b) && Weight(a) < Weight(b)
    ensures Weight(a + q) < Weight(b + q)
  {
    if q == [] {
      assert a + q == a && b + q == b;
    } else {
      var p := q[..|q| - 1];
      LighterBefore(a, b, p);
      assert (a + q)[..|a + q| - 1] == a + p && (b + q)[..|b + q| - 1] == b + p;
      TotalLenConcat(a, q);
      TotalLenConcat(b, q);
    }
  }

  lemma PairWeights(p: seq<HostRange>, x: HostRange, y: HostRange, x': HostRange, y': HostRange)
    requires Len(x') < Len(x) && Len(x') + Len(y') == Len(x) + Len(y)
    ensures TotalLen(p + [x', y']) == TotalLen(p + [x, y])
    ensures Weight(p + [x', y']) < Weight(p + [x, y])
  {
    assert (p + [x', y'])[..|p| + 1] == p + [x'] && (p + [x'])[..|p|] == p;
    assert (p + [x, y])[..|p| + 1] == p + [x] && (p + [x])[..|p|] == p;
  }

  predicate Smaller(a: seq<HostRange>, b: seq<HostRange>) {
    TotalLen(a) < TotalLen(b) || (TotalLen(a) == TotalLen(b) && Weight(a) < Weight(b))
  }

  lemma DoublesNoLength(x: HostRange, c: nat, m: nat)
    requires c <= m
    ensures TotalLen(Doubles(x, c, m, m + 1)) == 0
    ensures c == m ==> Doubles(x, c, m, m + 1) == []
  {
    var d := Doubles(x, c, m, m + 1);
    DoublesAreOnes(x, c, m, m + 1);
    forall i | 0 <= i < |d|
      ensures Len(d[i]) == 0
    {
      assert IsOne(d[i], x, c, m);
    }
    OnesHaveNoLength(d);
  }

  lemma SplitLength(x: HostRange, y: HostRange)
    requires SameGroup(x, y) && x.lo <= y.lo < x.hi && y.lo <= y.hi
    ensures y.lo < y.hi ==> TotalLen(Split(x, y)) < Len(x) + Len(y)
    ensures y.lo == y.hi ==> Split(x, y) == [x.(hi := y.lo), y.(hi := x.hi)]
  {
    var c := y.lo;
    var m := if y.hi < x.hi then y.hi else x.hi;
    var top := if y.hi < x.hi then x.hi else y.hi;
    var x', y', d := x.(hi := c), y.(lo := m, hi := top), Doubles(x, c, m, m + 1);
    hide Doubles, TotalLen;
    DoublesNoLength(x, c, m);
    TotalLenConcat([x'], d);
    TotalLenConcat([x'] + d, [y']);
    TotalLenTwo(x', y');
    TotalLenTwo(y', x');
  }

  /** The list after the step: `x` and `y` are the ranges `i - 1` and `i` of
      `hr` with the widths that were written back. */
  function After(hr: seq<HostRange>, i: nat, x: HostRange, y: HostRange): seq<HostRange>
    requires 0 < i < |hr| && x.lo <= y.lo < x.hi && y.lo <= y.hi
  {
    hr[..i - 1] + Split(x, y) + hr[i + 1..]
  }

  predicate Unifies(r: HostRange, x: HostRange) {
    x == r.(width := x.width) && x.Canon() == r.Canon()
  }

  lemma AfterSmaller(hr: seq<HostRange>, i: nat, x: HostRange, y: HostRange)
    requires 0 < i < |hr| && SameGroup(x, y) && x.lo <= y.lo < x.hi && y.lo <= y.hi
    requires Unifies(hr[i - 1], x) && Unifies(hr[i], y)
    ensures Smaller(After(hr, i, x, y), hr)
  {
    var p, q := hr[..i - 1], hr[i + 1..];
    assert hr == p + [hr[i - 1], hr[i]] + q;
    SplitLength(x, y);
    hide Split;
    if y.lo < y.hi {
      TotalLenConcat(p, Split(x, y));
      TotalLenConcat(p + Split(x, y), q);
      TotalLenConcat(p, [hr[i - 1], hr[i]]);
      TotalLenConcat(p + [hr[i - 1], hr[i]], q);
      TotalLenTwo(hr[i - 1], hr[i]);
    } else {
      var x', y' := x.(hi := y.lo), y.(hi := x.hi);
      PairWeights(p, hr[i - 1], hr[i], x', y');
      LighterBefore(p + [x', y'], p + [hr[i - 1], hr[i]], q);
      TotalLenConcat(p + [x', y'], q);
      TotalLenConcat(p + [hr[i - 1], hr[i]], q);
    }
  }

  lemma AfterHosts(hr: seq<HostRange>, i: nat, x: HostRange, y: HostRange)
    requires 0 < i < |hr| && AllValid(hr) && SameGroup(x, y) && x.width == y.width && x.lo <= y.lo < x.hi
      && y.lo <= y.hi
    requires Unifies(hr[i - 1], x) && Unifies(hr[i], y)
    ensures AllValid(After(hr, i, x, y))
    ensures multiset(Expand(After(hr, i, x, y))) == multiset(Expand(hr))
  {
    hide Split, Expand, HostRange.Hosts, HostRange.Canon;
    var p, q, two := hr[..i - 1], hr[i + 1..], [hr[i - 1], hr[i]];
    assert hr == (p + two) + q;
    x.CanonHosts(hr[i - 1]);
    y.CanonHosts(hr[i]);
    ExpandTwo(hr[i - 1], hr[i]);
    ExpandConcat(p, two);
    ExpandConcat(p + two, q);
    SplitHosts(x, y);
    ExpandConcat(p, Split(x, y));
    ExpandConcat(p + Split(x, y), q);
  }

  // ---- The step and the order

  /** Two ranges of one width of which the first reaches into the second. */
  predicate Overlapping(x: HostRange, y: HostRange) {
    x.Valid() && y.Valid() && SameGroup(x, y) && x.width == y.width && x.lo <= y.lo < x.hi
  }

  /** Neighbours that hostlist_coalesce leaves alone. */
  predicate Clear(h1: HostRange, h2: HostRange) {
    SameGroup(h1, h2) && Unifiable(h1, h2) ==> h1.hi <= h2.lo
  }

  /** The neighbours from range `from` on are in order and do not overlap. */
  predicate ScannedFrom(hr: seq<HostRange>, from: int) {
    forall j :: 0 <= j < |hr| - 1 && from <= j ==> Le(hr[j], hr[j + 1]) && Clear(hr[j], hr[j + 1])
  }

  lemma OverlappingInOrder(x: HostRange, y: HostRange)
    requires Overlapping(x, y)
    ensures Le(x, y) && Unifiable(x, y) && Unifiable(y, x)
  {
    hide KeyCmp, Unifiable;
    OneWidthUnifies(x, y);
    OneWidthUnifies(y, x);
    UnifiedOrder(x, y);
  }

  lemma PieceBehind(x: HostRange, y: HostRange, z: HostRange, t: HostRange)
    requires Overlapping(x, y) && IsPiece(z, x, y) && Le(z, t)
    ensures Le(x, t) && Le(x, z)
  {
    hide KeyCmp, Unifiable;
    OnesInOrder(x, x.lo, z.lo);
    FirstHost(x, x, One(x, z.lo));
    FirstHost(z, x, x);
    LeTransitive(x, z, t);
  }

  /** A piece and a range behind `y`, and the other way round. */
  lemma PieceThenRange(x: HostRange, y: HostRange, z: HostRange, t: HostRange)
    requires Overlapping(x, y) && IsPiece(z, x, y) && SameGroup(x, t)
    requires Le(x, t) && Clean(x, t) && Le(y, t) && Clean(y, t)
    ensures z.Valid() && Clean(z, t)
  {
    hide KeyCmp, Unifiable;
    if Unifiable(x, t) {
      UnifiableAbove(x, z.lo, t);
      FirstHost(z, x, t);
    } else if Unifiable(y, t) {
      if z == x.(hi := y.lo) {
        FirstHost(y, x, t);
      } else {
        UnifiableAbove(y, z.lo, t);
        FirstHost(z, y, t);
      }
    } else if z.hi <= x.hi {
      BehindLower(x, z.hi, x.hi, t);
    } else {
      BehindLower(y, z.hi, y.hi, t);
    }
  }

  lemma RangeThenPiece(x: HostRange, y: HostRange, z: HostRange, r: HostRange)
    requires Overlapping(x, y) && IsPiece(z, x, y) && SameGroup(r, x)
    requires r.Valid() && Le(r, x) && Clean(r, x)
    ensures Clean(r, z)
  {
    hide KeyCmp, Unifiable;
    LeItself(z);
    PieceBehind(x, y, z, z);
    if Unifiable(r, x) {
      UnifiableFlip(r, x);
      UnifiableAbove(x, z.lo, r);
      UnifiableFlip(One(x, z.lo), r);
      FirstHost(z, x, r);
    } else {
      LeTransitive(One(r, r.hi), x, z);
    }
  }

  lemma RangeBehindPiece(x: HostRange, y: HostRange, z: HostRange, r: HostRange)
    requires Overlapping(x, y) && IsPiece(z, x, y) && SameGroup(r, x)
    requires Le(y, r) && Clean(y, r) && Le(r, z)
    ensures Unifiable(r, z)
  {
    hide KeyCmp, Unifiable;
    OverlappingInOrder(x, y);
    if z == x.(hi := y.lo) {
      LeTransitive(x, y, r);
      EndFree(x, z, r);
      SameKeySameWidth(r, z);
    } else if Unifiable(y, r) {
      UnifiableAbove(y, z.lo, r);
      UnifiableFlip(One(y, z.lo), r);
      FirstHost(z, y, r);
    } else {
      BehindLower(y, z.lo, y.hi, r);
      FirstHost(z, y, r);
      SameKeySameWidth(r, z);
    }
  }

  lemma TwoPieces(x: HostRange, y: HostRange, z: HostRange, z': HostRange)
    requires IsPiece(z, x, y) && IsPiece(z', x, y)
    ensures Unifiable(z, z')
  {
    OneWidthUnifies(z, z');
  }

  /** In a list: the last piece comes before what came after `y`. */
  lemma LastPieceBefore(x: HostRange, y: HostRange, n: HostRange)
    requires Overlapping(x, y) && Le(y, n) && (SameGroup(y, n) ==> Clean(y, n)) && Clear(y, n)
    ensures Split(x, y) != [] && Le(Split(x, y)[|Split(x, y)| - 1], n)
  {
    var s := Split(x, y);
    var z := s[|s| - 1];
    hide KeyCmp, Unifiable, Split, Doubles;
    SplitEnds(x, y);
    if SameGroup(y, n) {
      if Unifiable(y, n) {
        LastBefore(y, n);
      }
      BehindLower(y, z.lo, y.hi, n);
      FirstHost(z, y, n);
    } else {
      LikeGroup(y, z, n);
    }
  }

  lemma SplitEnds(x: HostRange, y: HostRange)
    requires Overlapping(x, y)
    ensures Split(x, y) != []
    ensures var z := Split(x, y)[|Split(x, y)| - 1];
      && SameGroup(z, y) && z.width == y.width && y.lo <= z.lo <= y.hi && z.lo <= x.hi
      && z.hi == if y.hi < x.hi then x.hi else y.hi
  {
    hide Doubles;
  }

  lemma StepSorted(p: seq<HostRange>, x: HostRange, y: HostRange, q: seq<HostRange>)
    requires Overlapping(x, y) && AllValid(p + [x, y] + q) && Sorted(p + [x, y] + q) && Sortable(p + [x, y] + q)
    requires q != [] ==> Clear(y, q[0])
    ensures Sorted(p + Split(x, y) + q)
  {
    hide Le, Split, Clean;
    var s, hr := Split(x, y), p + [x, y] + q;
    SplitSorted(x, y);
    SortedParts(p + [x, y], q);
    SortedParts(p, [x, y]);
    if p != [] {
      EndFree(x, s[0], p[|p| - 1]);
    }
    SortedConcat(p, s);
    if q != [] {
      assert y in hr && q[0] in hr;
      LastPieceBefore(x, y, q[0]);
      assert (p + s)[|p + s| - 1] == s[|s| - 1];
    }
    SortedConcat(p + s, q);
  }

  lemma StepSortable(p: seq<HostRange>, x: HostRange, y: HostRange, q: seq<HostRange>)
    requires Overlapping(x, y) && AllValid(p + [x, y] + q) && Sorted(p + [x, y] + q) && Sortable(p + [x, y] + q)
    requires AllValid(p + Split(x, y) + q)
    ensures Sortable(p + Split(x, y) + q)
  {
    hide Le, Split, Clean, Sorted, SameGroup, IsPiece;
    var s, hr := Split(x, y), p + [x, y] + q;
    forall r, t | r in p + s + q && t in p + s + q && SameGroup(r, t) && Le(r, t)
      ensures Clean(r, t)
    {
      Around(p, x, y, q, r);
      Around(p, x, y, q, t);
      assert x in hr && y in hr;
      if r in s {
        PieceIn(x, y, r);
        if t in s {
          PieceIn(x, y, t);
          TwoPieces(x, y, r, t);
          CleanIfUnifiable(r, t);
        } else {
          assert t in hr;
          OneGroup(x, y, r, t);
          PieceBehind(x, y, r, t);
          if t in p {
            SameKeyAround(x, y, r, t);
            CleanIfUnifiable(r, t);
          } else {
            PieceThenRange(x, y, r, t);
          }
        }
      } else if t in s {
        PieceIn(x, y, t);
        assert r in hr;
        OneGroup(x, y, t, r);
        if r in p {
          RangeThenPiece(x, y, t, r);
        } else {
          RangeBehindPiece(x, y, t, r);
          CleanIfUnifiable(r, t);
        }
      } else {
        assert r in hr && t in hr;
      }
    }
  }

  lemma OneGroup(x: HostRange, y: HostRange, z: HostRange, t: HostRange)
    requires Overlapping(x, y) && IsPiece(z, x, y) && (SameGroup(z, t) || SameGroup(t, z))
    ensures SameGroup(x, t) && SameGroup(t, x) && SameGroup(y, t) && SameGroup(t, y) && SameGroup(z, t)
      && SameGroup(t, z)
  {
  }

  /** A range before `x` that comes after a piece has the key of both. */
  lemma SameKeyAround(x: HostRange, y: HostRange, z: HostRange, t: HostRange)
    requires Overlapping(x, y) && IsPiece(z, x, y) && SameGroup(x, t) && Le(t, x) && Le(z, t)
    ensures Unifiable(z, t)
  {
    hide KeyCmp, Unifiable;
    PieceBehind(x, y, z, t);
    LeTransitive(t, x, z);
    SameKeySameWidth(z, t);
  }

  lemma PieceIn(x: HostRange, y: HostRange, z: HostRange)
    requires Overlapping(x, y) && z in Split(x, y)
    ensures IsPiece(z, x, y)
  {
    hide Split, IsPiece;
    var i :| 0 <= i < |Split(x, y)| && Split(x, y)[i] == z;
    SplitPieces(x, y, i);
  }

  // ---- And back: a list that is in order after the step was so before

  /** What holds of the first and the last piece and a range behind them holds of
      both ranges. */
  lemma RangesFromPieces(x: HostRange, y: HostRange, t: HostRange)
    requires Overlapping(x, y) && SameGroup(x, t)
    requires Split(x, y) != []
    requires var first, z := Split(x, y)[0], Split(x, y)[|Split(x, y)| - 1];
      first.Valid() && z.Valid() && Clean(first, t) && Le(z, t) && Clean(z, t)
    ensures Clean(x, t) && Clean(y, t)
  {
    var s := Split(x, y);
    var first, z := s[0], s[|s| - 1];
    hide KeyCmp, Unifiable, Split, Doubles;
    SplitSorted(x, y);
    SplitEnds(x, y);
    if Unifiable(x, t) {
      UnifiableAbove(x, y.lo, t);
      FirstHost(y, x, t);
    } else {
      EndFree(x, first, t);
      FirstHost(z, x, t);
      BehindLower(x, x.lo, z.lo, t);
      FirstHost(x, x, t);
      StillApart(x, z.lo, t);
      BehindLower(z, x.hi, z.hi, t);
      BehindLower(z, y.hi, z.hi, t);
    }
  }

  /** And of a range in front of both. */
  lemma FromPieces(x: HostRange, y: HostRange, r: HostRange)
    requires Overlapping(x, y) && SameGroup(r, x) && r.Valid()
    requires |Split(x, y)| >= 2 && Clean(r, Split(x, y)[0]) && Clean(r, Split(x, y)[1])
    ensures Clean(r, x) && Clean(r, y)
  {
    var s := Split(x, y);
    hide KeyCmp, Unifiable, Split, Doubles;
    SplitSorted(x, y);
    SplitPieces(x, y, 1);
    EndFree(x, s[0], r);
    EndFree(x, s[0], One(r, r.hi));
    FirstHost(s[1], x, r);
    FirstHost(s[1], x, One(r, r.hi));
    FirstHost(y, x, r);
    FirstHost(y, x, One(r, r.hi));
  }

  lemma StepWasSorted(p: seq<HostRange>, x: HostRange, y: HostRange, q: seq<HostRange>)
    requires Overlapping(x, y) && Sorted(p + Split(x, y) + q)
    ensures Sorted(p + [x, y] + q)
  {
    hide Le, Split;
    var s := Split(x, y);
    SplitSorted(x, y);
    SplitEnds(x, y);
    OverlappingInOrder(x, y);
    SortedParts(p + s, q);
    SortedParts(p, s);
    if p != [] {
      EndFree(x, s[0], p[|p| - 1]);
    }
    SortedConcat(p, [x, y]);
    if q != [] {
      var z := s[|s| - 1];
      assert (p + s)[|p + s| - 1] == z;
      OnesInOrder(x, y.lo, z.lo);
      FirstHost(y, x, One(x, z.lo));
      FirstHost(z, x, y);
      LeTransitive(y, z, q[0]);
    }
    SortedConcat(p + [x, y], q);
  }

  lemma StepWasSortable(p: seq<HostRange>, x: HostRange, y: HostRange, q: seq<HostRange>)
    requires Overlapping(x, y) && Sorted(p + Split(x, y) + q)
    requires AllValid(p + Split(x, y) + q) && AllValid(p + [x, y] + q) && Sortable(p + Split(x, y) + q)
    ensures Sortable(p + [x, y] + q)
  {
    hide Le, Split, Clean, Sorted, SameGroup;
    var s, hr, after := Split(x, y), p + [x, y] + q, p + Split(x, y) + q;
    SplitSorted(x, y);
    StepWasSorted(p, x, y, q);
    forall r, t | r in hr && t in hr && SameGroup(r, t) && Le(r, t)
      ensures Clean(r, t)
    {
      if r in p || r in q {
        if t in p || t in q {
          assert r in after && t in after;
        } else {
          WasBehind(p, x, y, q, r, t);
        }
      } else if t in p || t in q {
        WasBefore(p, x, y, q, r, t);
      } else {
        SameWidthClean(x, y, r, t);
      }
    }
  }

  lemma SameWidthClean(x: HostRange, y: HostRange, r: HostRange, t: HostRange)
    requires Overlapping(x, y) && r in [x, y] && t in [x, y]
    ensures Clean(r, t)
  {
    OneWidthUnifies(r, t);
  }

  lemma WasBehind(p: seq<HostRange>, x: HostRange, y: HostRange, q: seq<HostRange>, r: HostRange, t: HostRange)
    requires Overlapping(x, y) && Sorted(p + Split(x, y) + q) && Sorted(p + [x, y] + q)
    requires AllValid(p + Split(x, y) + q) && Sortable(p + Split(x, y) + q)
    requires (r in p || r in q) && t in [x, y] && SameGroup(r, t) && Le(r, t)
    ensures r.Valid() && Clean(r, t)
  {
    hide Le, Split, Clean, Sorted, Unifiable;
    var s, after := Split(x, y), p + Split(x, y) + q;
    SplitSorted(x, y);
    Around(p, x, y, q, r);
    assert r in after && s[0] in after && s[1] in after;
    if r in p {
      SplitPieces(x, y, 0);
      SplitPieces(x, y, 1);
      assert p + s + q == p + (s + q);
      SortedAcross(p, s + q, r, s[0]);
      SortedAcross(p, s + q, r, s[1]);
      FromPieces(x, y, r);
    } else {
      SameKeySameWidth(r, t);
      CleanIfUnifiable(r, t);
    }
  }

  lemma WasBefore(p: seq<HostRange>, x: HostRange, y: HostRange, q: seq<HostRange>, r: HostRange, t: HostRange)
    requires Overlapping(x, y) && Sorted(p + Split(x, y) + q) && Sorted(p + [x, y] + q)
    requires AllValid(p + Split(x, y) + q) && Sortable(p + Split(x, y) + q)
    requires (t in p || t in q) && r in [x, y] && SameGroup(r, t) && Le(r, t)
    ensures Clean(r, t)
  {
    hide Le, Split, Clean, Sorted, Unifiable;
    var s, after := Split(x, y), p + Split(x, y) + q;
    SplitSorted(x, y);
    SplitEnds(x, y);
    Around(p, x, y, q, t);
    var z := s[|s| - 1];
    assert t in after && s[0] in after && z in after;
    if t in p {
      SameKeySameWidth(r, t);
      CleanIfUnifiable(r, t);
    } else {
      SortedAcross(p + s, q, s[0], t);
      SortedAcross(p + s, q, z, t);
      RangesFromPieces(x, y, t);
    }
  }

  /** So resolving an overlap leaves the list sorted and sortable if and only if
      it was. */
  lemma AfterInOrder(hr: seq<HostRange>, i: nat, x: HostRange, y: HostRange)
    requires 0 < i < |hr| && AllValid(hr) && Overlapping(x, y) && Unifies(hr[i - 1], x) && Unifies(hr[i], y)
    requires i < |hr| - 1 ==> Clear(hr[i], hr[i + 1])
    requires AllValid(After(hr, i, x, y))
    ensures Sorted(hr) && Sortable(hr) <==> Sorted(After(hr, i, x, y)) && Sortable(After(hr, i, x, y))
  {
    hide Split, Sorted, Sortable, HostRange.Canon, Clear;
    var p, q := hr[..i - 1], hr[i + 1..];
    var mid := p + [x, y] + q;
    ReplaceTwo(hr, i, x, y);
    SortableBySeq(hr, mid);
    if Sorted(hr) { SortedByCanon(hr, mid); }
    if Sorted(mid) { SortedByCanon(mid, hr); }
    if i < |hr| - 1 {
      ClearByCanon(hr[i], hr[i + 1], y);
    }
    if Sorted(mid) && Sortable(mid) {
      StepSorted(p, x, y, q);
      StepSortable(p, x, y, q);
    }
    if Sorted(p + Split(x, y) + q) && Sortable(p + Split(x, y) + q) {
      StepWasSorted(p, x, y, q);
      StepWasSortable(p, x, y, q);
    }
  }

  lemma ReplaceTwo(hr: seq<HostRange>, i: nat, x: HostRange, y: HostRange)
    requires 0 < i < |hr| && AllValid(hr) && x.Valid() && y.Valid() && Unifies(hr[i - 1], x) && Unifies(hr[i], y)
    ensures var mid := hr[..i - 1] + [x, y] + hr[i + 1..];
      AllValid(mid) && CanonAll(mid) == CanonAll(hr)
  {
    hide HostRange.Canon, HostRange.Valid;
  }

  lemma ClearByCanon(r: HostRange, n: HostRange, y: HostRange)
    requires Clear(r, n) && Unifies(r, y)
    ensures Clear(y, n)
  {
    hide Unifiable, HostRange.Canon;
    if SameGroup(r, n) {
      UnifiableByCanon(r, n, y, n);
    }
  }
}
