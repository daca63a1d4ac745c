/** What the order of ranges means for the hosts they stand for. */
module HostOrder {
  import opened Decimal
  import opened HostRanges
  import opened Expansion
  import opened RangeOrder
  import opened Coalesce
  import opened Sequences

  /** Host `k` of a range, as a range of its own. */
  function Single(r: HostRange, k: int): HostRange
    requires r.Valid() && 0 <= k < r.Count()
  {
    if r.single then r else One(r, r.lo + k)
  }

  function Singles(r: HostRange): (s: seq<HostRange>)
    requires r.Valid()
    ensures |s| == r.Count()
  {
    seq(r.Count(), k requires 0 <= k < r.Count() => Single(r, k))
  }

  /** The hosts of a list, each as a range of its own. */
  function AllSingles(hr: seq<HostRange>): (s: seq<HostRange>)
    requires AllValid(hr)
  {
    if hr == [] then [] else AllSingles(hr[..|hr| - 1]) + Singles(hr[|hr| - 1])
  }

  /** Whether the hosts of a list, as ranges, are in the order of ranges. */
  predicate SinglesSorted(hr: seq<HostRange>)
    requires AllValid(hr)
  {
    Sorted(AllSingles(hr))
  }

  /** The names `names` are those of `s`, host by host. */
  predicate NamedBy(s: seq<HostRange>, names: seq<string>) {
    |s| == |names| && forall i :: 0 <= i < |s| ==> s[i].lo == s[i].hi && names[i] == s[i].Name(s[i].lo)
  }

  lemma {:induction false} SinglesNames(hr: seq<HostRange>)
    requires AllValid(hr)
    ensures NamedBy(AllSingles(hr), Expand(hr))
  {
    if hr != [] {
      SinglesNames(hr[..|hr| - 1]);
      var r := hr[|hr| - 1];
      forall k | 0 <= k < r.Count()
        ensures Singles(r)[k].lo == Singles(r)[k].hi && r.Hosts()[k] == Singles(r)[k].Name(Singles(r)[k].lo)
      {
        assert r.Hosts()[k] == r.Name(r.lo + k);
      }
    }
  }

  lemma SinglesSnoc(hr: seq<HostRange>, r: HostRange)
    requires AllValid(hr) && r.Valid()
    ensures AllValid(hr + [r]) && AllSingles(hr + [r]) == AllSingles(hr) + Singles(r)
  {
    assert (hr + [r])[..|hr|] == hr;
  }

  lemma {:induction false} SinglesConcat(a: seq<HostRange>, b: seq<HostRange>)
    requires AllValid(a) && AllValid(b)
    ensures AllValid(a + b) && AllSingles(a + b) == AllSingles(a) + AllSingles(b)
  {
    hide Singles, HostRange.Valid;
    if b == [] {
      assert a + b == a;
      assert AllSingles(a) + [] == AllSingles(a);
    } else {
      var c, r := b[..|b| - 1], b[|b| - 1];
      SinglesConcat(a, c);
      SinglesStep(a, c, r);
      assert b == c + [r];
    }
  }

  lemma SinglesStep(a: seq<HostRange>, c: seq<HostRange>, r: HostRange)
    requires AllValid(a) && AllValid(c) && r.Valid() && AllValid(a + c)
      && AllSingles(a + c) == AllSingles(a) + AllSingles(c)
    ensures AllValid(c + [r]) && AllValid(a + (c + [r]))
      && AllSingles(a + (c + [r])) == AllSingles(a) + AllSingles(c + [r])
  {
    hide AllSingles, AllValid, HostRange.Valid, Singles;
    SinglesSnoc(c, r);
    SinglesSnoc(a + c, r);
    assert (a + c) + [r] == a + (c + [r]);
    Assoc(AllSingles(a), AllSingles(c), Singles(r));
  }

  lemma SinglesOne(r: HostRange)
    requires r.Valid()
    ensures AllValid([r]) && AllSingles([r]) == Singles(r) && |Singles(r)| > 0
    ensures Singles(r)[0] == Single(r, 0) && Singles(r)[|Singles(r)| - 1] == Single(r, r.Count() - 1)
  {
    hide Single;
    assert [r][..0] == [];
    assert AllSingles([]) == [];
    assert [] + Singles(r) == Singles(r);
  }

  /** A range among others has its hosts among theirs. */
  lemma SinglesIn(hr: seq<HostRange>, r: HostRange)
    requires AllValid(hr) && r in hr
    ensures r.Valid() && Single(r, 0) in AllSingles(hr) && Single(r, r.Count() - 1) in AllSingles(hr)
  {
    hide AllSingles, Singles, Single;
    var i :| 0 <= i < |hr| && hr[i] == r;
    assert hr == hr[..i] + [r] + hr[i + 1..];
    SinglesConcat(hr[..i], [r]);
    SinglesConcat(hr[..i] + [r], hr[i + 1..]);
    SinglesOne(r);
  }

  lemma FirstSingle(r: HostRange, t: HostRange)
    requires r.Valid()
    ensures Le(Single(r, 0), t) == Le(r, t) && Le(t, Single(r, 0)) == Le(t, r)
    ensures Le(r, Single(r, r.Count() - 1))
  {
    hide KeyCmp, Unifiable;
    if r.single {
      LeItself(r);
    } else {
      FirstHost(r, r, t);
      OnesInOrder(r, r.lo, r.hi);
      FirstHost(r, r, One(r, r.hi));
    }
  }

  lemma SinglesOfOne(r: HostRange)
    requires r.Valid()
    ensures Sorted(Singles(r))
  {
    hide Le;
    var s := Singles(r);
    forall k | 0 <= k < |s| - 1
      ensures Le(s[k], s[k + 1])
    {
      OnesInOrder(r, r.lo + k, r.lo + k + 1);
    }
  }

  lemma SinglesAcross(r: HostRange, n: HostRange)
    requires r.Valid() && n.Valid() && Le(r, n) && (SameGroup(r, n) ==> Clean(r, n)) && Clear(r, n)
    ensures Le(Single(r, r.Count() - 1), Single(n, 0))
  {
    hide KeyCmp, Unifiable;
    FirstSingle(n, Single(r, r.Count() - 1));
    if SameGroup(r, n) {
      if Unifiable(r, n) {
        LastBefore(r, n);
      }
    } else if !r.single {
      LikeGroup(r, One(r, r.hi), n);
    }
  }

  /** A sorted list without overlaps stands for sorted hosts if it is sortable. */
  lemma {:induction false} HostsInOrder(hr: seq<HostRange>)
    requires AllValid(hr) && Sorted(hr) && Sortable(hr) && ScannedFrom(hr, 0)
    ensures SinglesSorted(hr)
  {
    hide Sorted, Sortable, AllSingles, Le, Clear;
    if hr == [] {
      NoSingles();
    } else {
      var n := |hr| - 1;
      assert hr == hr[..n] + [hr[n]];
      SortableSlice(hr, n);
      SortedParts(hr[..n], [hr[n]]);
      HostsInOrder(hr[..n]);
      LastSingles(hr);
    }
  }

  lemma NoSingles()
    ensures AllSingles([]) == [] && Sorted([])
  {
  }

  lemma SortableSlice(hr: seq<HostRange>, n: nat)
    requires AllValid(hr) && Sortable(hr) && n <= |hr|
    ensures Sortable(hr[..n])
  {
    hide Le, Clean;
  }

  lemma LastSingles(hr: seq<HostRange>)
    requires hr != [] && AllValid(hr) && Sortable(hr) && ScannedFrom(hr, 0) && Sorted(AllSingles(hr[..|hr| - 1]))
    ensures Sorted(AllSingles(hr))
  {
    hide Sorted, AllSingles, Le, Clear, Clean, Single, Singles, Sortable, ScannedFrom, HostRange.Valid;
    var n := |hr| - 1;
    var p, r := hr[..n], hr[n];
    assert hr == p + [r];
    SinglesSnoc(p, r);
    SinglesOne(r);
    SinglesOfOne(r);
    if n > 0 {
      EndOfSingles(p);
      Neighbours(hr, n - 1);
      SinglesAcross(hr[n - 1], r);
    } else {
      NoSingles();
    }
    SortedConcat(AllSingles(p), Singles(r));
  }

  lemma Neighbours(hr: seq<HostRange>, j: nat)
    requires AllValid(hr) && Sortable(hr) && ScannedFrom(hr, 0) && j < |hr| - 1
    ensures Le(hr[j], hr[j + 1]) && Clear(hr[j], hr[j + 1]) && (SameGroup(hr[j], hr[j + 1]) ==> Clean(hr[j], hr[j + 1]))
  {
    hide Le, Clear, Clean;
  }

  lemma EndOfSingles(hr: seq<HostRange>)
    requires AllValid(hr) && hr != []
    ensures var s, r := AllSingles(hr), hr[|hr| - 1];
      s != [] && s[|s| - 1] == Single(r, r.Count() - 1)
  {
    hide Single, HostRange.Valid;
    var r := hr[|hr| - 1];
    assert hr == hr[..|hr| - 1] + [r];
    SinglesSnoc(hr[..|hr| - 1], r);
    SinglesOne(r);
  }

  /** And only then: sorted hosts leave no range in another's way. */
  lemma SortedHostsSortable(hr: seq<HostRange>)
    requires AllValid(hr) && SinglesSorted(hr)
    ensures Sortable(hr)
  {
    hide Le, Clean, AllSingles, Sorted, Single;
    forall r, t | r in hr && t in hr && SameGroup(r, t) && Le(r, t)
      ensures Clean(r, t)
    {
      var i :| 0 <= i < |hr| && hr[i] == r;
      var j :| 0 <= j < |hr| && hr[j] == t;
      if i == j {
        OneWidthUnifies(r, t);
        CleanIfUnifiable(r, t);
      } else if i < j {
        HostsAcross(hr, j, r, t);
        LastFirst(r, t);
      } else {
        HostsAcross(hr, i, t, r);
        FirstSingle(t, Single(r, 0));
        FirstSingle(r, t);
        LeTransitive(t, Single(t, t.Count() - 1), Single(r, 0));
        SameKeySameWidth(r, t);
        CleanIfUnifiable(r, t);
      }
    }
  }

  lemma HostsAcross(hr: seq<HostRange>, j: nat, r: HostRange, t: HostRange)
    requires AllValid(hr) && SinglesSorted(hr) && 0 <= j < |hr| && r in hr[..j] && t in hr[j..]
    ensures r.Valid() && t.Valid() && Le(Single(r, r.Count() - 1), Single(t, 0))
  {
    hide Le, AllSingles, Sorted, Single;
    assert hr == hr[..j] + hr[j..];
    SinglesConcat(hr[..j], hr[j..]);
    SinglesIn(hr[..j], r);
    SinglesIn(hr[j..], t);
    SortedAcross(AllSingles(hr[..j]), AllSingles(hr[j..]), Single(r, r.Count() - 1), Single(t, 0));
  }

  lemma LastFirst(r: HostRange, t: HostRange)
    requires r.Valid() && t.Valid() && SameGroup(r, t) && Le(Single(r, r.Count() - 1), Single(t, 0))
    ensures Clean(r, t)
  {
    hide KeyCmp, Unifiable;
    FirstSingle(t, One(r, r.hi));
  }

  /** Rewriting widths within their classes does not matter here either. */
  lemma {:induction false} SinglesByCanon(a: seq<HostRange>, b: seq<HostRange>)
    requires AllValid(a) && AllValid(b) && CanonAll(a) == CanonAll(b)
    ensures CanonAll(AllSingles(a)) == CanonAll(AllSingles(b))
  {
    hide HostRange.Canon, HostRange.Valid, Singles, CanonAll;
    CanonLength(a, b);
    if a != [] {
      var n := |a| - 1;
      CanonAllAt(a, b, n);
      SinglesByCanon(a[..n], b[..n]);
      SinglesOfCanon(a[n], b[n]);
      CanonConcat(AllSingles(a[..n]), Singles(a[n]));
      CanonConcat(AllSingles(b[..n]), Singles(b[n]));
    }
  }

  lemma CanonLength(a: seq<HostRange>, b: seq<HostRange>)
    requires CanonAll(a) == CanonAll(b)
    ensures |a| == |b|
  {
    assert |CanonAll(a)| == |CanonAll(b)|;
  }

  lemma CanonConcat(a: seq<HostRange>, b: seq<HostRange>)
    ensures CanonAll(a + b) == CanonAll(a) + CanonAll(b)
  {
    hide HostRange.Canon;
  }

  lemma SinglesOfCanon(r: HostRange, x: HostRange)
    requires r.Valid() && x.Valid() && r.Canon() == x.Canon()
    ensures CanonAll(Singles(r)) == CanonAll(Singles(x))
  {
    CanonParts(r, x);
    hide HostRange.Canon;
    forall k | 0 <= k < r.Count()
      ensures Single(r, k).Canon() == Single(x, k).Canon()
    {
      if !r.single {
        OneByCanon(r, x, r.lo + k);
      }
    }
  }

  lemma HostsSortedByCanon(a: seq<HostRange>, b: seq<HostRange>)
    requires AllValid(a) && AllValid(b) && CanonAll(a) == CanonAll(b)
    ensures SinglesSorted(a) == SinglesSorted(b)
  {
    hide AllSingles, CanonAll, Sorted;
    SinglesByCanon(a, b);
    if SinglesSorted(a) { SortedByCanon(AllSingles(a), AllSingles(b)); }
    if SinglesSorted(b) { SortedByCanon(AllSingles(b), AllSingles(a)); }
  }

  /** Adjoining ranges of one width joined. */
  lemma SinglesJoin(p: seq<HostRange>, r: HostRange, n: HostRange, q: seq<HostRange>)
    requires AllValid(p) && AllValid(q) && r.Valid() && n.Valid() && SameGroup(r, n) && r.width == n.width
      && r.hi + 1 == n.lo
    ensures AllValid(p + [r, n] + q) && AllValid(p + [r.(hi := n.hi)] + q)
    ensures AllSingles(p + [r, n] + q) == AllSingles(p + [r.(hi := n.hi)] + q)
  {
    hide AllSingles, Singles;
    var z := r.(hi := n.hi);
    SinglesOne(r);
    SinglesOne(n);
    SinglesOne(z);
    assert [r, n] == [r] + [n];
    SinglesConcat([r], [n]);
    SinglesOfJoined(r, n);
    SinglesConcat(p, [r, n]);
    SinglesConcat(p + [r, n], q);
    SinglesConcat(p, [z]);
    SinglesConcat(p + [z], q);
  }

  lemma SinglesOfJoined(r: HostRange, n: HostRange)
    requires r.Valid() && n.Valid() && SameGroup(r, n) && r.width == n.width && r.hi + 1 == n.lo
    ensures r.(hi := n.hi).Valid() && Singles(r.(hi := n.hi)) == Singles(r) + Singles(n)
  {
  }

  // ---- The order, said of names

  /** The name of a host in two parts, the prefix of its range and its number,
      which is empty for a range that is a whole name. */
  datatype Parts = Parts(prefix: string, number: string)

  function PartsOf(r: HostRange): (ps: seq<Parts>)
    requires r.Valid()
    ensures |ps| == r.Count()
  {
    seq(r.Count(), k requires 0 <= k < r.Count() =>
      Parts(r.prefix, if r.single then "" else Padded(r.lo + k, r.width)))
  }

  function AllParts(hr: seq<HostRange>): seq<Parts>
    requires AllValid(hr)
  {
    if hr == [] then [] else AllParts(hr[..|hr| - 1]) + PartsOf(hr[|hr| - 1])
  }

  /** The smaller prefix comes first, in the order of characters; among hosts of
      one prefix the shorter number, and among numbers of one length the smaller
      one in the order of characters. */
  ghost predicate InOrder(a: Parts, b: Parts) {
    || LexBefore(a.prefix, b.prefix)
    || (a.prefix == b.prefix && |a.number| < |b.number|)
    || (a.prefix == b.prefix && |a.number| == |b.number| && (a.number == b.number || LexBefore(a.number, b.number)))
  }

  /** Whether the hosts of a list are in order. */
  ghost predicate HostsSorted(hr: seq<HostRange>)
    requires AllValid(hr)
  {
    forall i, j :: 0 <= i < j < |AllParts(hr)| ==> InOrder(AllParts(hr)[i], AllParts(hr)[j])
  }

  /** The two parts of each host make up its name. */
  lemma {:induction false} PartsMakeNames(hr: seq<HostRange>)
    requires AllValid(hr)
    ensures |AllParts(hr)| == |Expand(hr)|
    ensures forall i :: 0 <= i < |Expand(hr)| ==> Expand(hr)[i] == AllParts(hr)[i].prefix + AllParts(hr)[i].number
  {
    hide Padded;
    if hr != [] {
      PartsMakeNames(hr[..|hr| - 1]);
      var r := hr[|hr| - 1];
      forall k | 0 <= k < r.Count()
        ensures r.Hosts()[k] == PartsOf(r)[k].prefix + PartsOf(r)[k].number
      {
        assert r.Hosts()[k] == r.Name(r.lo + k);
      }
    }
  }

  /** Of digit strings of one length the smaller value comes first. */
  lemma {:induction false} ValueIsLex(a: string, b: string)
    requires AllDigits(a) && AllDigits(b) && |a| == |b|
    ensures Value(a) < Value(b) <==> LexBefore(a, b)
    ensures Value(a) == Value(b) <==> a == b
  {
    if a == [] {
      assert !LexBefore(a, b);
    } else {
      var n := |a| - 1;
      ValueIsLex(a[..n], b[..n]);
      assert a == a[..n] + [a[n]] && b == b[..n] + [b[n]];
      LexByLast(a, b);
    }
  }

  lemma LexByLast(a: string, b: string)
    requires |a| == |b| > 0
    ensures var n := |a| - 1;
      LexBefore(a, b) <==> LexBefore(a[..n], b[..n]) || (a[..n] == b[..n] && a[n] < b[n])
  {
    var n := |a| - 1;
    if LexBefore(a, b) {
      var k: nat :| DiffersAt(a, b, k);
      if k < n {
        assert a[..n][..k] == a[..k] && b[..n][..k] == b[..k];
        assert DiffersAt(a[..n], b[..n], k);
      }
    }
    if LexBefore(a[..n], b[..n]) {
      var k: nat :| DiffersAt(a[..n], b[..n], k);
      assert a[..n][..k] == a[..k] && b[..n][..k] == b[..k];
      assert DiffersAt(a, b, k);
    }
    if a[..n] == b[..n] && a[n] < b[n] {
      assert DiffersAt(a, b, n);
    }
  }

  /** The parts of a range of one host. */
  function PartOf(r: HostRange): Parts {
    Parts(r.prefix, if r.single then "" else Padded(r.lo, r.width))
  }

  /** The order of ranges is that order for the hosts with which they begin. */
  lemma LeIsInOrder(r: HostRange, t: HostRange)
    requires r.Valid() && t.Valid()
    ensures Le(r, t) <==> InOrder(PartOf(r), PartOf(t))
  {
    hide Padded, Value, LexBefore, StrCmp, DigitCount, Pad;
    StrCmpIsLex(r.prefix, t.prefix);
    StrCmpEqual(r.prefix, t.prefix);
    if !r.single && !t.single && r.Length() == t.Length() {
      ValueIsLex(Padded(r.lo, r.width), Padded(t.lo, t.width));
      ValuePadded(r.lo, r.width);
      ValuePadded(t.lo, t.width);
    }
    if r.single && t.single {
      NotBeforeItself("");
    }
  }

  lemma NotBeforeItself(a: string)
    ensures !LexBefore(a, a)
  {
    StrCmpIsLex(a, a);
    StrCmpEqual(a, a);
  }

  lemma {:induction false} PartsOfSingles(hr: seq<HostRange>)
    requires AllValid(hr)
    ensures |AllParts(hr)| == |AllSingles(hr)|
    ensures forall i :: 0 <= i < |AllParts(hr)| ==>
      AllSingles(hr)[i].Valid() && AllParts(hr)[i] == PartOf(AllSingles(hr)[i])
  {
    hide Padded;
    if hr != [] {
      PartsOfSingles(hr[..|hr| - 1]);
      var r := hr[|hr| - 1];
      forall k | 0 <= k < r.Count()
        ensures Singles(r)[k].Valid() && PartsOf(r)[k] == PartOf(Singles(r)[k])
      {
        assert Singles(r)[k] == Single(r, k);
      }
    }
  }

  /** So the hosts are in order exactly if they are as ranges. */
  lemma HostsSortedIs(hr: seq<HostRange>)
    requires AllValid(hr)
    ensures HostsSorted(hr) <==> SinglesSorted(hr)
  {
    hide Le, InOrder, AllParts, AllSingles, PartOf, HostRange.Valid;
    PartsOfSingles(hr);
    var s, ps := AllSingles(hr), AllParts(hr);
    if SinglesSorted(hr) {
      forall i, j | 0 <= i < j < |ps|
        ensures InOrder(ps[i], ps[j])
      {
        SortedPairs(s, i, j);
        LeIsInOrder(s[i], s[j]);
      }
    }
    if HostsSorted(hr) {
      forall i | 0 <= i < |s| - 1
        ensures Le(s[i], s[i + 1])
      {
        LeIsInOrder(s[i], s[i + 1]);
      }
    }
  }
}
