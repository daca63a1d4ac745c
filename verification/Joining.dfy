/** Which ranges hostlist_uniq joins, and what becomes of a sorted list by it. */
module Joining {
  // Every range of the result is made of neighbours of the sorted list: `parts`
  // below.  Two hosts of one name become one exactly if they are in one part.

  import opened Decimal
  import opened Widths
  import opened HostRanges
  import opened Expansion
  import opened RangeOrder
  import opened Coalesce
  import opened Sequences

  /** Whether two neighbours become one. */
  predicate Joins(h1: HostRange, h2: HostRange) {
    OneGroup(h1, h2) && (h1.single || (Unifiable(h1, h2) && h1.hi + 1 >= h2.lo))
  }

  /** Ranges that print in one bracketed list, or the same whole name. */
  predicate OneGroup(h1: HostRange, h2: HostRange) {
    h1.prefix == h2.prefix && h1.single == h2.single
  }

  function NameSet(names: seq<string>): set<string> {
    set s | s in names
  }

  predicate ShareName(r: HostRange, s: HostRange)
    requires r.Valid() && s.Valid()
  {
    exists n :: n in r.Hosts() && n in s.Hosts()
  }

  /** No name is in two groups; and where two ranges of one group have a name in
      common, those between them can be joined to the first. */
  predicate Separable(hr: seq<HostRange>)
    requires AllValid(hr)
  {
    && (forall r, s :: r in hr && s in hr && !OneGroup(r, s) ==> !ShareName(r, s))
    && (forall r, t, s :: r in hr && t in hr && s in hr ==>
          SameGroup(r, t) && SameGroup(t, s) && Le(r, t) && Le(t, s) && ShareName(r, s) ==> Unifiable(r, t))
  }

  // ---- Names of one group

  lemma HostNumber(r: HostRange, n: string) returns (k: nat)
    requires r.Valid() && !r.single && n in r.Hosts()
    ensures r.lo <= k <= r.hi && n == r.prefix + Padded(k, r.width)
  {
    var i :| 0 <= i < r.Count() && r.Hosts()[i] == n;
    k := r.lo + i;
    assert r.Hosts()[i] == r.Name(r.lo + i);
  }

  lemma SameNumber(p: string, k: nat, w: nat, n: nat, v: nat)
    requires p + Padded(k, w) == p + Padded(n, v)
    ensures k == n
  {
    hide Padded;
    assert Padded(k, w) == (p + Padded(k, w))[|p|..] && Padded(n, v) == (p + Padded(n, v))[|p|..];
    PaddedInjective(k, w, n, v);
  }

  lemma SharedNumber(r: HostRange, s: HostRange)
    requires r.Valid() && s.Valid() && SameGroup(r, s) && ShareName(r, s)
    ensures s.lo <= r.hi && r.lo <= s.hi
  {
    hide Padded, HostRange.Hosts;
    var n :| n in r.Hosts() && n in s.Hosts();
    var k := HostNumber(r, n);
    var m := HostNumber(s, n);
    SameNumber(r.prefix, k, r.width, m, s.width);
  }

  lemma HostsDistinct(r: HostRange)
    requires r.Valid()
    ensures Distinct(r.Hosts())
  {
    hide Padded;
    forall i, j | 0 <= i < j < r.Count()
      ensures r.Hosts()[i] != r.Hosts()[j]
    {
      if r.Hosts()[i] == r.Hosts()[j] {
        SameNumber(r.prefix, r.lo + i, r.width, r.lo + j, r.width);
        assert false;
      }
    }
  }

  predicate NoneShared(hr: seq<HostRange>)
    requires AllValid(hr)
  {
    forall i, j :: 0 <= i < j < |hr| ==> !ShareName(hr[i], hr[j])
  }

  lemma DistinctConcat(a: seq<string>, b: seq<string>)
    ensures Distinct(a + b) <==> Distinct(a) && Distinct(b) && forall n :: n in a ==> n !in b
  {
    var s := a + b;
    if Distinct(s) {
      forall i, j | 0 <= i < j < |a|
        ensures a[i] != a[j]
      {
        assert s[i] == a[i] && s[j] == a[j];
      }
      forall i, j | 0 <= i < j < |b|
        ensures b[i] != b[j]
      {
        assert s[|a| + i] == b[i] && s[|a| + j] == b[j];
      }
      forall i, j | 0 <= i < |a| && 0 <= j < |b|
        ensures a[i] != b[j]
      {
        assert s[i] == a[i] && s[|a| + j] == b[j];
      }
    } else {
      var i, j :| 0 <= i < j < |s| && s[i] == s[j];
      assert if j < |a| then a[i] == a[j]
        else if i >= |a| then b[i - |a|] == b[j - |a|]
        else a[i] in a && a[i] == b[j - |a|];
    }
  }

  /** The names of a list are different if and only if no two of its ranges share
      one. */
  lemma {:induction false} DistinctNames(hr: seq<HostRange>)
    requires AllValid(hr)
    ensures Distinct(Expand(hr)) <==> NoneShared(hr)
  {
    hide HostRange.Hosts, ShareName;
    if hr != [] {
      var n := |hr| - 1;
      DistinctNames(hr[..n]);
      DistinctConcat(Expand(hr[..n]), hr[n].Hosts());
      HostsDistinct(hr[n]);
      if NoneShared(hr) {
        assert forall i, j :: 0 <= i < j < n ==> hr[..n][i] == hr[i] && hr[..n][j] == hr[j];
      }
      NamesApart(hr[..n], hr[n]);
      assert forall i :: 0 <= i < n ==> hr[..n][i] == hr[i];
    }
  }

  lemma {:induction false} NamesApart(hr: seq<HostRange>, r: HostRange)
    requires AllValid(hr) && r.Valid()
    ensures (forall n :: n in Expand(hr) ==> n !in r.Hosts()) <==> (forall i :: 0 <= i < |hr| ==> !ShareName(hr[i], r))
  {
    hide HostRange.Hosts;
    if hr != [] {
      var m := |hr| - 1;
      NamesApart(hr[..m], r);
      assert forall i :: 0 <= i < m ==> hr[..m][i] == hr[i];
      assert forall n :: n in Expand(hr) <==> n in Expand(hr[..m]) || n in hr[m].Hosts();
    }
  }

  lemma {:induction false} NameOf(hr: seq<HostRange>, n: string) returns (r: HostRange)
    requires AllValid(hr) && n in Expand(hr)
    ensures r in hr && r.Valid() && n in r.Hosts()
  {
    hide HostRange.Hosts;
    var m := |hr| - 1;
    if n in hr[m].Hosts() {
      r := hr[m];
    } else {
      r := NameOf(hr[..m], n);
    }
  }

  lemma NameIn(hr: seq<HostRange>, r: HostRange, n: string)
    requires AllValid(hr) && r in hr && n in r.Hosts()
    ensures n in Expand(hr)
  {
    hide HostRange.Hosts, Expand;
    var i :| 0 <= i < |hr| && hr[i] == r;
    ExpandAt(hr, i);
  }

  // ---- Blocks

  /** `b` is what neighbours `es` were joined to. */
  predicate IsBlock(b: HostRange, es: seq<HostRange>) {
    && es != [] && b.Valid() && AllValid(es)
    && b.(hi := es[0].hi).Canon() == es[0].Canon()
    && (forall e :: e in es ==> OneGroup(b, e) && e.hi <= b.hi && (!e.single ==> Unifiable(b, e)))
    && NameSet(b.Hosts()) == NameSet(Expand(es))
  }

  predicate Blocks(hr: seq<HostRange>, parts: seq<seq<HostRange>>) {
    |hr| == |parts| && forall j :: 0 <= j < |hr| ==> IsBlock(hr[j], parts[j])
  }

  /** No block joins the range that the next one begins with. */
  predicate Parted(hr: seq<HostRange>, parts: seq<seq<HostRange>>)
    requires Blocks(hr, parts)
  {
    forall j :: 0 <= j < |hr| - 1 ==> !Joins(hr[j], parts[j + 1][0])
  }

  /** A block begins where its first range does. */
  lemma BlockStart(b: HostRange, es: seq<HostRange>, t: HostRange)
    requires IsBlock(b, es)
    ensures Le(b, t) == Le(es[0], t) && Le(t, b) == Le(t, es[0])
    ensures b.lo == es[0].lo && OneGroup(b, es[0])
  {
    hide HostRange.Canon, KeyCmp, Unifiable, HostRange.Hosts, NameSet, Expand;
    var x := b.(hi := es[0].hi);
    CanonParts(x, es[0]);
    EndFree(x, b, t);
    if Le(x, t) { LeSame(x, t, es[0], t); }
    if Le(es[0], t) { LeSame(es[0], t, x, t); }
    if Le(t, x) { LeSame(t, x, t, es[0]); }
    if Le(t, es[0]) { LeSame(t, es[0], t, x); }
  }

  lemma PartsInOrder(parts: seq<seq<HostRange>>, i: nat, j: nat, r: HostRange, s: HostRange)
    requires Sorted(Concat(parts)) && i < j < |parts| && r in parts[i] && s in parts[j]
    ensures Le(r, s)
  {
    hide Le, Sorted;
    assert parts == parts[..j] + parts[j..];
    ConcatParts(parts[..j], parts[j..]);
    ConcatIn(parts[..j], i, r);
    ConcatIn(parts[j..], 0, s);
    SortedAcross(Concat(parts[..j]), Concat(parts[j..]), r, s);
  }

  lemma BlockFirst(b: HostRange, es: seq<HostRange>, r: HostRange)
    requires IsBlock(b, es) && Sorted(es) && r in es
    ensures Le(b, r)
  {
    hide Le, IsBlock;
    BlockNotEmpty(b, es);
    var i :| 0 <= i < |es| && es[i] == r;
    SortedPairs(es, 0, i);
    BlockStart(b, es, r);
  }

  lemma BlockNotEmpty(b: HostRange, es: seq<HostRange>)
    requires IsBlock(b, es)
    ensures es != [] && b.Valid() && AllValid(es)
  {
  }

  lemma PartSorted(parts: seq<seq<HostRange>>, j: nat)
    requires Sorted(Concat(parts)) && j < |parts|
    ensures Sorted(parts[j])
  {
    hide Le, Sorted, Concat;
    assert parts == (parts[..j] + [parts[j]]) + parts[j + 1..];
    ConcatParts(parts[..j] + [parts[j]], parts[j + 1..]);
    ConcatSnoc(parts[..j], parts[j]);
    SortedParts(Concat(parts[..j]) + parts[j], Concat(parts[j + 1..]));
    SortedParts(Concat(parts[..j]), parts[j]);
  }

  lemma GroupBetween(r: HostRange, t: HostRange, s: HostRange)
    requires Le(r, t) && Le(t, s) && OneGroup(r, s)
    ensures OneGroup(r, t) && OneGroup(t, s)
  {
    StrCmpEqual(r.prefix, t.prefix);
    StrCmpEqual(t.prefix, s.prefix);
    StrCmpFlip(r.prefix, t.prefix);
  }

  lemma MembersShare(b: HostRange, es: seq<HostRange>, n: string) returns (r: HostRange)
    requires IsBlock(b, es) && n in b.Hosts()
    ensures AllValid(es) && r in es && r.Valid() && n in r.Hosts()
  {
    hide HostRange.Hosts, Expand, HostRange.Canon, Unifiable;
    assert n in NameSet(b.Hosts());
    r := NameOf(es, n);
  }

  lemma BlockShares(b: HostRange, es: seq<HostRange>, r: HostRange, n: string)
    requires IsBlock(b, es) && r in es && r.Valid() && n in r.Hosts()
    ensures b.Valid() && n in b.Hosts()
  {
    hide HostRange.Hosts, Expand, HostRange.Canon, Unifiable;
    NameIn(es, r, n);
    assert n in NameSet(Expand(es));
  }

  lemma BlockMember(b: HostRange, es: seq<HostRange>, r: HostRange)
    requires IsBlock(b, es) && r in es
    ensures r.Valid() && OneGroup(b, r) && r.hi <= b.hi && (!r.single ==> SameGroup(b, r) && Unifiable(b, r))
  {
    hide Unifiable, HostRange.Canon, HostRange.Hosts, NameSet, Expand;
  }

  /** Ranges that share a name and can be joined along the way are in one block. */
  lemma JoinsOn(b: HostRange, r: HostRange, t: HostRange, s: HostRange)
    requires b.Valid() && r.Valid() && t.Valid() && s.Valid()
    requires OneGroup(b, r) && OneGroup(r, t) && OneGroup(t, s) && Le(b, r) && Le(r, t) && Le(t, s)
    requires ShareName(r, s) && r.hi <= b.hi
    requires !r.single ==> Unifiable(b, r) && Unifiable(r, t) && Unifiable(r, s)
    ensures Joins(b, t)
  {
    hide Unifiable, KeyCmp, ShareName;
    if !r.single {
      UnifiableOn(b, r, t);
      UnifiableOn(r, t, s);
      UnifiedOrder(t, s);
      SharedNumber(r, s);
    }
  }

  lemma SeparableTriple(hr: seq<HostRange>, r: HostRange, t: HostRange, s: HostRange)
    requires AllValid(hr) && Separable(hr) && r in hr && t in hr && s in hr && ShareName(r, s)
    ensures OneGroup(r, s)
    ensures SameGroup(r, t) && SameGroup(t, s) && Le(r, t) && Le(t, s) ==> Unifiable(r, t)
  {
    hide Unifiable, KeyCmp, HostRange.Hosts;
  }

  /** If the sorted list is separable, a block that shares a name with a later
      one joins the next. */
  lemma SharersJoin(hr: seq<HostRange>, parts: seq<seq<HostRange>>, i: nat, j: nat, n: string)
    requires Blocks(hr, parts) && Sorted(Concat(parts)) && AllValid(Concat(parts)) && Separable(Concat(parts))
    requires i < j < |hr| && AllValid(hr) && n in hr[i].Hosts() && n in hr[j].Hosts()
    ensures Joins(hr[i], parts[i + 1][0])
  {
    hide Unifiable, Le, HostRange.Hosts, IsBlock, Joins, Separable, Sorted, OneGroup;
    var all := Concat(parts);
    var r := MembersShare(hr[i], parts[i], n);
    var s := MembersShare(hr[j], parts[j], n);
    assert ShareName(r, s);
    FirstOfLater(hr, parts, i + 1, j, s);
    var t := parts[i + 1][0];
    ConcatIn(parts, i, r);
    ConcatIn(parts, j, s);
    ConcatIn(parts, i + 1, t);
    PartsInOrder(parts, i, i + 1, r, t);
    PartSorted(parts, i);
    BlockFirst(hr[i], parts[i], r);
    BlockMember(hr[i], parts[i], r);
    SeparableTriple(all, r, t, s);
    SeparableTriple(all, r, s, s);
    LeItself(s);
    LeTransitive(r, t, s);
    GroupBetween(r, t, s);
    InGroup(r, t, s);
    JoinsOn(hr[i], r, t, s);
  }

  lemma InGroup(r: HostRange, t: HostRange, s: HostRange)
    requires OneGroup(r, t) && OneGroup(t, s)
    ensures !r.single ==> SameGroup(r, t) && SameGroup(t, s) && SameGroup(r, s) && SameGroup(s, s)
  {
  }

  lemma FirstOfLater(hr: seq<HostRange>, parts: seq<seq<HostRange>>, i: nat, j: nat, s: HostRange)
    requires Blocks(hr, parts) && Sorted(Concat(parts)) && i <= j < |hr| && s in parts[j]
    ensures parts[i] != [] && parts[i][0].Valid() && Le(parts[i][0], s)
  {
    hide Unifiable, Le, HostRange.Hosts, IsBlock, Joins, Sorted;
    BlockNotEmpty(hr[i], parts[i]);
    if i < j {
      PartsInOrder(parts, i, j, parts[i][0], s);
    } else {
      PartSorted(parts, j);
      var k :| 0 <= k < |parts[j]| && parts[j][k] == s;
      SortedPairs(parts[j], 0, k);
    }
  }

  lemma SharedBlocks(hr: seq<HostRange>, parts: seq<seq<HostRange>>, r: HostRange, s: HostRange)
    returns (j: nat, k: nat)
    requires Blocks(hr, parts) && AllValid(hr) && AllValid(Concat(parts))
    requires r in Concat(parts) && s in Concat(parts) && r.Valid() && s.Valid() && ShareName(r, s)
    ensures j < |hr| && r in parts[j] && k < |hr| && s in parts[k] && ShareName(hr[j], hr[k])
  {
    hide HostRange.Hosts, IsBlock;
    j := ConcatAt(parts, r);
    k := ConcatAt(parts, s);
    var n :| n in r.Hosts() && n in s.Hosts();
    BlockShares(hr[j], parts[j], r, n);
    BlockShares(hr[k], parts[k], s, n);
  }

  lemma OnlyItself(hr: seq<HostRange>, j: nat, k: nat)
    requires AllValid(hr) && NoneShared(hr) && j < |hr| && k < |hr| && ShareName(hr[j], hr[k])
    ensures j == k
  {
    hide HostRange.Hosts;
    assert ShareName(hr[k], hr[j]);
  }

  /** If no two blocks share a name, ranges that do are in one block, and so are
      those between them. */
  lemma BetweenUnifiable(hr: seq<HostRange>, parts: seq<seq<HostRange>>, j: nat, r: HostRange, t: HostRange,
      s: HostRange)
    requires Blocks(hr, parts) && Sorted(Concat(parts)) && j < |hr| && r in parts[j] && s in parts[j]
      && t in Concat(parts)
    requires SameGroup(r, t) && SameGroup(t, s) && Le(r, t) && Le(t, s)
    ensures Unifiable(r, t)
  {
    hide Unifiable, Le, HostRange.Hosts, IsBlock, Joins, Sorted;
    var b := hr[j];
    var i := ConcatAt(parts, t);
    PartSorted(parts, j);
    BlockFirst(b, parts[j], r);
    BlockFirst(b, parts[j], s);
    BlockMember(b, parts[j], r);
    BlockMember(b, parts[j], s);
    if i < j {
      PartsInOrder(parts, i, j, t, r);
      SameKeySameWidth(r, t);
    } else {
      if i > j {
        PartsInOrder(parts, j, i, s, t);
        SameKeySameWidth(s, t);
        UnifiableOn(b, s, t);
      } else {
        BlockMember(b, parts[j], t);
      }
      UnifiableOn(b, r, t);
    }
  }

  lemma BlocksSeparable(hr: seq<HostRange>, parts: seq<seq<HostRange>>)
    requires Blocks(hr, parts) && AllValid(hr) && NoneShared(hr) && Sorted(Concat(parts)) && AllValid(Concat(parts))
    ensures Separable(Concat(parts))
  {
    hide Unifiable, Le, ShareName, IsBlock, Joins, Sorted, NoneShared, SameGroup;
    var all := Concat(parts);
    forall r, s | r in all && s in all && !OneGroup(r, s)
      ensures !ShareName(r, s)
    {
      if ShareName(r, s) {
        var j, k := SharedBlocks(hr, parts, r, s);
        OnlyItself(hr, j, k);
        BlockMember(hr[j], parts[j], r);
        BlockMember(hr[j], parts[j], s);
      }
    }
    forall r, t, s | r in all && t in all && s in all && SameGroup(r, t) && SameGroup(t, s) && Le(r, t) && Le(t, s)
      && ShareName(r, s)
      ensures Unifiable(r, t)
    {
      var j, k := SharedBlocks(hr, parts, r, s);
      OnlyItself(hr, j, k);
      BetweenUnifiable(hr, parts, j, r, t, s);
    }
  }

  /** Joining neighbours makes all names different if and only if the list is
      separable. */
  lemma BlocksDistinct(hr: seq<HostRange>, parts: seq<seq<HostRange>>)
    requires Blocks(hr, parts) && Parted(hr, parts) && AllValid(hr) && Sorted(Concat(parts)) && AllValid(Concat(parts))
    ensures Distinct(Expand(hr)) <==> Separable(Concat(parts))
  {
    hide Blocks, Separable, Sorted, Distinct, Expand, HostRange.Hosts, Joins;
    DistinctNames(hr);
    if NoneShared(hr) {
      BlocksSeparable(hr, parts);
    }
    if Separable(Concat(parts)) {
      forall i, j | 0 <= i < j < |hr|
        ensures !ShareName(hr[i], hr[j])
      {
        if ShareName(hr[i], hr[j]) {
          var n :| n in hr[i].Hosts() && n in hr[j].Hosts();
          SharersJoin(hr, parts, i, j, n);
        }
      }
    }
  }

  // ---- Joining keeps a list sortable

  function Joint(x: HostRange, y: HostRange): HostRange {
    x.(hi := if x.hi < y.hi then y.hi else x.hi)
  }

  /** Ranges that can share a width print the numbers above both alike. */
  lemma OneUnified(x: HostRange, y: HostRange, k: nat)
    requires SameGroup(x, y) && Unifiable(x, y) && x.lo <= k && y.lo <= k
    ensures One(x, k).Canon() == One(y, k).Canon()
  {
    hide Padded, DigitCount;
    UnifyComplete(x.lo, x.width, y.lo, y.width);
    var w :| Padded(x.lo, w) == Padded(x.lo, x.width) && Padded(y.lo, w) == Padded(y.lo, y.width);
    PaddedSame(x.lo, w, x.width);
    PaddedSame(y.lo, w, y.width);
    SameWidthAbove(x.lo, k, w, x.width);
    SameWidthAbove(y.lo, k, w, y.width);
    PaddedSame(k, w, x.width);
    PaddedSame(k, w, y.width);
  }

  lemma BothBehind(x: HostRange, y: HostRange, t: HostRange)
    requires x.Valid() && y.Valid() && SameGroup(x, y) && Unifiable(x, y) && Le(x, y)
    ensures Le(One(x, Joint(x, y).hi), t) <==> Le(One(x, x.hi), t) && Le(One(y, y.hi), t)
  {
    hide KeyCmp, Unifiable, HostRange.Canon;
    UnifiedOrder(x, y);
    var m := Joint(x, y).hi;
    OneUnified(x, y, m);
    if Le(One(x, m), t) {
      LeSame(One(x, m), t, One(y, m), t);
      BehindLower(x, x.hi, m, t);
      BehindLower(y, y.hi, m, t);
    } else if m == y.hi && Le(One(y, y.hi), t) {
      LeSame(One(y, m), t, One(x, m), t);
    }
  }

  /** A range behind both leaves both alone exactly if it does so with the joint
      one. */
  lemma JointClean(x: HostRange, y: HostRange, t: HostRange)
    requires x.Valid() && y.Valid() && SameGroup(x, y) && Unifiable(x, y) && Le(x, y) && SameGroup(y, t) && Le(y, t)
    ensures Clean(Joint(x, y), t) <==> Clean(x, t) && Clean(y, t)
  {
    hide KeyCmp, Unifiable, HostRange.Canon;
    UnifiableOn(x, y, t);
    EndFree(x, Joint(x, y), t);
    BothBehind(x, y, t);
  }

  lemma CleanBefore(r: HostRange, x: HostRange, y: HostRange)
    requires r.Valid() && SameGroup(r, x) && SameGroup(x, y) && Unifiable(x, y) && Le(r, x) && Le(x, y)
    ensures Clean(r, Joint(x, y)) == Clean(r, x) && (Clean(r, x) ==> Clean(r, y))
  {
    hide KeyCmp, Unifiable;
    EndFree(x, Joint(x, y), r);
    EndFree(x, Joint(x, y), One(r, r.hi));
    if Unifiable(r, x) {
      UnifiableOn(r, x, y);
    } else if Le(One(r, r.hi), x) {
      LeTransitive(One(r, r.hi), x, y);
    }
  }

  lemma JoinKeepsSortable(p: seq<HostRange>, x: HostRange, y: HostRange, q: seq<HostRange>)
    requires AllValid(p + [x, y] + q) && AllValid(p + [Joint(x, y)] + q)
    requires Sorted(p + [x, y] + q) && SameGroup(x, y) && Unifiable(x, y) && Le(x, y) && Sortable(p + [x, y] + q)
    ensures Sortable(p + [Joint(x, y)] + q)
  {
    hide Le, Clean, Sorted, SameGroup;
    var hr, z := p + [x, y] + q, Joint(x, y);
    assert x in hr && y in hr;
    forall r, t | r in p + [z] + q && t in p + [z] + q && SameGroup(r, t) && Le(r, t)
      ensures Clean(r, t)
    {
      Around(p, x, y, q, r);
      Around(p, x, y, q, t);
      GroupOfJoint(x, y, r, t);
      if r == z && t == z {
        OneWidthUnifies(z, z);
        CleanIfUnifiable(z, z);
      } else if r == z {
        assert t in hr;
        EndFree(x, z, t);
        if t in q {
          JointClean(x, y, t);
        } else {
          SameKeySameWidth(z, t);
          CleanIfUnifiable(z, t);
        }
      } else if t == z {
        assert r in hr;
        EndFree(x, z, r);
        if r in p {
          CleanBefore(r, x, y);
        } else {
          SameKeySameWidth(r, z);
          CleanIfUnifiable(r, z);
        }
      } else {
        assert r in hr && t in hr;
      }
    }
  }

  lemma GroupOfJoint(x: HostRange, y: HostRange, r: HostRange, t: HostRange)
    requires SameGroup(x, y)
    ensures r in [x, y, Joint(x, y)] && SameGroup(r, t) ==>
      SameGroup(x, t) && SameGroup(y, t) && SameGroup(t, x) && SameGroup(t, y) && SameGroup(Joint(x, y), t)
        && SameGroup(t, Joint(x, y))
    ensures t in [x, y, Joint(x, y)] && SameGroup(r, t) ==>
      SameGroup(x, r) && SameGroup(y, r) && SameGroup(r, x) && SameGroup(r, y) && SameGroup(Joint(x, y), r)
        && SameGroup(r, Joint(x, y))
  {
  }

  lemma JoinMakesNone(p: seq<HostRange>, x: HostRange, y: HostRange, q: seq<HostRange>)
    requires AllValid(p + [x, y] + q) && AllValid(p + [Joint(x, y)] + q)
    requires Sorted(p + [x, y] + q) && SameGroup(x, y) && Unifiable(x, y) && Le(x, y) && Sortable(p + [Joint(x, y)] + q)
    ensures Sortable(p + [x, y] + q)
  {
    hide Le, Clean, Sorted, SameGroup, Joint;
    var hr, after := p + [x, y] + q, p + [Joint(x, y)] + q;
    assert x in hr && y in hr;
    forall r, t | r in hr && t in hr && SameGroup(r, t) && Le(r, t)
      ensures Clean(r, t)
    {
      if r in p || r in q {
        if t in p || t in q {
          assert r in after && t in after;
        } else {
          BehindJoint(p, x, y, q, r, t);
        }
      } else if t in p || t in q {
        BeforeJoint(p, x, y, q, r, t);
      } else {
        TwoOfJoint(x, y, r, t);
      }
    }
  }

  lemma TwoOfJoint(x: HostRange, y: HostRange, r: HostRange, t: HostRange)
    requires SameGroup(x, y) && Unifiable(x, y) && r in [x, y] && t in [x, y] && r.Valid()
    ensures Clean(r, t)
  {
    hide Unifiable;
    UnifiableFlip(x, y);
    OneWidthUnifies(r, r);
  }

  lemma BehindJoint(p: seq<HostRange>, x: HostRange, y: HostRange, q: seq<HostRange>, r: HostRange, t: HostRange)
    requires Sorted(p + [x, y] + q) && AllValid(p + [Joint(x, y)] + q) && Sortable(p + [Joint(x, y)] + q)
    requires SameGroup(x, y) && Unifiable(x, y) && Le(x, y)
    requires (r in p || r in q) && t in [x, y] && SameGroup(r, t) && Le(r, t)
    ensures r.Valid() && Clean(r, t)
  {
    hide Le, Clean, Sorted, Unifiable;
    var after := p + [Joint(x, y)] + q;
    Around(p, x, y, q, r);
    assert r in after && Joint(x, y) in after;
    if r in p {
      EndFree(x, Joint(x, y), r);
      CleanBefore(r, x, y);
    } else {
      SameKeySameWidth(r, t);
      CleanIfUnifiable(r, t);
    }
  }

  lemma BeforeJoint(p: seq<HostRange>, x: HostRange, y: HostRange, q: seq<HostRange>, r: HostRange, t: HostRange)
    requires Sorted(p + [x, y] + q) && AllValid(p + [Joint(x, y)] + q) && Sortable(p + [Joint(x, y)] + q)
    requires x.Valid() && y.Valid() && SameGroup(x, y) && Unifiable(x, y) && Le(x, y)
    requires (t in p || t in q) && r in [x, y] && SameGroup(r, t) && Le(r, t)
    ensures Clean(r, t)
  {
    hide Le, Clean, Sorted, Unifiable;
    var after := p + [Joint(x, y)] + q;
    Around(p, x, y, q, t);
    assert t in after && Joint(x, y) in after;
    if t in q {
      EndFree(x, Joint(x, y), t);
      JointClean(x, y, t);
    } else {
      SameKeySameWidth(r, t);
      CleanIfUnifiable(r, t);
    }
  }

  /** So two neighbours that join leave the list sortable if and only if it was. */
  lemma JoinInOrder(hr: seq<HostRange>, i: nat, z: HostRange)
    requires AllValid(hr) && Sorted(hr) && 0 < i < |hr| && Joins(hr[i - 1], hr[i]) && Le(hr[i - 1], hr[i])
    requires z.Valid() && z.Canon() == Joint(hr[i - 1], hr[i]).Canon()
    ensures var hr' := hr[..i - 1] + [z] + hr[i + 1..];
      AllValid(hr') && (Sortable(hr) <==> Sortable(hr'))
  {
    hide Sorted, Sortable, HostRange.Canon, Joint, Unifiable;
    var p, q, x, y := hr[..i - 1], hr[i + 1..], hr[i - 1], hr[i];
    var joint := p + [Joint(x, y)] + q;
    assert hr == p + [x, y] + q;
    JointValid(x, y);
    assert CanonAll(joint) == CanonAll(p + [z] + q);
    SortableBySeq(joint, p + [z] + q);
    if x.single {
      SingleJoint(p, x, y, q);
    } else {
      if Sortable(hr) { JoinKeepsSortable(p, x, y, q); }
      if Sortable(joint) { JoinMakesNone(p, x, y, q); }
    }
  }

  lemma JointValid(x: HostRange, y: HostRange)
    requires x.Valid() && y.Valid() && OneGroup(x, y)
    ensures Joint(x, y).Valid() && OneGroup(x, Joint(x, y)) && (x.single ==> Joint(x, y) == x == y)
  {
  }

  lemma SingleJoint(p: seq<HostRange>, x: HostRange, y: HostRange, q: seq<HostRange>)
    requires AllValid(p + [x, y] + q) && x.single && OneGroup(x, y) && Joint(x, y) == x == y
    ensures AllValid(p + [x] + q) && (Sortable(p + [x, y] + q) <==> Sortable(p + [Joint(x, y)] + q))
  {
    hide HostRange.Canon, Sortable;
    var two, one := p + [x, y] + q, p + [x] + q;
    forall i | 0 <= i < |one|
      ensures one[i].Valid()
    {
      assert one[i] == two[if i <= |p| then i else i + 1];
    }
    forall r | r in one
      ensures exists r' :: r' in two && r'.Canon() == r.Canon()
    {
      assert r in two;
    }
    forall r | r in two
      ensures exists r' :: r' in one && r'.Canon() == r.Canon()
    {
      assert r in one;
    }
    if Sortable(two) { SortableByCanon(two, one); }
    if Sortable(one) { SortableByCanon(one, two); }
  }

  // ---- How blocks grow

  lemma JoinsByCanon(b: HostRange, h: HostRange, b': HostRange, e: HostRange)
    requires b.Canon() == b'.Canon() && h.Canon() == e.Canon()
    ensures Joins(b, h) == Joins(b', e)
  {
    hide HostRange.Canon, Unifiable;
    CanonParts(b, b');
    CanonParts(h, e);
    if OneGroup(b, h) && !b.single {
      UnifiableByCanon(b, h, b', e);
    }
  }

  /** Where the second range ends does not matter. */
  lemma JoinsStart(b: HostRange, h: HostRange, e: HostRange)
    requires h.(hi := e.hi).Canon() == e.Canon()
    ensures Joins(b, h) == Joins(b, e)
  {
    hide HostRange.Canon, Unifiable;
    var x := h.(hi := e.hi);
    JoinsByCanon(b, x, b, e);
    EndFree(h, x, b);
  }

  lemma BlockOne(e: HostRange, y: HostRange)
    requires e.Valid() && y.Valid() && y.Canon() == e.Canon()
    ensures IsBlock(y, [e])
  {
    hide HostRange.Canon, Unifiable, HostRange.Hosts, NameSet, Expand;
    CanonParts(y, e);
    y.CanonHosts(e);
    ExpandOne(e);
    if !e.single {
      OneWidthUnifies(e, e);
      UnifiableByCanon(e, e, y, e);
    }
  }

  lemma BlockByCanon(b: HostRange, b': HostRange, es: seq<HostRange>)
    requires IsBlock(b, es) && b'.Valid() && b'.Canon() == b.Canon()
    ensures IsBlock(b', es)
  {
    hide HostRange.Canon, Unifiable, HostRange.Hosts, NameSet, Expand;
    CanonParts(b', b);
    b'.CanonHosts(b);
    CanonShorter(b', b, es[0].hi);
    forall e | e in es
      ensures !e.single ==> Unifiable(b', e)
    {
      if !e.single {
        UnifiableByCanon(b, e, b', e);
      }
    }
  }

  lemma CanonShorter(x: HostRange, b: HostRange, k: int)
    requires x.Canon() == b.Canon()
    ensures x.(hi := k).Canon() == b.(hi := k).Canon()
  {
    assert x.Canon().width == b.Canon().width && x.Canon().lo == b.Canon().lo;
    assert x.Canon().prefix == b.Canon().prefix && x.Canon().single == b.Canon().single;
  }

  lemma BlockGrows(b: HostRange, es: seq<HostRange>, h: HostRange, e: HostRange, z: HostRange)
    requires IsBlock(b, es) && e.Valid() && h.Valid() && h.Canon() == e.Canon() && Joins(b, h)
    requires z.Valid() && z.(hi := b.hi).Canon() == b.Canon() && z.hi == Joint(b, h).hi
    requires NameSet(z.Hosts()) == NameSet(b.Hosts()) + NameSet(h.Hosts())
    ensures IsBlock(z, es + [e])
  {
    hide HostRange.Canon, Unifiable, HostRange.Hosts, NameSet, Expand, Joint;
    var x := z.(hi := b.hi);
    CanonParts(x, b);
    CanonParts(h, e);
    CanonShorter(x, b, es[0].hi);
    h.CanonHosts(e);
    ExpandSnoc(es, e);
    NameSetConcat(Expand(es), e.Hosts());
    JointEnd(b, h);
    JoinsByCanon(b, h, b, e);
    forall f | f in es + [e]
      ensures OneGroup(z, f) && f.hi <= z.hi && (!f.single ==> Unifiable(z, f))
    {
      if !f.single {
        UnifiableByCanon(b, f, x, f);
        EndFree(z, x, f);
      }
    }
  }

  lemma JointEnd(b: HostRange, h: HostRange)
    ensures b.hi <= Joint(b, h).hi && h.hi <= Joint(b, h).hi
  {
  }

  lemma NameSetConcat(a: seq<string>, b: seq<string>)
    ensures NameSet(a + b) == NameSet(a) + NameSet(b)
  {
  }

  /** Blocks that did not join are in order and do not overlap. */
  lemma BlocksScanned(hr: seq<HostRange>, parts: seq<seq<HostRange>>)
    requires Blocks(hr, parts) && Parted(hr, parts) && Sorted(hr)
    ensures ScannedFrom(hr, 0)
  {
    hide HostRange.Canon, Unifiable, HostRange.Hosts, NameSet, Expand, Le;
    forall j | 0 <= j < |hr| - 1
      ensures Le(hr[j], hr[j + 1]) && Clear(hr[j], hr[j + 1])
    {
      SortedAt(hr, j);
      JoinsStart(hr[j], hr[j + 1], parts[j + 1][0]);
    }
  }

  // ---- Separability asks only which ranges there are

  lemma SeparableByCanon(a: seq<HostRange>, b: seq<HostRange>)
    requires AllValid(a) && AllValid(b) && Separable(a)
    requires forall r :: r in b ==> exists r' :: r' in a && r'.Canon() == r.Canon()
    ensures Separable(b)
  {
    hide HostRange.Canon, Le, Unifiable, HostRange.Hosts;
    forall r, s | r in b && s in b && !OneGroup(r, s)
      ensures !ShareName(r, s)
    {
      var r' :| r' in a && r'.Canon() == r.Canon();
      var s' :| s' in a && s'.Canon() == s.Canon();
      ShareByCanon(r, s, r', s');
    }
    forall r, t, s | r in b && t in b && s in b && SameGroup(r, t) && SameGroup(t, s) && Le(r, t) && Le(t, s)
      && ShareName(r, s)
      ensures Unifiable(r, t)
    {
      var r' :| r' in a && r'.Canon() == r.Canon();
      var t' :| t' in a && t'.Canon() == t.Canon();
      var s' :| s' in a && s'.Canon() == s.Canon();
      ShareByCanon(r, s, r', s');
      UnifiableByCanon(r, t, r', t');
      UnifiableByCanon(t, s, t', s');
      LeSame(r, t, r', t');
      LeSame(t, s, t', s');
    }
  }

  lemma ShareByCanon(r: HostRange, s: HostRange, r': HostRange, s': HostRange)
    requires r.Valid() && s.Valid() && r'.Valid() && s'.Valid() && r.Canon() == r'.Canon() && s.Canon() == s'.Canon()
    ensures ShareName(r, s) == ShareName(r', s') && OneGroup(r, s) == OneGroup(r', s')
  {
    hide HostRange.Canon, HostRange.Hosts;
    r.CanonHosts(r');
    s.CanonHosts(s');
    CanonParts(r, r');
    CanonParts(s, s');
  }

  lemma SeparableByMultiset(a: seq<HostRange>, b: seq<HostRange>)
    requires AllValid(a) && AllValid(b) && multiset(CanonAll(a)) == multiset(CanonAll(b))
    ensures Separable(a) == Separable(b)
  {
    hide HostRange.Canon, Separable, HostRange.Valid;
    CanonPartners(a, b);
    CanonPartners(b, a);
    if Separable(a) { SeparableByCanon(a, b); }
    if Separable(b) { SeparableByCanon(b, a); }
  }
}
