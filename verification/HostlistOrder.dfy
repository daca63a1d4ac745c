/** Which lists hostlist_sort puts in order and hostlist_uniq makes distinct, in
    terms of what a user writes. */
module HostlistOrder {
  import opened Decimal
  import opened HostRanges
  import opened Expansion
  import opened RangeOrder
  import opened HostOrder
  import opened Joining
  import opened HostlistSort
  import opened Sequences

  // ---- Names tell hosts apart

  predicate EndsInDigit(s: string) {
    s != [] && IsDigit(s[|s| - 1])
  }

  /** Where the digits at the end of `s`, which is `p + d`, begin. */
  lemma PrefixNotShorter(s: string, p: string, d: string, q: string, e: string)
    requires !EndsInDigit(q) && AllDigits(d)
    requires s == p + d && s == q + e
    ensures |q| <= |p|
  {
    assert q != [] ==> s[|q| - 1] == q[|q| - 1];
    assert forall k :: |p| <= k < |s| ==> IsDigit(s[k]);
  }

  lemma PrefixUnique(p: string, d: string, q: string, e: string)
    requires !EndsInDigit(p) && !EndsInDigit(q) && AllDigits(d) && AllDigits(e)
    requires p + d == q + e
    ensures p == q && d == e
  {
    PrefixNotShorter(p + d, p, d, q, e);
    PrefixNotShorter(p + d, q, e, p, d);
    assert p == (p + d)[..|p|] && q == (q + e)[..|q|];
    assert d == (p + d)[|p|..] && e == (q + e)[|q|..];
  }

  predicate NoDigitPrefix(hr: seq<HostRange>) {
    forall i :: 0 <= i < |hr| ==> !EndsInDigit(hr[i].prefix)
  }

  lemma NameParts(r: HostRange, n: string) returns (d: string)
    requires r.Valid() && n in r.Hosts()
    ensures AllDigits(d) && n == r.prefix + d && (r.single <==> d == "")
  {
    hide Padded;
    if r.single {
      d := "";
      assert n == r.Name(0) == r.prefix + d;
    } else {
      var k := HostNumber(r, n);
      d := Padded(k, r.width);
    }
  }

  /** Groups whose prefixes end in no digit have no names in common. */
  lemma GroupsApart(r: HostRange, s: HostRange)
    requires r.Valid() && s.Valid() && !EndsInDigit(r.prefix) && !EndsInDigit(s.prefix) && !OneGroup(r, s)
    ensures !ShareName(r, s)
  {
    hide HostRange.Hosts, EndsInDigit;
    if ShareName(r, s) {
      var n :| n in r.Hosts() && n in s.Hosts();
      var d := NameParts(r, n);
      var e := NameParts(s, n);
      PrefixUnique(r.prefix, d, s.prefix, e);
    }
  }

  /** One width per prefix, and numbers of a prefix less than 2^31 apart. */
  predicate OneWidth(hr: seq<HostRange>) {
    && AllValid(hr)
    && (forall i :: 0 <= i < |hr| ==> hr[i].width < 0x8000_0000)
    && (forall i, j :: 0 <= i < |hr| && 0 <= j < |hr| && SameGroup(hr[i], hr[j]) ==>
          hr[i].width == hr[j].width && hr[i].hi - hr[j].lo < 0x8000_0000)
  }

  function LowestOf(hr: seq<HostRange>, prefix: string): nat
    decreases |hr|
  {
    if hr == [] then 0 else
      var n, r := LowestOf(hr[..|hr| - 1], prefix), hr[|hr| - 1];
      if r.prefix == prefix && !r.single && (NoneOf(hr[..|hr| - 1], prefix) || r.lo < n) then r.lo else n
  }

  predicate NoneOf(hr: seq<HostRange>, prefix: string) {
    forall i :: 0 <= i < |hr| ==> hr[i].prefix != prefix || hr[i].single
  }

  lemma {:induction false} LowestIsLowest(hr: seq<HostRange>, prefix: string, i: nat)
    requires i < |hr| && hr[i].prefix == prefix && !hr[i].single
    ensures LowestOf(hr, prefix) <= hr[i].lo
    ensures exists j :: 0 <= j < |hr| && hr[j].prefix == prefix && !hr[j].single && hr[j].lo == LowestOf(hr, prefix)
  {
    var p, n := hr[..|hr| - 1], |hr| - 1;
    assert i < n ==> p[i] == hr[i];
    if NoneOf(p, prefix) {
      assert hr[n].lo == LowestOf(hr, prefix);
    } else {
      var k :| 0 <= k < |p| && p[k].prefix == prefix && !p[k].single;
      LowestIsLowest(p, prefix, k);
      var j :| 0 <= j < |p| && p[j].prefix == prefix && !p[j].single && p[j].lo == LowestOf(p, prefix);
      if i < n {
        LowestIsLowest(p, prefix, i);
      }
      assert hr[j].lo == LowestOf(p, prefix);
      if LowestOf(hr, prefix) != LowestOf(p, prefix) {
        assert hr[n].lo == LowestOf(hr, prefix);
      }
    }
  }

  /** Lists that a user would call uniform: hostlist_sort puts them in order. */
  lemma OneWidthIsSortable(hr: seq<HostRange>)
    requires OneWidth(hr)
    ensures AllClose(hr, p => LowestOf(hr, p)) && Sortable(hr)
  {
    var base := p => LowestOf(hr, p);
    forall i | 0 <= i < |hr|
      ensures Close(hr[i], base)
    {
      if !hr[i].single {
        var p := hr[i].prefix;
        LowestIsLowest(hr, p, i);
        var j :| 0 <= j < |hr| && hr[j].prefix == p && !hr[j].single && hr[j].lo == LowestOf(hr, p);
        assert SameGroup(hr[i], hr[j]);
      }
    }
    hide LowestOf, Le, Unifiable;
    forall r, t | r in hr && t in hr && SameGroup(r, t) && Le(r, t)
      ensures Clean(r, t)
    {
      OneWidthUnifies(r, t);
    }
  }

  /** If moreover no prefix ends in a digit, hostlist_uniq makes them distinct. */
  lemma OneWidthIsSeparable(hr: seq<HostRange>)
    requires OneWidth(hr) && NoDigitPrefix(hr)
    ensures Separable(hr)
  {
    hide Le, Unifiable, ShareName, EndsInDigit;
    forall r, s | r in hr && s in hr && !OneGroup(r, s)
      ensures !ShareName(r, s)
    {
      GroupsApart(r, s);
    }
    forall r, t, s | r in hr && t in hr && s in hr && SameGroup(r, t)
      ensures Unifiable(r, t)
    {
      OneWidthUnifies(r, t);
    }
  }

  // ---- Strictly sorted hosts

  lemma InOrderBothWays(a: Parts, b: Parts)
    requires InOrder(a, b) && InOrder(b, a)
    ensures a == b
  {
    hide LexBefore, StrCmp;
    StrCmpIsLex(a.prefix, b.prefix);
    StrCmpIsLex(b.prefix, a.prefix);
    StrCmpFlip(a.prefix, b.prefix);
    StrCmpEqual(a.prefix, b.prefix);
    StrCmpIsLex(a.number, b.number);
    StrCmpIsLex(b.number, a.number);
    StrCmpFlip(a.number, b.number);
  }

  /** Hosts that are in order and have different names are strictly so. */
  lemma SortedAndDistinct(hr: seq<HostRange>, i: nat, j: nat)
    requires AllValid(hr) && HostsSorted(hr) && Distinct(Expand(hr)) && i < j < |AllParts(hr)|
    ensures InOrder(AllParts(hr)[i], AllParts(hr)[j]) && !InOrder(AllParts(hr)[j], AllParts(hr)[i])
  {
    hide InOrder, AllParts, Expand;
    PartsMakeNames(hr);
    var a, b := AllParts(hr)[i], AllParts(hr)[j];
    assert Expand(hr)[i] != Expand(hr)[j];
    if InOrder(b, a) {
      InOrderBothWays(a, b);
    }
  }

  // ---- Lists of which the one or the other does not hold

  /** Prefixes that end in a digit can hide the same name twice: host `n` of
      prefix "f" at width two and host `n` of prefix "f0" at width one are both
      "f0n". */
  lemma DigitPrefixHides(p: string, n: nat)
    requires n < 10
    ensures var x, y := HostRange(p, n, n, 2, false), HostRange(p + "0", n, n, 1, false);
      AllValid([x, y]) && !Separable([x, y])
  {
    ShortPadded(n);
    Hides(HostRange(p, n, n, 2, false), HostRange(p + "0", n, n, 1, false));
  }

  lemma Hides(x: HostRange, y: HostRange)
    requires x.Valid() && y.Valid() && !x.single && !y.single && x.lo == y.lo && y.prefix == x.prefix + "0"
    requires Padded(x.lo, x.width) == "0" + Padded(y.lo, y.width)
    ensures AllValid([x, y]) && !Separable([x, y])
  {
    hide Padded, Separable;
    var n := x.Name(x.lo);
    Assoc(x.prefix, "0", Padded(y.lo, y.width));
    assert |y.prefix| == |x.prefix| + 1;
    assert n == x.prefix + Padded(x.lo, x.width) == y.prefix + Padded(y.lo, y.width) == y.Name(y.lo);
    assert x.Hosts()[0] == n && y.Hosts()[0] == y.Name(y.lo);
    NotSeparable(x, y, n);
  }

  lemma NotSeparable(x: HostRange, y: HostRange, n: string)
    requires x.Valid() && y.Valid() && n in x.Hosts() && n in y.Hosts()
    requires OneGroup(x, y) ==> !x.single && Le(x, y) && !Unifiable(x, y)
    ensures AllValid([x, y]) && !Separable([x, y])
  {
    hide HostRange.Hosts, KeyCmp, Unifiable;
    assert ShareName(x, y) && x in [x, y] && y in [x, y];
    LeItself(y);
    if OneGroup(x, y) {
      assert SameGroup(x, y) && SameGroup(y, y);
    }
  }

  lemma ShortPadded(n: nat)
    requires n < 10
    ensures Padded(n, 2) == "0" + Padded(n, 1)
  {
    assert Zeros(1) == "0" && Padded(n, 1) == Numeral(n);
  }

  /** With mixed widths a name can stay twice: "f[9-10],f[01-10]" has two ranges
      that hold "f10" and do not join. */
  lemma MixedWidthsKeepDuplicates(p: string)
    ensures var x, y := HostRange(p, 9, 10, 1, false), HostRange(p, 1, 10, 2, false);
      AllValid([x, y]) && !Separable([x, y])
  {
    OneDigit(9);
    OneDigit(1);
    TwoDigits(10);
    BothHold(HostRange(p, 9, 10, 1, false), HostRange(p, 1, 10, 2, false), 10);
  }

  lemma BothHold(x: HostRange, y: HostRange, k: nat)
    requires x.Valid() && y.Valid() && SameGroup(x, y) && x.width == 1 && y.width == 2
    requires DigitCount(x.lo) == DigitCount(y.lo) == 1 && DigitCount(k) == 2 && x.lo <= k <= x.hi && y.lo <= k <= y.hi
    ensures AllValid([x, y]) && !Separable([x, y])
  {
    PaddedSame(k, 1, 2);
    hide KeyCmp, Unifiable, HostRange.Length, Padded, Separable;
    LengthOf(x);
    LengthOf(y);
    GroupOrder(x, y);
    assert x.Hosts()[k - x.lo] == x.Name(k) == y.Name(k) == y.Hosts()[k - y.lo];
    NotSeparable(x, y, x.Name(k));
  }
}
