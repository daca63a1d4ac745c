/** A range of host names with one prefix: the hostrange objects of
    src/common/hostlist.c and the order in which they are sorted. */
module HostRanges {
  import opened Decimal
  import opened Widths

  const ULONG_MAX := 0xFFFF_FFFF_FFFF_FFFF

  datatype HostRange = HostRange(prefix: string, lo: nat, hi: int, width: nat, single: bool)
  {
    /** A range that stands for at least one host. */
    predicate Valid() {
      && (single ==> lo == 0 && hi == 0 && width == 0)
      && lo <= hi < ULONG_MAX
    }

    /** hostrange_count */
    function Count(): int {
      if single then 1 else hi - lo + 1
    }

    /** hostrange_empty: below zero `hi` wraps to the largest number. */
    predicate Empty() {
      hi < lo || hi == -1
    }

    function Name(k: nat): string {
      if single then prefix else prefix + Padded(k, width)
    }

    /** The name as an iterator gives it: its number cut to 14 characters. */
    function Shown(k: nat): string {
      if single then prefix else
        var d := Padded(k, width);
        prefix + (if |d| > 14 then d[..14] else d)
    }

    /** The hosts of the range, in order. */
    function Hosts(): (s: seq<string>)
      requires Valid()
      ensures |s| == Count()
    {
      seq(Count(), i requires 0 <= i < Count() => Name(lo + i))
    }

    /** How long the lowest number prints. */
    function Length(): nat {
      if single then 0 else PrintedLength(lo, width)
    }

    /** The same range with the width its lowest number prints at: two ranges
        that differ only in how their width is recorded have the same. */
    function Canon(): HostRange {
      this.(width := Length())
    }

    lemma CanonName(r: HostRange, k: nat)
      requires Canon() == r.Canon() && lo <= k
      ensures Name(k) == r.Name(k) && Shown(k) == r.Shown(k)
    {
      if !single {
        PaddedSame(lo, width, r.width);
        SameWidthAbove(lo, k, width, r.width);
      }
    }

    /** An iterator gives the whole name if and only if its number prints in 14
        characters. */
    lemma ShownWhole(k: nat)
      ensures Shown(k) == Name(k) <==> single || PrintedLength(k, width) <= 14
    {
      assert |Name(k)| == |prefix| + if single then 0 else PrintedLength(k, width);
    }

    /** So rewriting widths within a class changes no name. */
    lemma CanonHosts(r: HostRange)
      requires Valid() && r.Valid() && Canon() == r.Canon()
      ensures Hosts() == r.Hosts()
    {
      forall i | 0 <= i < Count()
        ensures Hosts()[i] == r.Hosts()[i]
      {
        CanonName(r, lo + i);
      }
    }
  }

  // ---- Order of strings

  /** strcmp, for strings without NUL, by its sign. */
  function StrCmp(a: string, b: string): (c: int)
    ensures -1 <= c <= 1
  {
    if a == [] then (if b == [] then 0 else -1)
    else if b == [] then 1
    else if a[0] < b[0] then -1
    else if a[0] > b[0] then 1
    else StrCmp(a[1..], b[1..])
  }

  /** At the first character at which two strings differ the one has the smaller
      one, or it has none there. */
  ghost predicate LexBefore(a: string, b: string) {
    exists k: nat :: DiffersAt(a, b, k)
  }

  predicate DiffersAt(a: string, b: string, k: nat) {
    k <= |a| && k < |b| && a[..k] == b[..k] && (k < |a| ==> a[k] < b[k])
  }

  lemma SameStart(a: string, b: string, k: nat)
    requires DiffersAt(a, b, k) && k > 0
    ensures a != [] && b != [] && a[0] == b[0]
  {
    assert a[..k][0] == b[..k][0];
  }

  lemma {:induction false} StrCmpIsLex(a: string, b: string)
    ensures StrCmp(a, b) < 0 <==> LexBefore(a, b)
  {
    if a == [] || b == [] || a[0] != b[0] {
      if StrCmp(a, b) < 0 {
        assert DiffersAt(a, b, 0);
      } else if LexBefore(a, b) {
        var k: nat :| DiffersAt(a, b, k);
        if k > 0 { SameStart(a, b, k); }
      }
    } else {
      StrCmpIsLex(a[1..], b[1..]);
      if LexBefore(a, b) {
        var k: nat :| DiffersAt(a, b, k);
        assert a[1..][..k - 1] == a[..k][1..] && b[1..][..k - 1] == b[..k][1..];
        assert DiffersAt(a[1..], b[1..], k - 1);
      }
      if LexBefore(a[1..], b[1..]) {
        var k: nat :| DiffersAt(a[1..], b[1..], k);
        assert a[..k + 1] == [a[0]] + a[1..][..k] && b[..k + 1] == [b[0]] + b[1..][..k];
        assert DiffersAt(a, b, k + 1);
      }
    }
  }

  lemma {:induction false} StrCmpEqual(a: string, b: string)
    ensures StrCmp(a, b) == 0 <==> a == b
  {
    if a != [] && b != [] && a[0] == b[0] {
      StrCmpEqual(a[1..], b[1..]);
      assert a == [a[0]] + a[1..] && b == [b[0]] + b[1..];
    }
  }

  lemma {:induction false} StrCmpFlip(a: string, b: string)
    ensures StrCmp(a, b) == -StrCmp(b, a)
  {
    if a != [] && b != [] && a[0] == b[0] {
      StrCmpFlip(a[1..], b[1..]);
    }
  }

  lemma {:induction false} StrCmpTransitive(a: string, b: string, c: string)
    requires StrCmp(a, b) <= 0 && StrCmp(b, c) <= 0
    ensures StrCmp(a, c) <= 0
    ensures StrCmp(a, b) < 0 || StrCmp(b, c) < 0 ==> StrCmp(a, c) < 0
  {
    if a != [] && b != [] && c != [] && a[0] == b[0] == c[0] {
      StrCmpTransitive(a[1..], b[1..], c[1..]);
    }
  }

  // ---- The comparator

  function Sign(x: int): int {
    if x < 0 then -1 else if x > 0 then 1 else 0
  }

  /** hostrange_prefix_cmp */
  function PrefixCmp(h1: HostRange, h2: HostRange): int {
    var c := StrCmp(h1.prefix, h2.prefix);
    if c == 0 then (if h2.single then 1 else 0) - (if h1.single then 1 else 0) else c
  }

  /** What is left of an unsigned long when it becomes an int. */
  function ToInt(x: int): int {
    var r := x % 0x1_0000_0000;
    if r < 0x8000_0000 then r else r - 0x1_0000_0000
  }

  /** hostrange_cmp, by its value. */
  function CmpValue(h1: HostRange, h2: HostRange): int {
    if PrefixCmp(h1, h2) != 0 then PrefixCmp(h1, h2)
    else if Unify(h1.lo, h1.width, h2.lo, h2.width).Unified? then ToInt(h1.lo - h2.lo)
    else ToInt(h1.width - h2.width)
  }

  /** hostrange_width_combine, with the widths it writes back. */
  method WidthCombine(h0: HostRange, h1: HostRange) returns (ok: bool, h0': HostRange, h1': HostRange)
    ensures ok == Unify(h0.lo, h0.width, h1.lo, h1.width).Unified?
    ensures h0' == h0.(width := h0'.width) && h1' == h1.(width := h1'.width)
    ensures if ok then h0'.width == h1'.width else h0' == h0 && h1' == h1
    ensures h0'.width == h0.width || h0'.width == h1.width
    ensures h1'.width == h0.width || h1'.width == h1.width
    ensures Padded(h0.lo, h0'.width) == Padded(h0.lo, h0.width)
    ensures Padded(h1.lo, h1'.width) == Padded(h1.lo, h1.width)
  {
    var w0, w1;
    ok, w0, w1 := WidthEquiv(h0.lo, h0.width, h1.lo, h1.width);
    if ok {
      UnifyKeepsPrinting(h0.lo, h0.width, h1.lo, h1.width, h0.lo);
      UnifyKeepsPrinting(h0.lo, h0.width, h1.lo, h1.width, h1.lo);
    }
    h0', h1' := h0.(width := w0), h1.(width := w1);
  }

  lemma CanonKept(h: HostRange, w: nat)
    requires h.Valid() && Padded(h.lo, w) == Padded(h.lo, h.width) && (h.single ==> w == 0)
    ensures h.(width := w).Valid() && h.(width := w).Canon() == h.Canon()
  {
    PaddedSame(h.lo, w, h.width);
  }

  lemma CanonParts(r: HostRange, x: HostRange)
    requires r.Canon() == x.Canon()
    ensures r.prefix == x.prefix && r.lo == x.lo && r.hi == x.hi && r.single == x.single
    ensures r.Count() == x.Count() && r.Length() == x.Length()
  {
    assert r.Canon().prefix == x.Canon().prefix && r.Canon().lo == x.Canon().lo;
    assert r.Canon().hi == x.Canon().hi && r.Canon().single == x.Canon().single;
    assert r.Canon().width == x.Canon().width;
  }

  /** hostrange_cmp, with the widths it writes back. */
  method Cmp(h1: HostRange, h2: HostRange) returns (retval: int, h1': HostRange, h2': HostRange)
    requires h1.Valid() && h2.Valid()
    ensures retval == CmpValue(h1, h2)
    ensures h1'.Valid() && h1'.Canon() == h1.Canon()
    ensures h2'.Valid() && h2'.Canon() == h2.Canon()
    ensures h1'.width == h1.width || h1'.width == h2.width
    ensures h2'.width == h1.width || h2'.width == h2.width
  {
    h1', h2' := h1, h2;
    retval := PrefixCmp(h1, h2);
    if retval == 0 {
      hide Unify, DigitCount, StrCmp, ToInt, Padded, HostRange.Canon;
      var ok;
      ok, h1', h2' := WidthCombine(h1, h2);
      CanonKept(h1, h1'.width);
      CanonKept(h2, h2'.width);
      retval := if ok then ToInt(h1.lo - h2.lo) else ToInt(h1.width - h2.width);
    }
  }

  /** The order that is meant: by prefix, whole names before ranges, and then by
      the printed length and the value of the lowest number. */
  function KeyCmp(h1: HostRange, h2: HostRange): (c: int)
    ensures -1 <= c <= 1
  {
    if PrefixCmp(h1, h2) != 0 then PrefixCmp(h1, h2)
    else if h1.Length() != h2.Length() then Sign(h1.Length() - h2.Length())
    else Sign(h1.lo - h2.lo)
  }

  predicate Le(h1: HostRange, h2: HostRange) {
    KeyCmp(h1, h2) <= 0
  }

  lemma LeTotal(h1: HostRange, h2: HostRange)
    ensures Le(h1, h2) || Le(h2, h1)
    ensures KeyCmp(h1, h2) == -KeyCmp(h2, h1)
  {
    StrCmpFlip(h1.prefix, h2.prefix);
  }

  lemma LeTransitive(h1: HostRange, h2: HostRange, h3: HostRange)
    requires Le(h1, h2) && Le(h2, h3)
    ensures Le(h1, h3)
  {
    StrCmpTransitive(h1.prefix, h2.prefix, h3.prefix);
    StrCmpEqual(h1.prefix, h2.prefix);
    StrCmpEqual(h2.prefix, h3.prefix);
    StrCmpEqual(h1.prefix, h3.prefix);
  }

  /** Widths are only written back within a class, so the order does not change
      while a sort is under way. */
  lemma LeByCanon(h1: HostRange, h2: HostRange, r1: HostRange, r2: HostRange)
    requires h1.Canon() == r1.Canon() && h2.Canon() == r2.Canon()
    ensures KeyCmp(h1, h2) == KeyCmp(r1, r2)
  {
    assert h1.Length() == h1.Canon().width && h2.Length() == h2.Canon().width;
    assert r1.Length() == r1.Canon().width && r2.Length() == r2.Canon().width;
    assert h1.Canon().lo == r1.Canon().lo && h2.Canon().lo == r2.Canon().lo;
    assert h1.Canon().prefix == r1.Canon().prefix && h2.Canon().prefix == r2.Canon().prefix;
    assert h1.Canon().single == r1.Canon().single && h2.Canon().single == r2.Canon().single;
  }

  /** Between ranges that cannot share a width, the widths are ordered like the
      printed lengths. */
  lemma IncompatibleByWidth(h1: HostRange, h2: HostRange)
    requires !h1.single && !h2.single
    requires Unify(h1.lo, h1.width, h2.lo, h2.width).Incompatible?
    ensures Sign(h1.width - h2.width) == Sign(h1.Length() - h2.Length()) != 0
  {
    UnifyByLength(h1.lo, h1.width, h2.lo, h2.width);
  }

  /** Between ranges that can, a longer lowest number is a larger one. */
  lemma CompatibleByValue(h1: HostRange, h2: HostRange)
    requires !h1.single && !h2.single
    requires Unify(h1.lo, h1.width, h2.lo, h2.width).Unified?
    ensures h1.Length() < h2.Length() ==> h1.lo < h2.lo
    ensures h2.Length() < h1.Length() ==> h2.lo < h1.lo
  {
    UnifyByLength(h1.lo, h1.width, h2.lo, h2.width);
    DigitCountMonotone(h1.lo, if h2.lo < h1.lo then h1.lo else h2.lo);
    if h2.lo <= h1.lo { DigitCountMonotone(h2.lo, h1.lo); } else { DigitCountMonotone(h1.lo, h2.lo); }
  }

  /** hostrange_cmp is that order if and only if the difference that it returns
      keeps its sign as an int; differences below 2^31 do. */
  lemma CmpIsOrder(h1: HostRange, h2: HostRange)
    requires h1.Valid() && h2.Valid() && h1.width < 0x8000_0000 && h2.width < 0x8000_0000
    ensures Sign(CmpValue(h1, h2)) == KeyCmp(h1, h2) <==>
      PrefixCmp(h1, h2) == 0 && Unify(h1.lo, h1.width, h2.lo, h2.width).Unified? ==>
        Sign(ToInt(h1.lo - h2.lo)) == Sign(h1.lo - h2.lo)
    ensures -0x8000_0000 < h1.lo - h2.lo < 0x8000_0000 ==> Sign(CmpValue(h1, h2)) == KeyCmp(h1, h2)
  {
    hide ToInt, Unify, HostRange.Length, StrCmp;
    ToIntSmall(h1.width - h2.width);
    if -0x8000_0000 < h1.lo - h2.lo < 0x8000_0000 {
      ToIntSmall(h1.lo - h2.lo);
    }
    if PrefixCmp(h1, h2) == 0 {
      if h1.single {
        SinglesAlike(h1, h2);
      } else if Unify(h1.lo, h1.width, h2.lo, h2.width).Unified? {
        CompatibleByValue(h1, h2);
      } else {
        IncompatibleByWidth(h1, h2);
      }
    }
  }

  lemma ToIntSmall(x: int)
    requires -0x8000_0000 <= x < 0x8000_0000
    ensures ToInt(x) == x
  {
  }

  lemma SinglesAlike(h1: HostRange, h2: HostRange)
    requires h1.Valid() && h2.Valid() && PrefixCmp(h1, h2) == 0 && h1.single
    ensures h2.single && CmpValue(h1, h2) == KeyCmp(h1, h2) == 0
  {
  }

  /** Far apart it is not: 0 and 2^32 compare equal. */
  lemma CmpFarApart(prefix: string)
    ensures var h1, h2 := HostRange(prefix, 0, 0, 1, false), HostRange(prefix, 0x1_0000_0000, 0x1_0000_0000, 1, false);
      h1.Valid() && h2.Valid() && CmpValue(h1, h2) == 0 && KeyCmp(h1, h2) == -1
  {
    StrCmpEqual(prefix, prefix);
    hide DigitCount, StrCmp;
    DigitCountMonotone(10, 0x1_0000_0000);
    assert DigitCount(0) == 1 && DigitCount(10) == 2 by { SmallDigitCounts(); }
  }

  lemma SmallDigitCounts()
    ensures DigitCount(0) == 1 && DigitCount(10) == 2
  {
  }
}
