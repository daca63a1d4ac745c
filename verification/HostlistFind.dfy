/** Looking up and deleting hosts by name in src/common/hostlist.c. */
module HostlistFind {
  import opened Decimal
  import opened Widths
  import opened HostRanges
  import opened Expansion
  import opened Hostlist
  import opened Options
  import opened HostlistOrder
  import opened Joining

  const MAX_HOST_SUFFIX := 0x200_0000

  /** A host name cut before its trailing number; without one, or with one too
      large to be used, the prefix is the whole name. */
  datatype Hostname = Hostname(hostname: string, prefix: string, num: nat, suffix: Option<string>)
  {
    predicate Valid() {
      suffix.Some? ==>
        && hostname == prefix + suffix.value
        && suffix.value != [] && AllDigits(suffix.value)
        && num == Value(suffix.value) <= MAX_HOST_SUFFIX
    }
  }

  /** host_prefix_end: the index of the last character that is no digit. */
  method HostPrefixEnd(hostname: string) returns (idx: int)
    ensures idx == |Stem(hostname)| - 1
  {
    idx := |hostname| - 1;
    assert hostname[..idx + 1] == hostname;
    while idx >= 0 && IsDigit(hostname[idx])
      invariant -1 <= idx < |hostname|
      invariant Stem(hostname) == Stem(hostname[..idx + 1])
    {
      assert hostname[..idx + 1][..idx] == hostname[..idx];
      idx := idx - 1;
    }
  }

  /** The name without its trailing digits. */
  function Stem(s: string): (p: string)
    ensures |p| <= |s| && p == s[..|p|] && AllDigits(s[|p|..]) && !EndsInDigit(p)
  {
    if !EndsInDigit(s) then s else
      var p := Stem(s[..|s| - 1]);
      assert forall i :: |p| <= i < |s| ==> IsDigit(s[i]) by {
        assert forall i :: |p| <= i < |s| - 1 ==> s[i] == s[..|s| - 1][|p|..][i - |p|];
      }
      p
  }

  /** Whether the trailing number of a name is small enough to be used. */
  predicate ShortNumber(name: string) {
    Value(name[|Stem(name)|..]) <= MAX_HOST_SUFFIX
  }

  /** hostname_create_with_suffix */
  function CreateWithSuffix(hostname: string, idx: int): (hn: Hostname)
    requires -1 <= idx < |hostname| && AllDigits(hostname[idx + 1..])
    ensures hn.Valid() && hn.hostname == hostname
    ensures hn.suffix.Some? <==> idx + 1 < |hostname| && Value(hostname[idx + 1..]) <= MAX_HOST_SUFFIX
    ensures hn.suffix.Some? ==> hn.prefix == hostname[..idx + 1]
  {
    if idx == |hostname| - 1 then Hostname(hostname, hostname, 0, None)
    else if Value(hostname[idx + 1..]) <= MAX_HOST_SUFFIX then
      assert hostname == hostname[..idx + 1] + hostname[idx + 1..];
      Hostname(hostname, hostname[..idx + 1], Value(hostname[idx + 1..]), Some(hostname[idx + 1..]))
    else Hostname(hostname, hostname, Value(hostname[idx + 1..]), None)
  }

  /** hostname_create */
  method HostnameCreate(hostname: string) returns (hn: Hostname)
    ensures hn.Valid() && hn.hostname == hostname
    ensures hn.suffix.Some? <==> EndsInDigit(hostname) && ShortNumber(hostname)
    ensures hn.suffix.Some? ==> !EndsInDigit(hn.prefix)
  {
    var idx := HostPrefixEnd(hostname);
    hn := CreateWithSuffix(hostname, idx);
  }

  lemma {:induction false} ValueTail(s: string)
    requires AllDigits(s) && s != []
    ensures AllDigits(s[1..]) && Value(s[1..]) <= Value(s)
  {
    if |s| > 1 {
      var t := s[..|s| - 1];
      ValueTail(t);
      assert s[1..][..|s| - 2] == t[1..];
    }
  }

  /** A number printed at length `v` is one that width `w` prints, exactly if
      the widths can be unified with any lower number's. */
  lemma WidthMatches(lo: nat, w: nat, num: nat, v: nat)
    requires lo <= num && DigitCount(num) <= v
    ensures Unify(lo, w, num, v).Unified? <==> PrintedLength(num, w) == v
  {
    DigitCountMonotone(lo, num);
  }

  /** `off` is where `name` stands in the range, or -1. */
  predicate IsOffset(hr: HostRange, name: string, off: int)
    requires hr.Valid()
  {
    if off == -1 then name !in hr.Hosts() else 0 <= off < hr.Count() && hr.Hosts()[off] == name
  }

  /** If the range holds the host, its prefix goes on where that of the host
      name ends, with digits of the host's number. */
  lemma HolderShape(hr: HostRange, hn: Hostname, k: nat)
    requires hr.Valid() && !hr.single && hr.lo <= k <= hr.hi && hn.Valid() && hn.suffix.Some?
    requires !EndsInDigit(hn.prefix) || hn.prefix <= hr.prefix
    requires hr.Name(k) == hn.hostname
    ensures |hn.prefix| <= |hr.prefix| && hn.prefix <= hr.prefix
    ensures |hn.prefix| == |hr.prefix| ==> hn.num == k && |hn.suffix.value| == PrintedLength(k, hr.width)
    ensures |hn.prefix| < |hr.prefix| ==>
      && |hn.suffix.value| > 1 && IsDigit(hr.prefix[|hr.prefix| - 1])
      && hr.prefix[|hn.prefix|] == hn.suffix.value[0]
  {
    var s, d, e := hn.hostname, Padded(k, hr.width), hn.suffix.value;
    if !EndsInDigit(hn.prefix) {
      PrefixNotShorter(s, hr.prefix, d, hn.prefix, e);
    }
    assert hn.prefix == s[..|hn.prefix|] && hr.prefix == s[..|hr.prefix|];
    if |hn.prefix| == |hr.prefix| {
      assert d == s[|hr.prefix|..] && e == s[|hn.prefix|..];
      ValuePadded(k, hr.width);
    } else {
      assert s[|hn.prefix|] == e[0];
      assert s[|hr.prefix| - 1] == e[|hr.prefix| - 1 - |hn.prefix|];
    }
  }

  lemma InRange(hr: HostRange, name: string)
    requires hr.Valid() && !hr.single && name in hr.Hosts()
    ensures exists k: nat {:trigger hr.Name(k)} :: hr.lo <= k <= hr.hi && hr.Name(k) == name
  {
    var i :| 0 <= i < hr.Count() && hr.Hosts()[i] == name;
    assert hr.Name(hr.lo + i) == name;
  }

  /** hostrange_hn_within: every host of the range is found, and no other; only
      a number too large for a host name hides the host from ranges. */
  method HnWithin(hr: HostRange, hn: Hostname) returns (off: int, hr': HostRange)
    requires hr.Valid() && hn.Valid()
    requires hn.suffix.Some? ==> !EndsInDigit(hn.prefix) || hn.prefix <= hr.prefix
    ensures hr'.Valid() && hr'.Canon() == hr.Canon()
    ensures hr.single || hn.suffix.Some? ==> IsOffset(hr, hn.hostname, off)
    ensures !hr.single && hn.suffix.None? ==> off == -1
    decreases if hn.suffix.Some? then |hn.suffix.value| else 0
  {
    hr' := hr;
    if hr.single {
      assert hr.Hosts()[0] == hr.Name(0);
      return if hn.hostname == hr.prefix then 0 else -1, hr;
    }
    if hn.suffix.None? {
      return -1, hr;
    }
    var suffix, lenHn, lenHr := hn.suffix.value, |hn.prefix|, |hr.prefix|;
    ShapeOf(hr, hn);
    if !(hn.prefix <= hr.prefix) {
      return -1, hr;
    }
    if lenHn < lenHr && |suffix| > 1 && IsDigit(hr.prefix[lenHr - 1]) && hr.prefix[lenHn] == suffix[0] {
      NextHostname(hr, hn);
      var h := CreateWithSuffix(hn.hostname, lenHn);
      off, hr' := HnWithin(hr, h);
      return;
    }
    if lenHr == lenHn && hn.num <= hr.hi && hn.num >= hr.lo {
      off, hr' := Matched(hr, hn);
      return;
    }
    off := -1;
  }

  /** What a range that holds the host looks like, as one fact. */
  lemma ShapeOf(hr: HostRange, hn: Hostname)
    requires hr.Valid() && !hr.single && hn.Valid() && hn.suffix.Some?
    requires !EndsInDigit(hn.prefix) || hn.prefix <= hr.prefix
    ensures hn.hostname in hr.Hosts() ==>
      && |hn.prefix| <= |hr.prefix| && hn.prefix <= hr.prefix
      && (|hn.prefix| == |hr.prefix| ==> hr.lo <= hn.num <= hr.hi)
      && (|hn.prefix| < |hr.prefix| ==>
            && |hn.suffix.value| > 1 && IsDigit(hr.prefix[|hr.prefix| - 1])
            && hr.prefix[|hn.prefix|] == hn.suffix.value[0])
  {
    if hn.hostname in hr.Hosts() {
      InRange(hr, hn.hostname);
      var k: nat :| hr.lo <= k <= hr.hi && hr.Name(k) == hn.hostname;
      HolderShape(hr, hn, k);
    }
  }

  lemma NextHostname(hr: HostRange, hn: Hostname)
    requires hn.Valid() && hn.suffix.Some? && hn.prefix <= hr.prefix
    requires |hn.prefix| < |hr.prefix| && |hn.suffix.value| > 1 && hr.prefix[|hn.prefix|] == hn.suffix.value[0]
    ensures var n := |hn.prefix|;
      && n < |hn.hostname| && AllDigits(hn.hostname[n + 1..])
      && var h := CreateWithSuffix(hn.hostname, n);
        h.suffix.Some? && h.prefix <= hr.prefix && |h.suffix.value| < |hn.suffix.value|
  {
    var n, s := |hn.prefix|, hn.hostname;
    assert s[n + 1..] == hn.suffix.value[1..];
    ValueTail(hn.suffix.value);
    assert s[..n + 1] == hr.prefix[..n + 1];
  }

  /** The last check of hostrange_hn_within. */
  method Matched(hr: HostRange, hn: Hostname) returns (off: int, hr': HostRange)
    requires hr.Valid() && !hr.single && hn.Valid() && hn.suffix.Some?
    requires hn.prefix == hr.prefix && hr.lo <= hn.num <= hr.hi
    ensures hr'.Valid() && hr'.Canon() == hr.Canon()
    ensures IsOffset(hr, hn.hostname, off)
  {
    hide Unify, DigitCount, HostRange.Canon;
    var width := |hn.suffix.value|;
    var equiv, w, v := WidthEquiv(hr.lo, hr.width, hn.num, width);
    ValueFits(hn.suffix.value);
    PaddedValue(hn.suffix.value);
    WidthMatches(hr.lo, hr.width, hn.num, width);
    PaddedSame(hn.num, hr.width, width);
    hr' := hr.(width := w);
    if equiv {
      UnifyKeepsPrinting(hr.lo, hr.width, hn.num, width, hr.lo);
    }
    CanonKept(hr, w);
    assert hr.Hosts()[hn.num - hr.lo] == hr.Name(hn.num);
    if !equiv {
      ShapeOfEqual(hr, hn);
      return -1, hr';
    }
    off := hn.num - hr.lo;
  }

  lemma ShapeOfEqual(hr: HostRange, hn: Hostname)
    requires hr.Valid() && !hr.single && hn.Valid() && hn.suffix.Some? && hn.prefix == hr.prefix
    requires |hn.suffix.value| != PrintedLength(hn.num, hr.width)
    ensures hn.hostname !in hr.Hosts()
  {
    if hn.hostname in hr.Hosts() {
      InRange(hr, hn.hostname);
      var k: nat :| hr.lo <= k <= hr.hi && hr.Name(k) == hn.hostname;
      HolderShape(hr, hn, k);
      assert false;
    }
  }

  // ---- hostlist_find

  /** `r` is the first position of `x` in `s`, or -1. */
  predicate IsFirst<T(==)>(s: seq<T>, x: T, r: int) {
    if r == -1 then x !in s else 0 <= r < |s| && s[r] == x && x !in s[..r]
  }

  lemma FirstUnique<T>(s: seq<T>, x: T, r: int, q: int)
    requires IsFirst(s, x, r) && IsFirst(s, x, q)
    ensures r == q
  {
    if r >= 0 && q >= 0 {
      InPrefix(s, r);
      InPrefix(s, q);
    }
  }

  lemma InPrefix<T>(s: seq<T>, r: nat)
    requires r < |s|
    ensures forall q :: r < q <= |s| ==> s[r] in s[..q]
  {
    forall q | r < q <= |s|
      ensures s[r] in s[..q]
    {
      assert s[..q][r] == s[r];
    }
  }

  /** A search for a name sees a host of that name if the number of the name is
      small enough, or the host is a range of its own. */
  predicate Sees(c: Cell, name: string) {
    c.name == name && (c.whole || ShortNumber(name))
  }

  /** `r` is the first position at which the name is seen, or -1. */
  predicate IsSeen(s: seq<Cell>, name: string, r: int) {
    if r == -1 then forall i :: 0 <= i < |s| ==> !Sees(s[i], name)
    else 0 <= r < |s| && Sees(s[r], name) && forall i :: 0 <= i < r ==> !Sees(s[i], name)
  }

  /** What one range answers, in terms of what is seen of it. */
  lemma OffsetSeen(r: HostRange, hn: Hostname, off: int)
    requires r.Valid() && hn.Valid()
    requires hn.suffix.Some? <==> EndsInDigit(hn.hostname) && ShortNumber(hn.hostname)
    requires r.single || hn.suffix.Some? ==> IsOffset(r, hn.hostname, off)
    requires !r.single && hn.suffix.None? ==> off == -1
    ensures IsSeen(CellsOf(r), hn.hostname, off)
  {
    var name, cells := hn.hostname, CellsOf(r);
    CellHosts(r);
    if r.single || hn.suffix.Some? {
      hide ShortNumber, HostRange.Name;
      forall i | 0 <= i < (if off == -1 then |cells| else off)
        ensures cells[i].name != name
      {
        if off >= 0 {
          OtherName(r, i, off);
        }
      }
    } else {
      forall i | 0 <= i < r.Count()
        ensures !Sees(cells[i], name)
      {
        NameEndsInDigit(r, r.lo + i);
      }
    }
  }

  lemma CellHosts(r: HostRange)
    requires r.Valid()
    ensures forall i :: 0 <= i < r.Count() ==> CellsOf(r)[i].name == r.Hosts()[i] && CellsOf(r)[i].whole == r.single
  {
  }

  lemma NameEndsInDigit(r: HostRange, k: nat)
    requires !r.single
    ensures EndsInDigit(r.Name(k))
  {
    var d := Padded(k, r.width);
    assert (r.prefix + d)[|r.prefix + d| - 1] == d[|d| - 1];
  }

  lemma OtherName(r: HostRange, i: nat, j: nat)
    requires r.Valid() && i < j < r.Count()
    ensures r.Hosts()[i] != r.Hosts()[j]
  {
    hide HostRange.Hosts;
    HostsDistinct(r);
  }

  lemma SeenConcat(a: seq<Cell>, b: seq<Cell>, name: string, off: int)
    requires IsSeen(a, name, -1) && IsSeen(b, name, off)
    ensures IsSeen(a + b, name, if off == -1 then -1 else |a| + off)
  {
    hide Sees;
  }

  lemma SeenInPrefix(a: seq<Cell>, s: seq<Cell>, name: string, r: nat)
    requires a <= s && IsSeen(a, name, r)
    ensures IsSeen(s, name, r)
  {
    hide Sees;
  }

  /** hostlist_find: the first position at which the host is seen. */
  method Find(hl: Hostlist, hostname: string) returns (ret: int)
    requires hl.Valid()
    modifies hl`hr
    ensures hl.Valid() && CanonAll(hl.hr) == CanonAll(old(hl.hr))
    ensures hl.Names() == old(hl.Names()) && Cells(hl.hr) == old(Cells(hl.hr))
    ensures IsSeen(Cells(hl.hr), hostname, ret)
    ensures ShortNumber(hostname) ==> IsFirst(hl.Names(), hostname, ret)
  {
    hide HostRange.Canon, HostRange.Valid, Expand, ShortNumber, CanonAll, IsOffset, IsFirst, HostRange.Hosts,
      HostRange.Count, Cells, CellsOf, IsSeen;
    ghost var was := hl.hr;
    var hn := HostnameCreate(hostname);
    var i, count := 0, 0;
    NothingSeen(hl.hr, hostname);
    while i < |hl.hr|
      invariant 0 <= i <= |hl.hr| && AllValid(hl.hr) && CanonAll(hl.hr) == CanonAll(was)
      invariant count == |Cells(hl.hr[..i])| && IsSeen(Cells(hl.hr[..i]), hostname, -1)
    {
      var off, h := HnWithin(hl.hr[i], hn);
      OffsetSeen(hl.hr[i], hn, off);
      RewriteOne(hl.hr, i, h);
      hl.hr := hl.hr[i := h];
      Seen(hl.hr, i, hostname, off);
      if off >= 0 {
        FindResult(hl.hr, was, hostname, count + off);
        return count + off;
      }
      count := count + hl.hr[i].Count();
      i := i + 1;
    }
    assert hl.hr[..i] == hl.hr;
    FindResult(hl.hr, was, hostname, -1);
    ret := -1;
  }

  lemma NothingSeen(hr: seq<HostRange>, name: string)
    requires AllValid(hr)
    ensures |Cells(hr[..0])| == 0 && IsSeen(Cells(hr[..0]), name, -1)
  {
    assert hr[..0] == [];
  }

  /** One more range has been looked at. */
  lemma Seen(hr: seq<HostRange>, i: nat, name: string, off: int)
    requires AllValid(hr) && i < |hr| && IsSeen(Cells(hr[..i]), name, -1) && IsSeen(CellsOf(hr[i]), name, off)
    ensures |Cells(hr[..i + 1])| == |Cells(hr[..i])| + hr[i].Count()
    ensures if off >= 0 then IsSeen(Cells(hr), name, |Cells(hr[..i])| + off)
      else off == -1 && IsSeen(Cells(hr[..i + 1]), name, -1)
  {
    hide HostRange.Valid, CellsOf, Cells, Sees;
    CellsSnoc(hr[..i], hr[i]);
    assert hr[..i + 1] == hr[..i] + [hr[i]];
    SeenConcat(Cells(hr[..i]), CellsOf(hr[i]), name, off);
    if off >= 0 {
      CellsConcat(hr[..i + 1], hr[i + 1..]);
      assert hr == hr[..i + 1] + hr[i + 1..];
      SeenInPrefix(Cells(hr[..i + 1]), Cells(hr), name, |Cells(hr[..i])| + off);
    }
  }

  lemma RewriteOne(hr: seq<HostRange>, i: nat, h: HostRange)
    requires AllValid(hr) && i < |hr| && h.Valid() && h.Canon() == hr[i].Canon()
    ensures AllValid(hr[i := h]) && CanonAll(hr[i := h]) == CanonAll(hr)
    ensures hr[i := h][..i] == hr[..i] && CellsOf(h) == CellsOf(hr[i])
  {
    hide HostRange.Canon;
    assert CanonAll(hr[i := h]) == CanonAll(hr);
    CellsCanon(h, hr[i]);
  }

  lemma FindResult(hr: seq<HostRange>, was: seq<HostRange>, hostname: string, ret: int)
    requires AllValid(hr) && AllValid(was) && CanonAll(hr) == CanonAll(was) && IsSeen(Cells(hr), hostname, ret)
    ensures Expand(hr) == Expand(was) && Cells(hr) == Cells(was)
    ensures ShortNumber(hostname) ==> IsFirst(Expand(hr), hostname, ret)
  {
    hide CanonAll, ShortNumber, Expand, Cells;
    ExpandByCanon(hr, was);
    CellsByCanon(hr, was);
    FindsFirst(hr, hostname, ret);
  }

  predicate FirstWhole(s: seq<Cell>, name: string, p: nat)
    requires p < |s|
  {
    s[p].name == name && s[p].whole && name !in NamesIn(s[..p])
  }

  /** The first host of that name is a range of its own. */
  predicate FirstIsWhole(hr: seq<HostRange>, name: string)
    requires AllValid(hr)
  {
    exists p :: 0 <= p < |Cells(hr)| && FirstWhole(Cells(hr), name, p)
  }

  /** What hostlist_find answers is the first position of the host, or rightly -1,
      if and only if its number is at most 2^25, or the host is not there, or it
      first stands there as a range of its own: larger numbers hide in ranges. */
  lemma FindsFirst(hr: seq<HostRange>, name: string, ret: int)
    requires AllValid(hr) && IsSeen(Cells(hr), name, ret)
    ensures IsFirst(Expand(hr), name, ret) <==> ShortNumber(name) || name !in Expand(hr) || FirstIsWhole(hr, name)
  {
    hide ShortNumber, Expand, Cells;
    var s := Cells(hr);
    CellNames(hr);
    NamesOfPrefix(s, ret);
    if FirstIsWhole(hr, name) {
      var p :| 0 <= p < |s| && FirstWhole(s, name, p);
      SeenAt(s, name, p, ret);
    } else if ShortNumber(name) || name !in Expand(hr) {
      FirstSeen(s, name, ret);
    } else {
      assert ret >= 0 ==> !FirstWhole(s, name, ret);
    }
  }

  /** And they do hide: a range of one host with a larger number is searched in
      vain for that host. */
  lemma LargeNumberHides(p: string, d: string)
    requires !EndsInDigit(p) && AllDigits(d) && d != "" && MAX_HOST_SUFFIX < Value(d) < ULONG_MAX
    ensures var r, name := HostRange(p, Value(d), Value(d), |d|, false), p + d;
      && AllValid([r]) && Expand([r]) == [name]
      && IsSeen(Cells([r]), name, -1) && !IsFirst(Expand([r]), name, -1)
  {
    hide Value, Padded, Stem, Expand, Cells;
    var r, name := HostRange(p, Value(d), Value(d), |d|, false), p + d;
    PaddedValue(d);
    StemOf(p, d);
    assert name[|p|..] == d;
    ExpandOne(r);
    assert r.Hosts()[0] == r.Name(r.lo) == name;
    CellsOne(r);
    assert CellsOf(r)[0].name == name && !CellsOf(r)[0].whole;
  }

  lemma StemOf(p: string, d: string)
    requires !EndsInDigit(p) && AllDigits(d)
    ensures Stem(p + d) == p
  {
    var s := p + d;
    var q := Stem(s);
    assert s == q + s[|q|..];
    PrefixUnique(p, d, q, s[|q|..]);
  }

  /** For example f[33554433], asked for f33554433. */
  lemma FindMisses()
    ensures var r, name := HostRange("f", 33554433, 33554433, 8, false), "f33554433";
      AllValid([r]) && Expand([r]) == [name] && IsSeen(Cells([r]), name, -1)
  {
    hide Value, Expand, Cells, IsSeen;
    EightDigits();
    assert "f" + "33554433" == "f33554433";
    LargeNumberHides("f", "33554433");
  }

  lemma EightDigits()
    ensures AllDigits("33554433") && Value("33554433") == 33554433
  {
    hide Value;
    NoValue();
    ValueNext("", '3');
    ValueNext("" + ['3'], '3');
    ValueNext("" + ['3'] + ['3'], '5');
    ValueNext("" + ['3'] + ['3'] + ['5'], '5');
    var s := "" + ['3'] + ['3'] + ['5'] + ['5'];
    ValueNext(s, '4');
    ValueNext(s + ['4'], '4');
    ValueNext(s + ['4'] + ['4'], '3');
    ValueNext(s + ['4'] + ['4'] + ['3'], '3');
    assert s + ['4'] + ['4'] + ['3'] + ['3'] == "33554433";
  }

  lemma NoValue()
    ensures Value("") == 0
  {
  }

  lemma ValueNext(s: string, c: char)
    requires AllDigits(s) && IsDigit(c)
    ensures AllDigits(s + [c]) && Value(s + [c]) == Value(s) * 10 + (c as int - '0' as int)
  {
    assert (s + [c])[..|s|] == s;
  }

  lemma FirstSeen(s: seq<Cell>, name: string, ret: int)
    requires IsSeen(s, name, ret) && (ShortNumber(name) || name !in NamesIn(s))
    ensures IsFirst(NamesIn(s), name, ret)
  {
    hide ShortNumber;
    NamesOfPrefix(s, ret);
    var names := NamesIn(s);
    if ret == -1 {
      forall i | 0 <= i < |names|
        ensures names[i] != name
      {
        assert !Sees(s[i], name);
      }
    } else {
      assert names[ret] == name;
      forall i | 0 <= i < ret
        ensures names[..ret][i] != name
      {
        assert !Sees(s[i], name);
      }
    }
  }

  lemma NamesOfPrefix(s: seq<Cell>, n: int)
    ensures 0 <= n <= |s| ==> NamesIn(s)[..n] == NamesIn(s[..n])
    ensures forall i :: 0 <= i < |s| ==> NamesIn(s)[i] == s[i].name
  {
  }

  lemma SeenAt(s: seq<Cell>, name: string, p: nat, ret: int)
    requires p < |s| && FirstWhole(s, name, p) && IsSeen(s, name, ret)
    ensures ret == p
  {
    hide ShortNumber;
    assert Sees(s[p], name);
    forall i | 0 <= i < p
      ensures s[i].name != name
    {
      assert NamesIn(s[..p])[i] == s[i].name;
    }
  }

  // ---- Pushing and deleting by name

  /** The range that stands for one host. */
  function RangeOf(hn: Hostname): HostRange {
    if hn.suffix.Some? then HostRange(hn.prefix, hn.num, hn.num, |hn.suffix.value|, false)
    else HostRange(hn.hostname, 0, 0, 0, true)
  }

  lemma RangeOfHosts(hn: Hostname)
    requires hn.Valid()
    ensures RangeOf(hn).Valid() && RangeOf(hn).Hosts() == [hn.hostname]
  {
    var r := RangeOf(hn);
    if hn.suffix.Some? {
      PaddedValue(hn.suffix.value);
    }
    assert r.Name(r.lo) == hn.hostname;
  }

  /** hostlist_push_host: whatever the name looks like, it is what is pushed. */
  method PushHost(hl: Hostlist, str: string)
    requires hl.Valid()
    modifies hl`hr, hl`nhosts
    ensures hl.Valid() && hl.Names() == old(hl.Names()) + [str]
    ensures hl.hr != [] && var last := hl.hr[|hl.hr| - 1];
      (last.single <==> !(EndsInDigit(str) && ShortNumber(str))) && (!last.single ==> !EndsInDigit(last.prefix))
  {
    hide Expand;
    var hn := HostnameCreate(str);
    var r := RangeOf(hn);
    RangeOfHosts(hn);
    var n := hl.PushRange(r);
  }

  /** The sequence without the first occurrence of `x`, if there is one. */
  function WithoutFirst<T(==)>(s: seq<T>, x: T): seq<T> {
    if s == [] then [] else if s[0] == x then s[1..] else [s[0]] + WithoutFirst(s[1..], x)
  }

  lemma {:induction false} WithoutFirstAt<T>(s: seq<T>, x: T, r: int)
    requires IsFirst(s, x, r)
    ensures WithoutFirst(s, x) == if r == -1 then s else s[..r] + s[r + 1..]
  {
    if s != [] && r != 0 {
      var t := s[1..];
      if r == -1 {
        WithoutFirstAt(t, x, -1);
      } else {
        assert s[..r] == [s[0]] + t[..r - 1];
        WithoutFirstAt(t, x, r - 1);
      }
    }
  }

  /** The hosts without the first one that a search for the name sees. */
  function WithoutSeen(s: seq<Cell>, name: string): seq<Cell> {
    if s == [] then [] else if Sees(s[0], name) then s[1..] else [s[0]] + WithoutSeen(s[1..], name)
  }

  lemma {:induction false} WithoutSeenAt(s: seq<Cell>, name: string, r: int)
    requires IsSeen(s, name, r)
    ensures WithoutSeen(s, name) == if r == -1 then s else s[..r] + s[r + 1..]
  {
    hide Sees;
    if s != [] && r != 0 {
      var t := s[1..];
      if r == -1 {
        WithoutSeenAt(t, name, -1);
      } else {
        assert s[..r] == [s[0]] + t[..r - 1];
        WithoutSeenAt(t, name, r - 1);
      }
    }
  }

  /** hostlist_delete_host: the first occurrence that is seen goes. */
  method DeleteHostName(hl: Hostlist, hostname: string) returns (n: nat)
    requires hl.Valid()
    modifies hl`hr, hl`nhosts, hl`ilist
    ensures hl.Valid()
    ensures n == |old(hl.Names())| - |hl.Names()| <= 1
    ensures Cells(hl.hr) == WithoutSeen(old(Cells(hl.hr)), hostname)
    ensures ShortNumber(hostname) ==> hl.Names() == WithoutFirst(old(hl.Names()), hostname)
  {
    hide Expand, ShortNumber, CanonAll, HostRange.Valid, WithoutFirst, AllValid, Cells, WithoutSeen, IsSeen, IsFirst;
    ghost var was, cells := hl.Names(), Cells(hl.hr);
    var at := Find(hl, hostname);
    WithoutSeenAt(cells, hostname, at);
    AtMost(cells, hostname, at);
    CellNames(hl.hr);
    if at >= 0 {
      hl.DeleteNth(at);
      n := 1;
    } else {
      n := 0;
    }
    if ShortNumber(hostname) {
      WithoutFirstAt(was, hostname, at);
    }
  }

  lemma AtMost(s: seq<Cell>, name: string, r: int)
    requires IsSeen(s, name, r)
    ensures -1 <= r < |s|
  {
  }

  /** hostlist_delete from the list of the names to delete on: they are taken
      from its end, and the first occurrence of each that is seen goes. */
  method DeleteAll(hl: Hostlist, tmp: Hostlist) returns (n: nat)
    requires hl.Valid() && tmp.Valid() && hl != tmp
    modifies hl`hr, hl`nhosts, hl`ilist, tmp`hr, tmp`nhosts
    ensures hl.Valid() && n == |old(hl.Names())| - |hl.Names()|
    ensures Cells(hl.hr) == MinusSeen(old(Cells(hl.hr)), multiset(old(tmp.Names())))
  {
    hide Expand, ShortNumber, WithoutSeen, MinusSeen, Cells;
    ghost var was, cells, names := hl.Names(), Cells(hl.hr), tmp.Names();
    ghost var k := |names|;
    n := 0;
    assert names[..k] == names;
    while true
      invariant hl.Valid() && tmp.Valid() && n == |was| - |hl.Names()|
      invariant 0 <= k <= |names| && tmp.Names() == names[..k]
      invariant MinusSeen(Cells(hl.hr), multiset(names[..k])) == MinusSeen(cells, multiset(names))
      decreases k
    {
      var hostname := tmp.Pop();
      if hostname.None? {
        break;
      }
      k := k - 1;
      ghost var s := Cells(hl.hr);
      var m := DeleteHostName(hl, hostname.value);
      n := n + m;
      assert names[..k + 1] == names[..k] + [names[k]];
      MinusSeenOne(s, hostname.value, multiset(names[..k]));
    }
    MinusSeenNothing(Cells(hl.hr));
  }

  /** The hosts from which, for each name, as many of its first occurrences that
      are seen are left out as `m` has of it. */
  function MinusSeen(s: seq<Cell>, m: multiset<string>): seq<Cell> {
    if s == [] then []
    else if Sees(s[0], s[0].name) && s[0].name in m then MinusSeen(s[1..], m - multiset{s[0].name})
    else [s[0]] + MinusSeen(s[1..], m)
  }

  lemma {:induction false} MinusSeenNothing(s: seq<Cell>)
    ensures MinusSeen(s, multiset{}) == s
  {
    hide Sees;
    if s != [] {
      MinusSeenNothing(s[1..]);
    }
  }

  /** Taking a host off first makes no difference. */
  lemma {:induction false} MinusSeenOne(s: seq<Cell>, x: string, m: multiset<string>)
    ensures MinusSeen(WithoutSeen(s, x), m) == MinusSeen(s, m + multiset{x})
  {
    hide ShortNumber;
    if s != [] {
      var c, t := s[0], s[1..];
      var y := c.name;
      if Sees(c, x) {
        assert m + multiset{x} - multiset{x} == m;
      } else {
        assert ([c] + WithoutSeen(t, x))[1..] == WithoutSeen(t, x);
        if Sees(c, y) {
          assert y in m ==> m - multiset{y} + multiset{x} == m + multiset{x} - multiset{y};
          MinusSeenOne(t, x, if y in m then m - multiset{y} else m);
        } else {
          MinusSeenOne(t, x, m);
        }
      }
    }
  }

  /** Two deletions are one of both lists. */
  lemma {:induction false} MinusSeenTwice(s: seq<Cell>, a: multiset<string>, b: multiset<string>)
    ensures MinusSeen(MinusSeen(s, a), b) == MinusSeen(s, a + b)
  {
    hide Sees;
    if s != [] {
      var c, t := s[0], s[1..];
      var x := c.name;
      if Sees(c, x) && x in a {
        assert a - multiset{x} + b == a + b - multiset{x};
        MinusSeenTwice(t, a - multiset{x}, b);
      } else {
        assert MinusSeen(s, a)[0] == c && MinusSeen(s, a)[1..] == MinusSeen(t, a);
        if Sees(c, x) && x in b {
          assert a + (b - multiset{x}) == a + b - multiset{x};
          MinusSeenTwice(t, a, b - multiset{x});
        } else {
          MinusSeenTwice(t, a, b);
        }
      }
    }
  }

  /** The hosts that a search for their name sees. */
  function SeenNames(s: seq<Cell>): multiset<string> {
    if s == [] then multiset{}
    else SeenNames(s[1..]) + (if Sees(s[0], s[0].name) then multiset{s[0].name} else multiset{})
  }

  /** Deletion subtracts from the number of occurrences those to be deleted, as
      far as they are seen. */
  lemma {:induction false} MinusSeenCounts(s: seq<Cell>, m: multiset<string>)
    ensures multiset(NamesIn(MinusSeen(s, m))) == multiset(NamesIn(s)) - (SeenNames(s) * m)
    ensures SeenNames(s) <= multiset(NamesIn(s))
  {
    hide Sees, NamesIn;
    if s == [] {
      NoNames();
    } else {
      var c, t := s[0], s[1..];
      var x := c.name;
      assert s == [c] + t;
      NamesCons(c, t);
      if Sees(c, x) && x in m {
        MinusSeenCounts(t, m - multiset{x});
        OneGone(multiset(NamesIn(t)), SeenNames(t), m, x);
      } else {
        MinusSeenCounts(t, m);
        NamesCons(c, MinusSeen(t, m));
        OneKept(multiset(NamesIn(t)), SeenNames(t), m, x);
      }
    }
  }

  lemma NoNames()
    ensures NamesIn([]) == []
  {
  }

  lemma NamesCons(c: Cell, t: seq<Cell>)
    ensures NamesIn([c] + t) == [c.name] + NamesIn(t)
    ensures multiset(NamesIn([c] + t)) == multiset(NamesIn(t)) + multiset{c.name}
  {
    assert NamesIn([c] + t) == [c.name] + NamesIn(t);
  }

  lemma OneGone<T>(n: multiset<T>, s: multiset<T>, m: multiset<T>, x: T)
    requires x in m && s <= n
    ensures (n + multiset{x}) - ((s + multiset{x}) * m) == n - (s * (m - multiset{x}))
    ensures s + multiset{x} <= n + multiset{x}
  {
  }

  lemma OneKept<T>(n: multiset<T>, s: multiset<T>, m: multiset<T>, x: T)
    requires s <= n
    ensures (n + multiset{x}) - (s * m) == (n - (s * m)) + multiset{x}
    ensures x !in m ==> (s + multiset{x}) * m == s * m
    ensures s <= n + multiset{x} && s + multiset{x} <= n + multiset{x}
  {
  }

  /** What stays, stays in order. */
  lemma {:induction false} MinusSeenKeepsOrder(s: seq<Cell>, m: multiset<string>) returns (pick: seq<nat>)
    ensures Picks(MinusSeen(s, m), s, pick)
  {
    hide Sees;
    if s == [] {
      pick := [];
    } else {
      var x := s[0].name;
      var gone := Sees(s[0], x) && x in m;
      var rest := MinusSeenKeepsOrder(s[1..], if gone then m - multiset{x} else m);
      var up := seq(|rest|, i requires 0 <= i < |rest| => rest[i] + 1);
      pick := if gone then up else [0] + up;
    }
  }

  /** With small numbers only, the names alone count. */
  lemma {:induction false} MinusShort(s: seq<Cell>, m: multiset<string>)
    requires forall x :: x in m ==> ShortNumber(x)
    ensures NamesIn(MinusSeen(s, m)) == Minus(NamesIn(s), m)
  {
    hide ShortNumber;
    if s != [] {
      var c, t := s[0], s[1..];
      assert s == [c] + t;
      NamesCons(c, t);
      MinusShort(t, if c.name in m then m - multiset{c.name} else m);
      NamesCons(c, MinusSeen(t, m));
      assert ([c.name] + NamesIn(t))[1..] == NamesIn(t);
    }
  }

  /** The sequence from which, for each element, as many of its first
      occurrences are left out as `m` has of it. */
  function Minus<T(==)>(s: seq<T>, m: multiset<T>): seq<T> {
    if s == [] then []
    else if s[0] in m then Minus(s[1..], m - multiset{s[0]})
    else [s[0]] + Minus(s[1..], m)
  }

  /** Deletion is subtraction of the numbers of occurrences. */
  lemma {:induction false} MinusCounts<T>(s: seq<T>, m: multiset<T>)
    ensures multiset(Minus(s, m)) == multiset(s) - m
  {
    if s != [] {
      var y, t := s[0], s[1..];
      assert s == [y] + t;
      MinusCounts(t, if y in m then m - multiset{y} else m);
    }
  }

  /** `pick` names positions of `s` in increasing order, and `r` has the
      elements there. */
  predicate Picks<T(==)>(r: seq<T>, s: seq<T>, pick: seq<nat>) {
    && |pick| == |r|
    && (forall i :: 0 <= i < |r| ==> pick[i] < |s| && r[i] == s[pick[i]])
    && (forall i, j :: 0 <= i < j < |r| ==> pick[i] < pick[j])
  }

}
