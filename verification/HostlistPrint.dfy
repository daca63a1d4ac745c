/** Writing a host list with brackets, and reading it back: the printer of
    src/common/hostlist.c, for a buffer that is large enough. */
module HostlistPrint {
  import opened Decimal
  import opened HostRanges
  import opened Expansion
  import opened Hostlist
  import opened HostlistFind
  import opened HostlistParse
  import opened Sequences

  /** hostrange_numstr */
  function NumStr(hr: HostRange): string
    requires hr.Valid()
  {
    if hr.single then ""
    else Padded(hr.lo, hr.width) + (if hr.lo < hr.hi then "-" + Padded(hr.hi, hr.width) else "")
  }

  /** hostrange_within_range */
  predicate WithinRange(h1: HostRange, h2: HostRange) {
    PrefixCmp(h1, h2) == 0 && !h1.single && !h2.single
  }

  /** _is_bracket_needed */
  predicate IsBracketNeeded(hr: seq<HostRange>, i: nat)
    requires i < |hr|
  {
    hr[i].Count() > 1 || (i + 1 < |hr| && WithinRange(hr[i], hr[i + 1]))
  }

  /** Where the ranges end that are written within one pair of brackets. */
  function GroupEnd(hr: seq<HostRange>, i: nat): (e: nat)
    requires i < |hr|
    ensures i < e <= |hr|
    decreases |hr| - i
  {
    if i + 1 < |hr| && WithinRange(hr[i + 1], hr[i]) then GroupEnd(hr, i + 1) else i + 1
  }

  function Commas(g: seq<HostRange>): string
    requires AllValid(g)
  {
    if g == [] then "" else if |g| == 1 then NumStr(g[0]) else NumStr(g[0]) + "," + Commas(g[1..])
  }

  /** The text for the ranges from `i` up to the end of their group. */
  function GroupText(hr: seq<HostRange>, i: nat): string
    requires AllValid(hr) && i < |hr|
  {
    if IsBracketNeeded(hr, i) then hr[i].prefix + "[" + Commas(hr[i..GroupEnd(hr, i)]) + "]"
    else hr[i].prefix + NumStr(hr[i])
  }

  /** _get_bracketed_list */
  method GetBracketedList(hl: Hostlist, start: nat) returns (buf: string, i: nat)
    requires AllValid(hl.hr) && start < |hl.hr|
    ensures i == GroupEnd(hl.hr, start) && buf == GroupText(hl.hr, start)
    ensures start < i <= |hl.hr| && buf == TextOf(hl.hr[start..i])
    ensures forall k :: start < k < i ==> !Cut(hl.hr[k - 1], hl.hr[k])
    ensures i < |hl.hr| ==> Cut(hl.hr[i - 1], hl.hr[i])
  {
    hide NumStr, PrefixCmp, HostRange.Valid, TextOf, Cut;
    var hr := hl.hr;
    i := start;
    var bracketNeeded := IsBracketNeeded(hr, i);
    buf := hr[i].prefix;
    if bracketNeeded {
      buf := buf + "[";
    }
    ghost var e, open := GroupEnd(hr, start), buf;
    var more := true;
    WithinFlips(hr, start);
    while more
      invariant start <= i <= e && (more <==> i < e) && (more ==> GroupEnd(hr, i) == e)
      invariant !bracketNeeded ==> e == start + 1 && buf == (if i == start then open else open + NumStr(hr[start]))
      invariant bracketNeeded ==>
        open + Commas(hr[start..e]) + "," == buf + (if more then Commas(hr[i..e]) + "," else "")
      decreases e - i
    {
      CommasNext(hr, i, e, buf);
      buf := buf + NumStr(hr[i]);
      if bracketNeeded {
        buf := buf + ",";
      }
      i := i + 1;
      more := i < |hr| && WithinRange(hr[i], hr[i - 1]);
    }
    if bracketNeeded {
      TrimComma(open + Commas(hr[start..e]), buf);
      buf := buf[..|buf| - 1] + "]";
    }
    GroupTextIs(hr, start);
    GroupIsParted(hr, start);
  }

  lemma WithinFlips(hr: seq<HostRange>, i: nat)
    requires i < |hr|
    ensures !IsBracketNeeded(hr, i) ==> GroupEnd(hr, i) == i + 1
  {
    if i + 1 < |hr| {
      StrCmpFlip(hr[i].prefix, hr[i + 1].prefix);
    }
  }

  lemma CommasNext(hr: seq<HostRange>, i: nat, e: nat, buf: string)
    requires AllValid(hr) && i < e <= |hr|
    ensures buf + (Commas(hr[i..e]) + ",")
      == buf + NumStr(hr[i]) + "," + (if i + 1 < e then Commas(hr[i + 1..e]) + "," else "")
  {
    hide NumStr, HostRange.Valid;
    var g := hr[i..e];
    if |g| > 1 {
      assert g[1..] == hr[i + 1..e];
      Regroup(buf, NumStr(g[0]), Commas(g[1..]));
    } else {
      Assoc(buf, NumStr(g[0]), ",");
      assert buf + NumStr(g[0]) + "," + "" == buf + NumStr(g[0]) + ",";
    }
  }

  lemma TrimComma(a: string, buf: string)
    requires a + "," == buf + ""
    ensures |buf| > 0 && buf[..|buf| - 1] == a
  {
    assert buf + "" == buf;
  }

  lemma Regroup(a: string, b: string, c: string)
    ensures a + ((b + "," + c) + ",") == a + b + "," + (c + ",")
  {
  }

  /** The text of the ranges, after what has been written before. */
  function Printed(hr: seq<HostRange>, before: string): string
    requires AllValid(hr)
    decreases |hr|
  {
    if hr == [] then before else
      var e, s := GroupEnd(hr, 0), before + GroupText(hr, 0);
      Printed(hr[e..], if s != "" && e < |hr| then s + "," else s)
  }

  /** hostlist_ranged_string */
  method RangedString(hl: Hostlist) returns (buf: string)
    requires AllValid(hl.hr)
    ensures buf == Printed(hl.hr, "") && IsRanged(hl.hr, buf)
  {
    var i := 0;
    buf := "";
    assert hl.hr[0..] == hl.hr;
    while i < |hl.hr|
      invariant i <= |hl.hr| && Printed(hl.hr, "") == Printed(hl.hr[i..], buf)
    {
      TailGroup(hl.hr, i);
      var s, e := GetBracketedList(hl, i);
      buf := buf + s;
      assert hl.hr[i..][e - i..] == hl.hr[e..];
      i := e;
      if buf != "" && i < |hl.hr| {
        buf := buf + ",";
      }
    }
    ghost var gs := PrintedIs(hl.hr, "");
    assert buf == WithCommas(NoEmptyFirst(TextsOf(gs)));
  }

  /** The groups of a tail of the list are those of the list. */
  lemma TailGroup(hr: seq<HostRange>, i: nat)
    requires AllValid(hr) && i < |hr|
    ensures GroupEnd(hr[i..], 0) == GroupEnd(hr, i) - i
    ensures GroupText(hr[i..], 0) == GroupText(hr, i)
  {
    hide NumStr, Commas, PrefixCmp, HostRange.Valid;
    TailEnd(hr, i, 0);
    var e := GroupEnd(hr, i);
    assert hr[i..][0..e - i] == hr[i..e];
  }

  lemma {:induction false} TailEnd(hr: seq<HostRange>, i: nat, k: nat)
    requires i + k < |hr|
    ensures GroupEnd(hr[i..], k) == GroupEnd(hr, i + k) - i
    decreases |hr| - k
  {
    if i + k + 1 < |hr| {
      TailEnd(hr, i, k + 1);
    }
  }

  // ---- The text, said of groups

  /** The texts with commas between them. */
  function WithCommas(parts: seq<string>): string {
    if parts == [] then "" else parts[0] + (if |parts| == 1 then "" else "," + WithCommas(parts[1..]))
  }

  /** Two neighbours that do not share a pair of brackets. */
  predicate Cut(a: HostRange, b: HostRange) {
    a.prefix != b.prefix || a.single || b.single
  }

  /** A list in groups, which end where neighbours are cut and nowhere else. */
  predicate Parting(hr: seq<HostRange>, gs: seq<seq<HostRange>>) {
    if gs == [] then hr == [] else
      var n := |gs[0]|;
      && 0 < n <= |hr| && gs[0] == hr[..n]
      && (forall k :: 0 < k < n ==> !Cut(hr[k - 1], hr[k])) && (n < |hr| ==> Cut(hr[n - 1], hr[n]))
      && Parting(hr[n..], gs[1..])
  }

  function NumbersText(r: HostRange): string
    requires r.Valid()
  {
    if r.lo == r.hi then Padded(r.lo, r.width) else Padded(r.lo, r.width) + "-" + Padded(r.hi, r.width)
  }

  function NumbersTexts(g: seq<HostRange>): (ts: seq<string>)
    requires AllValid(g)
    ensures |ts| == |g|
  {
    seq(|g|, k requires 0 <= k < |g| => NumbersText(g[k]))
  }

  /** A single host is its name; more hosts, or more ranges, are their numbers in
      brackets behind the prefix. */
  function TextOf(g: seq<HostRange>): string
    requires AllValid(g) && g != []
  {
    if |g| == 1 && g[0].Count() == 1 then g[0].Name(g[0].lo)
    else g[0].prefix + "[" + WithCommas(NumbersTexts(g)) + "]"
  }

  function TextsOf(gs: seq<seq<HostRange>>): seq<string>
    requires forall k :: 0 <= k < |gs| ==> AllValid(gs[k]) && gs[k] != []
  {
    if gs == [] then [] else [TextOf(gs[0])] + TextsOf(gs[1..])
  }

  /** Without the empty texts at the start, which only an empty name gives. */
  function NoEmptyFirst(ts: seq<string>): seq<string> {
    if ts == [] || ts[0] != "" then ts else NoEmptyFirst(ts[1..])
  }

  lemma {:induction false} PartingValid(hr: seq<HostRange>, gs: seq<seq<HostRange>>)
    requires AllValid(hr) && Parting(hr, gs)
    ensures forall k :: 0 <= k < |gs| ==> AllValid(gs[k]) && gs[k] != []
  {
    if gs != [] {
      PartingValid(hr[|gs[0]|..], gs[1..]);
      forall k | 0 <= k < |gs|
        ensures AllValid(gs[k]) && gs[k] != []
      {
        assert k > 0 ==> gs[k] == gs[1..][k - 1];
      }
    }
  }

  /** The text is that of the groups, with commas between them. */
  ghost predicate IsRanged(hr: seq<HostRange>, text: string)
    requires AllValid(hr)
  {
    exists gs :: Parting(hr, gs) && IsTextOf(gs, text)
  }

  ghost predicate IsTextOf(gs: seq<seq<HostRange>>, text: string) {
    && (forall k :: 0 <= k < |gs| ==> AllValid(gs[k]) && gs[k] != [])
    && text == WithCommas(NoEmptyFirst(TextsOf(gs)))
  }

  lemma {:induction false} GroupIsParted(hr: seq<HostRange>, i: nat)
    requires i < |hr|
    ensures var e := GroupEnd(hr, i);
      (forall k :: i < k < e ==> !Cut(hr[k - 1], hr[k])) && (e < |hr| ==> Cut(hr[e - 1], hr[e]))
    decreases |hr| - i
  {
    if i + 1 < |hr| {
      StrCmpEqual(hr[i + 1].prefix, hr[i].prefix);
      if WithinRange(hr[i + 1], hr[i]) {
        GroupIsParted(hr, i + 1);
      }
    }
  }

  lemma {:induction false} CommasAre(g: seq<HostRange>)
    requires AllValid(g) && forall k :: 0 <= k < |g| ==> !g[k].single
    ensures Commas(g) == WithCommas(NumbersTexts(g))
  {
    hide Padded;
    if g != [] {
      CommasAre(g[1..]);
      assert NumbersTexts(g)[1..] == NumbersTexts(g[1..]);
      NumStrIs(g[0]);
      assert |g| == 1 ==> NumStr(g[0]) + "" == NumStr(g[0]);
      assert |g| > 1 ==> NumStr(g[0]) + "," + Commas(g[1..]) == NumStr(g[0]) + ("," + Commas(g[1..]));
    }
  }

  lemma NumStrIs(r: HostRange)
    requires r.Valid() && !r.single
    ensures NumStr(r) == NumbersText(r)
  {
    assert Padded(r.lo, r.width) + "" == Padded(r.lo, r.width);
    assert Padded(r.lo, r.width) + ("-" + Padded(r.hi, r.width)) == Padded(r.lo, r.width) + "-" + Padded(r.hi, r.width);
  }

  lemma GroupTextIs(hr: seq<HostRange>, i: nat)
    requires AllValid(hr) && i < |hr|
    ensures GroupText(hr, i) == TextOf(hr[i..GroupEnd(hr, i)])
  {
    hide Padded, Commas, WithCommas, NumbersTexts, StrCmp;
    var e := GroupEnd(hr, i);
    var g := hr[i..e];
    GroupIsParted(hr, i);
    WithinFlips(hr, i);
    if i + 1 < |hr| {
      StrCmpEqual(hr[i].prefix, hr[i + 1].prefix);
    }
    if IsBracketNeeded(hr, i) {
      NoneSingle(hr, i, e);
      CommasAre(g);
    } else if hr[i].single {
      assert hr[i].prefix + "" == hr[i].prefix;
    } else {
      NumStrIs(hr[i]);
    }
  }

  lemma NoneSingle(hr: seq<HostRange>, i: nat, e: nat)
    requires i < e <= |hr| && !hr[i].single && forall k :: i < k < e ==> !Cut(hr[k - 1], hr[k])
    ensures forall k :: 0 <= k < e - i ==> !hr[i..e][k].single
  {
    forall k | 0 <= k < e - i
      ensures !hr[i..e][k].single
    {
      assert k > 0 ==> !Cut(hr[i + k - 1], hr[i + k]);
    }
  }

  lemma {:induction false} PrintedIs(hr: seq<HostRange>, before: string) returns (gs: seq<seq<HostRange>>)
    requires AllValid(hr)
    ensures Parting(hr, gs) && forall k :: 0 <= k < |gs| ==> AllValid(gs[k]) && gs[k] != []
    ensures Printed(hr, before) == before + WithCommas(if before == "" then NoEmptyFirst(TextsOf(gs)) else TextsOf(gs))
    decreases |hr|
  {
    hide GroupText, GroupEnd, TextOf, Cut, HostRange.Valid;
    if hr == [] {
      gs := [];
      assert before + "" == before;
    } else {
      var e := GroupEnd(hr, 0);
      var t := TextOf(hr[0..e]);
      GroupIsParted(hr, 0);
      GroupTextIs(hr, 0);
      var s := before + t;
      var rest := PrintedIs(hr[e..], if s != "" && e < |hr| then s + "," else s);
      gs := [hr[..e]] + rest;
      assert gs[1..] == rest && hr[..e] == hr[0..e];
      assert TextsOf(gs) == [t] + TextsOf(rest);
      PartingEnds(hr[e..], rest);
      PrintedStep(before, t, TextsOf(rest), e < |hr|);
    }
  }

  lemma PartingEnds(hr: seq<HostRange>, gs: seq<seq<HostRange>>)
    requires Parting(hr, gs) && forall k :: 0 <= k < |gs| ==> AllValid(gs[k]) && gs[k] != []
    ensures (hr == [] <==> gs == []) && (hr == [] <==> TextsOf(gs) == [])
  {
  }

  lemma PrintedStep(before: string, t: string, ts: seq<string>, more: bool)
    requires more <==> ts != []
    ensures var s := before + t;
      var b := if s != "" && more then s + "," else s;
      b + WithCommas(if b == "" then NoEmptyFirst(ts) else ts)
      == before + WithCommas(if before == "" then NoEmptyFirst([t] + ts) else [t] + ts)
  {
    assert ([t] + ts)[1..] == ts;
  }

  // ---- Reading back

  predicate PlainChars(s: string) {
    forall i :: 0 <= i < |s| ==> !IsSep(s[i]) && Nesting(s[i]) == 0
  }

  /** What the text of a range must be free of, and the limits of the parser. */
  predicate Printable(r: HostRange)
    requires r.Valid()
  {
    && PlainChars(r.prefix) && (r.single ==> r.prefix != "")
    && |r.Name(r.lo)| < TOKEN_SIZE
    && r.Count() <= MAX_RANGE
  }

  predicate PrintableAll(hr: seq<HostRange>)
    requires AllValid(hr)
  {
    forall i :: 0 <= i < |hr| ==> Printable(hr[i]) && GroupEnd(hr, i) <= i + MAX_RANGES
  }

  function NumsOf(r: HostRange): Nums
    requires r.Valid()
  {
    Nums(r.lo, r.hi, |Padded(r.lo, r.width)|)
  }

  /** What is written for the numbers of a range is read as those numbers, at
      the length at which its lowest number was written. */
  lemma NumStrReads(r: HostRange)
    requires r.Valid() && !r.single && r.Count() <= MAX_RANGE
    ensures ParseSingleRange(NumStr(r)) == Ok(NumsOf(r))
    ensures ',' !in NumStr(r) && ']' !in NumStr(r) && '[' !in NumStr(r)
  {
    hide Padded, Value, ParseSingleRange;
    var low, high := Padded(r.lo, r.width), Padded(r.hi, r.width);
    ValuePadded(r.lo, r.width);
    ValuePadded(r.hi, r.width);
    PaddedNotEmpty(r.lo, r.width);
    PaddedNotEmpty(r.hi, r.width);
    if r.lo < r.hi {
      PairReads(low, high);
      assert NumStr(r) == low + ['-'] + high;
    } else {
      AloneReads(low);
      assert NumStr(r) == low;
    }
  }

  lemma PairReads(low: string, high: string)
    requires AllDigits(low) && low != "" && AllDigits(high) && high != ""
    requires Value(low) <= Value(high) <= ULONG_MAX && Value(high) - Value(low) < MAX_RANGE
    ensures ParseSingleRange(low + ['-'] + high) == Ok(Nums(Value(low), Value(high), |low|))
  {
    hide Value, Strtoul, StrChr, IsFirst, ParseSingleRange;
    StrtoulDigits(low);
    StrtoulDigits(high);
    StrChrAt(low, '-', high);
    var s := low + ['-'] + high;
    assert s[..|low|] == low && s[|low| + 1..] == high;
    PartsRead(s, |low|, Value(low), Value(high));
  }

  lemma PartsRead(s: string, d: nat, lo: nat, hi: nat)
    requires 0 < d < |s| - 1 && StrChr(s, '-') == d && s[d + 1] != '-'
    requires Strtoul(s[..d]) == (lo, d) && Strtoul(s[d + 1..]) == (hi, |s| - d - 1)
    requires lo <= hi <= ULONG_MAX && hi - lo < MAX_RANGE
    ensures ParseSingleRange(s) == Ok(Nums(lo, hi, d))
  {
    hide Strtoul, StrChr, IsFirst;
  }

  lemma AloneReads(low: string)
    requires AllDigits(low) && low != "" && Value(low) <= ULONG_MAX
    ensures ParseSingleRange(low) == Ok(Nums(Value(low), Value(low), |low|))
  {
    hide Value, Strtoul;
    StrtoulDigits(low);
    StrChrNone(low, '-');
  }

  lemma PaddedNotEmpty(n: nat, width: nat)
    ensures Padded(n, width) != ""
  {
  }

  /** The ranges of one group: numbered, and under one prefix. */
  predicate Group(g: seq<HostRange>, prefix: string)
    requires AllValid(g)
  {
    forall i :: 0 <= i < |g| ==> !g[i].single && g[i].prefix == prefix && g[i].Count() <= MAX_RANGE
  }

  function AllNums(g: seq<HostRange>): (s: seq<Nums>)
    requires AllValid(g)
    ensures |s| == |g| && Ordered(s)
  {
    seq(|g|, i requires 0 <= i < |g| => NumsOf(g[i]))
  }

  lemma {:induction false} CommasRead(g: seq<HostRange>, prefix: string, n: nat)
    requires AllValid(g) && Group(g, prefix) && 0 < |g| <= n
    ensures RangeList(Commas(g), n) == Ok(AllNums(g))
    ensures '[' !in Commas(g) && ']' !in Commas(g)
  {
    hide ParseSingleRange, NumStr, HostRange.Valid, NumsOf, StrChr, IsFirst;
    NumStrReads(g[0]);
    if |g| == 1 {
      StrChrNone(NumStr(g[0]), ',');
      assert AllNums(g) == [NumsOf(g[0])];
    } else {
      CommasRead(g[1..], prefix, n - 1);
      FirstComma(NumStr(g[0]), Commas(g[1..]));
      assert [NumsOf(g[0])] + AllNums(g[1..]) == AllNums(g);
    }
  }

  lemma FirstComma(a: string, b: string)
    requires ',' !in a
    ensures var s := a + "," + b; StrChr(s, ',') == |a| && s[..|a|] == a && s[|a| + 1..] == b
  {
    hide StrChr, IsFirst;
    StrChrAt(a, ',', b);
  }

  lemma SameNames(r: HostRange)
    requires r.Valid() && !r.single
    ensures NumsNames(r.prefix, NumsOf(r), "") == r.Hosts()
  {
    var q := RangeFrom(r.prefix, NumsOf(r));
    RangeFromHosts(r.prefix, NumsOf(r));
    PaddedLength(r.lo, r.width);
    q.CanonHosts(r);
  }

  lemma PaddedLength(n: nat, width: nat)
    ensures PrintedLength(n, |Padded(n, width)|) == PrintedLength(n, width)
  {
  }

  lemma {:induction false} GroupNames(g: seq<HostRange>, prefix: string)
    requires AllValid(g) && Group(g, prefix)
    ensures ListNames(prefix, AllNums(g), "") == Expand(g)
  {
    hide NumsOf, HostRange.Hosts, NumsNames;
    if g != [] {
      var n := |g| - 1;
      GroupNames(g[..n], prefix);
      assert AllNums(g)[..n] == AllNums(g[..n]);
      SameNames(g[n]);
    }
  }

  /** All ranges of a group are alike. */
  lemma {:induction false} GroupOf(hr: seq<HostRange>, i: nat)
    requires AllValid(hr) && i < |hr| && forall k :: 0 <= k < |hr| ==> hr[k].Count() <= MAX_RANGE
    requires !hr[i].single
    ensures Group(hr[i..GroupEnd(hr, i)], hr[i].prefix)
    decreases |hr| - i
  {
    var e := GroupEnd(hr, i);
    if e > i + 1 {
      StrCmpEqual(hr[i + 1].prefix, hr[i].prefix);
      GroupOf(hr, i + 1);
      assert forall k :: 0 < k < e - i ==> hr[i..e][k] == hr[i + 1..e][k - 1];
    }
  }

  lemma NeedsNumbers(hr: seq<HostRange>, i: nat)
    requires i < |hr| && IsBracketNeeded(hr, i)
    ensures !hr[i].single
  {
  }

  /** The text of a group is one token. */
  lemma GroupIsToken(hr: seq<HostRange>, i: nat, after: string)
    requires AllValid(hr) && PrintableAll(hr) && i < |hr|
    requires after == "" || IsSep(after[0])
    ensures var t := GroupText(hr, i); t != "" && !IsSep(t[0]) && TokenLength(t + after, 0) == |t|
  {
    hide NumStr, HostRange.Valid, Padded, RangeList;
    var p, t := hr[i].prefix, GroupText(hr, i);
    assert Printable(hr[i]);
    if IsBracketNeeded(hr, i) {
      NeedsNumbers(hr, i);
      GroupOf(hr, i);
      var g := hr[i..GroupEnd(hr, i)];
      CommasRead(g, p, MAX_RANGES);
      Bracketed(p, Commas(g), after);
    } else {
      CountPositive(hr[i]);
      PlainNumStr(hr[i]);
      assert t == p + NumStr(hr[i]);
      Uncut(t, after, 0);
    }
  }

  lemma PlainNumStr(r: HostRange)
    requires r.Valid() && Printable(r) && r.Count() == 1
    ensures r.prefix + NumStr(r) == r.Name(r.lo)
    ensures PlainChars(r.prefix + NumStr(r)) && r.prefix + NumStr(r) != ""
  {
    if r.single {
      assert r.prefix + "" == r.prefix;
    } else {
      PaddedNotEmpty(r.lo, r.width);
      assert NumStr(r) == Padded(r.lo, r.width) + "";
      assert NumStr(r) == Padded(r.lo, r.width);
      var t := r.prefix + NumStr(r);
      assert forall k :: |r.prefix| <= k < |t| ==> t[k] == Padded(r.lo, r.width)[k - |r.prefix|];
    }
  }

  lemma Bracketed(p: string, c: string, after: string)
    requires PlainChars(p) && '[' !in c && ']' !in c && (after == "" || IsSep(after[0]))
    ensures var t := p + "[" + c + "]"; t != "" && !IsSep(t[0]) && TokenLength(t + after, 0) == |t|
  {
    hide TokenLength;
    var s1 := ["]"[0]] + after;
    var s2 := c + s1;
    var s3 := ["["[0]] + s2;
    NoLength(after);
    OneLonger(']', after, 1);
    Uncut(c, s1, 1);
    OneLonger('[', s2, 0);
    Uncut(p, s3, 0);
    BracketsApart(p, c, after);
  }

  lemma BracketsApart(p: string, c: string, after: string)
    ensures p + "[" + c + "]" + after == p + ("[" + (c + ("]" + after)))
  {
    Assoc(p + "[" + c, "]", after);
    Assoc(p + "[", c, "]" + after);
    Assoc(p, "[", c + ("]" + after));
  }

  lemma OneLonger(c: char, after: string, level: int)
    requires level != 0 || !IsSep(c)
    ensures TokenLength([c] + after, level) == 1 + TokenLength(after, level + Nesting(c))
  {
    assert ([c] + after)[1..] == after;
  }

  lemma NoLength(after: string)
    requires after == "" || IsSep(after[0])
    ensures TokenLength(after, 0) == 0
  {
  }

  /** And the token is read as the hosts of the group. */
  lemma GroupReads(hr: seq<HostRange>, i: nat)
    requires AllValid(hr) && PrintableAll(hr) && i < |hr|
    ensures TokenNames(GroupText(hr, i)) == Ok(Expand(hr[i..GroupEnd(hr, i)]))
  {
    hide NumStr, HostRange.Valid, Padded, RangeList, Expand;
    var p, e := hr[i].prefix, GroupEnd(hr, i);
    var g := hr[i..e];
    assert Printable(hr[i]) && e <= i + MAX_RANGES;
    if IsBracketNeeded(hr, i) {
      NeedsNumbers(hr, i);
      GroupOf(hr, i);
      CommasRead(g, p, MAX_RANGES);
      GroupNames(g, p);
      BracketsRead(p, Commas(g), AllNums(g));
    } else {
      WithinFlips(hr, i);
      CountPositive(hr[i]);
      PlainNumStr(hr[i]);
      PlainReads(GroupText(hr, i));
      OneHost(hr[i]);
      assert g == [hr[i]];
    }
  }

  lemma OneHost(r: HostRange)
    requires r.Valid() && r.Count() == 1
    ensures AllValid([r]) && Expand([r]) == [r.Name(r.lo)]
  {
    ExpandOne(r);
    assert r.Hosts()[0] == r.Name(r.lo);
  }

  lemma BracketsRead(p: string, c: string, rng: seq<Nums>)
    requires PlainChars(p) && '[' !in c && ']' !in c && Ordered(rng)
    requires RangeList(c, MAX_RANGES) == Ok(rng)
    ensures TokenNames(p + "[" + c + "]") == Ok(ListNames(p, rng, ""))
  {
    hide RangeList, ListNames;
    var t, inside := p + "[" + c + "]", c + "]";
    assert t == p + ['['] + inside;
    StrChrAt(p, '[', inside);
    assert t[|p| + 1..] == inside && t[..|p|] == p;
    assert inside == c + [']'] + "";
    StrChrAt(c, ']', "");
    assert inside[..|c|] == c && inside[|c| + 1..] == "";
  }

  /** The texts of the groups, with commas between them. */
  function Joined(hr: seq<HostRange>): string
    requires AllValid(hr)
    decreases |hr|
  {
    if hr == [] then "" else
      var e := GroupEnd(hr, 0);
      GroupText(hr, 0) + (if e < |hr| then "," + Joined(hr[e..]) else "")
  }

  lemma PrintableTail(hr: seq<HostRange>, i: nat)
    requires AllValid(hr) && PrintableAll(hr) && i <= |hr|
    ensures AllValid(hr[i..]) && PrintableAll(hr[i..])
  {
    forall k | 0 <= k < |hr| - i
      ensures Printable(hr[i..][k]) && GroupEnd(hr[i..], k) <= k + MAX_RANGES
    {
      TailEnd(hr, i, k);
    }
  }

  lemma {:induction false} PrintedIsJoined(hr: seq<HostRange>, before: string)
    requires AllValid(hr) && PrintableAll(hr)
    ensures Printed(hr, before) == before + Joined(hr)
    decreases |hr|
  {
    hide GroupText, GroupEnd, PrintableAll;
    if hr == [] {
      assert before + "" == before;
    } else {
      var e, t := GroupEnd(hr, 0), GroupText(hr, 0);
      GroupIsToken(hr, 0, "");
      PrintableTail(hr, e);
      var s := before + t;
      if e < |hr| {
        PrintedIsJoined(hr[e..], s + ",");
        Assoc(before, t, "," + Joined(hr[e..]));
        Assoc(s, ",", Joined(hr[e..]));
      } else {
        assert hr[e..] == [];
        assert t + "" == t;
      }
    }
  }

  lemma {:induction false} JoinedReads(hr: seq<HostRange>)
    requires AllValid(hr) && PrintableAll(hr)
    ensures Read(Joined(hr)) == Ok(Expand(hr))
    decreases |hr|
  {
    hide GroupText, GroupEnd, PrintableAll, Expand, TokenNames, TokenLength, Read;
    if hr == [] {
      NothingReads("");
    } else {
      var e, t := GroupEnd(hr, 0), GroupText(hr, 0);
      var rest := if e < |hr| then Joined(hr[e..]) else "";
      var after := if e < |hr| then "," + rest else "";
      PrintableTail(hr, e);
      JoinedReads(hr[e..]);
      NothingReads("");
      GroupIsToken(hr, 0, after);
      GroupReads(hr, 0);
      TokenOff(t, after, rest);
      ExpandConcat(hr[0..e], hr[e..]);
      assert hr[0..e] + hr[e..] == hr;
    }
  }

  lemma NothingReads(s: string)
    requires s == ""
    ensures Read(s) == Ok([]) && AllValid([]) && Expand([]) == []
  {
    assert Tokens(s) == [];
  }

  lemma TokenOff(t: string, after: string, rest: string)
    requires t != "" && !IsSep(t[0]) && TokenLength(t + after, 0) == |t|
    requires if after == "" then rest == "" else after == "," + rest
    requires TokenNames(t).Ok?
    ensures Read(t + after) == Prepend(TokenNames(t).value, Read(rest))
  {
    hide TokenNames, TokenLength, Tokens;
    var s := t + after;
    FirstToken(s);
    assert SkipSeps(s) == 0 && s[0..] == s;
    assert s[..|t|] == t && s[|t|..] == after;
    assert Tokens(s) == [t] + Tokens(after);
    FirstToken(after);
    FirstToken(rest);
    assert after != "" ==> after[1..] == rest && SkipSeps(after) == 1 + SkipSeps(rest);
    assert after != "" ==> after[SkipSeps(after)..] == rest[SkipSeps(rest)..];
    assert Tokens(after) == Tokens(rest);
    assert ([t] + Tokens(after))[1..] == Tokens(after);
  }

  /** What hostlist_ranged_string writes, hostlist_create reads as the same
      hosts in the same order, with the same padding. */
  lemma PrintThenRead(hr: seq<HostRange>)
    requires AllValid(hr) && PrintableAll(hr)
    ensures Read(Printed(hr, "")) == Ok(Expand(hr))
  {
    PrintedIsJoined(hr, "");
    assert "" + Joined(hr) == Joined(hr);
    JoinedReads(hr);
  }

  /** So two lists that are written alike have the same hosts. */
  lemma SameTextSameHosts(a: seq<HostRange>, b: seq<HostRange>)
    requires AllValid(a) && PrintableAll(a) && AllValid(b) && PrintableAll(b)
    requires Printed(a, "") == Printed(b, "")
    ensures Expand(a) == Expand(b)
  {
    PrintThenRead(a);
    PrintThenRead(b);
  }

  /** The whole way, through the text. */
  method Reread(hl: Hostlist) returns (new_: Result<Hostlist>)
    requires hl.Valid() && PrintableAll(hl.hr)
    ensures new_.Ok? && fresh(new_.value) && new_.value.Valid() && new_.value.Names() == hl.Names()
  {
    hide Read, Printed, Expand, PrintableAll;
    var text := RangedString(hl);
    PrintThenRead(hl.hr);
    new_ := Create(text);
  }
}
