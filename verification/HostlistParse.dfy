/** Reading a host list from text: the parser of bracketed host lists in
    src/common/hostlist.c, and what the users of it build on. */
module HostlistParse {
  import opened Decimal
  import opened HostRanges
  import opened Expansion
  import opened Hostlist
  import opened Options
  import opened HostlistFind
  import opened Sequences

  const MAX_RANGE := 16384
  const MAX_RANGES := 10240
  const TOKEN_SIZE := 1024

  /** `WrapsRound` is not an error of the source: it marks a list with a range that
      reaches the largest number, with which the source goes on. */
  datatype Errno = EINVAL | ERANGE | TooManyRanges | WrapsRound

  datatype Result<T> = Ok(value: T) | Failed(error: Errno)

  /** struct _range */
  datatype Nums = Nums(lo: nat, hi: nat, width: nat)

  // ---- Tokens

  predicate IsSep(c: char) {
    c == '\t' || c == ',' || c == ' '
  }

  /** The number of separators at the start. */
  function SkipSeps(s: string): (n: nat)
    ensures n <= |s| && (n < |s| ==> !IsSep(s[n]))
  {
    if s != [] && IsSep(s[0]) then 1 + SkipSeps(s[1..]) else 0
  }

  function Nesting(c: char): int {
    if c == '[' then 1 else if c == ']' then -1 else 0
  }

  /** Up to the first separator outside brackets. */
  function TokenLength(s: string, level: int): (n: nat)
    ensures n <= |s| && (n == 0 <==> s == [] || (level == 0 && IsSep(s[0])))
  {
    if s == [] || (level == 0 && IsSep(s[0])) then 0 else 1 + TokenLength(s[1..], level + Nesting(s[0]))
  }

  function Tokens(s: string): seq<string>
    decreases |s|
  {
    var t := s[SkipSeps(s)..];
    if t == [] then [] else
      var n := TokenLength(t, 0);
      [t[..n]] + Tokens(t[n..])
  }

  /** _next_tok */
  method NextTok(str: string) returns (tok: Option<string>, rest: string)
    ensures tok.None? <==> Tokens(str) == []
    ensures tok.Some? ==> Tokens(str) == [tok.value] + Tokens(rest) && |rest| < |str|
  {
    hide Tokens, SkipSeps, TokenLength;
    var start := SkipLeading(str);
    FirstToken(str);
    if start == "" {
      return None, start;
    }
    rest := SkipToken(start);
    tok := Some(start[..|start| - |rest|]);
    FirstToken(rest);
    rest := SkipLeading(rest);
    FirstToken(rest);
  }

  /** And past a token, with all that is in brackets. */
  method SkipToken(start: string) returns (rest: string)
    ensures rest == start[TokenLength(start, 0)..] && |rest| == |start| - TokenLength(start, 0)
  {
    var level := 0;
    rest := start;
    ghost var n := 0;
    while rest != "" && (level != 0 || !IsSep(rest[0]))
      invariant n == |start| - |rest| <= |start| && rest == start[n..]
      invariant TokenLength(start, 0) == n + TokenLength(rest, level)
      decreases |rest|
    {
      level := level + Nesting(rest[0]);
      rest := rest[1..];
      n := n + 1;
    }
  }

  /** The pointer is pushed past separators. */
  method SkipLeading(str: string) returns (rest: string)
    ensures rest == str[SkipSeps(str)..] && SkipSeps(rest) == 0
  {
    rest := str;
    ghost var n := 0;
    while rest != "" && IsSep(rest[0])
      invariant n == |str| - |rest| <= |str| && rest == str[n..]
      invariant SkipSeps(str) == n + SkipSeps(rest)
      decreases |rest|
    {
      rest := rest[1..];
      n := n + 1;
    }
  }

  lemma FirstToken(s: string)
    ensures var t := s[SkipSeps(s)..];
      && (t == [] <==> Tokens(s) == [])
      && (t != [] ==> TokenLength(t, 0) > 0 && Tokens(s) == [t[..TokenLength(t, 0)]] + Tokens(t[TokenLength(t, 0)..]))
      && Tokens(s) == Tokens(t)
  {
    var t := s[SkipSeps(s)..];
    assert SkipSeps(t) == 0;
    assert t[0..] == t;
  }

  // ---- Numbers and ranges

  predicate IsSpace(c: char) {
    c == ' ' || '\t' <= c <= '\r'
  }

  function Spaces(s: string): (n: nat)
    ensures n <= |s|
  {
    if s != [] && IsSpace(s[0]) then 1 + Spaces(s[1..]) else 0
  }

  /** strtoul at base ten: the value, and where reading stopped. */
  function Strtoul(s: string): (r: (nat, nat))
    ensures r.0 <= ULONG_MAX && r.1 <= |s|
  {
    var i := Spaces(s);
    var signed := i < |s| && (s[i] == '+' || s[i] == '-');
    var j := if signed then i + 1 else i;
    var n := DigitRun(s[j..]);
    if n == 0 then (0, 0) else
      var v := Value(s[j..][..n]);
      (if v > ULONG_MAX then ULONG_MAX
       else if signed && s[i] == '-' then (ULONG_MAX + 1 - v) % (ULONG_MAX + 1)
       else v, j + n)
  }

  /** strchr, as an index */
  function StrChr(s: string, c: char): (i: int)
    ensures -1 <= i < |s| && IsFirst(s, c, i)
  {
    if s == [] then -1
    else if s[0] == c then 0
    else
      var i := StrChr(s[1..], c);
      if i == -1 then -1 else
        assert s[..i + 1] == [s[0]] + s[1..][..i];
        i + 1
  }

  /** _parse_single_range */
  function ParseSingleRange(str: string): (r: Result<Nums>)
    ensures r.Ok? ==> r.value.lo <= r.value.hi <= ULONG_MAX
  {
    var d := StrChr(str, '-');
    var low, high := if d < 0 then str else str[..d], if d < 0 then "" else str[d + 1..];
    if high != "" && high[0] == '-' then Failed(EINVAL) else
      var (lo, p) := Strtoul(low);
      var (hi, q) := if high != "" then Strtoul(high) else (lo, p);
      if p == 0 || q == 0 || q != (if high != "" then |high| else |low|) || lo > hi then Failed(EINVAL)
      else if (hi - lo + 1) % (ULONG_MAX + 1) > MAX_RANGE then Failed(ERANGE)
      else Ok(Nums(lo, hi, |low|))
  }

  lemma StrtoulDigits(s: string)
    requires AllDigits(s) && s != ""
    ensures Strtoul(s) == (if Value(s) <= ULONG_MAX then Value(s) else ULONG_MAX, |s|)
  {
    assert Spaces(s) == 0;
    assert s[0..] == s && s[..|s|] == s;
    AllDigitRun(s);
  }

  lemma StrChrAt(a: string, c: char, b: string)
    requires c !in a
    ensures StrChr(a + [c] + b, c) == |a|
  {
    var s := a + [c] + b;
    assert s[..|a|] == a;
    FirstUnique(s, c, StrChr(s, c), |a|);
  }

  lemma StrChrNone(a: string, c: char)
    requires c !in a
    ensures StrChr(a, c) == -1
  {
  }

  predicate AllSpaces(s: string) {
    forall i :: 0 <= i < |s| ==> IsSpace(s[i])
  }

  /** What a number stands for as an unsigned long. */
  function Meant(negative: bool, v: nat): nat {
    if v > ULONG_MAX then ULONG_MAX else if negative then (ULONG_MAX + 1 - v) % (ULONG_MAX + 1) else v
  }

  /** Spaces up to `i`, perhaps a sign, and digits from `j` to `n`. */
  predicate NumberAt(s: string, i: nat, j: nat, n: nat) {
    && i <= j < n <= |s| && AllSpaces(s[..i]) && AllDigits(s[j..n])
    && (j == i || (j == i + 1 && s[i] in "+-"))
  }

  /** The first `n` characters are a number, which ends there. */
  ghost predicate NumberStart(s: string, n: nat, v: nat) {
    && n <= |s| && (n < |s| ==> !IsDigit(s[n]))
    && exists i: nat, j: nat :: NumberAt(s, i, j, n) && v == Meant(j > i && s[i] == '-', Value(s[j..n]))
  }

  lemma {:induction false} SpacesEnd(s: string, i: nat)
    requires i < |s| && AllSpaces(s[..i]) && !IsSpace(s[i])
    ensures Spaces(s) == i
  {
    if i > 0 {
      assert s[1..][..i - 1] == s[..i][1..];
      assert s[0] == s[..i][0];
      SpacesEnd(s[1..], i - 1);
    }
  }

  lemma {:induction false} SpacesAre(s: string)
    ensures AllSpaces(s[..Spaces(s)])
  {
    if s != [] && IsSpace(s[0]) {
      SpacesAre(s[1..]);
      assert s[..Spaces(s)] == [s[0]] + s[1..][..Spaces(s) - 1];
    }
  }

  /** strtoul reads just the number that a text starts with. */
  lemma StrtoulReads(s: string, n: nat, v: nat)
    ensures NumberStart(s, n, v) <==> n > 0 && Strtoul(s) == (v, n)
  {
    hide Value, Strtoul, Meant;
    if NumberStart(s, n, v) {
      var i: nat, j: nat :| NumberAt(s, i, j, n) && v == Meant(j > i && s[i] == '-', Value(s[j..n]));
      StrtoulAt(s, i, j, n);
    }
    if n > 0 && Strtoul(s) == (v, n) {
      StrtoulFrom(s, n, v);
    }
  }

  lemma StrtoulFrom(s: string, n: nat, v: nat)
    requires n > 0 && Strtoul(s) == (v, n)
    ensures NumberStart(s, n, v)
  {
    hide Value, Spaces, DigitRun;
    var i := Spaces(s);
    var j := if i < |s| && (s[i] == '+' || s[i] == '-') then i + 1 else i;
    SpacesAre(s);
    DigitsFrom(s, j);
    assert NumberAt(s, i, j, n) && v == Meant(j > i && s[i] == '-', Value(s[j..n]));
  }

  lemma StrtoulAt(s: string, i: nat, j: nat, n: nat)
    requires NumberAt(s, i, j, n) && (n < |s| ==> !IsDigit(s[n]))
    ensures Strtoul(s) == (Meant(j > i && s[i] == '-', Value(s[j..n])), n)
  {
    hide Value;
    assert s[j..n][0] == s[j];
    SpacesEnd(s, i);
    assert s[j..][..n - j] == s[j..n];
    DigitRunEnds(s[j..], n - j);
  }

  lemma DigitsFrom(s: string, j: nat)
    requires j <= |s|
    ensures var n := j + DigitRun(s[j..]);
      s[j..][..n - j] == s[j..n] && (n < |s| ==> !IsDigit(s[n]))
  {
    DigitRunStops(s[j..]);
  }

  lemma {:induction false} DigitRunStops(s: string)
    ensures DigitRun(s) < |s| ==> !IsDigit(s[DigitRun(s)])
  {
    if s != [] && IsDigit(s[0]) {
      DigitRunStops(s[1..]);
    }
  }

  /** A text that means a range: up to its first dash the low number, which may be
      followed by anything if there is a high number; and that number alone. */
  ghost predicate ReadsAs(str: string, r: Nums) {
    && r.width <= |str| && '-' !in str[..r.width] && (r.width < |str| ==> str[r.width] == '-') && r.lo <= r.hi
    && var low, high := str[..r.width], if r.width < |str| then str[r.width + 1..] else "";
      if high == "" then NumberStart(low, |low|, r.lo) && r.hi == r.lo
      else
        && high[0] != '-' && NumberStart(high, |high|, r.hi)
        && exists n :: 0 <= n <= |low| && NumberStart(low, n, r.lo)
  }

  /** The numbers that pass the check for too many hosts, whose count wraps to 0
      for the whole of the unsigned longs. */
  predicate PassesCount(r: Nums) {
    r.hi - r.lo < MAX_RANGE || (r.lo == 0 && r.hi == ULONG_MAX)
  }

  lemma CountWraps(r: Nums)
    requires r.lo <= r.hi <= ULONG_MAX
    ensures (r.hi - r.lo + 1) % (ULONG_MAX + 1) <= MAX_RANGE <==> PassesCount(r)
  {
  }

  /** Accepted are just the texts that mean a range of at most 16384 hosts, or that
      of all numbers; the error is another one where the text means no range. */
  lemma SingleRangeReads(str: string, r: Nums)
    ensures ParseSingleRange(str) == Ok(r) <==> ReadsAs(str, r) && PassesCount(r)
    ensures ParseSingleRange(str) == Failed(ERANGE) && ReadsAs(str, r) ==> !PassesCount(r)
    ensures ParseSingleRange(str) == Failed(EINVAL) ==> !ReadsAs(str, r)
    ensures ParseSingleRange(str) in [Ok(r), Failed(ERANGE), Failed(EINVAL)] || !ReadsAs(str, r)
  {
    hide Strtoul, NumberStart;
    var d := StrChr(str, '-');
    var low, high := if d < 0 then str else str[..d], if d < 0 then "" else str[d + 1..];
    DashAt(str, d, r.width);
    forall s: string, n: nat, v: nat
      ensures NumberStart(s, n, v) <==> n > 0 && Strtoul(s) == (v, n)
    {
      StrtoulReads(s, n, v);
    }
    if ReadsAs(str, r) {
      assert str[..r.width] == low;
      StrtoulBounds(low);
      StrtoulBounds(high);
      CountWraps(r);
    }
    if ParseSingleRange(str) == Ok(r) {
      assert str[..r.width] == low;
      CountWraps(r);
    }
  }

  lemma StrtoulBounds(s: string)
    ensures Strtoul(s).0 <= ULONG_MAX && Strtoul(s).1 <= |s|
  {
  }

  lemma DashAt(str: string, d: int, w: nat)
    requires IsFirst(str, '-', d)
    ensures w <= |str| && '-' !in str[..w] && (w < |str| ==> str[w] == '-') <==> w == if d < 0 then |str| else d
  {
    if d < 0 {
      assert str[..|str|] == str;
    } else if w > d && w <= |str| {
      assert str[..w][d] == '-';
    } else if w < d {
      assert str[..d][w] == str[w];
    }
  }

  /** What stands behind the low number is not looked at if there is a high one,
      and counts for the width: [5x-7] stands for 05 to 07. */
  lemma JunkIsRead()
    ensures ParseSingleRange("5x-7") == Ok(Nums(5, 7, 2))
    ensures ParseSingleRange("5-") == Ok(Nums(5, 5, 1))
  {
    var s := "5x-7";
    FirstUnique(s, '-', StrChr(s, '-'), 2);
    assert s[..2] == "5x" && s[3..] == "7";
    OneDigitReads("5x", 5);
    OneDigitReads("7", 7);
    var t := "5-";
    FirstUnique(t, '-', StrChr(t, '-'), 1);
    assert t[..1] == "5" && t[2..] == "";
    OneDigitReads("5", 5);
  }

  lemma OneDigitReads(s: string, v: nat)
    requires s != "" && v < 10 && s[0] == DigitChar(v) && (|s| > 1 ==> !IsDigit(s[1]))
    ensures Strtoul(s) == (v, 1)
  {
    assert s[..0] == "" && s[0..1] == [s[0]];
    assert [s[0]][..0] == "";
    assert NumberAt(s, 0, 0, 1);
    StrtoulAt(s, 0, 0, 1);
  }

  /** A range from 0 to the largest number, or to any text of digits for one too
      large, passes the check for too many hosts. */
  lemma AllNumbersPass(high: string)
    requires AllDigits(high) && high != "" && Value(high) >= ULONG_MAX
    ensures ParseSingleRange("0-" + high) == Ok(Nums(0, ULONG_MAX, 1))
  {
    hide Value, Strtoul;
    StrtoulDigits(high);
    ZeroDash(high);
  }

  lemma ZeroDash(high: string)
    requires Strtoul(high) == (ULONG_MAX, |high|) && high != "" && high[0] != '-'
    ensures ParseSingleRange("0-" + high) == Ok(Nums(0, ULONG_MAX, 1))
  {
    StrChrAt("0", '-', high);
    var s := "0" + ['-'] + high;
    assert s == "0-" + high && s[..1] == "0" && s[2..] == high;
    OneDigitReads("0", 0);
    hide Strtoul;
    CountWraps(Nums(0, ULONG_MAX, 1));
  }

  /** With a suffix the loop over such a range does not end: its counter, an
      unsigned long, exceeds `hi` at some time if and only if `hi` is not the
      largest one. */
  lemma SuffixLoopEnds(lo: nat, hi: nat)
    requires lo <= hi <= ULONG_MAX
    ensures (exists n: nat :: Wrapped(lo, n) > hi) <==> hi < ULONG_MAX
  {
    if hi < ULONG_MAX {
      assert Wrapped(lo, hi + 1 - lo) == hi + 1;
    }
  }

  /** The counter after `n` rounds. */
  function Wrapped(lo: nat, n: nat): nat {
    (lo + n) % (ULONG_MAX + 1)
  }

  function Prepend<T>(a: seq<T>, r: Result<seq<T>>): Result<seq<T>> {
    if r.Ok? then Ok(a + r.value) else r
  }

  /** The ranges between the commas, at most `n` of them. */
  function RangeList(str: string, n: nat): Result<seq<Nums>>
    decreases |str|
  {
    var i := StrChr(str, ',');
    if n == 0 then Failed(TooManyRanges) else
      var r := ParseSingleRange(if i < 0 then str else str[..i]);
      if r.Failed? then Failed(r.error)
      else if i < 0 then Ok([r.value])
      else Prepend([r.value], RangeList(str[i + 1..], n - 1))
  }

  /** _parse_range_list */
  method ParseRangeList(str: string, len: nat) returns (ranges: Result<seq<Nums>>)
    ensures ranges == RangeList(str, len)
  {
    hide ParseSingleRange, Ordered;
    var count, rest, done := [], str, false;
    PrependNone(RangeList(str, len));
    while !done
      invariant |count| <= len
      invariant if done then RangeList(str, len) == Ok(count)
        else RangeList(str, len) == Prepend(count, RangeList(rest, len - |count|))
      decreases !done, len - |count|
    {
      if |count| == len {
        return Failed(TooManyRanges);
      }
      var p := StrChr(rest, ',');
      var r := ParseSingleRange(if p < 0 then rest else rest[..p]);
      if r.Failed? {
        return Failed(r.error);
      }
      if p >= 0 {
        PrependTwice(count, [r.value], RangeList(rest[p + 1..], len - |count| - 1));
        rest := rest[p + 1..];
      } else {
        done := true;
      }
      count := count + [r.value];
    }
    ranges := Ok(count);
  }

  lemma PrependNone<T>(r: Result<seq<T>>)
    ensures Prepend([], r) == r
  {
    assert r.Ok? ==> [] + r.value == r.value;
  }

  lemma PrependTwice<T>(a: seq<T>, b: seq<T>, r: Result<seq<T>>)
    ensures Prepend(a, Prepend(b, r)) == Prepend(a + b, r)
  {
    if r.Ok? {
      Assoc(a, b, r.value);
    }
  }

  // ---- Pushing what was read

  /** The names of a range between a prefix and a suffix. */
  function NumsNames(pfx: string, rng: Nums, sfx: string): (s: seq<string>)
    requires rng.lo <= rng.hi
  {
    seq(rng.hi - rng.lo + 1, i requires 0 <= i => pfx + Padded(rng.lo + i, rng.width) + sfx)
  }

  /** Ranges of which none reaches the largest number. */
  predicate Ordered(rng: seq<Nums>) {
    forall i :: 0 <= i < |rng| ==> rng[i].lo <= rng[i].hi < ULONG_MAX
  }

  function ListNames(pfx: string, rng: seq<Nums>, sfx: string): (s: seq<string>)
    requires Ordered(rng)
  {
    if rng == [] then [] else ListNames(pfx, rng[..|rng| - 1], sfx) + NumsNames(pfx, rng[|rng| - 1], sfx)
  }

  lemma ListNamesNext(pfx: string, rng: seq<Nums>, sfx: string, i: nat)
    requires Ordered(rng) && i < |rng|
    ensures ListNames(pfx, rng[..i + 1], sfx) == ListNames(pfx, rng[..i], sfx) + NumsNames(pfx, rng[i], sfx)
  {
    assert rng[..i + 1][..i] == rng[..i];
  }

  function RangeFrom(pfx: string, rng: Nums): HostRange {
    HostRange(pfx, rng.lo, rng.hi, rng.width, false)
  }

  lemma RangeFromHosts(pfx: string, rng: Nums)
    requires rng.lo <= rng.hi < ULONG_MAX
    ensures RangeFrom(pfx, rng).Valid() && RangeFrom(pfx, rng).Hosts() == NumsNames(pfx, rng, "")
  {
    var r := RangeFrom(pfx, rng);
    forall i | 0 <= i < r.Count()
      ensures r.Hosts()[i] == NumsNames(pfx, rng, "")[i]
    {
      assert r.Name(r.lo + i) == pfx + Padded(rng.lo + i, rng.width) + "";
    }
  }

  /** _push_range_list */
  method PushRangeList(hl: Hostlist, pfx: string, rng: seq<Nums>)
    requires hl.Valid() && Ordered(rng)
    modifies hl`hr, hl`nhosts
    ensures hl.Valid() && hl.Names() == old(hl.Names()) + ListNames(pfx, rng, "")
  {
    hide Expand, HostRange.Hosts, HostRange.Valid, NumsNames;
    for i := 0 to |rng|
      invariant hl.Valid() && hl.Names() == old(hl.Names()) + ListNames(pfx, rng[..i], "")
    {
      RangeFromHosts(pfx, rng[i]);
      ListNamesNext(pfx, rng, "", i);
      Assoc(old(hl.Names()), ListNames(pfx, rng[..i], ""), NumsNames(pfx, rng[i], ""));
      var n := hl.PushRange(RangeFrom(pfx, rng[i]));
    }
    assert rng[..|rng|] == rng;
  }

  /** _push_range_list_with_suffix */
  method PushRangeListWithSuffix(hl: Hostlist, pfx: string, sfx: string, rng: seq<Nums>)
    requires hl.Valid() && Ordered(rng)
    modifies hl`hr, hl`nhosts
    ensures hl.Valid() && hl.Names() == old(hl.Names()) + ListNames(pfx, rng, sfx)
  {
    hide Expand, NumsNames;
    for i := 0 to |rng|
      invariant hl.Valid() && hl.Names() == old(hl.Names()) + ListNames(pfx, rng[..i], sfx)
    {
      ghost var names := hl.Names();
      PushWithSuffix(hl, pfx, sfx, rng[i]);
      ListNamesNext(pfx, rng, sfx, i);
      Assoc(old(hl.Names()), ListNames(pfx, rng[..i], sfx), NumsNames(pfx, rng[i], sfx));
    }
    assert rng[..|rng|] == rng;
  }

  /** The inner loop: every number of the range becomes a whole name. */
  method PushWithSuffix(hl: Hostlist, pfx: string, sfx: string, rng: Nums)
    requires hl.Valid() && rng.lo <= rng.hi < ULONG_MAX
    modifies hl`hr, hl`nhosts
    ensures hl.Valid() && hl.Names() == old(hl.Names()) + NumsNames(pfx, rng, sfx)
  {
    hide Expand;
    ghost var all := NumsNames(pfx, rng, sfx);
    var j := rng.lo;
    while j <= rng.hi
      invariant rng.lo <= j <= rng.hi + 1
      invariant hl.Valid() && hl.Names() == old(hl.Names()) + all[..j - rng.lo]
    {
      var hr := HostRange(pfx + Padded(j, rng.width) + sfx, 0, 0, 0, true);
      assert hr.Name(0) == all[j - rng.lo];
      assert hr.Hosts() == [all[j - rng.lo]];
      assert all[..j + 1 - rng.lo] == all[..j - rng.lo] + [all[j - rng.lo]];
      Assoc(old(hl.Names()), all[..j - rng.lo], [all[j - rng.lo]]);
      var n := hl.PushRange(hr);
      j := j + 1;
    }
    assert all[..j - rng.lo] == all;
  }

  // ---- Whole lists

  /** The bracketed part of a token whose brackets are at `p` and at `q` after it. */
  function BracketNames(tok: string, p: nat, q: nat): Result<seq<string>>
    requires p < |tok| && q < |tok[p + 1..]|
  {
    var rng := RangeList(tok[p + 1..][..q], MAX_RANGES);
    if rng.Failed? then Failed(rng.error)
    else if !Ordered(rng.value) then Failed(WrapsRound)
    else Ok(ListNames(tok[..p], rng.value, tok[p + 1..][q + 1..]))
  }

  /** The names that one token stands for. */
  function TokenNames(tok: string): Result<seq<string>> {
    var p := StrChr(tok, '[');
    if p >= 0 then
      var q := StrChr(tok[p + 1..], ']');
      if q < 0 then Failed(EINVAL) else BracketNames(tok, p, q)
    else if StrChr(tok, ']') >= 0 then Failed(EINVAL)
    else Ok([tok[..if |tok| < TOKEN_SIZE then |tok| else TOKEN_SIZE - 1]])
  }

  function AllNames(toks: seq<string>): Result<seq<string>> {
    if toks == [] then Ok([]) else
      var r := TokenNames(toks[0]);
      if r.Failed? then r else Prepend(r.value, AllNames(toks[1..]))
  }

  /** The host names that a text stands for. */
  function Read(str: string): Result<seq<string>> {
    AllNames(Tokens(str))
  }

  /** One turn of the loop of _hostlist_create_bracketed. */
  method PushToken(hl: Hostlist, tok: string) returns (r: Result<bool>)
    requires hl.Valid()
    modifies hl`hr, hl`nhosts
    ensures hl.Valid() && Pushes(old(hl.Names()), TokenNames(tok), hl.Names(), r)
  {
    hide Expand, AllValid, BracketNames, IsFirst, StrChr;
    var curTok := tok[..if |tok| < TOKEN_SIZE then |tok| else TOKEN_SIZE - 1];
    var p := StrChr(tok, '[');
    if p >= 0 {
      var q := StrChr(tok[p + 1..], ']');
      if q < 0 {
        return Failed(EINVAL);
      }
      r := PushBracketed(hl, tok, p, q);
    } else if StrChr(tok, ']') >= 0 {
      return Failed(EINVAL);
    } else {
      PushHost(hl, curTok);
      r := Ok(true);
    }
  }

  /** Either all names are pushed or the reason for failing is returned. */
  predicate Pushes(was: seq<string>, names: Result<seq<string>>, now: seq<string>, r: Result<bool>) {
    if names.Ok? then r.Ok? && now == was + names.value else r == Failed(names.error)
  }

  /** The part that deals with brackets at `p` and, after them, at `q`. */
  method PushBracketed(hl: Hostlist, tok: string, p: nat, q: nat) returns (r: Result<bool>)
    requires hl.Valid() && p < |tok| && q < |tok[p + 1..]|
    modifies hl`hr, hl`nhosts
    ensures hl.Valid() && Pushes(old(hl.Names()), BracketNames(tok, p, q), hl.Names(), r)
  {
    hide Expand, AllValid, ListNames, RangeList, Ordered;
    var prefix, inside := tok[..p], tok[p + 1..];
    var nr := ParseRangeList(inside[..q], MAX_RANGES);
    if nr.Failed? {
      return Failed(nr.error);
    }
    if !Ordered(nr.value) {
      return Failed(WrapsRound);
    }
    var suffix := inside[q + 1..];
    if suffix != "" {
      PushRangeListWithSuffix(hl, prefix, suffix, nr.value);
    } else {
      PushRangeList(hl, prefix, nr.value);
    }
    r := Ok(true);
  }

  /** _hostlist_create_bracketed, as hostlist_create calls it. */
  method Create(str: string) returns (r: Result<Hostlist>)
    ensures r.Ok? == Read(str).Ok?
    ensures r.Ok? ==> fresh(r.value) && r.value.Valid() && r.value.Names() == Read(str).value
    ensures r.Failed? ==> r.error == Read(str).error
  {
    hide Tokens, TokenNames, Expand;
    PrependNone(Read(str));
    var hl := new Hostlist();
    var rest := str;
    while true
      invariant hl.Valid() && Read(str) == Prepend(hl.Names(), Read(rest))
      decreases |rest|
    {
      var tok, after := NextTok(rest);
      if tok.None? {
        break;
      }
      assert Tokens(rest)[1..] == Tokens(after);
      ghost var names := hl.Names();
      var pushed := PushToken(hl, tok.value);
      if pushed.Failed? {
        return Failed(pushed.error);
      }
      assert Read(rest) == Prepend(TokenNames(tok.value).value, Read(after));
      PrependTwice(names, TokenNames(tok.value).value, Read(after));
      rest := after;
    }
    r := Ok(hl);
  }

  /** hostlist_push */
  method Push(hl: Hostlist, hosts: string) returns (n: int)
    requires hl.Valid()
    modifies hl`hr, hl`nhosts
    ensures hl.Valid() && hl.Names() == old(hl.Names()) + OrNone(Read(hosts))
    ensures n == |OrNone(Read(hosts))|
  {
    hide Read, Expand, AllValid;
    var new_ := Create(hosts);
    if new_.Failed? {
      return 0;
    }
    n := new_.value.nhosts;
    hl.PushList(new_.value);
  }

  function OrNone(r: Result<seq<string>>): seq<string> {
    if r.Ok? then r.value else []
  }

  /** hostlist_delete: as many first occurrences of each host go as the text
      names it, as far as a search sees them, and what stays keeps its order. */
  method Delete(hl: Hostlist, hosts: string) returns (n: nat)
    requires hl.Valid()
    modifies hl`hr, hl`nhosts, hl`ilist
    ensures hl.Valid() && n == |old(hl.Names())| - |hl.Names()|
    ensures Cells(hl.hr) == MinusSeen(old(Cells(hl.hr)), multiset(OrNone(Read(hosts))))
    ensures (forall x :: x in OrNone(Read(hosts)) ==> ShortNumber(x)) ==>
      hl.Names() == Minus(old(hl.Names()), multiset(OrNone(Read(hosts))))
  {
    hide Read, Expand, AllValid, Minus, MinusSeen, ShortNumber, Cells;
    ghost var cells, names := Cells(hl.hr), OrNone(Read(hosts));
    var hltmp := Create(hosts);
    if hltmp.Failed? {
      MinusSeenNothing(cells);
      n := 0;
    } else {
      n := DeleteAll(hl, hltmp.value);
    }
    CellNames(old(hl.hr));
    CellNames(hl.hr);
    if forall x :: x in names ==> ShortNumber(x) {
      MinusShort(cells, multiset(names));
    }
  }

  /** All hosts that the texts name, with their numbers. */
  function AllNamed(texts: seq<string>): multiset<string> {
    if texts == [] then multiset{} else AllNamed(texts[..|texts| - 1]) + multiset(OrNone(Read(texts[|texts| - 1])))
  }

  /** Each text counts for what it is read as. */
  lemma {:induction false} AllNamedAre(texts: seq<string>) returns (parts: seq<seq<string>>)
    ensures AreReadAs(texts, parts) && AllNamed(texts) == multiset(Concat(parts))
  {
    hide Read;
    if texts == [] {
      parts := [];
    } else {
      var n := |texts| - 1;
      var before := AllNamedAre(texts[..n]);
      parts := before + [OrNone(Read(texts[n]))];
      ConcatSnoc(before, OrNone(Read(texts[n])));
    }
  }

  lemma {:induction false} NamedSomewhere(texts: seq<string>, x: string)
    requires x in AllNamed(texts)
    ensures exists i :: 0 <= i < |texts| && x in OrNone(Read(texts[i]))
  {
    hide Read, OrNone;
    var n := |texts| - 1;
    if x !in OrNone(Read(texts[n])) {
      NamedSomewhere(texts[..n], x);
      var i :| 0 <= i < n && x in OrNone(Read(texts[..n][i]));
      assert x in OrNone(Read(texts[i]));
    }
  }

  /** wcoll_apply_excluded of src/pdsh/opt.c: the exclusions together take off
      what all of them name, in whatever order they are given. */
  method ApplyExcluded(wcoll: Hostlist, excludes: seq<string>)
    requires wcoll.Valid()
    modifies wcoll`hr, wcoll`nhosts, wcoll`ilist
    ensures wcoll.Valid()
    ensures Cells(wcoll.hr) == MinusSeen(old(Cells(wcoll.hr)), AllNamed(excludes))
    ensures exists parts :: AreReadAs(excludes, parts) && AllNamed(excludes) == multiset(Concat(parts))
    ensures (forall i, x :: 0 <= i < |excludes| && x in OrNone(Read(excludes[i])) ==> ShortNumber(x)) ==>
      wcoll.Names() == Minus(old(wcoll.Names()), AllNamed(excludes))
  {
    hide Read, OrNone, Expand, AllValid, Minus, MinusSeen, ShortNumber, Cells;
    ghost var cells := Cells(wcoll.hr);
    MinusSeenNothing(cells);
    for i := 0 to |excludes|
      invariant wcoll.Valid() && Cells(wcoll.hr) == MinusSeen(cells, AllNamed(excludes[..i]))
    {
      assert excludes[..i + 1][..i] == excludes[..i];
      MinusSeenTwice(cells, AllNamed(excludes[..i]), multiset(OrNone(Read(excludes[i]))));
      var n := Delete(wcoll, excludes[i]);
    }
    assert excludes[..|excludes|] == excludes;
    ghost var parts := AllNamedAre(excludes);
    CellNames(old(wcoll.hr));
    CellNames(wcoll.hr);
    if forall i, x :: 0 <= i < |excludes| && x in OrNone(Read(excludes[i])) ==> ShortNumber(x) {
      forall x | x in AllNamed(excludes)
        ensures ShortNumber(x)
      {
        NamedSomewhere(excludes, x);
      }
      MinusShort(cells, AllNamed(excludes));
    }
  }

  // ---- Expanding twice

  /** What is left to expand in each of the names. */
  function Reexpand(names: seq<string>): seq<string> {
    if names == [] then [] else OrNone(Read(names[0])) + Reexpand(names[1..])
  }

  /** Each part is what one name is read as, or nothing if it cannot be read. */
  ghost predicate AreReadAs(names: seq<string>, parts: seq<seq<string>>) {
    |parts| == |names| && forall i :: 0 <= i < |names| ==>
      parts[i] == if Read(names[i]).Ok? then Read(names[i]).value else []
  }

  lemma {:induction false} ReexpandParts(names: seq<string>) returns (parts: seq<seq<string>>)
    ensures AreReadAs(names, parts) && Reexpand(names) == Concat(parts)
  {
    hide Read;
    if names == [] {
      parts := [];
    } else {
      var first := OrNone(Read(names[0]));
      var rest := ReexpandParts(names[1..]);
      parts := [first] + rest;
      ConcatParts([first], rest);
      assert [first][..0] == [] && [] + first == first;
    }
  }

  /** wcoll_expand of src/pdsh/opt.c */
  method WcollExpand(hl: Hostlist) returns (wcoll: Hostlist)
    requires hl.Valid()
    modifies hl
    ensures fresh(wcoll) && wcoll.Valid() && wcoll.Names() == Reexpand(old(hl.Names()))
    ensures exists parts :: AreReadAs(old(hl.Names()), parts) && wcoll.Names() == Concat(parts)
  {
    hide Read, Expand, AllValid;
    ghost var parts := ReexpandParts(hl.Names());
    wcoll := new Hostlist();
    while true
      invariant fresh(wcoll) && wcoll != hl && wcoll.Valid() && hl.Valid()
      invariant wcoll.Names() + Reexpand(hl.Names()) == Reexpand(old(hl.Names()))
      decreases |hl.Names()|
    {
      ghost var names, done := hl.Names(), wcoll.Names();
      var hosts := hl.Shift();
      if hosts.None? {
        break;
      }
      Assoc(done, OrNone(Read(names[0])), Reexpand(names[1..]));
      var n := Push(wcoll, hosts.value);
    }
  }

  /** A name without separators and brackets, of the length of a token. */
  predicate PlainName(name: string) {
    0 < |name| < TOKEN_SIZE && forall i :: 0 <= i < |name| ==> !IsSep(name[i]) && Nesting(name[i]) == 0
  }

  /** Nothing but the end or a separator ends a token outside brackets, and
      nothing but brackets inside them. */
  lemma {:induction false} Uncut(s: string, after: string, level: int)
    requires forall i :: 0 <= i < |s| ==> Nesting(s[i]) == 0 && (level == 0 ==> !IsSep(s[i]))
    ensures TokenLength(s + after, level) == |s| + TokenLength(after, level)
  {
    if s == [] {
      assert s + after == after;
    } else {
      assert (s + after)[0] == s[0] && (s + after)[1..] == s[1..] + after;
      Uncut(s[1..], after, level);
    }
  }

  lemma PlainReads(name: string)
    requires PlainName(name)
    ensures TokenNames(name) == Ok([name]) && Read(name) == Ok([name])
  {
    assert StrChr(name, '[') == -1 && StrChr(name, ']') == -1;
    assert name[..|name|] == name;
    assert name + "" == name;
    Uncut(name, "", 0);
    FirstToken(name);
    assert name[0..] == name && name[|name|..] == "";
    assert Tokens(name) == [name] + Tokens("") == [name];
    assert AllNames([name][1..]) == Ok([]) && [name] + [] == [name];
  }

  /** So names without separators and brackets are left alone. */
  lemma {:induction false} ReexpandPlain(names: seq<string>)
    requires forall i :: 0 <= i < |names| ==> PlainName(names[i])
    ensures Reexpand(names) == names
  {
    if names != [] {
      PlainReads(names[0]);
      ReexpandPlain(names[1..]);
    }
  }
}
