/** What a text of hosts means, said of its parts. */
module HostlistText {
  // Without the functions that the parser of src/common/hostlist.c is proved against:
  // of texts put together from plain ones, brackets and separators.

  import opened Decimal
  import opened HostRanges
  import opened Expansion
  import opened HostlistFind
  import opened HostlistParse
  import opened HostlistPrint
  import opened Sequences

  /** Neither separators nor brackets. */
  predicate PlainText(s: string) {
    forall i :: 0 <= i < |s| ==> s[i] !in "\t, []"
  }

  predicate NoBrackets(s: string) {
    '[' !in s && ']' !in s
  }

  // ---- One token with brackets

  /** How many hosts the first `j` ranges have. */
  function Offset(rng: seq<Nums>, j: nat): (n: int)
    requires j <= |rng|
  {
    if j == 0 then 0 else Offset(rng, j - 1) + (rng[j - 1].hi - rng[j - 1].lo + 1)
  }

  /** From place `at` on stand the names of the numbers of a range, in their order,
      printed at its width between the prefix and the suffix. */
  predicate RangeAt(names: seq<string>, at: int, p: string, r: Nums, s: string) {
    && 0 <= at <= at + (r.hi - r.lo + 1) <= |names|
    && forall i :: at <= i <= at + (r.hi - r.lo) ==> names[i] == p + Padded(r.lo + (i - at), r.width) + s
  }

  /** The names are those of one range after the other. */
  predicate AreNamesOf(names: seq<string>, p: string, rng: seq<Nums>, s: string) {
    && |names| == Offset(rng, |rng|)
    && forall j :: 0 <= j < |rng| ==> RangeAt(names, Offset(rng, j), p, rng[j], s)
  }

  lemma {:induction false} ListNamesAre(p: string, rng: seq<Nums>, s: string)
    requires Ordered(rng)
    ensures AreNamesOf(ListNames(p, rng, s), p, rng, s)
  {
    hide AreNamesOf, NumsNames;
    if rng == [] {
      NoNames(p, s);
    } else {
      var n := |rng| - 1;
      ListNamesAre(p, rng[..n], s);
      MoreNames(ListNames(p, rng[..n], s), p, rng, s);
    }
  }

  lemma NoNames(p: string, s: string)
    ensures AreNamesOf([], p, [], s)
  {
  }

  lemma MoreNames(before: seq<string>, p: string, rng: seq<Nums>, s: string)
    requires rng != [] && Ordered(rng) && AreNamesOf(before, p, rng[..|rng| - 1], s)
    ensures AreNamesOf(before + NumsNames(p, rng[|rng| - 1], s), p, rng, s)
  {
    hide Padded, RangeAt, NumsNames;
    var n := |rng| - 1;
    var more := NumsNames(p, rng[n], s);
    OffsetBefore(rng, n, n);
    LastRangeAt(before, p, rng[n], s);
    forall j | 0 <= j < |rng|
      ensures RangeAt(before + more, Offset(rng, j), p, rng[j], s)
    {
      OffsetBefore(rng, n, j);
      if j < n {
        assert RangeAt(before, Offset(rng[..n], j), p, rng[..n][j], s);
        RangeStays(before, more, Offset(rng, j), p, rng[j], s);
      }
    }
  }

  lemma RangeStays(before: seq<string>, more: seq<string>, at: int, p: string, r: Nums, s: string)
    requires RangeAt(before, at, p, r, s)
    ensures RangeAt(before + more, at, p, r, s)
  {
  }

  lemma LastRangeAt(before: seq<string>, p: string, r: Nums, s: string)
    requires r.lo <= r.hi
    ensures RangeAt(before + NumsNames(p, r, s), |before|, p, r, s) && |NumsNames(p, r, s)| == r.hi - r.lo + 1
  {
    hide Padded;
  }

  lemma {:induction false} OffsetBefore(rng: seq<Nums>, n: nat, j: nat)
    requires j <= n <= |rng|
    ensures Offset(rng[..n], j) == Offset(rng, j)
  {
    if j > 0 {
      OffsetBefore(rng, n, j - 1);
    }
  }

  lemma OneTokenReads(t: string)
    requires SkipSeps(t) == 0 && t != "" && TokenLength(t, 0) == |t|
    ensures Read(t) == TokenNames(t)
  {
    hide TokenNames, TokenLength;
    assert t[0..] == t && t[..|t|] == t && t[|t|..] == "";
    FirstToken(t);
    assert Tokens("") == [] && Tokens(t) == [t];
    assert [t][1..] == [] && AllNames([]) == Ok([]);
    var r := TokenNames(t);
    assert r.Ok? ==> r.value + [] == r.value;
  }

  /** A token with one pair of brackets is read as what is in them says. */
  lemma TokenReads(p: string, c: string, s: string)
    requires PlainText(p) && NoBrackets(c) && PlainText(s)
    ensures var t, rng := p + "[" + c + "]" + s, RangeList(c, MAX_RANGES);
      Read(t) == (if rng.Failed? then Failed(rng.error)
                  else if !Ordered(rng.value) then Failed(WrapsRound)
                  else Ok(ListNames(p, rng.value, s)))
  {
    hide RangeList, ListNames, StrChr, IsFirst, TokenLength, Ordered, Read;
    var t, inside := p + "[" + c + "]" + s, c + "]" + s;
    assert t == p + ['['] + inside;
    StrChrAt(p, '[', inside);
    assert t[|p| + 1..] == inside && t[..|p|] == p;
    assert inside == c + [']'] + s;
    StrChrAt(c, ']', s);
    assert inside[..|c|] == c && inside[|c| + 1..] == s;
    IsOneToken(p, c, s);
    OneTokenReads(t);
    assert TokenNames(t) == BracketNames(t, |p|, |c|);
  }

  lemma IsOneToken(p: string, c: string, s: string)
    requires PlainText(p) && NoBrackets(c) && PlainText(s)
    ensures var t := p + "[" + c + "]" + s; SkipSeps(t) == 0 && t != "" && TokenLength(t, 0) == |t|
  {
    hide TokenLength;
    var s1 := [']'] + s;
    var s2 := c + s1;
    var s3 := ['['] + s2;
    NoLength("");
    assert s + "" == s;
    Uncut(s, "", 0);
    OneLonger(']', s, 1);
    Uncut(c, s1, 1);
    OneLonger('[', s2, 0);
    Uncut(p, s3, 0);
    assert p + "[" + c + "]" + s == p + s3;
  }

  lemma {:induction false} PartsRead(parts: seq<string>, rng: seq<Nums>, n: nat)
    requires 0 < |parts| == |rng| <= n
    requires forall j :: 0 <= j < |parts| ==> ',' !in parts[j] && ParseSingleRange(parts[j]) == Ok(rng[j])
    ensures RangeList(WithCommas(parts), n) == Ok(rng)
  {
    hide ParseSingleRange, StrChr, IsFirst;
    if |parts| == 1 {
      StrChrNone(parts[0], ',');
      assert parts[0] + "" == parts[0] && rng == [rng[0]];
    } else {
      PartsRead(parts[1..], rng[1..], n - 1);
      FirstComma(parts[0], WithCommas(parts[1..]));
      assert WithCommas(parts) == parts[0] + "," + WithCommas(parts[1..]);
      assert rng == [rng[0]] + rng[1..];
    }
  }

  lemma {:induction false} CommasPlain(parts: seq<string>)
    requires forall j :: 0 <= j < |parts| ==> NoBrackets(parts[j])
    ensures NoBrackets(WithCommas(parts))
  {
    if parts != [] {
      CommasPlain(parts[1..]);
    }
  }

  /** Ranges between commas in one pair of brackets stand for all their numbers,
      between what is in front of the brackets and what is behind them. */
  lemma BracketsMean(p: string, parts: seq<string>, rng: seq<Nums>, s: string)
    requires PlainText(p) && PlainText(s) && 0 < |parts| == |rng| <= MAX_RANGES
    requires forall j :: 0 <= j < |parts| ==> ',' !in parts[j] && NoBrackets(parts[j])
    requires forall j :: 0 <= j < |parts| ==> ParseSingleRange(parts[j]) == Ok(rng[j]) && rng[j].hi < ULONG_MAX
    ensures var r := Read(p + "[" + WithCommas(parts) + "]" + s);
      r.Ok? && AreNamesOf(r.value, p, rng, s)
  {
    hide ParseSingleRange, RangeList, ListNames, WithCommas, AreNamesOf, Read;
    PartsRead(parts, rng, MAX_RANGES);
    CommasPlain(parts);
    forall j | 0 <= j < |rng|
      ensures rng[j].lo <= rng[j].hi
    {
      SingleInOrder(parts[j]);
    }
    TokenReads(p, WithCommas(parts), s);
    ListNamesAre(p, rng, s);
  }

  lemma SingleInOrder(str: string)
    ensures ParseSingleRange(str).Ok? ==> ParseSingleRange(str).value.lo <= ParseSingleRange(str).value.hi
  {
    hide Strtoul, StrChr;
  }

  /** What stands behind the brackets stands behind every name. */
  lemma SuffixReads(p: string, c: string, s: string)
    requires PlainText(p) && NoBrackets(c) && PlainText(s)
    ensures var a, b := Read(p + "[" + c + "]"), Read(p + "[" + c + "]" + s);
      if a.Failed? then b == a
      else b.Ok? && |b.value| == |a.value| && forall i :: 0 <= i < |a.value| ==> b.value[i] == a.value[i] + s
  {
    hide RangeList, ListNames, Read;
    assert p + "[" + c + "]" + "" == p + "[" + c + "]";
    TokenReads(p, c, "");
    TokenReads(p, c, s);
    var rng := RangeList(c, MAX_RANGES);
    if rng.Ok? && Ordered(rng.value) {
      SuffixNames(p, rng.value, s);
    }
  }

  lemma {:induction false} SuffixNames(p: string, rng: seq<Nums>, s: string)
    requires Ordered(rng)
    ensures var a, b := ListNames(p, rng, ""), ListNames(p, rng, s);
      |b| == |a| && forall i :: 0 <= i < |a| ==> b[i] == a[i] + s
  {
    hide Padded;
    if rng != [] {
      var n := |rng| - 1;
      SuffixNames(p, rng[..n], s);
      var a, b := NumsNames(p, rng[n], ""), NumsNames(p, rng[n], s);
      forall i | 0 <= i < |a|
        ensures b[i] == a[i] + s
      {
        assert a[i] == p + Padded(rng[n].lo + i, rng[n].width) + "" == p + Padded(rng[n].lo + i, rng[n].width);
      }
    }
  }

  /** The first range that is faulty, or one too many, decides how a list in
      brackets fails. */
  lemma {:induction false} PartsFail(parts: seq<string>, j: nat, n: nat)
    requires j < |parts| && j <= n && forall i :: 0 <= i < |parts| ==> ',' !in parts[i]
    requires forall i :: 0 <= i < j ==> ParseSingleRange(parts[i]).Ok?
    requires j < n ==> ParseSingleRange(parts[j]).Failed?
    ensures RangeList(WithCommas(parts), n) ==
      Failed(if j < n then ParseSingleRange(parts[j]).error else TooManyRanges)
  {
    hide ParseSingleRange, StrChr, IsFirst;
    if |parts| == 1 {
      StrChrNone(parts[0], ',');
      assert parts[0] + "" == parts[0];
    } else {
      FirstComma(parts[0], WithCommas(parts[1..]));
      assert WithCommas(parts) == parts[0] + "," + WithCommas(parts[1..]);
      if j > 0 {
        PartsFail(parts[1..], j - 1, n - 1);
      }
    }
  }

  // ---- Many tokens

  /** How many more brackets are opened than closed. */
  function Open(s: string): int {
    if s == "" then 0 else (if s[0] == '[' then 1 else if s[0] == ']' then -1 else 0) + Open(s[1..])
  }

  lemma {:induction false} OpenConcat(a: string, b: string)
    ensures Open(a + b) == Open(a) + Open(b)
  {
    if a == "" {
      assert a + b == b;
    } else {
      assert (a + b)[1..] == a[1..] + b;
      OpenConcat(a[1..], b);
    }
  }

  /** A token does not go on behind a separator outside all brackets. */
  lemma {:induction false} TokenStops(t: string, level: int, after: string)
    requires after != "" && after[0] in "\t, " && level + Open(t) == 0
    ensures TokenLength(t + after, level) == TokenLength(t, level)
    ensures var n := TokenLength(t, level); n < |t| ==> level + Open(t[..n]) == 0
  {
    if t == "" {
      assert t + after == after;
    } else {
      assert (t + after)[1..] == t[1..] + after && (t + after)[0] == t[0];
      if !(level == 0 && IsSep(t[0])) {
        TokenStops(t[1..], level + Nesting(t[0]), after);
        var n := TokenLength(t, level);
        assert t[..n][1..] == t[1..][..n - 1];
      }
    }
  }

  lemma {:induction false} SepsFirst(s: string, after: string)
    ensures SkipSeps(s) < |s| ==> SkipSeps(s + after) == SkipSeps(s)
    ensures SkipSeps(s) == |s| ==> SkipSeps(s + after) == |s| + SkipSeps(after)
    ensures Open(s[..SkipSeps(s)]) == 0
  {
    if s == "" {
      assert s + after == after;
    } else if IsSep(s[0]) {
      assert (s + after)[1..] == s[1..] + after && (s + after)[0] == s[0];
      SepsFirst(s[1..], after);
      assert s[..SkipSeps(s)][1..] == s[1..][..SkipSeps(s) - 1];
    } else {
      assert (s + after)[0] == s[0];
    }
  }

  /** A separator at the start does not matter. */
  lemma OneSepLess(s: string)
    requires s != "" && s[0] in "\t, "
    ensures Tokens(s) == Tokens(s[1..])
  {
    hide Tokens, TokenLength;
    FirstToken(s);
    FirstToken(s[1..]);
    assert s[1..][SkipSeps(s[1..])..] == s[SkipSeps(s)..];
  }

  /** The first token ends where it ends without what comes behind. */
  lemma TokenOffBoth(t: string, after: string) returns (n: nat)
    requires t != "" && SkipSeps(t) == 0 && Open(t) == 0 && after != "" && after[0] in "\t, "
    ensures 0 < n <= |t| && Open(t[n..]) == 0
    ensures Tokens(t) == [t[..n]] + Tokens(t[n..]) && Tokens(t + after) == [t[..n]] + Tokens(t[n..] + after)
  {
    hide Tokens, TokenLength, Open;
    n := TokenLength(t, 0);
    TokenStops(t, 0, after);
    SepsFirst(t, after);
    assert t[0..] == t && (t + after)[0..] == t + after;
    FirstToken(t);
    FirstToken(t + after);
    assert (t + after)[n..] == t[n..] + after && (t + after)[..n] == t[..n];
    assert t == t[..n] + t[n..];
    OpenConcat(t[..n], t[n..]);
    OpenNone(t[n..]);
  }

  /** A separator outside brackets divides the tokens. */
  lemma {:induction false} TokensDivide(a: string, after: string)
    requires after != "" && after[0] in "\t, " && Open(a) == 0
    ensures Tokens(a + after) == Tokens(a) + Tokens(after)
    decreases |a|
  {
    hide TokenLength, Tokens;
    if a == "" {
      assert a + after == after;
      NothingToTake();
    } else if IsSep(a[0]) {
      assert (a + after)[1..] == a[1..] + after;
      OneSepLess(a);
      OneSepLess(a + after);
      TokensDivide(a[1..], after);
    } else {
      hide Open, SkipSeps;
      NoSepFirst(a);
      var n := TokenOffBoth(a, after);
      TokensDivide(a[n..], after);
      Assoc([a[..n]], Tokens(a[n..]), Tokens(after));
    }
  }

  lemma NoSepFirst(a: string)
    requires a != "" && !IsSep(a[0])
    ensures SkipSeps(a) == 0
  {
  }

  lemma NothingToTake()
    ensures Tokens("") == []
  {
  }

  lemma OpenNone(s: string)
    ensures s == "" ==> Open(s) == 0
  {
  }

  lemma {:induction false} AllNamesConcat(a: seq<string>, b: seq<string>)
    ensures AllNames(a + b) == (if AllNames(a).Failed? then AllNames(a) else Prepend(AllNames(a).value, AllNames(b)))
  {
    hide TokenNames;
    if a == [] {
      assert a + b == b;
      PrependNone(AllNames(b));
    } else {
      assert (a + b)[1..] == a[1..] + b;
      AllNamesConcat(a[1..], b);
      if TokenNames(a[0]).Ok? && AllNames(a[1..]).Ok? {
        PrependTwice(TokenNames(a[0]).value, AllNames(a[1..]).value, AllNames(b));
      }
    }
  }

  /** Behind as many closed brackets as opened ones, a comma, a blank or a tab
      divides a text: it stands for the hosts of the one part and then those of the
      other, and fails as the first part that does. */
  lemma SeparatorDivides(a: string, c: char, b: string)
    requires Open(a) == 0 && c in "\t, "
    ensures var ra, rb := Read(a), Read(b);
      Read(a + [c] + b) == if ra.Failed? then ra else if rb.Failed? then rb else Ok(ra.value + rb.value)
  {
    hide AllNames, Tokens, Open;
    assert a + [c] + b == a + ([c] + b);
    TokensDivide(a, [c] + b);
    AllNamesConcat(Tokens(a), Tokens([c] + b));
    OneSepLess([c] + b);
    assert ([c] + b)[1..] == b;
  }

  /** A name without separators and brackets stands for itself, cut to 1023
      characters; nothing stands for no host. */
  lemma NameReads(name: string)
    requires PlainText(name)
    ensures Read(name) == Ok(if name == "" then [] else [if |name| < 1024 then name else name[..1023]])
  {
    hide TokenLength, StrChr, IsFirst;
    if name == "" {
      assert Tokens(name) == [];
    } else {
      StrChrNone(name, '[');
      StrChrNone(name, ']');
      NoLength("");
      Uncut(name, "", 0);
      assert name + "" == name && name[..|name|] == name;
      OneTokenReads(name);
    }
  }

  /** An open bracket that is not closed is an error. */
  lemma OpenFails(p: string, c: string)
    requires PlainText(p) && NoBrackets(c)
    ensures Read(p + "[" + c) == Failed(EINVAL)
  {
    hide TokenLength, StrChr, IsFirst;
    var t := p + "[" + c;
    var inside := ['['] + c;
    assert t == p + ['['] + c && t == p + inside;
    Uncut(c, "", 1);
    assert c + "" == c && TokenLength("", 1) == 0 by { NothingLeft(); }
    OneLonger('[', c, 0);
    Uncut(p, inside, 0);
    assert SkipSeps(t) == 0;
    OneTokenReads(t);
    StrChrAt(p, '[', c);
    assert t[|p| + 1..] == c;
    StrChrNone(c, ']');
  }

  lemma NothingLeft()
    ensures TokenLength("", 1) == 0
  {
  }

  /** So is one that is closed and not opened. */
  lemma CloseFails(p: string, c: string)
    requires PlainText(p) && NoBrackets(c)
    ensures Read(p + "]" + c) == Failed(EINVAL)
  {
    hide TokenLength, StrChr, IsFirst;
    var t := p + "]" + c;
    var inside := [']'] + c;
    assert t == p + [']'] + c && t == p + inside;
    Uncut(c, "", -1);
    assert c + "" == c && TokenLength("", -1) == 0 by { NothingLeftBelow(); }
    OneLonger(']', c, 0);
    Uncut(p, inside, 0);
    OneTokenReads(t);
    StrChrAt(p, ']', c);
    StrChrNone(t, '[');
  }

  lemma NothingLeftBelow()
    ensures TokenLength("", -1) == 0
  {
  }

  // ---- The tokens of a written list

  /** The places at which neighbours are cut. */
  function Cuts(hr: seq<HostRange>): nat {
    if |hr| < 2 then 0 else (if Cut(hr[0], hr[1]) then 1 else 0) + Cuts(hr[1..])
  }

  lemma {:induction false} CutsBehind(hr: seq<HostRange>, n: nat)
    requires 0 < n <= |hr| && forall k :: 0 < k < n ==> !Cut(hr[k - 1], hr[k])
    requires n < |hr| ==> Cut(hr[n - 1], hr[n])
    ensures Cuts(hr) == if n < |hr| then 1 + Cuts(hr[n..]) else 0
    decreases n
  {
    hide Cut;
    if n > 1 {
      assert !Cut(hr[0], hr[1]);
      assert forall k :: 0 < k < n - 1 ==> hr[1..][k - 1] == hr[k] && hr[1..][k] == hr[k + 1];
      CutsBehind(hr[1..], n - 1);
      assert hr[1..][n - 1..] == hr[n..];
    }
  }

  /** There is one group more than there are cuts. */
  lemma {:induction false} GroupsByCuts(hr: seq<HostRange>, gs: seq<seq<HostRange>>)
    requires Parting(hr, gs)
    ensures |gs| == if hr == [] then 0 else 1 + Cuts(hr)
  {
    hide Cut;
    if gs != [] {
      CutsBehind(hr, |gs[0]|);
      GroupsByCuts(hr[|gs[0]|..], gs[1..]);
    }
  }

  lemma {:induction false} OpenPlain(s: string)
    requires NoBrackets(s)
    ensures Open(s) == 0
  {
    if s != "" {
      OpenPlain(s[1..]);
    }
  }

  lemma PlainToken(t: string)
    requires PlainText(t) && t != ""
    ensures Tokens(t) == [t] && Open(t) == 0
  {
    hide TokenLength;
    OpenPlain(t);
    NoLength("");
    Uncut(t, "", 0);
    assert t + "" == t && t[..|t|] == t && t[|t|..] == "" && t[0..] == t;
    FirstToken(t);
    NothingToTake();
  }

  lemma BracketToken(p: string, c: string)
    requires PlainText(p) && NoBrackets(c)
    ensures var t := p + "[" + c + "]"; Tokens(t) == [t] && Open(t) == 0 && t != ""
  {
    hide TokenLength, Open;
    var t := p + "[" + c + "]";
    assert t + "" == t && t[..|t|] == t && t[|t|..] == "" && t[0..] == t;
    IsOneToken(p, c, "");
    FirstToken(t);
    NothingToTake();
    OpenPlain(p);
    OpenPlain(c);
    OpenConcat(p + "[" + c, "]");
    OpenConcat(p + "[", c);
    OpenConcat(p, "[");
    OneBracket();
  }

  lemma OneBracket()
    ensures Open("[") == 1 && Open("]") == -1
  {
    assert "["[1..] == "" && "]"[1..] == "";
  }

  /** A range that can be written: no separators and brackets in its prefix. */
  predicate Writable(r: HostRange) {
    r.Valid() && PlainText(r.prefix) && (r.single ==> r.prefix != "")
  }

  lemma TextIsToken(g: seq<HostRange>)
    requires g != [] && AllValid(g) && forall k :: 0 <= k < |g| ==> Writable(g[k])
    ensures Tokens(TextOf(g)) == [TextOf(g)] && Open(TextOf(g)) == 0 && TextOf(g) != ""
  {
    hide Tokens, Open, Padded;
    if |g| == 1 && g[0].Count() == 1 {
      NameIsPlain(g[0]);
      PlainToken(g[0].Name(g[0].lo));
    } else {
      forall k | 0 <= k < |g|
        ensures NoBrackets(NumbersTexts(g)[k])
      {
        NumbersPlain(g[k]);
      }
      CommasPlain(NumbersTexts(g));
      BracketToken(g[0].prefix, WithCommas(NumbersTexts(g)));
    }
  }

  lemma NameIsPlain(r: HostRange)
    requires Writable(r)
    ensures PlainText(r.Name(r.lo)) && r.Name(r.lo) != ""
  {
    hide Padded;
    PaddedNotEmpty(r.lo, r.width);
    DigitsArePlain(Padded(r.lo, r.width));
  }

  lemma DigitsArePlain(s: string)
    requires AllDigits(s)
    ensures PlainText(s) && NoBrackets(s)
  {
  }

  lemma NumbersPlain(r: HostRange)
    requires r.Valid()
    ensures NoBrackets(NumbersText(r))
  {
    hide Padded;
    DigitsArePlain(Padded(r.lo, r.width));
    DigitsArePlain(Padded(r.hi, r.width));
  }

  /** The tokens of the text that is written are the texts of the groups: as many as
      there are cuts, and one. */
  lemma {:induction false} TokensAreGroups(hr: seq<HostRange>, gs: seq<seq<HostRange>>)
    requires AllValid(hr) && Parting(hr, gs) && forall k :: 0 <= k < |hr| ==> Writable(hr[k])
    ensures forall k :: 0 <= k < |gs| ==> AllValid(gs[k]) && gs[k] != []
    ensures IsTextOf(gs, WithCommas(TextsOf(gs))) && Tokens(WithCommas(TextsOf(gs))) == TextsOf(gs)
    ensures |Tokens(WithCommas(TextsOf(gs)))| == if hr == [] then 0 else 1 + Cuts(hr)
  {
    PartingValid(hr, gs);
    GroupsByCuts(hr, gs);
    hide TextOf, Tokens, Open, Cut, Writable, HostRange.Valid, Cuts, WithCommas;
    if gs == [] {
      NothingWritten();
    } else {
      var n, t := |gs[0]|, TextOf(gs[0]);
      TextIsToken(gs[0]);
      assert forall k :: 0 <= k < |hr| - n ==> hr[n..][k] == hr[n + k];
      TokensAreGroups(hr[n..], gs[1..]);
      var ts := TextsOf(gs[1..]);
      assert TextsOf(gs) == [t] + ts && ([t] + ts)[1..] == ts;
      TextsCount(gs[1..]);
      TokensJoin(t, ts);
    }
  }

  lemma NothingWritten()
    ensures Tokens("") == [] && WithCommas([]) == ""
  {
  }

  lemma {:induction false} TextsCount(gs: seq<seq<HostRange>>)
    requires forall k :: 0 <= k < |gs| ==> AllValid(gs[k]) && gs[k] != []
    ensures |TextsOf(gs)| == |gs|
  {
    if gs != [] {
      TextsCount(gs[1..]);
    }
  }

  lemma TokensJoin(t: string, ts: seq<string>)
    requires Tokens(t) == [t] && Open(t) == 0 && Tokens(WithCommas(ts)) == ts
    ensures Tokens(WithCommas([t] + ts)) == [t] + ts
  {
    hide Tokens, Open;
    assert ([t] + ts)[1..] == ts;
    if ts == [] {
      assert t + "" == t;
    } else {
      var after := "," + WithCommas(ts);
      TokensDivide(t, after);
      OneSepLess(after);
      assert after[1..] == WithCommas(ts);
    }
  }
}
