/** What becomes of a line of output before it is printed. */
module ReturnCode {
  // src/pdsh/dsh.c has every command followed by an echo of its return code behind a
  // marker, looks for the marker in each line of the output and cuts it off there;
  // and all printing stops at a NUL.

  import opened Decimal
  import opened Ring
  import opened Sequences

  /** A string in C ends at its first NUL. */
  function CText(s: seq<Byte>): (r: seq<Byte>)
    ensures r <= s && 0 !in r
    ensures r == s <==> 0 !in s
    ensures |r| < |s| ==> s[|r|] == 0
  {
    if s == [] || s[0] == 0 then [] else [s[0]] + CText(s[1..])
  }

  /** RC_MAGIC, "XXRETCODE:" */
  const MAGIC: seq<Byte> := [88, 88, 82, 69, 84, 67, 79, 68, 69, 58]
  const MAGIC_LENGTH := 10

  predicate MagicAt(s: seq<Byte>, p: nat) {
    p + MAGIC_LENGTH <= |s| && s[p..p + MAGIC_LENGTH] == MAGIC
  }

  /** The first place of the marker from `i` on, or -1. */
  function StrStr(s: seq<Byte>, i: nat): (p: int)
    requires i <= |s|
    ensures p == -1 || (i <= p && MagicAt(s, p))
    ensures forall k: nat :: i <= k < (if p == -1 then |s| else p) ==> !MagicAt(s, k)
    decreases |s| - i
  {
    if MagicAt(s, i) then i else if i == |s| then -1 else StrStr(s, i + 1)
  }

  predicate IsSpace(b: Byte) {
    b == 32 || 9 <= b <= 13
  }

  function Digits(s: seq<Byte>, n: nat): nat {
    if s != [] && 48 <= s[0] <= 57 then Digits(s[1..], n * 10 + (s[0] - 48)) else n
  }

  /** atoi, for values that fit an int */
  function Atoi(s: seq<Byte>): int {
    if s == [] then 0
    else if IsSpace(s[0]) then Atoi(s[1..])
    else if s[0] == 45 then 0 - Digits(s[1..], 0)
    else if s[0] == 43 then Digits(s[1..], 0)
    else Digits(s, 0)
  }

  /** The marker stands in a whole line, and not at its start. */
  predicate KeepsNewline(s: seq<Byte>, p: int) {
    p > 0 && s != [] && s[|s| - 1] == NEWLINE
  }

  /** What _extract_rc leaves of a text. */
  function Cut(s: seq<Byte>): seq<Byte> {
    var p := StrStr(s, 0);
    if p == -1 then s else if KeepsNewline(s, p) then s[..p] + [NEWLINE] else s[..p]
  }

  /** And what it returns: where it puts a newline back, it reads on one character
      too far. */
  function Code(s: seq<Byte>): int {
    var p := StrStr(s, 0);
    if p == -1 then 0
    else if KeepsNewline(s, p) then Atoi(if p + 1 + MAGIC_LENGTH <= |s| then s[p + 1 + MAGIC_LENGTH..] else [])
    else Atoi(s[p + MAGIC_LENGTH..])
  }

  /** _extract_rc, in place. */
  method ExtractRc(buf: array<Byte>) returns (ret: int)
    requires 0 in buf[..]
    modifies buf
    ensures CText(buf[..]) == Cut(old(CText(buf[..]))) && 0 in buf[..]
    ensures ret == Code(old(CText(buf[..])))
  {
    hide Atoi, CText, StrStr, Cut, Code, MagicAt;
    ghost var was := buf[..];
    var s := CText(buf[..]);
    TextEnds(was);
    ret := 0;
    var p := StrStr(s, 0);
    if p == -1 {
      NoMagic(s);
      return;
    }
    MagicEnds(s, p);
    var q: nat := p;
    if buf[|s| - 1] == NEWLINE && p != 0 {
      buf[q] := NEWLINE;
      assert buf[..] == was[p := NEWLINE];
      q := q + 1;
    }
    ghost var mid := buf[..];
    buf[q] := 0;
    assert buf[..] == mid[q := 0];
    Extracted(was, s, p, q, mid);
    var from := q + MAGIC_LENGTH;
    ret := Atoi(CText(buf[from..]));
    assert buf[from..] == was[from..];
  }

  lemma NoMagic(s: seq<Byte>)
    requires StrStr(s, 0) == -1
    ensures Cut(s) == s && Code(s) == 0
  {
  }

  lemma CutAt(s: seq<Byte>, p: nat, q: nat)
    requires p == StrStr(s, 0) && q == if KeepsNewline(s, p) then p + 1 else p
    requires q + MAGIC_LENGTH <= |s|
    ensures Cut(s) == if KeepsNewline(s, p) then s[..p] + [NEWLINE] else s[..p]
    ensures Code(s) == Atoi(s[q + MAGIC_LENGTH..])
  {
    hide StrStr, Atoi;
  }

  /** What the steps of _extract_rc come to. */
  lemma Extracted(was: seq<Byte>, s: seq<Byte>, p: nat, q: nat, mid: seq<Byte>)
    requires s == CText(was) && |s| < |was| && p == StrStr(s, 0)
    requires if KeepsNewline(s, p) then q == p + 1 && p < |was| && mid == was[p := NEWLINE] else q == p && mid == was
    ensures q + MAGIC_LENGTH <= |s| && CText(mid[q := 0]) == Cut(s) && 0 in mid[q := 0]
    ensures Code(s) == Atoi(CText(was[q + MAGIC_LENGTH..]))
  {
    hide Atoi, CText, StrStr, MagicAt, Cut, Code;
    MagicEnds(s, p);
    CutAt(s, p, q);
    CutText(was, s, p, q, mid);
    TextFrom(was, q + MAGIC_LENGTH);
  }

  lemma TextEnds(s: seq<Byte>)
    requires 0 in s
    ensures |CText(s)| < |s| && s[|CText(s)|] == 0
  {
  }

  lemma {:induction false} TextBeforeNul(s: seq<Byte>)
    ensures CText(s + [0]) == CText(s)
  {
    if s != [] && s[0] != 0 {
      assert (s + [0])[1..] == s[1..] + [0];
      TextBeforeNul(s[1..]);
    }
  }

  lemma MagicEnds(s: seq<Byte>, p: nat)
    requires MagicAt(s, p)
    ensures p + MAGIC_LENGTH <= |s|
    ensures s[|s| - 1] == NEWLINE ==> p + MAGIC_LENGTH < |s|
  {
    assert s[p..p + MAGIC_LENGTH][MAGIC_LENGTH - 1] == 58;
    assert s[p..p + MAGIC_LENGTH][MAGIC_LENGTH - 1] == s[p + MAGIC_LENGTH - 1];
  }

  lemma {:induction false} TextUpTo(s: seq<Byte>, n: nat)
    requires n < |s| && s[n] == 0 && 0 !in s[..n]
    ensures CText(s) == s[..n]
  {
    if n > 0 {
      assert s[1..][..n - 1] == s[..n][1..];
      assert s[0] == s[..n][0];
      TextUpTo(s[1..], n - 1);
      assert s[..n] == [s[0]] + s[1..][..n - 1];
    }
  }

  lemma CutText(was: seq<Byte>, s: seq<Byte>, p: nat, q: nat, mid: seq<Byte>)
    requires s == CText(was) && p < |s| < |was|
    requires (q == p && mid == was) || (q == p + 1 && mid == was[p := NEWLINE])
    ensures CText(mid[q := 0]) == if q == p then s[..p] else s[..p] + [NEWLINE]
    ensures 0 in mid[q := 0]
  {
    var now := mid[q := 0];
    assert now[q] == 0;
    assert now[..q] == if q == p then s[..p] else s[..p] + [NEWLINE];
    assert 0 !in s[..p];
    TextUpTo(now, q);
  }

  lemma {:induction false} TextFrom(s: seq<Byte>, q: nat)
    requires q <= |CText(s)|
    ensures q <= |s| && CText(s[q..]) == CText(s)[q..]
  {
    if q > 0 {
      assert s[1..][q - 1..] == s[q..];
      assert CText(s) == [s[0]] + CText(s[1..]);
      TextFrom(s[1..], q - 1);
    } else {
      assert s[0..] == s;
    }
  }

  // ---- What is printed

  /** What _flush_lines prints of a line. */
  function Image(line: seq<Byte>, readRc: bool): seq<Byte> {
    if readRc then Cut(CText(line)) else CText(line)
  }

  /** A line that is printed as it is. */
  predicate PlainLine(line: seq<Byte>, readRc: bool) {
    0 !in line && (readRc ==> forall p: nat :: p < |line| ==> !MagicAt(line, p))
  }

  lemma CutShorter(s: seq<Byte>)
    ensures |Cut(s)| <= |s|
    ensures Cut(s) == s <==> forall p: nat :: p < |s| ==> !MagicAt(s, p)
    ensures Cut(s) != s ==> |Cut(s)| < |s|
  {
  }

  lemma ImageShorter(line: seq<Byte>, readRc: bool)
    ensures |Image(line, readRc)| <= |line|
    ensures Image(line, readRc) == line <==> PlainLine(line, readRc)
    ensures Image(line, readRc) != line ==> |Image(line, readRc)| < |line|
  {
    hide CText, Cut, MagicAt;
    CutShorter(CText(line));
  }

  /** The lines that are printed: those of which something is left. */
  function Printed(lines: seq<seq<Byte>>, readRc: bool): seq<seq<Byte>> {
    if lines == [] then [] else
      var s := Image(lines[|lines| - 1], readRc);
      Printed(lines[..|lines| - 1], readRc) + (if s == [] then [] else [s])
  }

  lemma PrintedNext(lines: seq<seq<Byte>>, line: seq<Byte>, readRc: bool, rc: int)
    ensures Printed(lines + [line], readRc)
      == Printed(lines, readRc) + (if Image(line, readRc) == [] then [] else [Image(line, readRc)])
    ensures LastCode(lines + [line], readRc, rc) == if readRc then Code(CText(line)) else rc
  {
    assert (lines + [line])[..|lines|] == lines;
  }

  lemma {:induction false} PrintedConcat(a: seq<seq<Byte>>, b: seq<seq<Byte>>, readRc: bool)
    ensures Printed(a + b, readRc) == Printed(a, readRc) + Printed(b, readRc)
  {
    hide Image;
    if b == [] {
      assert a + b == a;
    } else {
      var c, s := b[..|b| - 1], Image(b[|b| - 1], readRc);
      PrintedConcat(a, c, readRc);
      assert (a + b)[..|a + b| - 1] == a + c;
      Assoc(Printed(a, readRc), Printed(c, readRc), if s == [] then [] else [s]);
    }
  }

  lemma PrintedOne(line: seq<Byte>, readRc: bool)
    ensures Printed([line], readRc) == if Image(line, readRc) == [] then [] else [Image(line, readRc)]
  {
    assert [line][..0] == [];
  }

  /** Nothing behind a NUL counts. */
  lemma NulEnds(a: seq<Byte>, b: seq<Byte>, readRc: bool)
    requires 0 !in a
    ensures Image(a + [0] + b, readRc) == Image(a, readRc)
    ensures Code(CText(a + [0] + b)) == Code(CText(a))
  {
    hide Cut, Code;
    var s := a + [0] + b;
    assert s[..|a|] == a && s[|a|] == 0;
    TextUpTo(s, |a|);
  }

  /** Of a text in which the marker first stands behind `pre` is left what stands
      before it, with the newline that ends the text unless nothing does. */
  lemma CutMeans(pre: seq<Byte>, post: seq<Byte>)
    requires var s := pre + MAGIC + post; 0 !in s && forall k: nat :: k < |pre| ==> !MagicAt(s, k)
    ensures var s := pre + MAGIC + post;
      Image(s, true) == if pre != [] && post != [] && post[|post| - 1] == NEWLINE then pre + [NEWLINE] else pre
  {
    hide StrStr, CText, Code;
    var s := pre + MAGIC + post;
    assert s[|pre|..|pre| + MAGIC_LENGTH] == MAGIC && s[..|pre|] == pre;
    assert MagicAt(s, |pre|);
    assert StrStr(s, 0) == |pre|;
    MagicEnds(s, |pre|);
    assert CText(s) == s;
  }

  /** The return code after these lines, which was `rc` before: that of the last. */
  function LastCode(lines: seq<seq<Byte>>, readRc: bool, rc: int): int {
    if readRc && lines != [] then Code(CText(lines[|lines| - 1])) else rc
  }

  lemma LastCodeConcat(a: seq<seq<Byte>>, b: seq<seq<Byte>>, readRc: bool, rc: int)
    ensures LastCode(a + b, readRc, rc) == LastCode(b, readRc, LastCode(a, readRc, rc))
  {
    if b == [] {
      assert a + b == a;
    }
  }

  const PIECE := 8191

  /** What _flush_output prints of an unfinished line, piece by piece. */
  function Pieces(s: seq<Byte>): (r: seq<Byte>)
    ensures |r| <= |s|
    ensures r == s <==> 0 !in s
    ensures r != s ==> |r| < |s|
    decreases |s|
  {
    if s == [] then [] else
      var n := Min(PIECE, |s|);
      assert s == s[..n] + s[n..];
      CText(s[..n]) + Pieces(s[n..])
  }

  lemma PiecesMean(a: seq<Byte>, b: seq<Byte>)
    ensures |a| <= 8191 ==> Pieces(a) == CText(a)
    ensures |a| == 8191 ==> Pieces(a + b) == CText(a) + Pieces(b)
  {
    if 0 < |a| <= 8191 {
      assert a[..|a|] == a && a[|a|..] == [] && CText(a) + [] == CText(a);
    }
    if |a| == 8191 {
      assert (a + b)[..8191] == a && (a + b)[8191..] == b;
    }
  }

  // ---- The return code of the command

  function Ascii(s: string): (b: seq<Byte>)
    requires forall i :: 0 <= i < |s| ==> s[i] < 256 as char
    ensures |b| == |s|
  {
    seq(|s|, i requires 0 <= i < |s| => s[i] as int)
  }

  /** The line in which the return code comes, if the output before it ended
      with `pre` instead of a newline. */
  function CodeLine(pre: seq<Byte>, code: nat): seq<Byte> {
    pre + MAGIC + Ascii(Numeral(code)) + [NEWLINE]
  }

  lemma {:induction false} DigitsOn(a: seq<Byte>, b: seq<Byte>, n: nat)
    requires forall i :: 0 <= i < |a| ==> 48 <= a[i] <= 57
    ensures Digits(a + b, n) == Digits(b, Digits(a, n))
  {
    if a == [] {
      assert a + b == b;
    } else {
      assert (a + b)[1..] == a[1..] + b;
      DigitsOn(a[1..], b, n * 10 + (a[0] - 48));
    }
  }

  lemma {:induction false} DigitsOfNumeral(code: nat)
    ensures var a := Ascii(Numeral(code));
      && (forall i :: 0 <= i < |a| ==> 48 <= a[i] <= 57)
      && Digits(a, 0) == code
      && Digits(a[1..], 0) <= code && (Digits(a[1..], 0) == code <==> code == 0)
  {
    var a := Ascii(Numeral(code));
    if code < 10 {
      assert a == [48 + code] && a[1..] == [];
    } else {
      var b, d := Ascii(Numeral(code / 10)), [48 + code % 10];
      DigitsOfNumeral(code / 10);
      assert a == b + d && a[1..] == b[1..] + d;
      DigitsOn(b, d, 0);
      DigitsOn(b[1..], d, 0);
      assert d[1..] == [];
    }
  }

  /** The code that is echoed is the one that is read if and only if the output
      of the command ended in a newline, or the code is 0; what stood before the
      marker is printed as a line of its own. */
  lemma CodeRead(pre: seq<Byte>, code: nat)
    requires 0 !in pre && forall k: nat :: k < |pre| ==> !MagicAt(CodeLine(pre, code), k)
    ensures var line := CodeLine(pre, code);
      && Image(line, true) == (if pre == [] then [] else pre + [NEWLINE])
      && (Code(CText(line)) == code <==> pre == [] || code == 0)
  {
    hide Digits, StrStr, CText, CodeLine, MagicAt, Atoi;
    var line, a, p := CodeLine(pre, code), Ascii(Numeral(code)), |pre|;
    DigitsOfNumeral(code);
    CodeLineParts(pre, code);
    assert CText(line) == line;
    assert StrStr(line, 0) == p;
    ReadsDigits(a);
    ReadsDigits(a[1..]);
  }

  lemma CodeLineParts(pre: seq<Byte>, code: nat)
    requires 0 !in pre
    ensures var line, a, p := CodeLine(pre, code), Ascii(Numeral(code)), |pre|;
      && |a| > 0 && |line| == p + MAGIC_LENGTH + |a| + 1 && 0 !in line && line[|line| - 1] == NEWLINE
      && MagicAt(line, p) && line[..p] == pre
      && line[p + MAGIC_LENGTH..] == a + [NEWLINE] && line[p + 1 + MAGIC_LENGTH..] == a[1..] + [NEWLINE]
  {
    var line, a, p := CodeLine(pre, code), Ascii(Numeral(code)), |pre|;
    DigitsOfNumeral(code);
    hide Numeral, Ascii, Digits;
    assert 0 !in MAGIC && 0 !in a;
    assert line[p..p + MAGIC_LENGTH] == MAGIC;
  }

  lemma NumberReads(sign: seq<Byte>, a: seq<Byte>, rest: seq<Byte>)
    requires sign == [] || sign == [43] || sign == [45]
    requires a != [] && forall i :: 0 <= i < |a| ==> 48 <= a[i] <= 57
    requires rest != [] ==> !(48 <= rest[0] <= 57)
    ensures Atoi(sign + a + rest) == if sign == [45] then 0 - Digits(a, 0) else Digits(a, 0)
  {
    DigitsOn(a, rest, 0);
    DigitsStop(rest, Digits(a, 0));
    hide Digits;
    var s := sign + a + rest;
    assert s == sign + (a + rest);
    if sign == [] {
      assert s == a + rest && s[0] == a[0];
    } else {
      assert s[0] == sign[0] && s[1..] == a + rest;
    }
  }

  lemma SpaceFirst(b: Byte, s: seq<Byte>)
    requires IsSpace(b)
    ensures Atoi([b] + s) == Atoi(s)
  {
    hide Digits;
    assert ([b] + s)[1..] == s;
  }

  /** atoi: spaces, perhaps a sign, and the number up to what is no digit. */
  lemma {:induction false} AtoiReads(spaces: seq<Byte>, sign: seq<Byte>, n: nat, rest: seq<Byte>)
    requires forall i :: 0 <= i < |spaces| ==> spaces[i] == 32 || 9 <= spaces[i] <= 13
    requires sign == [] || sign == [43] || sign == [45]
    requires rest != [] ==> !(48 <= rest[0] <= 57)
    ensures Atoi(spaces + (sign + Ascii(Numeral(n)) + rest)) == if sign == [45] then 0 - n else n
  {
    hide Atoi, Numeral, Ascii, Digits;
    var a := Ascii(Numeral(n));
    DigitsOfNumeral(n);
    var s := sign + a + rest;
    if spaces == [] {
      NumberReads(sign, a, rest);
      assert spaces + s == s;
    } else {
      AtoiReads(spaces[1..], sign, n, rest);
      SpaceFirst(spaces[0], spaces[1..] + s);
      assert spaces + s == [spaces[0]] + (spaces[1..] + s);
    }
  }

  lemma DigitsStop(rest: seq<Byte>, n: nat)
    requires rest != [] ==> !(48 <= rest[0] <= 57)
    ensures Digits(rest, n) == n
  {
  }

  lemma ReadsDigits(a: seq<Byte>)
    requires forall i :: 0 <= i < |a| ==> 48 <= a[i] <= 57
    ensures Atoi(a + [NEWLINE]) == Digits(a, 0)
  {
    DigitsOn(a, [NEWLINE], 0);
    assert (a + [NEWLINE])[0] == if a == [] then NEWLINE else a[0];
    if a == [] {
      assert (a + [NEWLINE])[1..] == [];
    }
  }
}
