/** Decimal numerals, as `%0*lu` prints them and strtoul reads them, and the
    padding arithmetic of src/common/hostlist.c. */
module Decimal {

  predicate IsDigit(c: char) {
    '0' <= c <= '9'
  }

  predicate AllDigits(s: string) {
    forall i :: 0 <= i < |s| ==> IsDigit(s[i])
  }

  function DigitChar(d: nat): (c: char)
    requires d < 10
    ensures IsDigit(c) && c as int - '0' as int == d
  {
    ('0' as int + d) as char
  }

  /** The number of decimal digits of `n`. */
  function DigitCount(n: nat): (d: nat)
    ensures d >= 1
  {
    if n < 10 then 1 else 1 + DigitCount(n / 10)
  }

  lemma {:induction false} DigitCountMonotone(m: nat, n: nat)
    requires m <= n
    ensures DigitCount(m) <= DigitCount(n)
  {
    if m >= 10 {
      DigitCountMonotone(m / 10, n / 10);
    }
  }

  /** The zeros that pad `n` to `width`. */
  function Pad(n: nat, width: nat): (p: nat)
  {
    if width > DigitCount(n) then width - DigitCount(n) else 0
  }

  /** The length of `n` printed with `width`. */
  function PrintedLength(n: nat, width: nat): (l: nat)
  {
    Pad(n, width) + DigitCount(n)
  }

  /** _zero_padded */
  method ZeroPadded(num: nat, width: nat) returns (pad: nat)
    ensures pad == Pad(num, width)
  {
    var n: nat, left: nat := 1, num / 10;
    while left != 0
      invariant n + (if left == 0 then 0 else DigitCount(left)) == DigitCount(num)
      decreases left
    {
      n := n + 1;
      left := left / 10;
    }
    pad := if width > n then width - n else 0;
  }

  // ---- Numerals

  function Numeral(n: nat): (s: string)
    ensures |s| == DigitCount(n) && AllDigits(s)
  {
    if n < 10 then [DigitChar(n)] else Numeral(n / 10) + [DigitChar(n % 10)]
  }

  function Zeros(k: nat): (s: string)
    ensures |s| == k && AllDigits(s)
  {
    seq(k, _ => '0')
  }

  /** `n` printed with "%0*lu" and `width`. */
  function Padded(n: nat, width: nat): (s: string)
    ensures |s| == PrintedLength(n, width) && AllDigits(s)
  {
    Zeros(Pad(n, width)) + Numeral(n)
  }

  /** The value of a string of digits. */
  function Value(s: string): nat
    requires AllDigits(s)
  {
    if s == [] then 0 else Value(s[..|s| - 1]) * 10 + (s[|s| - 1] as int - '0' as int)
  }

  lemma {:induction false} ValueNumeral(n: nat)
    ensures Value(Numeral(n)) == n
  {
    if n < 10 {
      assert Numeral(n)[..0] == [];
    } else {
      ValueNumeral(n / 10);
      assert Numeral(n)[..|Numeral(n)| - 1] == Numeral(n / 10);
    }
  }

  lemma {:induction false} ValueZeros(k: nat, s: string)
    requires AllDigits(s)
    ensures Value(Zeros(k) + s) == Value(s)
  {
    var t := Zeros(k) + s;
    if s != [] {
      ValueZeros(k, s[..|s| - 1]);
      assert t[..|t| - 1] == Zeros(k) + s[..|s| - 1];
    } else if k > 0 {
      ValueZeros(k - 1, s);
      assert t[..|t| - 1] == Zeros(k - 1) + s;
    }
  }

  /** Reading back what was printed. */
  lemma ValuePadded(n: nat, width: nat)
    ensures Value(Padded(n, width)) == n
  {
    ValueZeros(Pad(n, width), Numeral(n));
    ValueNumeral(n);
  }

  lemma {:induction false} ValueFits(s: string)
    requires AllDigits(s) && s != []
    ensures DigitCount(Value(s)) <= |s|
  {
    var v, t := Value(s), s[..|s| - 1];
    if v >= 10 {
      if t == [] {
        assert false;
      }
      ValueFits(t);
      assert v / 10 == Value(t);
    }
  }

  /** Printing back what was read, with the width it was read at. */
  lemma {:induction false} PaddedValue(s: string)
    requires AllDigits(s) && s != []
    ensures Padded(Value(s), |s|) == s
  {
    ValueFits(s);
    var t, v := s[..|s| - 1], Value(s);
    var c := s[|s| - 1];
    assert s == t + [c];
    if t == [] {
      assert Numeral(v) == [c];
    } else {
      PaddedValue(t);
      ValueFits(t);
      var u := Value(t);
      assert v / 10 == u && v % 10 == c as int - '0' as int;
      if v < 10 {
        assert u == 0 && Numeral(u) == "0";
        assert t == Zeros(|t| - 1) + "0" == Zeros(|t|);
      } else {
        assert Padded(v, |s|) == Zeros(|s| - DigitCount(v)) + (Numeral(u) + [c]);
        assert t == Zeros(|t| - DigitCount(u)) + Numeral(u);
      }
    }
  }

  /** Two widths print a number alike if and only if they pad it alike. */
  lemma PaddedSame(n: nat, w: nat, v: nat)
    ensures Padded(n, w) == Padded(n, v) <==> Pad(n, w) == Pad(n, v)
    ensures Padded(n, w) == Padded(n, v) <==> PrintedLength(n, w) == PrintedLength(n, v)
  {
    if Padded(n, w) == Padded(n, v) {
      assert |Padded(n, w)| == |Padded(n, v)|;
    }
  }

  /** The text and the width determine each other: equal numerals are equal
      numbers printed at equal lengths. */
  lemma PaddedInjective(m: nat, w: nat, n: nat, v: nat)
    ensures Padded(m, w) == Padded(n, v) <==> m == n && PrintedLength(m, w) == PrintedLength(n, v)
  {
    ValuePadded(m, w);
    ValuePadded(n, v);
    PaddedSame(m, w, v);
  }

  /** How many digits a string begins with. */
  function DigitRun(s: string): (n: nat)
    ensures n <= |s| && AllDigits(s[..n])
  {
    if s != [] && IsDigit(s[0]) then 1 + DigitRun(s[1..]) else 0
  }

  lemma {:induction false} AllDigitRun(s: string)
    requires AllDigits(s)
    ensures DigitRun(s) == |s|
  {
    if s != [] {
      AllDigitRun(s[1..]);
    }
  }

  /** Where a run of digits ends. */
  lemma {:induction false} DigitRunEnds(s: string, n: nat)
    requires n <= |s| && AllDigits(s[..n]) && (n < |s| ==> !IsDigit(s[n]))
    ensures DigitRun(s) == n
  {
    if n > 0 {
      assert s[1..][..n - 1] == s[..n][1..];
      assert s[0] == s[..n][0];
      DigitRunEnds(s[1..], n - 1);
    }
  }
}
