/** When two ranges may share one format width: _width_equiv of
    src/common/hostlist.c, which rewrites the widths it is given. */
module Widths {
  import opened Decimal

  datatype Unified = Incompatible | Unified(wn: nat, wm: nat)

  /** _width_equiv as a function of the two numbers and their widths: the
      widths afterwards, or none if the two are not equivalent. */
  function Unify(n: nat, wn: nat, m: nat, wm: nat): Unified {
    if Pad(n, wn) != Pad(n, wm) && Pad(m, wm) != Pad(m, wn) then Incompatible
    else if Pad(n, wn) != Pad(n, wm) then Unified(wn, wn)
    else Unified(wm, wm)
  }

  method WidthEquiv(n: nat, wn: nat, m: nat, wm: nat) returns (equiv: bool, wn': nat, wm': nat)
    ensures equiv == Unify(n, wn, m, wm).Unified?
    ensures Unified(wn', wm') == if equiv then Unify(n, wn, m, wm) else Unified(wn, wm)
  {
    wn', wm' := wn, wm;
    var npad := ZeroPadded(n, wn);
    var nmpad := ZeroPadded(n, wm);
    var mpad := ZeroPadded(m, wm);
    var mnpad := ZeroPadded(m, wn);
    if npad != nmpad && mpad != mnpad {
      return false, wn, wm;
    }
    if npad != nmpad {
      if mpad == mnpad {
        wm' := wn;
        return true, wn, wn;
      } else {
        return false, wn, wm;
      }
    } else {
      if npad == nmpad {
        wn' := wm;
        return true, wm, wm;
      } else {
        return false, wn, wm;
      }
    }
  }

  lemma UnifySame(n: nat, m: nat, w: nat)
    ensures Unify(n, w, m, w) == Unified(w, w)
  {
  }

  /** A width that prints `n` like `w` does prints every larger number like `w`
      does; so a range may be given any width that suits its lowest number. */
  lemma SameWidthAbove(n: nat, k: nat, w: nat, v: nat)
    requires n <= k && Pad(n, w) == Pad(n, v)
    ensures Padded(k, w) == Padded(k, v)
  {
    DigitCountMonotone(n, k);
    PaddedSame(k, w, v);
  }

  /** Unification never changes what anything prints: not `n` or any number
      above it, nor `m` or any number above it. */
  lemma UnifyKeepsPrinting(n: nat, wn: nat, m: nat, wm: nat, k: nat)
    requires Unify(n, wn, m, wm).Unified?
    ensures n <= k ==> Padded(k, Unify(n, wn, m, wm).wn) == Padded(k, wn)
    ensures m <= k ==> Padded(k, Unify(n, wn, m, wm).wm) == Padded(k, wm)
  {
    var u := Unify(n, wn, m, wm);
    if n <= k {
      SameWidthAbove(n, k, u.wn, wn);
    }
    if m <= k {
      SameWidthAbove(m, k, u.wm, wm);
    }
  }

  /** Two widths can be unified if and only if some one width prints both
      numbers as they are printed now. */
  lemma UnifyComplete(n: nat, wn: nat, m: nat, wm: nat)
    ensures Unify(n, wn, m, wm).Unified? <==>
      exists w :: Padded(n, w) == Padded(n, wn) && Padded(m, w) == Padded(m, wm)
  {
    var u := Unify(n, wn, m, wm);
    if u.Unified? {
      UnifyKeepsPrinting(n, wn, m, wm, n);
      UnifyKeepsPrinting(n, wn, m, wm, m);
      assert Padded(n, u.wn) == Padded(n, wn) && Padded(m, u.wn) == Padded(m, wm);
    } else if w :| Padded(n, w) == Padded(n, wn) && Padded(m, w) == Padded(m, wm) {
      PaddedSame(n, w, wn);
      PaddedSame(m, w, wm);
      assert false;
    }
  }

  /** So it depends on the printed lengths alone: they are equal, or the longer
      number is printed without padding. */
  lemma UnifyByLength(n: nat, wn: nat, m: nat, wm: nat)
    ensures var ln, lm := PrintedLength(n, wn), PrintedLength(m, wm);
      Unify(n, wn, m, wm).Unified? <==>
        ln == lm || (ln < lm && Pad(m, wm) == 0) || (lm < ln && Pad(n, wn) == 0)
  {
  }
}
