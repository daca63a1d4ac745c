/** What a list of ranges stands for: one sequence of host names. */
module Expansion {
  import opened HostRanges
  import opened Sequences

  predicate AllValid(hr: seq<HostRange>) {
    forall i :: 0 <= i < |hr| ==> hr[i].Valid()
  }

  function Expand(hr: seq<HostRange>): (s: seq<string>)
    requires AllValid(hr)
  {
    if hr == [] then [] else Expand(hr[..|hr| - 1]) + hr[|hr| - 1].Hosts()
  }

  lemma ExpandSnoc(hr: seq<HostRange>, r: HostRange)
    requires AllValid(hr) && r.Valid()
    ensures AllValid(hr + [r]) && Expand(hr + [r]) == Expand(hr) + r.Hosts()
  {
    assert (hr + [r])[..|hr|] == hr;
  }

  lemma {:induction false} ExpandConcat(a: seq<HostRange>, b: seq<HostRange>)
    requires AllValid(a) && AllValid(b)
    ensures AllValid(a + b) && Expand(a + b) == Expand(a) + Expand(b)
  {
    hide HostRange.Hosts, HostRange.Valid;
    if b == [] {
      assert a + b == a;
      assert Expand(a) + [] == Expand(a);
    } else {
      ExpandConcat(a, b[..|b| - 1]);
      ConcatStep(a, b[..|b| - 1], b[|b| - 1]);
      assert b == b[..|b| - 1] + [b[|b| - 1]];
    }
  }

  lemma ConcatStep(a: seq<HostRange>, c: seq<HostRange>, r: HostRange)
    requires AllValid(a) && AllValid(c) && r.Valid() && AllValid(a + c) && Expand(a + c) == Expand(a) + Expand(c)
    ensures AllValid(c + [r]) && AllValid(a + (c + [r])) && Expand(a + (c + [r])) == Expand(a) + Expand(c + [r])
  {
    ExpandSnoc(c, r);
    ExpandSnoc(a + c, r);
    hide Expand, AllValid, HostRange.Valid, HostRange.Hosts;
    assert (a + c) + [r] == a + (c + [r]);
    Assoc(Expand(a), Expand(c), r.Hosts());
  }

  lemma ExpandOne(r: HostRange)
    requires r.Valid()
    ensures AllValid([r]) && Expand([r]) == r.Hosts()
  {
    assert [r][..0] == [];
    assert Expand([r]) == [] + r.Hosts();
  }

  /** The list, cut around its range `i`. */
  lemma ExpandAt(hr: seq<HostRange>, i: nat)
    requires AllValid(hr) && i < |hr|
    ensures AllValid(hr[..i]) && AllValid(hr[i + 1..])
    ensures Expand(hr) == Expand(hr[..i]) + hr[i].Hosts() + Expand(hr[i + 1..])
  {
    hide Expand, HostRange.Hosts, HostRange.Valid;
    assert hr == (hr[..i] + [hr[i]]) + hr[i + 1..];
    ExpandSnoc(hr[..i], hr[i]);
    ExpandConcat(hr[..i] + [hr[i]], hr[i + 1..]);
  }

  /** Another stretch of ranges in the place of range `i`. */
  lemma ExpandReplace(hr: seq<HostRange>, i: nat, rs: seq<HostRange>)
    requires AllValid(hr) && i < |hr| && AllValid(rs)
    ensures var hr' := hr[..i] + rs + hr[i + 1..];
      AllValid(hr') && Expand(hr') == Expand(hr[..i]) + Expand(rs) + Expand(hr[i + 1..])
  {
    ExpandConcat(hr[..i], rs);
    ExpandConcat(hr[..i] + rs, hr[i + 1..]);
  }

  /** The hosts of two adjoining ranges that print alike. */
  lemma HostsJoin(h1: HostRange, h2: HostRange)
    requires h1.Valid() && h2.Valid() && !h1.single && !h2.single
    requires h1.prefix == h2.prefix && h1.width == h2.width && h1.hi + 1 == h2.lo
    ensures h1.(hi := h2.hi).Valid() && h1.(hi := h2.hi).Hosts() == h1.Hosts() + h2.Hosts()
  {
    var h := h1.(hi := h2.hi);
    forall i | 0 <= i < h.Count()
      ensures h.Hosts()[i] == (h1.Hosts() + h2.Hosts())[i]
    {
      if i < h1.Count() {
        assert h.Name(h.lo + i) == h1.Name(h1.lo + i);
      } else {
        assert h.Name(h.lo + i) == h2.Name(h2.lo + (i - h1.Count()));
      }
    }
  }

  /** Part of a range. */
  lemma HostsSlice(h: HostRange, a: nat, b: nat)
    requires h.Valid() && !h.single && h.lo <= a <= b <= h.hi
    ensures h.(lo := a, hi := b).Valid()
    ensures h.(lo := a, hi := b).Hosts() == h.Hosts()[a - h.lo..b - h.lo + 1]
  {
    var p := h.(lo := a, hi := b);
    forall i | 0 <= i < p.Count()
      ensures p.Hosts()[i] == h.Hosts()[a - h.lo..b - h.lo + 1][i]
    {
      assert p.Name(p.lo + i) == h.Name(h.lo + (a - h.lo + i));
    }
  }

  lemma ExpandTwo(r: HostRange, q: HostRange)
    requires r.Valid() && q.Valid()
    ensures AllValid([r, q]) && Expand([r, q]) == r.Hosts() + q.Hosts()
  {
    ExpandOne(r);
    ExpandSnoc([r], q);
    assert [r, q] == [r] + [q];
  }

  // ---- Canonical widths

  function CanonAll(hr: seq<HostRange>): (c: seq<HostRange>)
    ensures |c| == |hr|
  {
    seq(|hr|, i requires 0 <= i < |hr| => hr[i].Canon())
  }

  /** Lists that differ only in how widths are recorded stand for the same. */
  lemma {:induction false} ExpandByCanon(a: seq<HostRange>, b: seq<HostRange>)
    requires AllValid(a) && AllValid(b) && CanonAll(a) == CanonAll(b)
    ensures Expand(a) == Expand(b)
  {
    hide HostRange.Hosts, HostRange.Valid, HostRange.Canon;
    assert |CanonAll(a)| == |CanonAll(b)|;
    if a != [] {
      var n := |a| - 1;
      CanonAllAt(a, b, n);
      ExpandByCanon(a[..n], b[..n]);
      a[n].CanonHosts(b[n]);
    }
  }

  lemma CanonAllAt(a: seq<HostRange>, b: seq<HostRange>, n: nat)
    requires CanonAll(a) == CanonAll(b) && n < |a|
    ensures |a| == |b| && a[n].Canon() == b[n].Canon()
    ensures CanonAll(a[..n]) == CanonAll(b[..n])
  {
    hide HostRange.Canon;
    assert |CanonAll(a)| == |CanonAll(b)|;
    assert CanonAll(a)[n] == CanonAll(b)[n];
    forall i | 0 <= i < n
      ensures CanonAll(a[..n])[i] == CanonAll(b[..n])[i]
    {
      assert CanonAll(a)[i] == CanonAll(b)[i];
    }
  }

  // ---- Hosts with the kind of range they are in

  /** A host, whether its range stands for it alone, as a whole name, and how an
      iterator gives it. */
  datatype Cell = Cell(name: string, whole: bool, shown: string)

  function CellsOf(r: HostRange): (s: seq<Cell>)
    requires r.Valid()
    ensures |s| == r.Count()
  {
    seq(r.Count(), i requires 0 <= i < r.Count() => Cell(r.Name(r.lo + i), r.single, r.Shown(r.lo + i)))
  }

  function Cells(hr: seq<HostRange>): (s: seq<Cell>)
    requires AllValid(hr)
  {
    if hr == [] then [] else Cells(hr[..|hr| - 1]) + CellsOf(hr[|hr| - 1])
  }

  function NamesIn(s: seq<Cell>): (names: seq<string>)
    ensures |names| == |s|
  {
    seq(|s|, i requires 0 <= i < |s| => s[i].name)
  }

  lemma NamesInConcat(a: seq<Cell>, b: seq<Cell>)
    ensures NamesIn(a + b) == NamesIn(a) + NamesIn(b)
  {
  }

  lemma {:induction false} CellNames(hr: seq<HostRange>)
    requires AllValid(hr)
    ensures NamesIn(Cells(hr)) == Expand(hr)
  {
    if hr != [] {
      var n := |hr| - 1;
      CellNames(hr[..n]);
      NamesInConcat(Cells(hr[..n]), CellsOf(hr[n]));
      assert NamesIn(CellsOf(hr[n])) == hr[n].Hosts();
    }
  }

  lemma CellsSnoc(hr: seq<HostRange>, r: HostRange)
    requires AllValid(hr) && r.Valid()
    ensures AllValid(hr + [r]) && Cells(hr + [r]) == Cells(hr) + CellsOf(r)
  {
    assert (hr + [r])[..|hr|] == hr;
  }

  lemma {:induction false} CellsConcat(a: seq<HostRange>, b: seq<HostRange>)
    requires AllValid(a) && AllValid(b)
    ensures AllValid(a + b) && Cells(a + b) == Cells(a) + Cells(b)
  {
    hide CellsOf, HostRange.Valid;
    if b == [] {
      assert a + b == a;
      assert Cells(a) + [] == Cells(a);
    } else {
      var c, r := b[..|b| - 1], b[|b| - 1];
      CellsConcat(a, c);
      CellsStep(a, c, r);
      assert b == c + [r];
    }
  }

  lemma CellsStep(a: seq<HostRange>, c: seq<HostRange>, r: HostRange)
    requires AllValid(a) && AllValid(c) && r.Valid() && AllValid(a + c) && Cells(a + c) == Cells(a) + Cells(c)
    ensures AllValid(c + [r]) && AllValid(a + (c + [r])) && Cells(a + (c + [r])) == Cells(a) + Cells(c + [r])
  {
    hide Cells, AllValid, HostRange.Valid, CellsOf;
    CellsSnoc(c, r);
    CellsSnoc(a + c, r);
    assert (a + c) + [r] == a + (c + [r]);
    Assoc(Cells(a), Cells(c), CellsOf(r));
  }

  /** The list, cut around its range `i`, with other ranges there. */
  lemma CellsAt(hr: seq<HostRange>, i: nat, rs: seq<HostRange>)
    requires AllValid(hr) && i < |hr| && AllValid(rs)
    ensures Cells(hr) == Cells(hr[..i]) + CellsOf(hr[i]) + Cells(hr[i + 1..])
    ensures AllValid(hr[..i] + rs + hr[i + 1..])
    ensures Cells(hr[..i] + rs + hr[i + 1..]) == Cells(hr[..i]) + Cells(rs) + Cells(hr[i + 1..])
  {
    hide Cells, CellsOf, HostRange.Valid;
    assert hr == (hr[..i] + [hr[i]]) + hr[i + 1..];
    CellsSnoc(hr[..i], hr[i]);
    CellsConcat(hr[..i] + [hr[i]], hr[i + 1..]);
    CellsConcat(hr[..i], rs);
    CellsConcat(hr[..i] + rs, hr[i + 1..]);
  }

  /** Rewriting widths within their classes changes no host. */
  lemma {:induction false} CellsByCanon(a: seq<HostRange>, b: seq<HostRange>)
    requires AllValid(a) && AllValid(b) && CanonAll(a) == CanonAll(b)
    ensures Cells(a) == Cells(b)
  {
    hide HostRange.Valid, HostRange.Canon, CellsOf;
    assert |CanonAll(a)| == |CanonAll(b)|;
    if a != [] {
      var n := |a| - 1;
      CanonAllAt(a, b, n);
      CellsByCanon(a[..n], b[..n]);
      CellsCanon(a[n], b[n]);
    }
  }

  lemma CellsCanon(r: HostRange, q: HostRange)
    requires r.Valid() && q.Valid() && r.Canon() == q.Canon()
    ensures CellsOf(r) == CellsOf(q)
  {
    CanonParts(r, q);
    hide HostRange.Canon, HostRange.Name, HostRange.Shown;
    forall i | 0 <= i < r.Count()
      ensures CellsOf(r)[i] == CellsOf(q)[i]
    {
      r.CanonName(q, r.lo + i);
    }
  }
}
