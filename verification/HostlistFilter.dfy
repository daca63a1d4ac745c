/** Removing hosts while walking through them. */
module HostlistFilter {
  // The iterator operations of src/common/hostlist.c and hostlist_filter_regex of
  // src/pdsh/opt.c.

  import opened HostRanges
  import opened Expansion
  import opened Hostlist
  import opened Options

  /** An iterator that stands on a host of the list, before the first host of a
      range, or behind the last range. */
  predicate OnList(hr: seq<HostRange>, i: Iter) {
    && 0 <= i.idx <= |hr|
    && (i.idx < |hr| ==> -1 <= i.depth < hr[i.idx].Count())
  }

  /** The position among the hosts that comes next. */
  ghost function Ahead(hr: seq<HostRange>, i: Iter): nat
    requires AllValid(hr) && OnList(hr, i)
  {
    if i.idx == |hr| then |Expand(hr)| else Before(hr, i.idx) + (i.depth + 1)
  }

  /** _iterator_advance */
  function StepOn(hr: seq<HostRange>, i: Iter): Iter
    requires OnList(hr, i)
  {
    if i.idx > |hr| - 1 then i
    else if i.depth + 1 > hr[i.idx].hi - hr[i.idx].lo then Iter(i.idx + 1, 0)
    else Iter(i.idx, i.depth + 1)
  }

  /** Advancing moves on to the next position, whichever range has it. */
  lemma StepAhead(hr: seq<HostRange>, i: Iter)
    requires AllValid(hr) && OnList(hr, i)
    ensures var j := StepOn(hr, i);
      && OnList(hr, j)
      && Ahead(hr, i) <= |Expand(hr)|
      && (j.idx < |hr| <==> Ahead(hr, i) < |Expand(hr)|)
      && (j.idx < |hr| ==>
            j.depth >= 0 && Before(hr, j.idx) + j.depth == Ahead(hr, i) && Ahead(hr, j) == Ahead(hr, i) + 1)
      && (j.idx >= |hr| ==> Ahead(hr, j) == Ahead(hr, i))
  {
    hide Expand, HostRange.Hosts;
    var j := StepOn(hr, i);
    BeforeEnds(hr);
    if i.idx < |hr| {
      BeforeNext(hr, i.idx);
      if j.idx < |hr| {
        BeforeNext(hr, j.idx);
      }
    }
  }

  /** hostlist_next, for the iterator number `k` of the list. */
  method Next(hl: Hostlist, k: nat) returns (host: Option<string>)
    requires hl.Valid() && k < |hl.ilist| && OnList(hl.hr, hl.ilist[k])
    modifies hl`ilist
    ensures |hl.ilist| == |old(hl.ilist)| && forall j :: 0 <= j < |hl.ilist| && j != k ==>
      hl.ilist[j] == old(hl.ilist[j])
    ensures OnList(hl.hr, hl.ilist[k])
    ensures var p := Ahead(hl.hr, old(hl.ilist[k]));
      && p <= |hl.Names()|
      && (p == |hl.Names()| ==> host == None && Ahead(hl.hr, hl.ilist[k]) == p)
      && (p < |hl.Names()| ==>
        p < |Cells(hl.hr)| && host == Some(Cells(hl.hr)[p].shown) && OnHost(hl.hr, hl.ilist[k], p))
  {
    hide Before, Expand, HostRange.Hosts, Cells;
    StepAhead(hl.hr, hl.ilist[k]);
    hl.ilist := hl.ilist[k := StepOn(hl.hr, hl.ilist[k])];
    var i := hl.ilist[k];
    if i.idx > |hl.hr| - 1 {
      return None;
    }
    CellAt(hl.hr, i.idx, i.depth);
    host := Some(hl.hr[i.idx].Shown(hl.hr[i.idx].lo + i.depth));
  }

  /** The iterator stands on the host at position `p`. */
  ghost predicate OnHost(hr: seq<HostRange>, i: Iter, p: nat)
    requires AllValid(hr)
  {
    OnList(hr, i) && i.idx < |hr| && i.depth >= 0 && Before(hr, i.idx) + i.depth == p
  }

  /** hostlist_remove: the host on which the iterator stands goes, and the next
      position is its place, or an earlier one. */
  method Remove(hl: Hostlist, k: nat, ghost p: nat)
    requires hl.Valid() && k < |hl.ilist| && OnHost(hl.hr, hl.ilist[k], p)
    modifies hl`hr, hl`nhosts, hl`ilist
    ensures hl.Valid() && |hl.ilist| == |old(hl.ilist)|
    ensures p < |old(hl.Names())| && hl.Names() == old(hl.Names())[..p] + old(hl.Names())[p + 1..]
    ensures p < |old(Cells(hl.hr))| && Cells(hl.hr) == old(Cells(hl.hr))[..p] + old(Cells(hl.hr))[p + 1..]
    ensures OnList(hl.hr, hl.ilist[k]) && Ahead(hl.hr, hl.ilist[k]) <= p
  {
    hide Expand, HostRange.Hosts, HostRange.Valid, Before, Cells;
    ghost var was := hl.hr;
    var i := hl.ilist[k];
    var h := hl.hr[i.idx];
    HostAt(was, i.idx, i.depth);
    ExpandWithoutNth(was, i.idx, i.depth);
    CellsWithoutNth(was, i.idx, i.depth);
    RemovedRanges(was, i);
    RemovedAhead(was, i);
    var (rest, upper) := DeleteHost(h, h.lo + i.depth);
    hl.hr := hl.hr[i.idx := rest];
    if upper.Some? {
      var ok := hl.InsertRange(upper.value, i.idx + 1);
      hl.ilist := hl.ilist[k := Iter(i.idx + 1, -1)];
    } else if rest.Empty() {
      hl.DeleteRange(i.idx);
    } else {
      hl.ilist := hl.ilist[k := Iter(i.idx, i.depth - 1)];
    }
    assert (hl.hr, hl.ilist[k]) == Removed(was, i);
    hl.nhosts := hl.nhosts - 1;
  }

  /** What hostlist_remove makes of the ranges and of the iterator. */
  function Removed(hr: seq<HostRange>, i: Iter): (seq<HostRange>, Iter)
    requires OnList(hr, i) && i.idx < |hr| && i.depth >= 0
  {
    var n, h := i.idx, hr[i.idx];
    var (rest, upper) := DeleteHost(h, h.lo + i.depth);
    var hr1 := hr[n := rest];
    if upper.Some? then (hr1[..n + 1] + [upper.value] + hr1[n + 1..], Iter(n + 1, -1))
    else if rest.Empty() then (hr1[..n] + hr1[n + 1..], Shifted(i, n, 0, 1))
    else (hr1, Iter(n, i.depth - 1))
  }

  lemma RemovedRanges(hr: seq<HostRange>, i: Iter)
    requires AllValid(hr) && OnList(hr, i) && i.idx < |hr| && i.depth >= 0
    ensures Removed(hr, i).0 == hr[..i.idx] + Without(hr[i.idx], hr[i.idx].lo + i.depth) + hr[i.idx + 1..]
  {
    var hr', n, w := Removed(hr, i).0, i.idx, Without(hr[i.idx], hr[i.idx].lo + i.depth);
    assert forall k :: 0 <= k < |hr'| ==> hr'[k] == (hr[..n] + w + hr[n + 1..])[k];
  }

  lemma RemovedAhead(hr: seq<HostRange>, i: Iter)
    requires AllValid(hr) && OnList(hr, i) && i.idx < |hr| && i.depth >= 0 && AllValid(Removed(hr, i).0)
    ensures var (hr', i') := Removed(hr, i);
      OnList(hr', i') && Ahead(hr', i') <= Before(hr, i.idx) + i.depth
  {
    hide HostRange.Hosts, Before, AllValid;
    var (hr', i') := Removed(hr, i);
    var n := i.idx;
    var h := hr[n];
    assert h.Valid() by {
      RangeValid(hr, n);
    }
    var d := DeleteHost(h, h.lo + i.depth);
    if d.1.Some? {
      SameBefore(hr, hr', n);
      BeforeNext(hr', n);
    } else if d.0.Empty() {
      if n > 0 {
        SameBefore(hr, hr', n - 1);
        BeforeNext(hr, n - 1);
        RangeValid(hr, n - 1);
      } else {
        BeforeEnds(hr');
        if hr' != [] {
          RangeValid(hr', 0);
        }
      }
    } else {
      SameBefore(hr, hr', n);
    }
  }

  lemma RangeValid(hr: seq<HostRange>, n: nat)
    requires AllValid(hr) && n < |hr|
    ensures hr[n].Valid()
  {
  }

  lemma SameBefore(hr: seq<HostRange>, hr': seq<HostRange>, n: nat)
    requires AllValid(hr) && AllValid(hr') && n <= |hr| && n <= |hr'|
    requires forall i :: 0 <= i < n ==> hr[i] == hr'[i]
    ensures Before(hr', n) == Before(hr, n)
  {
    assert hr[..n] == hr'[..n];
  }

  /** What a filter keeps. */
  function Kept<T>(s: seq<T>, keep: T -> bool): seq<T> {
    if s == [] then []
    else Kept(s[..|s| - 1], keep) + (if keep(s[|s| - 1]) then [s[|s| - 1]] else [])
  }

  /** hostlist_filter_regex, with the outcome of the match as a parameter: the
      names are matched as the iterator gives them. */
  method FilterRegex(hl: Hostlist, matches: string -> bool, exclude: bool)
    requires hl.Valid()
    modifies hl`hr, hl`nhosts, hl`ilist
    ensures hl.Valid() && |hl.ilist| == |old(hl.ilist)|
    ensures Cells(hl.hr) == Kept(old(Cells(hl.hr)), (c: Cell) => matches(c.shown) != exclude)
    ensures (forall c :: c in old(Cells(hl.hr)) ==> c.shown == c.name) ==>
      hl.Names() == Kept(old(hl.Names()), h => matches(h) != exclude)
  {
    hide Ahead, OnList, OnHost, Expand, Kept, Cells;
    ghost var cells, keep := Cells(hl.hr), (c: Cell) => matches(c.shown) != exclude;
    ghost var j: nat := 0;
    hl.ilist := [Iter(0, -1)] + hl.ilist;
    AtStart(hl.hr);
    assert cells[..0] == [] && Kept(cells[..0], keep) == [] by {
      KeptNone(keep);
    }
    while true
      invariant hl.Valid() && |hl.ilist| == |old(hl.ilist)| + 1 && OnList(hl.hr, hl.ilist[0])
      invariant j <= |cells| && Cells(hl.hr) == Kept(cells[..j], keep) + cells[j..]
      invariant Ahead(hl.hr, hl.ilist[0]) <= |Kept(cells[..j], keep)|
      decreases |cells| - j, |hl.Names()| - Ahead(hl.hr, hl.ilist[0])
    {
      ghost var p := Ahead(hl.hr, hl.ilist[0]);
      CellNames(hl.hr);
      var host := Next(hl, 0);
      if host.None? {
        break;
      }
      FilterStep(cells, j, keep, Cells(hl.hr), p);
      AheadBounded(hl.hr, hl.ilist[0], p);
      if p == |Kept(cells[..j], keep)| {
        j := j + 1;
      }
      if exclude == matches(host.value) {
        Remove(hl, 0, p);
      }
    }
    FilterEnd(cells, j, keep, Cells(hl.hr));
    hl.ilist := hl.ilist[1..];
    CellNames(old(hl.hr));
    CellNames(hl.hr);
    if forall c :: c in cells ==> c.shown == c.name {
      KeptNames(cells, h => matches(h) != exclude, keep);
    }
  }

  /** With whole names it does not matter. */
  lemma {:induction false} KeptNames(s: seq<Cell>, keep: string -> bool, keepCell: Cell -> bool)
    requires forall c :: c in s ==> keepCell(c) == keep(c.name)
    ensures NamesIn(Kept(s, keepCell)) == Kept(NamesIn(s), keep)
  {
    if s != [] {
      var n := |s| - 1;
      KeptNames(s[..n], keep, keepCell);
      assert NamesIn(s)[..n] == NamesIn(s[..n]);
    }
  }

  lemma AheadBounded(hr: seq<HostRange>, i: Iter, p: nat)
    requires AllValid(hr) && OnHost(hr, i, p)
    ensures Ahead(hr, i) == p + 1 <= |Expand(hr)|
  {
    hide Expand;
    BeforeNext(hr, i.idx);
  }

  lemma {:induction false} KeptAll<T>(names: seq<T>, keep: T -> bool)
    ensures forall i :: 0 <= i < |Kept(names, keep)| ==> keep(Kept(names, keep)[i])
  {
    if names != [] {
      KeptAll(names[..|names| - 1], keep);
    }
  }

  /** One turn of the filter, with the hosts before `j` dealt with: a host among
      those already kept is kept again; the first after them is host `j`. */
  lemma FilterStep<T>(names: seq<T>, j: nat, keep: T -> bool, now: seq<T>, p: nat)
    requires j <= |names| && now == Kept(names[..j], keep) + names[j..]
    requires p < |now| && p <= |Kept(names[..j], keep)|
    ensures p < |Kept(names[..j], keep)| ==> keep(now[p])
    ensures p == |Kept(names[..j], keep)| ==>
      && j < |names|
      && |Kept(names[..j + 1], keep)| == (if keep(now[p]) then p + 1 else p)
      && Kept(names[..j + 1], keep) + names[j + 1..] == if keep(now[p]) then now else now[..p] + now[p + 1..]
  {
    KeptAll(names[..j], keep);
    if p == |Kept(names[..j], keep)| {
      assert names[..j + 1][..j] == names[..j] && names[..j + 1][j] == names[j] == now[p];
      assert now[p + 1..] == names[j + 1..];
    } else {
      assert now[p] == Kept(names[..j], keep)[p];
    }
  }

  lemma FilterEnd<T>(names: seq<T>, j: nat, keep: T -> bool, now: seq<T>)
    requires j <= |names| && now == Kept(names[..j], keep) + names[j..]
    requires |now| <= |Kept(names[..j], keep)|
    ensures now == Kept(names, keep)
  {
    assert names[..j] == names;
  }

  /** A host is kept exactly if the filter says so, as often as it was there. */
  lemma {:induction false} KeptCounts<T>(names: seq<T>, keep: T -> bool, h: T)
    ensures multiset(Kept(names, keep))[h] == if keep(h) then multiset(names)[h] else 0
  {
    if names != [] {
      var n := |names| - 1;
      KeptCounts(names[..n], keep, h);
      assert names == names[..n] + [names[n]];
    }
  }

  lemma KeptNone<T>(keep: T -> bool)
    ensures Kept([], keep) == []
  {
  }

  lemma AtStart(hr: seq<HostRange>)
    requires AllValid(hr)
    ensures OnList(hr, Iter(0, -1)) && Ahead(hr, Iter(0, -1)) == 0
  {
    BeforeEnds(hr);
  }
}
