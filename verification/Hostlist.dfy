/** The compressed host list of src/common/hostlist.c: a list of ranges that
    stands for a plain sequence of host names, with its live iterators. */
module Hostlist {
  import opened Decimal
  import opened Widths
  import opened HostRanges
  import opened Expansion
  import opened Options
  import opened Sequences

  /** An iterator: the range it stands in, and how many hosts of that range it
      has passed, counted from -1. */
  datatype Iter = Iter(idx: int, depth: int)

  /** hostrange_delete_host: what is left of the range, and its upper part if
      the host was neither the first nor the last. */
  function DeleteHost(h: HostRange, n: nat): (HostRange, Option<HostRange>)
  {
    if n == h.lo then (h.(lo := h.lo + 1), None)
    else if n == h.hi then (h.(hi := h.hi - 1), None)
    else (h.(hi := n - 1), Some(h.(lo := n + 1)))
  }

  /** The ranges that remain of `h` without its host number `n`. */
  function Without(h: HostRange, n: nat): (s: seq<HostRange>)
    requires h.Valid() && h.lo <= n <= h.hi
    ensures AllValid(s)
  {
    if h.single || h.lo == h.hi then []
    else
      var (rest, upper) := DeleteHost(h, n);
      if upper.Some? then [rest, upper.value] else [rest]
  }

  lemma WithoutHosts(h: HostRange, n: nat)
    requires h.Valid() && h.lo <= n <= h.hi
    ensures var k := n - h.lo; Expand(Without(h, n)) == h.Hosts()[..k] + h.Hosts()[k + 1..]
  {
    hide HostRange.Hosts, Expand;
    var k := n - h.lo;
    if h.single || h.lo == h.hi {
      assert h.Hosts()[..k] + h.Hosts()[k + 1..] == [];
      ExpandNone();
    } else if n == h.lo {
      HostsSlice(h, n + 1, h.hi);
      ExpandOne(h.(lo := n + 1));
    } else if n == h.hi {
      HostsSlice(h, h.lo, n - 1);
      ExpandOne(h.(hi := n - 1));
    } else {
      HostsSlice(h, h.lo, n - 1);
      HostsSlice(h, n + 1, h.hi);
      ExpandTwo(h.(hi := n - 1), h.(lo := n + 1));
    }
  }

  lemma ExpandNone()
    ensures Expand([]) == []
  {
  }

  /** The range begins right behind the last one, and can be given its width. */
  predicate Extends(hr: seq<HostRange>, r: HostRange) {
    && hr != [] && hr[|hr| - 1].prefix == r.prefix && hr[|hr| - 1].single == r.single
    && hr[|hr| - 1].hi + 1 == r.lo && Unify(hr[|hr| - 1].lo, hr[|hr| - 1].width, r.lo, r.width).Unified?
  }

  class Hostlist {
    var hr: seq<HostRange>
    var nhosts: int
    var ilist: seq<Iter>

    ghost predicate Valid()
      reads this
    {
      AllValid(hr) && nhosts == |Expand(hr)|
    }

    /** The host names the list stands for. */
    ghost function Names(): seq<string>
      requires AllValid(hr)
      reads this
    {
      Expand(hr)
    }

    constructor ()
      ensures Valid() && hr == [] && Names() == [] && ilist == []
    {
      hr, nhosts, ilist := [], 0, [];
    }

    /** hostlist_push_range.  The number returned is the length of the whole
        list afterwards. */
    method PushRange(r: HostRange) returns (retval: int)
      requires Valid() && r.Valid()
      modifies this`hr, this`nhosts
      ensures Valid() && Names() == old(Names()) + r.Hosts()
      ensures retval == nhosts
      ensures |hr| <= |old(hr)| + 1
      ensures if Extends(old(hr), r) then
          && |hr| == |old(hr)| && hr[..|hr| - 1] == old(hr)[..|hr| - 1]
          && hr[|hr| - 1] == old(hr)[|hr| - 1].(hi := r.hi, width := hr[|hr| - 1].width)
        else hr == old(hr) + [r]
    {
      hide Unify, DigitCount, StrCmp, Padded, Expand, HostRange.Hosts;
      var joined := false;
      if |hr| > 0 {
        var tail := hr[|hr| - 1];
        StrCmpEqual(tail.prefix, r.prefix);
        if PrefixCmp(tail, r) == 0 && tail.hi == r.lo - 1 {
          var ok, tail', r' := WidthCombine(tail, r);
          if ok {
            CanonKept(tail, tail'.width);
            CanonKept(r, r'.width);
            JoinTail(hr, r, tail', r');
            hr := hr[|hr| - 1 := tail'.(hi := r.hi)];
            joined := true;
          }
        }
      }
      if !joined {
        ExpandSnoc(hr, r);
        hr := hr + [r];
      }
      nhosts := nhosts + r.Count();
      retval := nhosts;
    }

    /** hostlist_push_list, for a list other than this one. */
    method PushList(h2: Hostlist)
      requires Valid() && h2.Valid() && h2 != this
      modifies this`hr, this`nhosts
      ensures Valid() && Names() == old(Names()) + h2.Names()
    {
      hide HostRange.Hosts;
      assert Expand(h2.hr[..0]) == [];
      for i := 0 to |h2.hr|
        invariant Valid() && AllValid(h2.hr[..i])
        invariant Names() == old(Names()) + Expand(h2.hr[..i])
      {
        var before := h2.hr[..i];
        ExpandSnoc(before, h2.hr[i]);
        assert before + [h2.hr[i]] == h2.hr[..i + 1];
        Assoc(old(Names()), Expand(before), h2.hr[i].Hosts());
        var n := PushRange(h2.hr[i]);
      }
      assert h2.hr[..|h2.hr|] == h2.hr;
    }

    /** hostlist_shift_iterators */
    method ShiftIterators(idx: int, depth: int, n: int)
      modifies this`ilist
      ensures |ilist| == |old(ilist)|
      ensures forall k :: 0 <= k < |ilist| ==> ilist[k] == Shifted(old(ilist)[k], idx, depth, n)
    {
      for k := 0 to |ilist|
        invariant |ilist| == |old(ilist)|
        invariant forall j :: 0 <= j < k ==> ilist[j] == Shifted(old(ilist)[j], idx, depth, n)
        invariant forall j :: k <= j < |ilist| ==> ilist[j] == old(ilist)[j]
      {
        var i := ilist[k];
        if n == 0 {
          if i.idx == idx && i.depth >= depth {
            i := i.(depth := if i.depth > -1 then i.depth - 1 else -1);
          }
        } else if i.idx >= idx {
          i := i.(idx := i.idx - n);
          if i.idx < 0 {
            i := Iter(0, -1);
          }
        }
        ilist := ilist[k := i];
      }
    }

    /** hostlist_insert_range */
    method InsertRange(r: HostRange, n: nat) returns (ok: bool)
      modifies this`hr, this`ilist
      ensures ok == (n <= |old(hr)|)
      ensures !ok ==> hr == old(hr) && ilist == old(ilist)
      ensures ok ==> hr == old(hr)[..n] + [r] + old(hr)[n..]
      ensures ok ==> |ilist| == |old(ilist)| && forall k :: 0 <= k < |ilist| ==> ilist[k] == Pushed(old(ilist)[k], n)
    {
      if n > |hr| {
        return false;
      }
      hr := hr[..n] + [r] + hr[n..];
      for k := 0 to |ilist|
        invariant |ilist| == |old(ilist)| && hr == old(hr)[..n] + [r] + old(hr)[n..]
        invariant forall j :: 0 <= j < k ==> ilist[j] == Pushed(old(ilist)[j], n)
        invariant forall j :: k <= j < |ilist| ==> ilist[j] == old(ilist)[j]
      {
        if ilist[k].idx >= n {
          ilist := ilist[k := ilist[k].(idx := ilist[k].idx + 1)];
        }
      }
      ok := true;
    }

    /** hostlist_delete_range; the caller adjusts `nhosts`. */
    method DeleteRange(n: nat)
      requires n < |hr|
      modifies this`hr, this`ilist
      ensures hr == old(hr)[..n] + old(hr)[n + 1..]
      ensures |ilist| == |old(ilist)|
      ensures forall k :: 0 <= k < |ilist| ==> ilist[k] == Shifted(old(ilist)[k], n, 0, 1)
    {
      hr := hr[..n] + hr[n + 1..];
      ShiftIterators(n, 0, 1);
    }

    /** hostlist_nth */
    method Nth(n: nat) returns (host: Option<string>)
      requires Valid()
      ensures host == if n < |Names()| then Some(Names()[n]) else None
    {
      hide HostRange.Hosts, HostRange.Valid, Padded, HostRange.Name;
      BeforeEnds(hr);
      var count: nat := 0;
      for i := 0 to |hr|
        invariant count == Before(hr, i) <= n
      {
        BeforeNext(hr, i);
        var numInRange := hr[i].Count();
        if n <= numInRange - 1 + count {
          HostAt(hr, i, n - count);
          return Some(hr[i].Name(hr[i].lo + (n - count)));
        }
        count := count + numInRange;
      }
      host := None;
    }

    /** hostlist_delete_nth.  Its assertion lets the length of the list itself
        pass as a position; then no host goes, but the number of hosts does. */
    method DeleteNth(n: nat)
      requires Valid() && n <= nhosts
      modifies this`hr, this`nhosts, this`ilist
      ensures AllValid(hr) && nhosts == old(nhosts) - 1
      ensures n < old(nhosts) ==> Valid() && Names() == old(Names())[..n] + old(Names())[n + 1..]
      ensures n < old(nhosts) ==> n < |old(Cells(hr))| && Cells(hr) == old(Cells(hr))[..n] + old(Cells(hr))[n + 1..]
      ensures n == old(nhosts) ==> hr == old(hr) && !Valid()
    {
      hide HostRange.Hosts, HostRange.Valid, Expand, Before, Cells;
      BeforeEnds(hr);
      var count: nat, i := 0, 0;
      while i < |hr|
        invariant hr == old(hr) && nhosts == old(nhosts)
        invariant 0 <= i <= |hr| && count == Before(hr, i) <= n
      {
        BeforeNext(hr, i);
        var numInRange := hr[i].Count();
        if n <= numInRange - 1 + count {
          ExpandWithoutNth(hr, i, n - count);
          CellsWithoutNth(hr, i, n - count);
          DropFrom(i, n - count);
          break;
        }
        count := count + numInRange;
        i := i + 1;
      }
      nhosts := nhosts - 1;
    }

    /** The deletion at the end of hostlist_delete_nth: host `k` of range `i`. */
    method DropFrom(i: nat, k: nat)
      requires AllValid(hr) && i < |hr| && k < hr[i].Count()
      modifies this`hr, this`ilist
      ensures hr == old(hr)[..i] + Without(old(hr)[i], old(hr)[i].lo + k) + old(hr)[i + 1..]
    {
      var h := hr[i];
      var num := h.lo + k;
      if h.single {
        DeleteRange(i);
        assert hr == old(hr)[..i] + [] + old(hr)[i + 1..];
      } else {
        var (rest, upper) := DeleteHost(h, num);
        hr := hr[i := rest];
        if upper.Some? {
          var ok := InsertRange(upper.value, i + 1);
        } else if rest.Empty() {
          DeleteRange(i);
          assert hr == old(hr)[..i] + [] + old(hr)[i + 1..];
        }
      }
    }

    /** hostlist_pop */
    method Pop() returns (host: Option<string>)
      requires Valid()
      modifies this`hr, this`nhosts
      ensures Valid()
      ensures old(Names()) == [] ==> host == None && hr == old(hr)
      ensures old(Names()) != [] ==> var n := |old(Names())| - 1;
        host == Some(old(Names())[n]) && Names() == old(Names())[..n]
    {
      hide HostRange.Hosts, HostRange.Valid, Expand, Before, Padded;
      BeforeEnds(hr);
      host := None;
      if nhosts > 0 {
        HasRange(hr);
        var i := |hr| - 1;
        var h := hr[i];
        CountPositive(h);
        BeforeNext(hr, i);
        HostAt(hr, i, h.Count() - 1);
        ExpandWithoutNth(hr, i, h.Count() - 1);
        host := Some(h.Name(h.hi));
        h := if h.single then h.(lo := h.lo + 1) else h.(hi := h.hi - 1);
        nhosts := nhosts - 1;
        if h.Empty() {
          hr := hr[..i];
        } else {
          hr := hr[i := h];
        }
        LastWithout(old(hr), hr);
      }
    }

    /** hostlist_shift */
    method Shift() returns (host: Option<string>)
      requires Valid()
      modifies this`hr, this`nhosts, this`ilist
      ensures Valid()
      ensures old(Names()) == [] ==> host == None && hr == old(hr)
      ensures old(Names()) != [] ==>
        host == Some(old(Names())[0]) && Names() == old(Names())[1..]
    {
      hide HostRange.Hosts, HostRange.Valid, Expand, Before, Padded;
      BeforeEnds(hr);
      host := None;
      if nhosts > 0 {
        HasRange(hr);
        var h := hr[0];
        CountPositive(h);
        BeforeNext(hr, 0);
        HostAt(hr, 0, 0);
        ExpandWithoutNth(hr, 0, 0);
        host := Some(h.Name(h.lo));
        h := h.(lo := h.lo + 1);
        hr := hr[0 := h];
        nhosts := nhosts - 1;
        if h.Empty() {
          DeleteRange(0);
        } else {
          ShiftIterators(0, 0, 0);
        }
        FirstWithout(old(hr), hr);
      }
    }
  }

  lemma ExpandWithoutNth(hr: seq<HostRange>, i: nat, k: nat)
    requires AllValid(hr) && i < |hr| && k < hr[i].Count()
    ensures hr[i].lo <= hr[i].lo + k <= hr[i].hi
    ensures var n, hr' := Before(hr, i) + k, hr[..i] + Without(hr[i], hr[i].lo + k) + hr[i + 1..];
      && n < |Expand(hr)|
      && AllValid(hr')
      && Expand(hr') == Expand(hr)[..n] + Expand(hr)[n + 1..]
  {
    WithoutHosts(hr[i], hr[i].lo + k);
    ExpandWithout(hr, i, k, Without(hr[i], hr[i].lo + k));
  }

  lemma CellsWithoutNth(hr: seq<HostRange>, i: nat, k: nat)
    requires AllValid(hr) && i < |hr| && k < hr[i].Count()
    ensures hr[i].lo <= hr[i].lo + k <= hr[i].hi
    ensures var n, hr' := Before(hr, i) + k, hr[..i] + Without(hr[i], hr[i].lo + k) + hr[i + 1..];
      n < |Cells(hr)| && AllValid(hr') && Cells(hr') == Cells(hr)[..n] + Cells(hr)[n + 1..]
  {
    hide Cells, CellsOf, Without, HostRange.Valid;
    CountOf(hr[i], k);
    WithoutCells(hr[i], hr[i].lo + k);
    CellsAt(hr, i, Without(hr[i], hr[i].lo + k));
    CellNames(hr[..i]);
    CutMiddle(Cells(hr[..i]), CellsOf(hr[i]), Cells(hr[i + 1..]), k);
  }

  lemma CountOf(h: HostRange, k: nat)
    requires h.Valid() && k < h.Count()
    ensures h.lo <= h.lo + k <= h.hi
  {
  }

  lemma WithoutCells(h: HostRange, n: nat)
    requires h.Valid() && h.lo <= n <= h.hi
    ensures var k := n - h.lo; Cells(Without(h, n)) == CellsOf(h)[..k] + CellsOf(h)[k + 1..]
  {
    hide Cells, CellsOf;
    var k := n - h.lo;
    NoCells();
    if h.single || h.lo == h.hi {
      assert CellsOf(h)[..k] + CellsOf(h)[k + 1..] == [];
    } else if n == h.lo {
      CellsOne(h.(lo := n + 1));
      CellsSlice(h, n + 1, h.hi);
      assert h.(lo := n + 1, hi := h.hi) == h.(lo := n + 1);
      FirstOff(CellsOf(h));
    } else if n == h.hi {
      CellsOne(h.(hi := n - 1));
      CellsSlice(h, h.lo, n - 1);
      assert h.(lo := h.lo, hi := n - 1) == h.(hi := n - 1);
      LastOff(CellsOf(h));
    } else {
      CellsOne(h.(hi := n - 1));
      CellsSnoc([h.(hi := n - 1)], h.(lo := n + 1));
      assert [h.(hi := n - 1)] + [h.(lo := n + 1)] == [h.(hi := n - 1), h.(lo := n + 1)];
      CellsSlice(h, h.lo, n - 1);
      CellsSlice(h, n + 1, h.hi);
    }
  }

  lemma FirstOff<T>(s: seq<T>)
    requires s != []
    ensures s[..0] + s[1..] == s[1..|s|]
  {
  }

  lemma LastOff<T>(s: seq<T>)
    requires s != []
    ensures s[..|s| - 1] + s[|s|..] == s[..|s| - 1] == s[0..|s| - 1]
  {
  }

  lemma NoCells()
    ensures Cells([]) == []
  {
  }

  lemma CellsOne(r: HostRange)
    requires r.Valid()
    ensures Cells([r]) == CellsOf(r)
  {
    hide CellsOf;
    assert [r][..0] == [];
    assert Cells([r]) == [] + CellsOf(r);
  }

  lemma CellsSlice(h: HostRange, a: nat, b: nat)
    requires h.Valid() && !h.single && h.lo <= a <= b <= h.hi
    ensures h.(lo := a, hi := b).Valid()
    ensures CellsOf(h.(lo := a, hi := b)) == CellsOf(h)[a - h.lo..b - h.lo + 1]
  {
    var p := h.(lo := a, hi := b);
    hide HostRange.Name, HostRange.Shown;
    forall i | 0 <= i < p.Count()
      ensures CellsOf(p)[i] == CellsOf(h)[a - h.lo..b - h.lo + 1][i]
    {
      NamedAlike(p, h, a + i);
    }
  }

  lemma NamedAlike(p: HostRange, h: HostRange, k: nat)
    requires p == h.(lo := p.lo, hi := p.hi)
    ensures p.Name(k) == h.Name(k) && p.Shown(k) == h.Shown(k)
  {
    hide Padded;
  }

  lemma CountPositive(h: HostRange)
    requires h.Valid()
    ensures h.Count() > 0 && h.lo + (h.Count() - 1) == h.hi >= 0
  {
  }

  lemma HasRange(hr: seq<HostRange>)
    requires AllValid(hr) && |Expand(hr)| > 0
    ensures hr != []
  {
  }

  lemma LastWithout(hr: seq<HostRange>, hr': seq<HostRange>)
    requires AllValid(hr) && hr != []
    requires var i, h := |hr| - 1, hr[|hr| - 1];
      hr' == if h.single || h.lo == h.hi then hr[..i] else hr[i := h.(hi := h.hi - 1)]
    ensures var i, h := |hr| - 1, hr[|hr| - 1];
      hr' == hr[..i] + Without(h, h.hi) + hr[i + 1..]
  {
  }

  lemma FirstWithout(hr: seq<HostRange>, hr': seq<HostRange>)
    requires AllValid(hr) && hr != []
    requires hr' == if hr[0].single || hr[0].lo == hr[0].hi then hr[1..] else hr[0 := hr[0].(lo := hr[0].lo + 1)]
    ensures hr' == hr[..0] + Without(hr[0], hr[0].lo) + hr[1..]
  {
  }

  /** How many hosts stand before range `i`. */
  ghost function Before(hr: seq<HostRange>, i: nat): nat
    requires AllValid(hr) && i <= |hr|
  {
    |Expand(hr[..i])|
  }

  lemma BeforeNext(hr: seq<HostRange>, i: nat)
    requires AllValid(hr) && i < |hr|
    ensures Before(hr, i + 1) == Before(hr, i) + hr[i].Count()
    ensures Before(hr, i + 1) <= |Expand(hr)|
  {
    ExpandAt(hr, i);
    assert hr[..i + 1][..i] == hr[..i];
  }

  lemma HostAt(hr: seq<HostRange>, i: nat, k: nat)
    requires AllValid(hr) && i < |hr| && k < hr[i].Count()
    ensures Before(hr, i) + k < |Expand(hr)|
    ensures Expand(hr)[Before(hr, i) + k] == hr[i].Name(hr[i].lo + k)
  {
    hide Expand;
    ExpandAt(hr, i);
    assert hr[i].Hosts()[k] == hr[i].Name(hr[i].lo + k);
  }

  lemma CellAt(hr: seq<HostRange>, i: nat, k: nat)
    requires AllValid(hr) && i < |hr| && k < hr[i].Count()
    ensures Before(hr, i) + k < |Cells(hr)|
    ensures Cells(hr)[Before(hr, i) + k] == CellsOf(hr[i])[k]
  {
    hide Cells, CellsOf;
    CellsAt(hr, i, []);
    CellNames(hr[..i]);
  }

  lemma BeforeEnds(hr: seq<HostRange>)
    requires AllValid(hr)
    ensures Before(hr, 0) == 0 && Before(hr, |hr|) == |Expand(hr)|
  {
    assert hr[..0] == [] && hr[..|hr|] == hr;
  }

  /** The list with some other ranges in the place of range `i`, which stand for
      the hosts of range `i` but its host number `k`. */
  lemma ExpandWithout(hr: seq<HostRange>, i: nat, k: nat, rs: seq<HostRange>)
    requires AllValid(hr) && i < |hr| && AllValid(rs) && k < hr[i].Count()
    requires Expand(rs) == hr[i].Hosts()[..k] + hr[i].Hosts()[k + 1..]
    ensures var n := Before(hr, i) + k;
      && n < |Expand(hr)|
      && AllValid(hr[..i] + rs + hr[i + 1..])
      && Expand(hr[..i] + rs + hr[i + 1..]) == Expand(hr)[..n] + Expand(hr)[n + 1..]
  {
    ExpandAt(hr, i);
    ExpandReplace(hr, i, rs);
    hide Expand, HostRange.Hosts;
    CutMiddle(Expand(hr[..i]), hr[i].Hosts(), Expand(hr[i + 1..]), k);
  }

  lemma CutMiddle<T>(a: seq<T>, b: seq<T>, c: seq<T>, k: nat)
    requires k < |b|
    ensures var s, n := a + b + c, |a| + k;
      s[..n] + s[n + 1..] == a + (b[..k] + b[k + 1..]) + c
  {
    var s, n := a + b + c, |a| + k;
    assert s[..n] == a + b[..k];
    assert s[n + 1..] == b[k + 1..] + c;
  }

  /** Where a deletion of `n` ranges at `idx`, or of one host there, leaves an
      iterator. */
  function Shifted(i: Iter, idx: int, depth: int, n: int): Iter {
    if n == 0 then
      if i.idx == idx && i.depth >= depth then Iter(i.idx, if i.depth > -1 then i.depth - 1 else -1) else i
    else if i.idx < idx then i
    else if i.idx - n >= 0 then Iter(i.idx - n, i.depth)
    else Iter(0, -1)
  }

  /** Where an insertion of a range at `n` leaves an iterator. */
  function Pushed(i: Iter, n: nat): Iter {
    if i.idx >= n then i.(idx := i.idx + 1) else i
  }

  lemma JoinTail(hr: seq<HostRange>, r: HostRange, tail': HostRange, r': HostRange)
    requires AllValid(hr) && hr != [] && r.Valid() && tail'.Valid() && r'.Valid()
    requires var tail := hr[|hr| - 1];
      && PrefixCmp(tail, r) == 0 && tail.hi == r.lo - 1
      && tail' == tail.(width := tail'.width) && r' == r.(width := r'.width) && tail'.width == r'.width
      && tail'.Canon() == tail.Canon() && r'.Canon() == r.Canon()
    ensures AllValid(hr[|hr| - 1 := tail'.(hi := r.hi)])
    ensures Expand(hr[|hr| - 1 := tail'.(hi := r.hi)]) == Expand(hr) + r.Hosts()
  {
    var n := |hr| - 1;
    var joint := tail'.(hi := r.hi);
    StrCmpEqual(hr[n].prefix, r.prefix);
    tail'.CanonHosts(hr[n]);
    r'.CanonHosts(r);
    HostsJoin(tail', r');
    var hr' := hr[n := joint];
    assert hr'[..n] == hr[..n];
    Assoc(Expand(hr[..n]), hr[n].Hosts(), r.Hosts());
  }
}
