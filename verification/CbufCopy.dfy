/** The writes of src/pdsh/cbuf.c that are more than one call of cbuf_writer:
    reads from a descriptor, whole lines, and copies between two buffers. */
module CbufCopy {
  import opened Ring
  import opened CbufModel
  import opened CbufShape
  import opened Cbuf
  import Runs = CbufRuns

  /** A descriptor that will deliver `src` before it answers `rc`. */
  method WriteFromFd(dst: Cbuf, len: int, src: seq<Byte>, rc: int) returns (n: int, ndropped: int)
    requires dst.Valid() && rc <= 0
    modifies dst, dst.data
    ensures dst.Valid() && (dst.data == old(dst.data) || fresh(dst.data)) && dst.minsize == old(dst.minsize)
    ensures len < -1 ==> n == -1 && ndropped == 0 && dst.view == old(dst.view)
    ensures len == 0 ==> n == 0 && ndropped == 0 && dst.view == old(dst.view)
    ensures len == -1 || len > 0 ==>
      var want := if len > 0 then len else ChunkFor(old(dst.view));
      var m, a := old(dst.view).Grow(want), old(dst.view).Grow(want).Accept(want);
      && dst.view == old(dst.view).Write(want, src)
      && n == (if a == 0 then -1 else if src == [] then rc else Min(a, |src|))
      && ndropped == Max(0, Min(a, |src|) - m.Free())
    ensures len == -1 ==> var free := old(dst.view).Free();
      dst.view == old(dst.view).Write(if free > 0 then free else Min(old(dst.view).size, 1000), src)
  {
    hide Layout.Valid, Layout.Replay, Layout.Unread, Model.Write, Model.Accept, Model.Grow;
    if len < -1 {
      return -1, 0;
    }
    var want := len;
    if len == -1 {
      want := dst.size - dst.used;
      if want == 0 {
        want := Min(dst.size, CHUNK);
      }
    }
    n, ndropped := 0, 0;
    if want > 0 {
      n, ndropped := dst.Writer(want, src, rc);
    }
  }

  /** How much cbuf_write_from_fd asks for when the caller leaves it open: all
      the free space, or else one chunk. */
  function ChunkFor(m: Model): (n: nat)
    requires m.Valid()
    ensures n > 0
  {
    if m.Free() == 0 then Min(m.size, CHUNK) else m.Free()
  }

  /** The bytes cbuf_write_line wants to store for a string. */
  function Terminated(s: seq<Byte>): (r: seq<Byte>)
    ensures r != [] && r[|r| - 1] == NEWLINE && s <= r
    ensures |r| == |s| || (|r| == |s| + 1 && (s == [] || s[|s| - 1] != NEWLINE))
  {
    if s == [] || s[|s| - 1] != NEWLINE then s + [NEWLINE] else s
  }

  /** Under NoDrop and WrapOnce a line goes in whole or not at all. */
  method WriteLine(dst: Cbuf, src: seq<Byte>) returns (n: int, ndropped: int)
    requires dst.Valid()
    modifies dst, dst.data
    ensures dst.Valid() && (dst.data == old(dst.data) || fresh(dst.data)) && dst.minsize == old(dst.minsize)
    ensures var line := Terminated(src);
      var m := old(dst.view).Grow(|line|);
      if m.Admits(|line|) then
        && n == |line| && ndropped == Max(0, |line| - m.Free())
        && dst.view == m.Append(Last(line, Min(|line|, m.size)))
      else n == -1 && ndropped == 0 && dst.view == m
  {
    hide Layout.Valid, Layout.Replay, Layout.Unread, Model.Append, Model.Grow, Last;
    var len, psrc := |src|, 0;
    if len == 0 || src[len - 1] != NEWLINE {
      len := len + 1;
    }
    dst.view.GrowKeeps(len);
    var nfree := dst.MakeRoom(len);
    if dst.overwrite == NoDrop && len > dst.size - dst.used {
      return -1, 0;
    }
    if dst.overwrite == WrapOnce && len > dst.size {
      return -1, 0;
    }
    ndropped := 0;
    if len > dst.size {
      ndropped := len - dst.size;
      psrc := psrc + ndropped;
    }
    LineTail(src, psrc);
    var d := StoreLine(dst, src[psrc..], len > |src|, old(dst.view), len);
    ndropped := ndropped + d;
    n := len;
  }

  lemma LineTail(src: seq<Byte>, k: nat)
    requires k <= |src|
    ensures Last(Terminated(src), |Terminated(src)| - k)
      == src[k..] + (if |Terminated(src)| > |src| then [NEWLINE] else [])
  {
  }

  /** The last lines of cbuf_write_line: the text, then the newline it lacks. */
  method StoreLine(dst: Cbuf, text: seq<Byte>, newline: bool, ghost v: Model, ghost len: nat) returns (ndropped: int)
    requires dst.Valid() && v.Valid() && dst.view == v.Grow(len) && dst.view.Admits(len)
    requires |text| + (if newline then 1 else 0) == Min(len, dst.view.size)
    modifies dst, dst.data
    ensures dst.Valid() && (dst.data == old(dst.data) || fresh(dst.data)) && dst.minsize == old(dst.minsize)
    ensures dst.view == old(dst.view).Append(text + (if newline then [NEWLINE] else []))
    ensures ndropped == Max(0, Min(len, old(dst.view).size) - old(dst.view).Free())
  {
    hide Layout.Valid, Layout.Replay, Layout.Unread, Model.Append, Model.Grow, Model.Accept, Model.Write, Model.Admits;
    ghost var m := dst.view;
    m.AppendNothing();
    m.AppendHeld(text);
    v.WritePiece(len, [], text);
    var n, d := 0, 0;
    ndropped := 0;
    if |text| > 0 {
      n, d := dst.Writer(|text|, text, 0);
      ndropped := ndropped + d;
    } else {
      assert text == [];
    }
    assert dst.view == m.Append(text);
    if newline {
      v.WritePiece(len, text, [NEWLINE]);
      m.AppendConcat(text, [NEWLINE]);
      n, d := dst.Writer(1, [NEWLINE], 0);
      ndropped := ndropped + d;
    } else {
      assert text + [] == text;
    }
  }

  lemma SliceMiddle(d: seq<Byte>, i: nat, len: nat, w: nat, n: nat)
    requires i < |d| && w + n <= len <= |d| && w < |d|
    requires Wrap(i + w, |d|) + n <= |d|
    ensures d[Wrap(i + w, |d|)..Wrap(i + w, |d|) + n] == Slice(d, i, len)[w..w + n]
  {
  }

  /** The copying loop of cbuf_copier, across two rings that wrap at different
      places: the cells of `src` from `from` on go after what `dst` holds. */
  method CopyCells(src: Cbuf, dst: Cbuf, from: int, ncopy: int) returns (iDst: int)
    requires src.Valid() && dst.Valid() && src != dst && src.data != dst.data
    requires 0 <= from <= src.size && 0 < ncopy <= Min(src.size, dst.size)
    modifies dst.data
    ensures 0 <= iDst <= dst.size && iDst == Wrap(dst.iIn + ncopy, dst.size + 1)
    ensures Ends(dst.data[..], iDst, dst.view.replay + dst.view.unread + Slice(src.data[..], from, ncopy))
  {
    hide Layout.Valid, Layout.Replay, Layout.Unread, Layout.Reused, Slice, Ends, Wrap;
    dst.Shape().HeldEnds(dst.data[..]);
    ghost var held, b := dst.view.replay + dst.view.unread, Slice(src.data[..], from, ncopy);
    var iSrc, nleft := from, ncopy;
    iDst := dst.iIn;
    assert held + b[..0] == held;
    assert Wrap(from, src.size + 1) == from && Wrap(iDst, dst.size + 1) == iDst by {
      WrapSame(from, src.size + 1);
      WrapSame(iDst, dst.size + 1);
    }
    while nleft > 0
      invariant 0 <= nleft <= ncopy && 0 <= iDst <= dst.size && 0 <= iSrc <= src.size
      invariant iSrc == Wrap(from + (ncopy - nleft), src.size + 1)
      invariant iDst == Wrap(dst.iIn + (ncopy - nleft), dst.size + 1)
      invariant Ends(dst.data[..], iDst, held + b[..ncopy - nleft])
    {
      var n := Min(src.size + 1 - iSrc, dst.size + 1 - iDst);
      n := Min(n, nleft);
      ghost var d := dst.data[..];
      SliceMiddle(src.data[..], from, ncopy, ncopy - nleft, n);
      var x := src.data[iSrc..iSrc + n];
      dst.Store(iDst, x);
      assert dst.data[..] == d[..iDst] + x + d[iDst + |x|..];
      WriteChunk(d, dst.data[..], iDst, x, held, b, ncopy - nleft);
      WrapStep(from, ncopy - nleft, n, src.size + 1);
      WrapStep(dst.iIn, ncopy - nleft, n, dst.size + 1);
      iSrc := Wrap(iSrc + n, src.size + 1);
      iDst := Wrap(iDst + n, dst.size + 1);
      nleft := nleft - n;
    }
    assert b[..ncopy] == b;
  }

  /** What `src` offers of `len` bytes and what `dst` can take of them. */
  function Taken(src: Model, dst: Model, len: nat): (n: nat)
    requires src.Valid() && dst.Valid()
    ensures n <= |src.unread|
  {
    var want := Min(len, |src.unread|);
    dst.GrowKeeps(want);
    dst.Grow(want).Accept(want)
  }

  /** cbuf_copier, seen from `dst`: the last of the taken bytes that fit. */
  function CopyInto(src: Model, dst: Model, len: nat): Model
    requires src.Valid() && dst.Valid()
  {
    var want := Min(len, |src.unread|);
    dst.GrowKeeps(want);
    var m := dst.Grow(want);
    var a := m.Accept(want);
    if want == 0 then dst else m.Append(Last(src.unread[..a], Min(a, m.size)))
  }

  method Copier(src: Cbuf, dst: Cbuf, len: int) returns (n: int, ndropped: int)
    requires src.Valid() && dst.Valid() && src != dst && src.data != dst.data && 0 < len
    modifies dst, dst.data
    ensures dst.Valid() && (dst.data == old(dst.data) || fresh(dst.data)) && dst.minsize == old(dst.minsize)
    ensures dst.view == CopyInto(src.view, old(dst.view), len)
    ensures var want, a := Min(len, |src.view.unread|), Taken(src.view, old(dst.view), len);
      && n == (if want > 0 && a == 0 then -1 else a)
      && ndropped == (if want == 0 then 0 else Max(0, a - old(dst.view).Grow(want).Free()))
  {
    hide Layout.Valid, Layout.Replay, Layout.Unread, Layout.Reused, Layout.AfterWrite, Slice, Ends, Model.Append,
      Model.Grow, Last;
    var want := Min(len, src.used);
    if want == 0 {
      return 0, 0;
    }
    dst.view.GrowKeeps(want);
    var nfree := dst.MakeRoom(want);
    if dst.overwrite == NoDrop {
      want := Min(want, dst.size - dst.used);
      if want == 0 {
        dst.view.AppendNothing();
        assert src.view.unread[..0] == [] && Last(src.view.unread[..0], 0) == [];
        return -1, 0;
      }
    } else if dst.overwrite == WrapOnce {
      want := Min(want, dst.size);
    }
    ndropped := Max(0, want - dst.size + dst.used);
    n := want;
    CopyAccepted(src, dst, want, nfree);
  }

  /** The rest of cbuf_copier, once the length is settled: skip what would be
      overwritten at once, copy, and update the metadata. */
  method CopyAccepted(src: Cbuf, dst: Cbuf, len: int, nfree: int)
    requires src.Valid() && dst.Valid() && src != dst && src.data != dst.data
    requires 0 < len <= src.used && nfree == dst.size - dst.used
    modifies dst, dst.data
    ensures dst.Valid() && dst.data == old(dst.data) && dst.minsize == old(dst.minsize)
    ensures dst.view == old(dst.view).Append(Last(src.view.unread[..len], Min(len, dst.size)))
  {
    hide Layout.Valid, Layout.Replay, Layout.Unread, Layout.Reused, Layout.AfterWrite, Slice, Ends, Model.Append, Wrap,
      Last;
    src.Shape().Tail(src.data[..], len, Min(len, dst.size));
    var ncopy, iSrc := len, src.iOut;
    if ncopy > dst.size {
      var n := ncopy - dst.size;
      iSrc := Wrap(iSrc + n, src.size + 1);
      ncopy := ncopy - n;
    }
    ghost var d := dst.data[..];
    ghost var b := Slice(src.data[..], iSrc, ncopy);
    var iDst := CopyCells(src, dst, iSrc, ncopy);
    dst.Finish(d, b, ncopy, iDst, nfree);
  }

  /** cbuf_copy; -1 asks for everything unread. */
  method Copy(src: Cbuf, dst: Cbuf, len: int) returns (n: int, ndropped: int)
    requires src.Valid() && dst.Valid() && (src != dst ==> src.data != dst.data)
    modifies dst, dst.data
    ensures dst.Valid() && (dst.data == old(dst.data) || fresh(dst.data)) && dst.minsize == old(dst.minsize)
    ensures src == dst || len < -1 ==> n == -1 && ndropped == 0 && dst.view == old(dst.view)
    ensures src != dst && len >= -1 ==>
      var all := if len == -1 then |src.view.unread| else len;
      && dst.view == CopyInto(src.view, old(dst.view), all)
      && n == CopyResult(src.view, old(dst.view), all)
      && ndropped == CopyDropped(src.view, old(dst.view), all)
  {
    hide Layout.Valid, Layout.Replay, Layout.Unread, Layout.Reused, Model.Append, Model.Grow, Model.Accept, Last;
    if src == dst || len < -1 || len == 0 {
      return if src == dst || len < -1 then -1 else 0, 0;
    }
    var all := if len == -1 then src.used else len;
    n, ndropped := 0, 0;
    if all > 0 {
      n, ndropped := Copier(src, dst, all);
    }
  }

  /** cbuf_move: a copy, and what was copied counts as read. */
  method Move(src: Cbuf, dst: Cbuf, len: int) returns (n: int, ndropped: int)
    requires src.Valid() && dst.Valid() && (src != dst ==> src.data != dst.data)
    modifies src`used, src`iOut, src`view, dst, dst.data
    ensures src.Valid() && dst.Valid() && (dst.data == old(dst.data) || fresh(dst.data))
    ensures src == dst || len < -1 ==>
      n == -1 && ndropped == 0 && src.view == old(src.view) && dst.view == old(dst.view)
    ensures src != dst && len >= -1 ==>
      var all := if len == -1 then |old(src.view).unread| else len;
      && dst.view == CopyInto(old(src.view), old(dst.view), all)
      && src.view == old(src.view).Drop(Taken(old(src.view), old(dst.view), all))
      && n == CopyResult(old(src.view), old(dst.view), all)
      && ndropped == CopyDropped(old(src.view), old(dst.view), all)
  {
    hide Layout.Valid, Layout.Replay, Layout.Unread, Layout.Reused, Model.Append, Model.Grow, Last;
    assert src.view.Drop(0) == src.view;
    if src == dst || len < -1 || len == 0 {
      return if src == dst || len < -1 then -1 else 0, 0;
    }
    var all := if len == -1 then src.used else len;
    n, ndropped := 0, 0;
    if all > 0 {
      n, ndropped := Copier(src, dst, all);
      if n > 0 {
        src.Dropper(n);
      }
    }
  }

  function CopyResult(src: Model, dst: Model, len: nat): int
    requires src.Valid() && dst.Valid()
  {
    if Min(len, |src.unread|) > 0 && Taken(src, dst, len) == 0 then -1 else Taken(src, dst, len)
  }

  function CopyDropped(src: Model, dst: Model, len: nat): int
    requires src.Valid() && dst.Valid()
  {
    var want := Min(len, |src.unread|);
    if want == 0 then 0 else Max(0, Taken(src, dst, len) - dst.Grow(want).Free())
  }

  /** A copy leaves in `dst` what reading the bytes and writing them would: the
      same replay and unread bytes and as many dropped ones.  Whether the buffer
      counts as wrapped agrees too, except when more bytes than `dst` can hold go
      into a `dst` that held nothing and had never wrapped. */
  lemma CopyIsReadThenWrite(src: Model, dst: Model, len: nat)
    requires src.Valid() && dst.Valid()
    ensures var want := Min(len, |src.unread|);
      var bytes := src.unread[..want];
      var c, w := CopyInto(src, dst, len), dst.Write(want, bytes);
      && c == w.(gotWrap := c.gotWrap)
      && (c == w <==> dst.gotWrap || Taken(src, dst, len) <= c.size || dst.Held() != [])
      && CopyDropped(src, dst, len)
        == (if want == 0 then 0 else Max(0, Min(dst.Grow(want).Accept(want), want) - dst.Grow(want).Free()))
  {
    hide Model.Append, Model.Grow, Model.Accept, Last;
    var want := Min(len, |src.unread|);
    dst.GrowKeeps(want);
    var m := dst.Grow(want);
    var a := m.Accept(want);
    assert src.unread[..want][..a] == src.unread[..a];
    if want == 0 {
      assert m == dst by { dst.GrowNothing(); }
      dst.AppendNothing();
      assert src.unread[..want][..a] == [];
    } else {
      m.AppendEnd(src.unread[..a]);
      m.AppendEndWraps(src.unread[..a]);
      m.AppendHeld(Last(src.unread[..a], Min(a, m.size)));
    }
  }

  /** A copy is one step of a run of `dst`, a line is another. */
  lemma CopyIsStep(src: Model, dst: Model, len: nat)
    requires src.Valid() && dst.Valid()
    ensures var op := Runs.CopyIn(src.unread[..Min(len, |src.unread|)]);
      CopyInto(src, dst, len) == Runs.Step(dst, op) && CopyDropped(src, dst, len) == Runs.Dropped(dst, op)
  {
    hide Model.Append, Model.Grow, Model.Accept, Last;
    var want := Min(len, |src.unread|);
    dst.GrowKeeps(want);
    var m := dst.Grow(want);
    var a := m.Accept(want);
    assert src.unread[..want][..a] == src.unread[..a];
    if want == 0 {
      assert m == dst by { dst.GrowNothing(); }
      dst.AppendNothing();
      assert Last(src.unread[..a], Min(a, m.size)) == [] by { LastNone(src.unread[..a]); }
    }
  }

  lemma LastNone(s: seq<Byte>)
    requires s == []
    ensures Last(s, 0) == []
  {
  }

  lemma LineIsStep(dst: Model, line: seq<Byte>)
    requires dst.Valid()
    ensures dst.Grow(|line|).Valid()
    ensures var m, op := dst.Grow(|line|), Runs.Line(line);
      if m.Admits(|line|) then
        && Runs.Step(dst, op) == m.Append(Last(line, Min(|line|, m.size)))
        && Runs.Dropped(dst, op) == Max(0, |line| - m.Free())
      else Runs.Step(dst, op) == m && Runs.Dropped(dst, op) == 0
  {
    hide Model.Append, Model.Grow, Model.Admits, Last;
    dst.GrowKeeps(|line|);
    var m := dst.Grow(|line|);
    if !m.Admits(|line|) {
      m.AppendNothing();
      LastNone([]);
    }
  }
}
