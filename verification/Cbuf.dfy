/** The circular buffer of src/pdsh/cbuf.c. */
module Cbuf {
  // One cell more than the data size is allocated, so that `iIn == iOut` can only
  // mean "nothing unread".
  //
  // The callbacks that move bytes between the buffer and the outside world are
  // modelled by what they deliver: a source holds the bytes it will hand out before
  // it first answers with less than it was asked for, and `rc` is what it answers
  // (end of file or error, never positive) when it has none left; a sink likewise
  // takes `cap` bytes and then answers `rc`.

  import opened Ring
  import opened CbufModel
  import opened CbufShape

  /** Appending the next contiguous cells to a stretch. */
  lemma SliceNext(d: seq<Byte>, i: nat, w: nat, m: nat)
    requires i < |d| && w + m <= |d| && w < |d|
    requires Wrap(i + w, |d|) + m <= |d|
    ensures Slice(d, i, w) + d[Wrap(i + w, |d|)..Wrap(i + w, |d|) + m] == Slice(d, i, w + m)
  {
  }

  lemma SlicePrefix(d: seq<Byte>, i: nat, n: nat, m: nat)
    requires i < |d| && m <= n <= |d|
    ensures Slice(d, i, m) == Slice(d, i, n)[..m]
  {
  }

  /** The metadata update of cbuf_writer is the abstract append. */
  lemma Settle(m: Model, l: Layout, d: seq<Byte>, d': seq<Byte>, b: seq<Byte>, e: int)
    requires l.Fits(d) && |d'| == |d| && 0 <= e <= l.size
    requires m.Valid() && m.size == l.size && m.replay == l.Replay(d) && m.unread == l.Unread(d)
    requires |b| <= l.size ==> e == Wrap(l.iIn + |b|, l.size + 1)
    requires Ends(d', e, l.Replay(d) + l.Unread(d) + b)
    ensures l.AfterWrite(|b|, e).Fits(d')
    ensures m.Append(b) == m.(replay := l.AfterWrite(|b|, e).Replay(d'), unread := l.AfterWrite(|b|, e).Unread(d'),
                              gotWrap := m.gotWrap || |b| > l.size - l.used - l.Reused())
    ensures |b| <= l.size - l.used - l.Reused() ==> l.AfterWrite(|b|, e).iRep == l.iRep
  {
    hide Layout.Valid, Layout.Replay, Layout.Unread, Ends, Wrap, Layout.Reused;
    l.AfterWriteIsAppend(d, d', l.Replay(d) + l.Unread(d) + b, |b|, e);
    var r, u := l.AfterWrite(|b|, e).Replay(d'), l.AfterWrite(|b|, e).Unread(d');
    assert r == (r + u)[..|r|] && u == (r + u)[|r|..];
  }

  class Cbuf {
    const meta: nat
    var alloc: int
    var minsize: int
    var maxsize: int
    var size: int
    var used: int
    var overwrite: Overwrite
    var gotWrap: bool
    var iIn: int
    var iOut: int
    var iRep: int
    var data: array<Byte>

    /** What the fields stand for. */
    ghost var view: Model

    function Shape(): Layout
      reads this
    {
      Layout(size, used, iIn, iOut, iRep)
    }

    /** cbuf_is_valid, with the layout of the allocation and the abstraction. */
    ghost predicate Valid()
      reads this, data
    {
      ValidFor(data[..])
    }

    /** What Valid says when the cells of `data` are, or were, `d`. */
    ghost predicate ValidFor(d: seq<Byte>)
      reads this
    {
      && alloc == size + meta
      && data.Length == size + 1
      && 0 < meta
      && 0 < minsize <= size <= maxsize
      && (gotWrap || iRep == 0)
      && Shape().Fits(d)
      && view == Model(Shape().Replay(d), Shape().Unread(d), size, maxsize, meta, overwrite, gotWrap)
    }

    constructor (minsize: int, maxsize: int, meta: nat)
      requires 0 < minsize && 0 < meta
      ensures Valid() && fresh(data)
      ensures this.meta == meta && this.minsize == minsize
      ensures view == Model([], [], minsize, Max(minsize, maxsize), meta, WrapMany, false)
    {
      this.meta := meta;
      this.alloc := minsize + meta;
      this.minsize := minsize;
      this.maxsize := if maxsize > minsize then maxsize else minsize;
      size := minsize;
      used := 0;
      overwrite := WrapMany;
      gotWrap := false;
      iIn, iOut, iRep := 0, 0, 0;
      view := Model([], [], minsize, Max(minsize, maxsize), meta, WrapMany, false);
      data := new Byte[minsize + 1];
    }

    method Flush()
      requires Valid()
      modifies this
      ensures Valid() && data == old(data)
      ensures view == old(view).Flush()
    {
      used := 0;
      gotWrap := false;
      iIn, iOut, iRep := 0, 0, 0;
      view := view.Flush();
    }

    method SetOverwrite(value: Overwrite)
      requires Valid()
      modifies this`overwrite, this`view
      ensures Valid()
      ensures view == old(view).(policy := value)
    {
      overwrite := value;
      view := view.(policy := value);
    }

    /** cbuf_dropper; cbuf_shrink does nothing. */
    method Dropper(len: int)
      requires Valid() && 0 < len <= used
      modifies this`used, this`iOut, this`view
      ensures Valid()
      ensures view == old(view).Drop(len)
    {
      hide Layout.Valid, Layout.Replay, Layout.Unread, Slice;
      Shape().ForwardIsDrop(data[..], len);
      used := used - len;
      iOut := Wrap(iOut + len, size + 1);
      view := view.Drop(len);
    }

    method Drop(len: int) returns (n: int)
      requires Valid()
      modifies this`used, this`iOut, this`view
      ensures Valid()
      ensures len < -1 ==> n == -1 && view == old(view)
      ensures len >= -1 ==> n == (if len == -1 then |old(view).unread| else Min(len, |old(view).unread|))
      ensures len >= -1 ==> view == old(view).Drop(n)
    {
      hide Layout.Valid, Layout.Replay, Layout.Unread, Slice;
      if len < -1 {
        return -1;
      }
      if len == 0 {
        assert view.Drop(0) == view;
        return 0;
      }
      n := if len == -1 then used else Min(len, used);
      if n > 0 {
        Dropper(n);
      } else {
        assert view.Drop(0) == view;
      }
    }

    /** The copying loop of cbuf_reader and cbuf_replayer. */
    method CopyOut(start: int, len: int, cap: nat, rc: int) returns (n: int, out: seq<Byte>)
      requires data.Length == size + 1 && 0 < size
      requires 0 <= start <= size && 0 < len <= size && rc <= 0
      ensures out == Slice(data[..], start, Min(len, cap))
      ensures n == if cap == 0 then rc else Min(len, cap)
    {
      out := [];
      var iSrc, nleft, m := start, len, 0;
      while nleft > 0
        invariant 0 <= nleft <= len && |out| == len - nleft <= cap
        invariant iSrc == Wrap(start + |out|, size + 1)
        invariant out == Slice(data[..], start, |out|)
      {
        n := Min(nleft, size + 1 - iSrc);
        m := if cap > |out| then Min(n, cap - |out|) else rc;
        if m > 0 {
          SliceNext(data[..], start, |out|, m);
          out := out + data[iSrc..iSrc + m];
          nleft := nleft - m;
          iSrc := Wrap(iSrc + m, size + 1);
        }
        if n != m {
          break;
        }
      }
      n := len - nleft;
      if n == 0 {
        n := m;
      }
    }

    method Reader(len: int, cap: nat, rc: int) returns (n: int, out: seq<Byte>)
      requires Valid() && 0 < len && rc <= 0
      ensures out == view.unread[..Min(Min(len, |view.unread|), cap)]
      ensures n == if |view.unread| > 0 && cap == 0 then rc else |out|
    {
      var want := Min(len, used);
      if want == 0 {
        return 0, [];
      }
      n, out := CopyOut(iOut, want, cap, rc);
      SlicePrefix(data[..], iOut, used, Min(want, cap));
    }

    method Replayer(len: int, cap: nat, rc: int) returns (n: int, out: seq<Byte>)
      requires Valid() && 0 < len && rc <= 0
      ensures out == ReplayEnd(view.replay, Min(len, |view.replay|), cap)
      ensures n == if |view.replay| > 0 && cap == 0 then rc else |out|
    {
      hide Layout.Valid, Layout.Replay, Layout.Unread, Slice, Wrap;
      var want := Min(len, Shape().Reused());
      if want == 0 {
        return 0, [];
      }
      Shape().ReplayTail(data[..], want, Min(want, cap));
      n, out := CopyOut(Wrap(iOut - want + (size + 1), size + 1), want, cap, rc);
    }

    /** The first `cap` of the last `want` bytes of `r`. */
    static ghost function ReplayEnd(r: seq<Byte>, want: nat, cap: nat): (out: seq<Byte>)
      requires want <= |r|
    {
      Last(r, want)[..Min(want, cap)]
    }

    method Peek(len: int) returns (n: int, out: seq<Byte>)
      requires Valid()
      ensures len < 0 ==> n == -1 && out == []
      ensures len >= 0 ==> n == |out| && out == view.unread[..Min(len, |view.unread|)]
    {
      if len < 0 {
        return -1, [];
      }
      if len == 0 {
        return 0, [];
      }
      n, out := Reader(len, len, 0);
    }

    method Read(len: int) returns (n: int, out: seq<Byte>)
      requires Valid()
      modifies this`used, this`iOut, this`view
      ensures Valid()
      ensures len < 0 ==> n == -1 && out == [] && view == old(view)
      ensures len >= 0 ==> n == |out| && out == old(view).unread[..Min(len, |old(view).unread|)]
      ensures len >= 0 ==> view == old(view).Drop(n)
    {
      if len <= 0 {
        assert view.Drop(0) == view;
        return if len < 0 then -1 else 0, [];
      }
      n, out := Reader(len, len, 0);
      if n > 0 {
        Dropper(n);
      } else {
        assert view.Drop(0) == view;
      }
    }

    method Replay(len: int) returns (n: int, out: seq<Byte>)
      requires Valid()
      ensures len < 0 ==> n == -1 && out == []
      ensures len >= 0 ==> n == |out| && out == Last(view.replay, Min(len, |view.replay|))
    {
      if len < 0 {
        return -1, [];
      }
      if len == 0 {
        return 0, [];
      }
      n, out := Replayer(len, len, 0);
      assert out == Last(view.replay, Min(len, |view.replay|));
    }

    /** -1 asks for everything. */
    method Rewind(len: int) returns (n: int)
      requires Valid()
      modifies this`used, this`iOut, this`view
      ensures Valid()
      ensures len < -1 ==> n == -1 && view == old(view)
      ensures len >= -1 ==> n == (if len == -1 then |old(view).replay| else Min(len, |old(view).replay|))
      ensures len >= -1 ==> view == old(view).Rewind(n)
    {
      hide Layout.Valid, Layout.Replay, Layout.Unread, Slice;
      if len < -1 {
        return -1;
      }
      if len == 0 {
        assert view == view.Rewind(0);
        return 0;
      }
      var reused := Shape().Reused();
      n := if len == -1 then reused else Min(len, reused);
      if n > 0 {
        RewindBy(n);
      } else {
        assert view == view.Rewind(0);
      }
    }

    method RewindBy(n: int)
      requires Valid() && 0 < n <= |view.replay|
      modifies this`used, this`iOut, this`view
      ensures Valid()
      ensures view == old(view).Rewind(n)
    {
      hide Layout.Valid, Layout.Replay, Layout.Unread, Slice;
      Shape().BackwardIsRewind(data[..], n);
      used := used + n;
      iOut := Wrap(iOut - n + (size + 1), size + 1);
      view := view.Rewind(n);
    }

    /** Looks for at least `n` more bytes of room, in whole chunks of
        allocation, and moves a wrapped end of the data to the new end. */
    method Grow(n: int) returns (m: int)
      requires Valid() && 0 < n
      modifies this
      ensures Valid() && (data == old(data) || fresh(data))
      ensures m == size - old(size)
      ensures view == if old(size) == maxsize then old(view) else old(view).(size := old(view).GrownSize(n))
      ensures minsize == old(minsize)
    {
      if size == maxsize {
        return 0;
      }
      view.GrownSizeBounds(n);
      var sizeOld, sizeMeta := size, alloc - size;
      m := alloc + n;
      m := m + (CHUNK - m % CHUNK);
      m := Min(m, maxsize + sizeMeta);
      ghost var d, s, v := data[..], Shape(), view;
      assert 0 <= iRep <= size && 0 <= iIn <= size;
      assert m - sizeMeta == v.GrownSize(n);
      hide Model.GrownSize, Layout.Valid, Layout.Replay, Layout.Unread;
      Enlarge(m - sizeMeta);
      s.GrownIsSame(d, data[..], size);
      alloc := m;
      view := v.(size := size);
      m := size - sizeOld;
    }

    /** The reallocation of cbuf_grow and the move that follows it. */
    method Enlarge(size': int)
      requires 0 < size <= size' && data.Length == size + 1
      requires 0 <= iRep <= size && Shape().Valid()
      modifies this`size, this`iOut, this`iRep, this`data
      ensures fresh(data) && data.Length == size + 1 && size == size'
      ensures Shape() == old(Shape()).Grown(size')
      ensures old(iRep > iIn) ==>
        data[..old(iRep)] == old(data[..iRep]) && data[size' - old(size) + old(iRep)..] == old(data[iRep..])
      ensures old(iRep <= iIn) ==> data[..old(size) + 1] == old(data[..])
    {
      hide Layout.Valid;
      var sizeOld := size;
      ghost var d := data[..];
      Realloc(size' + 1);
      size := size';
      if iRep > iIn {
        assert data[..iRep] == d[..iRep] && data[iRep..sizeOld + 1] == d[iRep..];
        MoveTail(sizeOld);
      }
    }

    /** realloc: a larger array that starts with the cells of the old one. */
    method Realloc(len: int)
      requires data.Length <= len
      modifies this`data
      ensures fresh(data) && data.Length == len
      ensures data[..old(data.Length)] == old(data[..])
    {
      var bigger := new Byte[len];
      forall k | 0 <= k < data.Length {
        bigger[k] := data[k];
      }
      data := bigger;
    }

    /** The memmove of cbuf_grow, and the indices that move with the data. */
    method MoveTail(sizeOld: int)
      requires 0 < sizeOld <= size && data.Length == size + 1
      requires 0 <= iRep <= sizeOld
      modifies this`iRep, this`iOut, data
      ensures iRep == old(iRep) + (size - sizeOld)
      ensures iOut == if old(iOut) >= old(iRep) then old(iOut) + (size - sizeOld) else old(iOut)
      ensures data[..old(iRep)] == old(data[..iRep])
      ensures data[iRep..] == old(data[iRep..sizeOld + 1])
    {
      var n := sizeOld + 1 - iRep;
      var m := size + 1 - n;
      var from := iRep;
      forall k | 0 <= k < n {
        data[m + k] := data[from + k];
      }
      if iOut >= iRep {
        iOut := iOut + (m - iRep);
      }
      iRep := m;
    }

    /** memcpy into the buffer. */
    method Store(at: int, x: seq<Byte>)
      requires 0 <= at && at + |x| <= data.Length
      modifies data
      ensures data[..] == old(data[..at]) + x + old(data[at + |x|..])
    {
      forall k | 0 <= k < |x| {
        data[at + k] := x[k];
      }
    }

    /** The first lines of every write: try to grow when `len` bytes do not fit. */
    method MakeRoom(len: int) returns (nfree: int)
      requires Valid() && 0 < len
      modifies this
      ensures Valid() && (data == old(data) || fresh(data)) && minsize == old(minsize)
      ensures view == old(view).Grow(len) && nfree == view.Free()
    {
      hide Layout.Valid, Layout.Replay, Layout.Unread, Layout.Reused, Slice, Model.GrownSize;
      view.GrowKeeps(len);
      nfree := size - used;
      if len > nfree && size < maxsize {
        var m := Grow(len - nfree);
        nfree := nfree + m;
      }
    }

    /** The copying loop of cbuf_writer. */
    method FillFrom(want: int, src: seq<Byte>, rc: int) returns (n: int, iDst: int, m: int)
      requires Valid() && 0 < want && rc <= 0
      modifies data
      ensures n == Min(want, |src|) && 0 <= iDst <= size
      ensures n <= size ==> iDst == Wrap(iIn + n, size + 1)
      ensures Ends(data[..], iDst, view.replay + view.unread + src[..n])
      ensures n == 0 ==> m == rc && data[..] == old(data[..])
    {
      hide Layout.Valid, Layout.Replay, Layout.Unread, Layout.Reused, Slice, Ends;
      Shape().HeldEnds(data[..]);
      ghost var held := view.replay + view.unread;
      iDst := iIn;
      var nleft, taken: nat := want, 0;
      m := 0;
      assert held + src[..0] == held;
      while nleft > 0
        invariant 0 <= nleft <= want && taken == want - nleft <= |src|
        invariant 0 <= iDst <= size
        invariant taken <= size ==> iDst == Wrap(iIn + taken, size + 1)
        invariant Ends(data[..], iDst, held + src[..taken])
        invariant taken == 0 ==> data[..] == old(data[..])
      {
        n := Min(nleft, size + 1 - iDst);
        m := if |src| > taken then Min(n, |src| - taken) else rc;
        if m > 0 {
          ghost var d := data[..];
          var x := src[taken..taken + m];
          Store(iDst, x);
          assert data[..] == d[..iDst] + x + d[iDst + |x|..];
          WriteChunk(d, data[..], iDst, x, held, src, taken);
          nleft := nleft - m;
          iDst := Wrap(iDst + m, size + 1);
          taken := taken + m;
        }
        if n != m {
          break;
        }
      }
      n := want - nleft;
    }

    /** The metadata update of cbuf_writer and cbuf_copier. */
    method Commit(n: int, iDst: int, nfree: int)
      requires 0 < n && 0 <= iDst <= size
      requires Shape().Valid() && nfree == size - used
      modifies this`used, this`iIn, this`iOut, this`iRep, this`gotWrap
      ensures Shape() == old(Shape()).AfterWrite(n, iDst)
      ensures gotWrap == (old(gotWrap) || n > nfree - old(Shape()).Reused())
    {
      var nrepl := Shape().Reused();
      used := Min(used + n, size);
      iIn := iDst;
      if n > nfree - nrepl {
        gotWrap := true;
        iRep := Wrap(iIn + 1, size + 1);
      }
      if n > nfree {
        iOut := iRep;
      }
    }

    /** The end of a write: `b` was copied behind the held bytes, up to cell
        `iDst`, when the cells were `d`. */
    method Finish(ghost d: seq<Byte>, ghost b: seq<Byte>, n: int, iDst: int, nfree: int)
      requires ValidFor(d) && n == |b| > 0 && nfree == size - used
      requires 0 <= iDst <= size && (n <= size ==> iDst == Wrap(iIn + n, size + 1))
      requires Ends(data[..], iDst, view.replay + view.unread + b)
      modifies this
      ensures Valid() && data == old(data) && minsize == old(minsize)
      ensures view == old(view).Append(b)
    {
      hide Layout.Valid, Layout.Replay, Layout.Unread, Layout.Reused, Slice, Ends, Wrap, Layout.AfterWrite,
        Model.Append;
      Settle(view, Shape(), d, data[..], b, iDst);
      ghost var v := view.Append(b);
      Commit(n, iDst, nfree);
      view := v;
    }

    method Writer(len: int, src: seq<Byte>, rc: int) returns (n: int, ndropped: int)
      requires Valid() && 0 < len && rc <= 0
      modifies this, data
      ensures Valid() && (data == old(data) || fresh(data)) && minsize == old(minsize)
      ensures view == old(view).Write(len, src)
      ensures var m, a := old(view).Grow(len), old(view).Grow(len).Accept(len);
        && n == (if a == 0 then -1 else if src == [] then rc else Min(a, |src|))
        && ndropped == Max(0, Min(a, |src|) - m.Free())
    {
      hide Layout.Valid, Layout.Replay, Layout.Unread, Layout.Reused, Slice, Ends, Wrap, Layout.AfterWrite,
        Model.GrownSize, Model.Append;
      var nfree := MakeRoom(len);
      view.AppendNothing();
      var want := len;
      if overwrite == NoDrop {
        want := Min(len, size - used);
        if want == 0 {
          return -1, 0;
        }
      } else if overwrite == WrapOnce {
        want := Min(len, size);
      }
      ghost var d := data[..];
      var iDst, m;
      n, iDst, m := FillFrom(want, src, rc);
      if n == 0 {
        return m, 0;
      }
      Finish(d, src[..n], n, iDst, nfree);
      ndropped := Max(0, n - nfree);
    }

    /** The caller's memory holds at least `len` bytes. */
    method Write(src: seq<Byte>, len: int) returns (n: int, ndropped: int)
      requires Valid() && len <= |src|
      modifies this, data
      ensures Valid() && (data == old(data) || fresh(data)) && minsize == old(minsize)
      ensures len <= 0 ==> view == old(view) && ndropped == 0 && n == (if len < 0 then -1 else 0)
      ensures len > 0 ==> view == old(view).Write(len, src)
      ensures len > 0 ==> var m, a := old(view).Grow(len), old(view).Grow(len).Accept(len);
        && n == (if a == 0 then -1 else a)
        && ndropped == Max(0, a - m.Free())
    {
      hide Layout.Valid, Layout.Replay, Layout.Unread, Model.Write, Model.Accept, Model.Grow;
      if len < 0 {
        return -1, 0;
      }
      if len == 0 {
        return 0, 0;
      }
      view.WriteReadsNoMore(len, src);
      view.GrowKeeps(len);
      n, ndropped := Writer(len, src[..len], 0);
    }
  }
}
