/** How the three indices of a circular buffer cut its cells into bytes that
    can be replayed, unread bytes and free cells. */
module CbufShape {
  import opened Ring

  datatype Layout = Layout(size: int, used: int, iIn: int, iOut: int, iRep: int)
  {
    /** The part of cbuf_is_valid that speaks of the indices. */
    predicate Valid() {
      && 0 < size
      && 0 <= used <= size
      && 0 <= iIn <= size
      && 0 <= iOut <= size
      && 0 <= iRep <= size
      && (if iIn >= iOut then iRep > iIn || iRep <= iOut else iIn < iRep <= iOut)
      && size - used == Wrap(iOut - iIn - 1 + (size + 1), size + 1)
    }

    /** The number of bytes that can be replayed. */
    function Reused(): (r: int)
      requires Valid()
      ensures 0 <= r && r + used <= size
    {
      Wrap(iOut - iRep + (size + 1), size + 1)
    }

    lemma Borders()
      requires Valid()
      ensures iOut == Wrap(iRep + Reused(), size + 1)
      ensures iIn == Wrap(iOut + used, size + 1)
      ensures iIn == Wrap(iRep + (Reused() + used), size + 1)
    {
    }

    ghost predicate Fits(d: seq<Byte>) {
      Valid() && |d| == size + 1
    }

    ghost function Replay(d: seq<Byte>): (r: seq<Byte>)
      requires Fits(d)
      ensures |r| == Reused()
    {
      Slice(d, iRep, Reused())
    }

    ghost function Unread(d: seq<Byte>): (r: seq<Byte>)
      requires Fits(d)
      ensures |r| == used
    {
      Slice(d, iOut, used)
    }

    /** Both stretches together are the cells that end where writing goes on. */
    lemma Held(d: seq<Byte>)
      requires Fits(d)
      ensures Replay(d) + Unread(d) == Before(d, iIn, Reused() + used)
    {
      Borders();
      SliceSplit(d, iRep, Reused(), used);
    }

    lemma HeldEnds(d: seq<Byte>)
      requires Fits(d)
      ensures 0 <= iIn <= size && Ends(d, iIn, Replay(d) + Unread(d))
    {
      hide Layout.Replay, Layout.Unread, Slice, Layout.Reused;
      Held(d);
    }

    /** The read index moved on by `n`. */
    function Forward(n: nat): Layout
      requires Valid() && n <= used
    {
      this.(used := used - n, iOut := Wrap(iOut + n, size + 1))
    }

    lemma ForwardIsDrop(d: seq<Byte>, n: nat)
      requires Fits(d) && n <= used
      ensures 0 <= iOut <= size && n <= size
      ensures Forward(n).Fits(d)
      ensures Forward(n).Replay(d) == Replay(d) + Unread(d)[..n]
      ensures Forward(n).Unread(d) == Unread(d)[n..]
    {
      hide Slice;
      Borders();
      SliceShift(d, iRep, Reused(), used, n);
    }

    /** The read index moved back by `n`. */
    function Backward(n: nat): Layout
      requires Valid() && n <= Reused()
    {
      this.(used := used + n, iOut := Wrap(iOut - n + (size + 1), size + 1))
    }

    lemma BackwardForward(n: nat)
      requires Valid() && n <= Reused()
      ensures Backward(n).Valid() && Backward(n).Forward(n) == this
      ensures Backward(n).Reused() == Reused() - n
    {
    }

    lemma BackwardIsRewind(d: seq<Byte>, n: nat)
      requires Fits(d) && n <= Reused()
      ensures 0 <= iOut <= size && n <= size
      ensures Backward(n).Fits(d)
      ensures Backward(n).Replay(d) == Replay(d)[..Reused() - n]
      ensures Backward(n).Unread(d) == Last(Replay(d), n) + Unread(d)
    {
      BackwardForward(n);
      hide Layout.Valid, Layout.Replay, Layout.Unread, Layout.Forward;
      Backward(n).ForwardIsDrop(d, n);
      var r, u := Backward(n).Replay(d), Backward(n).Unread(d);
      assert r == (r + u[..n])[..|r|];
      assert u == Last(r + u[..n], n) + u[n..];
    }

    /** The read index, moved over `n` unread bytes. */
    lemma UnreadAt(d: seq<Byte>, n: nat)
      requires Fits(d) && n <= used
      ensures 0 <= iOut <= size && n <= size && Wrap(iOut + n, size + 1) <= size
      ensures Wrap(iOut + n, size + 1) == iIn <==> n == used
      ensures n < used ==> d[Wrap(iOut + n, size + 1)] == Unread(d)[n]
      ensures n < used ==> Wrap(Wrap(iOut + n, size + 1) + 1, size + 1) == Wrap(iOut + (n + 1), size + 1)
    {
    }

    /** The read index, moved back over `n` replay bytes. */
    lemma ReplayAt(d: seq<Byte>, n: nat)
      requires Fits(d) && n <= Reused()
      ensures 0 <= iOut <= size && n <= size && Wrap(iOut - n + (size + 1), size + 1) <= size
      ensures Wrap(iOut - n + (size + 1), size + 1) == iRep <==> n == Reused()
      ensures n < Reused() ==>
        && Wrap(Wrap(iOut - n + (size + 1), size + 1) + size, size + 1) == Wrap(iOut - (n + 1) + (size + 1), size + 1)
        && d[Wrap(iOut - (n + 1) + (size + 1), size + 1)] == Replay(d)[Reused() - 1 - n]
    {
    }

    /** The cells that hold the last `want` replay bytes. */
    lemma ReplayTail(d: seq<Byte>, want: nat, m: nat)
      requires Fits(d) && m <= want <= Reused()
      ensures 0 <= iOut <= size && Reused() <= size
      ensures Wrap(iOut - want + (size + 1), size + 1) <= size
      ensures Slice(d, Wrap(iOut - want + (size + 1), size + 1), m) == Last(Replay(d), want)[..m]
    {
    }

    /** The cells that hold the last `m` of the first `n` unread bytes. */
    lemma Tail(d: seq<Byte>, n: nat, m: nat)
      requires Fits(d) && m <= n <= used
      ensures 0 <= iOut <= size && n <= size
      ensures Wrap(iOut + (n - m), size + 1) <= size
      ensures n == m ==> Wrap(iOut + (n - m), size + 1) == iOut
      ensures Slice(d, Wrap(iOut + (n - m), size + 1), m) == Last(Unread(d)[..n], m)
    {
    }

    /** The metadata update that closes a write of `n` bytes ending before `e`. */
    function AfterWrite(n: nat, e: int): Layout
      requires Valid() && 0 <= e <= size
    {
      var nfree := size - used;
      var rep := if n > nfree - Reused() then Wrap(e + 1, size + 1) else iRep;
      Layout(size, Min(used + n, size), e, if n > nfree then rep else iOut, rep)
    }

    lemma AfterWriteBorders(n: nat, e: int)
      requires Valid() && 0 <= e <= size
      requires n <= size ==> e == Wrap(iIn + n, size + 1)
      ensures AfterWrite(n, e).Valid()
      ensures AfterWrite(n, e).Reused() + AfterWrite(n, e).used == Min(Reused() + used + n, size)
    {
      Borders();
    }

    /** Once the loop has left the end of `h`, the held bytes followed by those
        written, before cell `e`, the update makes the buffer hold the last
        bytes of `h` that fit. */
    lemma AfterWriteIsAppend(d: seq<Byte>, d': seq<Byte>, h: seq<Byte>, n: nat, e: int)
      requires Fits(d) && |d'| == |d| && 0 <= e <= size
      requires n <= size ==> e == Wrap(iIn + n, size + 1)
      requires |h| == Reused() + used + n
      requires Ends(d', e, h)
      ensures AfterWrite(n, e).Fits(d')
      ensures AfterWrite(n, e).Replay(d') + AfterWrite(n, e).Unread(d') == Last(h, Min(|h|, size))
      ensures |AfterWrite(n, e).Unread(d')| == Min(used + n, size)
    {
      hide Layout.Valid, Layout.Replay, Layout.Unread, Wrap, Slice, Before, Layout.Reused;
      AfterWriteBorders(n, e);
      AfterWrite(n, e).Held(d');
      BeforeShorter(d', e, Min(|h|, |d|), Min(|h|, size));
    }

    /** Where the indices go when the ring gets larger: a wrapped end, from the
        replay index on, moves to the new end. */
    function Grown(size': int): Layout
      requires Valid() && size <= size'
    {
      if iRep > iIn then
        var m := (size' + 1) - ((size + 1) - iRep);
        Layout(size', used, iIn, if iOut >= iRep then iOut + (m - iRep) else iOut, m)
      else this.(size := size')
    }

    /** Growing keeps both sequences, byte for byte. */
    lemma GrownIsSame(d: seq<Byte>, d': seq<Byte>, size': int)
      requires Fits(d) && size <= size' && |d'| == size' + 1
      requires iRep > iIn ==> d'[..iRep] == d[..iRep] && d'[size' - size + iRep..] == d[iRep..]
      requires iRep <= iIn ==> d'[..size + 1] == d
      ensures Grown(size').Fits(d')
      ensures Grown(size').Replay(d') == Replay(d)
      ensures Grown(size').Unread(d') == Unread(d)
    {
      Borders();
      Grown(size').Borders();
    }
  }

  /** One contiguous copy of a write: `w` bytes of `b` have been written after
      `held`, and the next stretch `x` of `b` goes to cell `e`. */
  lemma WriteChunk(d: seq<Byte>, d': seq<Byte>, e: nat, x: seq<Byte>, held: seq<Byte>, b: seq<Byte>, w: nat)
    requires e < |d| && e + |x| <= |d| && w + |x| <= |b| && x == b[w..w + |x|]
    requires d' == d[..e] + x + d[e + |x|..]
    requires Ends(d, e, held + b[..w])
    ensures Ends(d', Wrap(e + |x|, |d|), held + b[..w + |x|])
  {
    BeforeAppend(d, d', e, x, held + b[..w]);
    assert held + b[..w] + x == held + b[..w + |x|];
  }

  /** The cells before `e` hold the end of `h`. */
  predicate Ends(d: seq<Byte>, e: nat, h: seq<Byte>) {
    e < |d| && Before(d, e, Min(|h|, |d|)) == Last(h, Min(|h|, |d|))
  }

  lemma BeforeShorter<T>(d: seq<T>, e: nat, n: nat, m: nat)
    requires e < |d| && m <= n <= |d|
    ensures Before(d, e, m) == Last(Before(d, e, n), m)
  {
  }
}
