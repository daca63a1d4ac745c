/** What a circular buffer is for its users. */
module CbufModel {
  // A pair of byte sequences (src/pdsh/cbuf.c), the bytes already read that can still
  // be replayed and the bytes not read yet, together with the numbers that decide how
  // it grows and what it does when it is full.

  import opened Ring

  const CHUNK := 1000

  datatype Overwrite = NoDrop | WrapOnce | WrapMany

  datatype Model = Model(
    replay: seq<Byte>,
    unread: seq<Byte>,
    size: nat,
    maxsize: nat,
    meta: nat,
    policy: Overwrite,
    gotWrap: bool)
  {
    predicate Valid() {
      && 0 < size <= maxsize
      && 0 < meta
      && |replay| + |unread| <= size
    }

    function Free(): int {
      size - |unread|
    }

    /** All the bytes held, oldest first. */
    function Held(): seq<Byte> {
      replay + unread
    }

    /** The data size after an attempt to grow by `n`: the allocation, which
        counts `meta` bytes more than the data, goes up to the next chunk. */
    function GrownSize(n: nat): (r: int)
      requires Valid() && 0 < n
    {
      var m := size + meta + n;
      Min(m + (CHUNK - m % CHUNK), maxsize + meta) - meta
    }

    /** The buffer as it stands once room for `len` more bytes was looked for. */
    function Grow(len: nat): Model
      requires Valid()
    {
      if len > Free() && size < maxsize then
        GrownSizeBounds(len - Free());
        this.(size := GrownSize(len - Free()))
      else this
    }

    lemma GrownSizeBounds(n: nat)
      requires Valid() && 0 < n && size < maxsize
      ensures size < GrownSize(n) <= maxsize
      ensures GrownSize(n) == maxsize || size + n <= GrownSize(n)
    {
    }

    /** The allocation grows to the next multiple of 1000 behind what is asked for,
        or to what the largest size needs if that comes first. */
    lemma GrownSizeIs(n: nat)
      requires Valid() && 0 < n
      ensures var k, m := size + meta + n, GrownSize(n) + meta;
        && m <= maxsize + meta && (m == maxsize + meta || (m > k && m % 1000 == 0))
        && forall r :: k < r < m ==> r % 1000 != 0
    {
      NextChunk(size + meta + n);
    }

    /** How many of `len` bytes a write may take. */
    function Accept(len: nat): (r: nat)
      requires Valid()
      ensures r <= len
    {
      match policy
      case NoDrop => Min(len, Free())
      case WrapOnce => Min(len, size)
      case WrapMany => len
    }

    /** Whether the policy lets a whole line of `len` bytes in. */
    predicate Admits(len: nat) {
      match policy
      case NoDrop => len <= Free()
      case WrapOnce => len <= size
      case WrapMany => true
    }

    /** Under NoDrop as many bytes as there is room for, under WrapOnce as many as
        the buffer can hold at all, and else all of them; and a line is let in if
        it is taken whole. */
    lemma AcceptMeans(len: nat)
      requires Valid()
      ensures policy == NoDrop ==> var a := Accept(len); |unread| + a <= size && (a == len || |unread| + a == size)
      ensures policy == WrapOnce ==> var a := Accept(len); a <= size && (a == len || a == size)
      ensures policy == WrapMany ==> Accept(len) == len
      ensures Admits(len) <==> Accept(len) == len
    {
    }

    /** The bytes `b` appended, the oldest bytes sacrificed. */
    function Append(b: seq<Byte>): (m: Model)
      requires Valid()
      ensures m.Valid()
    {
      var all := replay + unread + b;
      var keep := Last(all, Min(|all|, size));
      var u := Min(|unread| + |b|, size);
      this.(replay := keep[..|keep| - u], unread := keep[|keep| - u..],
            gotWrap := gotWrap || |all| > size)
    }

    /** What a write of `len` bytes leaves behind when its source delivers `src`
        and then stops. */
    function Write(len: nat, src: seq<Byte>): Model
      requires Valid()
    {
      GrowKeeps(len);
      var m := Grow(len);
      m.Append(src[..Min(m.Accept(len), |src|)])
    }

    lemma WriteReadsNoMore(len: nat, src: seq<Byte>)
      requires Valid() && len <= |src|
      ensures Write(len, src) == Write(len, src[..len])
    {
      GrowKeeps(len);
      var a := Grow(len).Accept(len);
      assert src[..len][..a] == src[..a];
    }

    lemma AppendNothing()
      requires Valid()
      ensures Append([]) == this
    {
      assert replay + unread + [] == replay + unread;
      assert Last(replay + unread, |replay| + |unread|) == replay + unread;
    }

    lemma GrowKeeps(len: nat)
      requires Valid()
      ensures Grow(len).Valid()
      ensures Grow(len) == this.(size := Grow(len).size)
    {
      if len > Free() && size < maxsize {
        GrownSizeBounds(len - Free());
      }
    }

    /** What an append is: the end of everything held and written, split so
        that the unread part takes what it can. */
    lemma AppendHeld(b: seq<Byte>)
      requires Valid()
      ensures var m, h := Append(b), Held() + b;
        && m == this.(replay := m.replay, unread := m.unread, gotWrap := gotWrap || |h| > size)
        && m.Held() == Last(h, Min(|h|, size))
        && |m.unread| == Min(|unread| + |b|, size)
    {
    }

    lemma AppendUnread(x: seq<Byte>)
      requires Valid() && |x| <= Free()
      ensures Append(x).unread == unread + x
    {
    }

    /** Writing in two pieces is writing at once. */
    lemma AppendConcat(x: seq<Byte>, y: seq<Byte>)
      requires Valid()
      ensures Append(x).Append(y) == Append(x + y)
    {
      hide Model.Append, Last, Min;
      var m := Append(x);
      AppendHeld(x);
      m.AppendHeld(y);
      AppendHeld(x + y);
      assert Held() + (x + y) == Held() + x + y;
      LastAppend(Held() + x, y, size);
      SplitUnique(m.Append(y).replay, m.Append(y).unread, Append(x + y).replay, Append(x + y).unread);
    }

    lemma GrowNothing()
      requires Valid()
      ensures Grow(0) == this
    {
    }

    /** Room that was made for `len` bytes is not made again for some of them. */
    lemma GrowOnce(len: nat, x: seq<Byte>, n: nat)
      requires Valid() && |x| + n <= len
      ensures Grow(len).Valid() && Grow(len).Append(x).Grow(n) == Grow(len).Append(x)
    {
      GrowKeeps(len);
      if len > Free() && size < maxsize {
        GrownSizeBounds(len - Free());
      }
    }

    /** So a piece `y` of an admitted line goes in whole, after the piece `x`. */
    lemma WritePiece(len: nat, x: seq<Byte>, y: seq<Byte>)
      requires Valid() && Grow(len).Valid() && Grow(len).Admits(len)
      requires |x| + |y| <= Min(len, Grow(len).size)
      ensures var m := Grow(len).Append(x);
        m.Grow(|y|) == m && m.Accept(|y|) == |y| && m.Write(|y|, y) == m.Append(y)
    {
      GrowOnce(len, x, |y|);
      var m := Grow(len).Append(x);
      assert m.Accept(|y|) == |y|;
      assert y[..|y|] == y;
    }

    /** Leaving out the bytes that would be overwritten at once: what is held in
        the end does not change, only whether the buffer counts as wrapped. */
    lemma AppendEnd(b: seq<Byte>)
      requires Valid()
      ensures var e := Last(b, Min(|b|, size));
        Append(e) == Append(b).(gotWrap := gotWrap || |Held()| + |e| > size)
    {
      var e := Last(b, Min(|b|, size));
      if |b| > size {
        assert Last(replay + unread + b, size) == e;
        assert Last(replay + unread + e, size) == e;
      }
    }

    /** The two ways of writing agree on it unless more bytes than the buffer
        can hold go into one that holds nothing and has never wrapped. */
    lemma AppendEndWraps(b: seq<Byte>)
      requires Valid()
      ensures Append(Last(b, Min(|b|, size))) == Append(b)
          <==> gotWrap || |b| <= size || Held() != []
    {
      AppendEnd(b);
    }

    /** `n` bytes moved from the unread end to the replay end. */
    function Drop(n: nat): Model
      requires n <= |unread|
    {
      this.(replay := replay + unread[..n], unread := unread[n..])
    }

    function Rewind(n: nat): Model
      requires n <= |replay|
    {
      this.(replay := replay[..|replay| - n], unread := Last(replay, n) + unread)
    }

    /** Rewinding gives back exactly what was dropped. */
    lemma DropThenRewind(n: nat)
      requires n <= |unread|
      ensures Drop(n).Rewind(n) == this
    {
      assert (replay + unread[..n])[..|replay|] == replay;
      assert Last(replay + unread[..n], n) + unread[n..] == unread;
    }

    function Flush(): Model {
      this.(replay := [], unread := [], gotWrap := false)
    }
  }

  lemma NextChunk(k: nat)
    ensures var m := k + (CHUNK - k % CHUNK); m > k && m % CHUNK == 0 && forall r :: k < r < m ==> r % CHUNK != 0
  {
    assert k == CHUNK * (k / CHUNK) + k % CHUNK;
    assert k + (CHUNK - k % CHUNK) == CHUNK * (k / CHUNK + 1);
    forall r | k < r < k + (CHUNK - k % CHUNK)
      ensures r % CHUNK != 0
    {
      assert r == CHUNK * (k / CHUNK) + (k % CHUNK + (r - k));
    }
  }

  lemma SplitUnique(a: seq<Byte>, b: seq<Byte>, c: seq<Byte>, d: seq<Byte>)
    requires a + b == c + d && |b| == |d|
    ensures a == c && b == d
  {
    assert a == (a + b)[..|a|] && b == (a + b)[|a|..];
    assert c == (c + d)[..|c|] && d == (c + d)[|c|..];
  }

  lemma LastAppend(h: seq<Byte>, y: seq<Byte>, size: nat)
    ensures var k := Last(h, Min(|h|, size)) + y;
      Last(k, Min(|k|, size)) == Last(h + y, Min(|h + y|, size))
  {
  }
}
