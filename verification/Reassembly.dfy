/** Rebuilding lines from the output of a command. */
module Reassembly {
  // How src/pdsh/dsh.c turns the output of a remote command, which arrives in
  // arbitrary pieces, back into whole lines by means of a circular buffer.

  import opened Ring
  import opened CbufModel
  import opened Cbuf
  import opened CbufShape
  import opened CbufCopy
  import opened CbufLines
  import opened ReturnCode
  import opened Sequences

  /** Lines seen so far, and the start of the next one. */
  datatype Text = Text(lines: seq<seq<Byte>>, rest: seq<Byte>)

  const EMPTY := Text([], [])

  /** What a text becomes when the bytes `x` follow it. */
  function Feed(t: Text, x: seq<Byte>): Text {
    if x == [] then t else
      var u, b := Feed(t, x[..|x| - 1]), x[|x| - 1];
      if b == NEWLINE then Text(u.lines + [u.rest + [b]], []) else u.(rest := u.rest + [b])
  }

  function Flatten(lines: seq<seq<Byte>>): seq<Byte> {
    if lines == [] then [] else Flatten(lines[..|lines| - 1]) + lines[|lines| - 1]
  }

  /** A line is a newline preceded by none. */
  predicate IsLine(s: seq<Byte>) {
    s != [] && s[|s| - 1] == NEWLINE && NEWLINE !in s[..|s| - 1]
  }

  /** Cutting a text into lines loses and invents nothing. */
  lemma {:induction false} FeedIsCut(s: seq<Byte>)
    ensures var t := Feed(EMPTY, s);
      && Flatten(t.lines) + t.rest == s
      && (forall i :: 0 <= i < |t.lines| ==> IsLine(t.lines[i]))
      && NEWLINE !in t.rest
  {
    if s != [] {
      var x, b := s[..|s| - 1], s[|s| - 1];
      FeedIsCut(x);
      var u, t := Feed(EMPTY, x), Feed(EMPTY, s);
      assert s == x + [b];
      if b == NEWLINE {
        assert t.lines[..|t.lines| - 1] == u.lines;
        assert (u.rest + [b])[..|u.rest|] == u.rest;
        assert Flatten(u.lines) + (u.rest + [b]) == (Flatten(u.lines) + u.rest) + [b];
        assert Flatten(t.lines) + [] == Flatten(t.lines);
      } else {
        assert Flatten(u.lines) + (u.rest + [b]) == (Flatten(u.lines) + u.rest) + [b];
      }
    }
  }

  lemma {:induction false} FeedConcat(t: Text, x: seq<Byte>, y: seq<Byte>)
    ensures Feed(Feed(t, x), y) == Feed(t, x + y)
  {
    if y == [] {
      assert x + y == x;
    } else {
      FeedConcat(t, x, y[..|y| - 1]);
      assert (x + y)[..|x + y| - 1] == x + y[..|y| - 1];
    }
  }

  lemma {:induction false} FeedNoNewline(t: Text, x: seq<Byte>)
    requires NEWLINE !in x
    ensures Feed(t, x) == t.(rest := t.rest + x)
  {
    if x == [] {
      assert t.rest + x == t.rest;
    } else {
      FeedNoNewline(t, x[..|x| - 1]);
      assert x == x[..|x| - 1] + [x[|x| - 1]];
      assert t.rest + x == (t.rest + x[..|x| - 1]) + [x[|x| - 1]];
    }
  }

  lemma FeedLine(t: Text, x: seq<Byte>)
    requires IsLine(x)
    ensures Feed(t, x) == Text(t.lines + [t.rest + x], [])
  {
    FeedNoNewline(t, x[..|x| - 1]);
    assert x == x[..|x| - 1] + [NEWLINE];
    assert t.rest + x == (t.rest + x[..|x| - 1]) + [NEWLINE];
  }

  /** Lines already complete do not matter for what follows. */
  lemma {:induction false} FeedPrefix(done: seq<seq<Byte>>, t: Text, x: seq<Byte>)
    ensures Feed(Text(done + t.lines, t.rest), x) == Text(done + Feed(t, x).lines, Feed(t, x).rest)
  {
    if x != [] {
      FeedPrefix(done, t, x[..|x| - 1]);
    }
  }

  lemma {:induction false} NoLines(s: seq<Byte>)
    ensures Lines(s) == 0 <==> NEWLINE !in s
  {
    if s != [] {
      NoLines(s[..|s| - 1]);
      assert s == s[..|s| - 1] + [s[|s| - 1]];
    }
  }

  lemma FirstLine(u: seq<Byte>, n: nat)
    requires 0 < n <= |u| && UnreadLine(u, 0, 1, n, Lines(u[..n]))
    ensures IsLine(u[..n])
  {
    assert u[..n][..n - 1] == u[..n - 1];
    NoLines(u[..n - 1]);
  }

  lemma NoFirstLine(u: seq<Byte>)
    requires UnreadLine(u, 0, 1, 0, Lines(u[..0]))
    ensures NEWLINE !in u
  {
    assert u[..0] == [];
    NoLines(u);
  }

  /** _flush_lines: the lines that are unread are taken off the buffer (`cut`);
      printed is what is left of each behind _extract_rc and before its first NUL,
      if anything; and `rc` is the return code of the thread. */
  method FlushLines(cb: Cbuf, readRc: bool, rc0: int)
    returns (lines: seq<seq<Byte>>, rc: int, ghost cut: seq<seq<Byte>>)
    requires cb.Valid()
    modifies cb`used, cb`iOut, cb`view
    ensures cb.Valid()
    ensures Feed(EMPTY, old(cb.view).unread) == Text(cut, cb.view.unread)
    ensures |cb.view.unread| <= |old(cb.view).unread|
    ensures cb.view == old(cb.view).Drop(|old(cb.view).unread| - |cb.view.unread|)
    ensures lines == Printed(cut, readRc) && rc == LastCode(cut, readRc, rc0)
    ensures rc == if readRc && cut != [] then Code(CText(cut[|cut| - 1])) else rc0
  {
    hide Layout.Valid, Layout.Replay, Layout.Unread, Layout.Reused, Lines, UnreadLine, Feed, Model.Valid, Printed,
      Taken, Image, CText, Code;
    ghost var u := cb.view.unread;
    lines, rc, cut := [], rc0, [];
    TakenNone(u, readRc, rc0);
    var n, out := PeekLine(cb, 1, 1);
    ghost var done := 0;
    assert cb.view.Drop(0) == cb.view;
    while n != 0
      invariant cb.Valid() && 0 <= done <= |u| && cb.view == old(cb.view).Drop(done)
      invariant UnreadLen(cb.view.unread, 0, 1, n)
      invariant Taken(u, done, cut, lines, rc, readRc, rc0)
      decreases |u| - done
    {
      ghost var v := cb.view.unread;
      FirstLine(v, n);
      var buf;
      n, buf := cb.Read(n);
      var text, code := PrintLine(buf, readRc, rc);
      TakenNext(u, done, cut, lines, rc, readRc, rc0, n, buf);
      rc := code;
      if text != [] {
        lines := lines + [text];
      }
      cut := cut + [buf];
      DropTwice(old(cb.view), done, n);
      done := done + n;
      n, out := PeekLine(cb, 1, 1);
    }
    NoFirstLine(cb.view.unread);
    TakenAll(u, done, cut, lines, rc, readRc, rc0);
  }

  /** What that loop keeps: the first `done` bytes of `u` are the lines `cut`. */
  ghost predicate Taken(u: seq<Byte>, done: nat, cut: seq<seq<Byte>>, lines: seq<seq<Byte>>, rc: int, readRc: bool,
      rc0: int)
  {
    && done <= |u| && Feed(EMPTY, u[..done]) == Text(cut, [])
    && lines == Printed(cut, readRc) && rc == LastCode(cut, readRc, rc0)
  }

  lemma TakenNone(u: seq<Byte>, readRc: bool, rc0: int)
    ensures Taken(u, 0, [], [], rc0, readRc, rc0)
  {
    assert u[..0] == [];
    NothingPrinted(readRc, rc0);
  }

  lemma TakenNext(u: seq<Byte>, done: nat, cut: seq<seq<Byte>>, lines: seq<seq<Byte>>, rc: int, readRc: bool, rc0: int,
      n: nat, buf: seq<Byte>)
    requires Taken(u, done, cut, lines, rc, readRc, rc0) && done + n <= |u| && buf == u[done..][..n] && IsLine(buf)
    ensures var text := Image(buf, readRc);
      Taken(u, done + n, cut + [buf], if text == [] then lines else lines + [text],
            if readRc then Code(CText(buf)) else rc, readRc, rc0)
  {
    hide Printed, Image, Code, CText;
    NextLine(u, done, n, cut, buf);
    PrintedNext(cut, buf, readRc, rc0);
    if !readRc {
      assert rc == rc0;
    }
  }

  lemma TakenAll(u: seq<Byte>, done: nat, cut: seq<seq<Byte>>, lines: seq<seq<Byte>>, rc: int, readRc: bool, rc0: int)
    requires Taken(u, done, cut, lines, rc, readRc, rc0) && NEWLINE !in u[done..]
    ensures Feed(EMPTY, u) == Text(cut, u[done..])
    ensures lines == Printed(cut, readRc) && rc == LastCode(cut, readRc, rc0)
  {
    hide Printed, LastCode;
    var rest := u[done..];
    FeedNoNewline(Text(cut, []), rest);
    FeedConcat(EMPTY, u[..done], rest);
    assert u[..done] + rest == u;
    assert [] + rest == rest;
  }

  lemma NothingPrinted(readRc: bool, rc: int)
    ensures Printed([], readRc) == [] && LastCode([], readRc, rc) == rc
  {
  }

  /** The body of that loop: a line in a buffer of its own, with a NUL behind it. */
  method PrintLine(line: seq<Byte>, readRc: bool, rc0: int) returns (text: seq<Byte>, rc: int)
    ensures text == Image(line, readRc)
    ensures rc == if readRc then Code(CText(line)) else rc0
  {
    hide CText, Cut, Code;
    var buf := new Byte[|line| + 1](_ => 0);
    forall i | 0 <= i < |line| {
      buf[i] := line[i];
    }
    assert buf[..] == line + [0];
    assert buf[|line|] == 0;
    TextBeforeNul(line);
    rc := rc0;
    if readRc {
      rc := ExtractRc(buf);
    }
    text := CText(buf[..]);
  }

  lemma NextLine(u: seq<Byte>, done: nat, n: nat, lines: seq<seq<Byte>>, buf: seq<Byte>)
    requires done + n <= |u| && buf == u[done..][..n] && IsLine(buf)
    requires Feed(EMPTY, u[..done]) == Text(lines, [])
    ensures Feed(EMPTY, u[..done + n]) == Text(lines + [buf], [])
  {
    FeedLine(Text(lines, []), buf);
    FeedConcat(EMPTY, u[..done], buf);
    assert u[..done] + buf == u[..done + n];
    assert [] + buf == buf;
  }

  lemma DropTwice(m: Model, i: nat, j: nat)
    requires i + j <= |m.unread|
    ensures m.Drop(i).Drop(j) == m.Drop(i + j)
  {
    assert (m.replay + m.unread[..i]) + m.unread[i..][..j] == m.replay + m.unread[..i + j];
  }

  // ---- The buffers of dsh.c

  const MINSIZE := 64
  const MAXSIZE := 131072

  /** The sizes a buffer of dsh.c goes through when it is asked for more room
      only in steps of at most one chunk, and only when it is full. */
  predicate DshBuffer(m: Model) {
    && m.Valid() && m.maxsize == MAXSIZE && m.policy == WrapMany && 0 < m.meta <= 100
    && (m.size == MINSIZE || m.size == CHUNK - m.meta || m.size == MAXSIZE
        || (m.size + m.meta) % (2 * CHUNK) == 0)
  }

  lemma NextChunk(a: nat, n: nat)
    requires a % 2000 == 0 && n == 1000
    ensures (a + n) + (1000 - (a + n) % 1000) == a + 2000
    ensures (a + 2000) % 2000 == 0
    ensures a <= 131100 ==> a <= 130000
  {
    var j := a / 2000;
    assert a == 2000 * j;
    assert (a + n) == 1000 * (2 * j + 1);
  }

  lemma DshBufferGrows(m: Model)
    requires DshBuffer(m) && m.Free() == 0 && m.size < MAXSIZE
    ensures var want := ChunkFor(m);
      && DshBuffer(m.Grow(want))
      && m.Grow(want).Free() >= want
  {
    var want := ChunkFor(m);
    m.GrowKeeps(want);
    var a := m.size + m.meta;
    if m.size == MINSIZE {
      assert m.GrownSize(want) == CHUNK - m.meta;
    } else if m.size == CHUNK - m.meta {
      assert m.GrownSize(want) == 2 * CHUNK - m.meta;
    } else {
      NextChunk(a, want);
      assert m.GrownSize(want) == Min(a + 2000, MAXSIZE + m.meta) - m.meta;
    }
  }

  /** A text whose lines all fit in the buffer. */
  predicate Fits(t: Text) {
    && |t.rest| <= MAXSIZE
    && forall i :: 0 <= i < |t.lines| ==> |t.lines[i]| <= MAXSIZE
  }

  lemma {:induction false} LongStaysLong(t: Text, x: seq<Byte>)
    requires !Fits(t) || (|t.rest| >= MAXSIZE && x != [])
    ensures !Fits(Feed(t, x))
  {
    if x != [] {
      var y, b := x[..|x| - 1], x[|x| - 1];
      if y != [] || !Fits(t) {
        LongStaysLong(t, y);
      }
      var u, v := Feed(t, y), Feed(t, x);
      if |u.rest| >= MAXSIZE {
        assert b == NEWLINE ==> v.lines[|v.lines| - 1] == u.rest + [b];
      } else {
        var i :| 0 <= i < |u.lines| && |u.lines[i]| > MAXSIZE;
        assert v.lines[i] == u.lines[i];
      }
    }
  }

  lemma {:induction false} LinesNoLonger(s: seq<Byte>)
    ensures var t := Feed(EMPTY, s);
      |t.rest| <= |s| && forall i :: 0 <= i < |t.lines| ==> |t.lines[i]| <= |s|
  {
    if s != [] {
      LinesNoLonger(s[..|s| - 1]);
    }
  }

  lemma {:induction false} FlattenConcat(a: seq<seq<Byte>>, b: seq<seq<Byte>>)
    ensures Flatten(a + b) == Flatten(a) + Flatten(b)
  {
    if b == [] {
      assert a + b == a;
    } else {
      FlattenConcat(a, b[..|b| - 1]);
      assert (a + b)[..|a + b| - 1] == a + b[..|b| - 1];
    }
  }

  /** What the loop of a worker keeps: `k` bytes have been read, `lines` handed
      out and `lost` bytes overwritten before they could be. */
  ghost predicate Progress(input: seq<Byte>, k: nat, m: Model, lines: seq<seq<Byte>>, lost: nat) {
    && DshBuffer(m) && k <= |input|
    && NEWLINE !in m.unread
    && |Flatten(lines)| + |m.unread| + lost == k
    && (lost > 0 ==> !Fits(Feed(EMPTY, input)))
    && (lost == 0 ==>
          && Feed(EMPTY, input[..k]) == Text(lines, m.unread)
          && Fits(Feed(EMPTY, input[..k])))
  }

  /** Reading on without a loss, and handing out the lines completed by it. */
  lemma ProgressNext(input: seq<Byte>, k: nat, lines: seq<seq<Byte>>, p: seq<Byte>, x: seq<Byte>,
                     more: seq<seq<Byte>>, p': seq<Byte>)
    requires k + |x| <= |input| && x == input[k..k + |x|]
    requires Feed(EMPTY, input[..k]) == Text(lines, p) && Fits(Text(lines, p)) && NEWLINE !in p
    requires Feed(EMPTY, p + x) == Text(more, p') && |p + x| <= MAXSIZE
    ensures Feed(EMPTY, input[..k + |x|]) == Text(lines + more, p')
    ensures Fits(Text(lines + more, p'))
  {
    hide Feed;
    assert input[..k + |x|] == input[..k] + x;
    FeedConcat(EMPTY, input[..k], x);
    assert lines + [] == lines;
    FeedPrefix(lines, Text([], p), x);
    FeedNoNewline(EMPTY, p);
    assert [] + p == p;
    FeedConcat(EMPTY, p, x);
    LinesNoLonger(p + x);
  }

  lemma WriteToDshBuffer(m: Model, src: seq<Byte>)
    requires DshBuffer(m)
    ensures var want := ChunkFor(m);
      var g := m.Grow(want);
      var n := Min(want, |src|);
      var m' := m.Write(want, src);
      && g.Valid() && g.Accept(want) == want
      && DshBuffer(m')
      && |m'.unread| + Max(0, n - g.Free()) == |m.unread| + n
      && (n <= g.Free() ==> m'.unread == m.unread + src[..n])
      && (n > g.Free() ==> |m.unread| == MAXSIZE)
  {
    hide Model.Append, Model.Grow, ChunkFor;
    var want := ChunkFor(m);
    m.GrowKeeps(want);
    if m.Free() == 0 && m.size < MAXSIZE {
      DshBufferGrows(m);
    } else {
      NoGrowth(m);
    }
    var n := Min(want, |src|);
    var h := m.Grow(want);
    h.AppendHeld(src[..n]);
    if n <= h.Free() {
      h.AppendUnread(src[..n]);
    }
  }

  lemma NoGrowth(m: Model)
    requires DshBuffer(m) && (m.Free() > 0 || m.size == MAXSIZE)
    ensures m.Grow(ChunkFor(m)) == m
    ensures m.Free() > 0 ==> ChunkFor(m) == m.Free()
  {
  }

  /** _do_output: one read from the remote command and the lines it completes. */
  method DoOutput(cb: Cbuf, src: seq<Byte>, readRc: bool, rc0: int)
    returns (n: int, lines: seq<seq<Byte>>, rc: int, dropped: int, ghost cut: seq<seq<Byte>>)
    requires cb.Valid() && DshBuffer(cb.view)
    modifies cb, cb.data
    ensures cb.Valid() && DshBuffer(cb.view) && (cb.data == old(cb.data) || fresh(cb.data))
    ensures 0 <= n <= |src| && (src != [] ==> n > 0) && NEWLINE !in cb.view.unread
    ensures |Flatten(cut)| + |cb.view.unread| + dropped == |old(cb.view).unread| + n
    ensures dropped >= 0 && (dropped > 0 ==> |old(cb.view).unread| == MAXSIZE)
    ensures dropped == 0 ==> Feed(EMPTY, old(cb.view).unread + src[..n]) == Text(cut, cb.view.unread)
    ensures dropped == 0 ==> |old(cb.view).unread + src[..n]| <= MAXSIZE
    ensures lines == Printed(cut, readRc) && rc == LastCode(cut, readRc, rc0)
  {
    hide Layout.Valid, Layout.Replay, Layout.Unread, Model.Append, Model.Grow, Model.Accept, Model.Write, ChunkFor,
      Feed, Flatten, Model.Free, Printed, LastCode;
    WriteToDshBuffer(cb.view, src);
    n, dropped := WriteFromFd(cb, -1, src, 0);
    ghost var v := cb.view;
    lines, rc, cut := FlushLines(cb, readRc, rc0);
    FeedIsCut(v.unread);
    CutLength(cut, cb.view.unread, v.unread);
  }

  lemma CutLength(lines: seq<seq<Byte>>, rest: seq<Byte>, s: seq<Byte>)
    requires Flatten(lines) + rest == s
    ensures |Flatten(lines)| + |rest| == |s|
  {
  }

  /** One read keeps the progress. */
  lemma ProgressStep(input: seq<Byte>, k: nat, m: Model, lines: seq<seq<Byte>>, lost: nat,
                     n: nat, m': Model, more: seq<seq<Byte>>, dropped: nat)
    requires Progress(input, k, m, lines, lost) && k + n <= |input| && n > 0
    requires DshBuffer(m') && NEWLINE !in m'.unread
    requires |Flatten(more)| + |m'.unread| + dropped == |m.unread| + n
    requires dropped > 0 ==> |m.unread| == MAXSIZE
    requires dropped == 0 ==> Feed(EMPTY, m.unread + input[k..k + n]) == Text(more, m'.unread)
    requires dropped == 0 ==> |m.unread| + n <= MAXSIZE
    ensures Progress(input, k + n, m', lines + more, lost + dropped)
  {
    FlattenConcat(lines, more);
    if lost == 0 {
      if dropped == 0 {
        ProgressNext(input, k, lines, m.unread, input[k..k + n], more, m'.unread);
      } else {
        assert input == input[..k] + input[k..];
        FeedConcat(EMPTY, input[..k], input[k..]);
        LongStaysLong(Text(lines, m.unread), input[k..]);
      }
    }
  }

  /** Nothing of this text is changed by printing: no NUL is in it, and no marker
      in a line, where markers are looked for. */
  predicate Plain(t: Text, readRc: bool) {
    (forall i :: 0 <= i < |t.lines| ==> PlainLine(t.lines[i], readRc)) && 0 !in t.rest
  }

  /** A worker from the first read of the remote command to end of file and the
      final flush.  `avail` says how many bytes each read finds waiting; it is
      arbitrary.  `lines` are the lines printed one by one, `tail` the pieces of
      _flush_output put together, `rc` the return code, `lost` the bytes that were
      overwritten; `cut` and `rest` are what was taken off the buffer.

      What is taken off is the input, cut into its lines, if and only if every
      line of the input, and its unfinished end, has at most 131072 bytes.  And
      what is printed is just that if and only if moreover no NUL is in it and, if
      return codes are looked for, no marker. */
  method Session(input: seq<Byte>, avail: nat -> nat, meta: nat, readRc: bool)
    returns (lines: seq<seq<Byte>>, tail: seq<Byte>, rc: int, lost: nat, ghost cut: seq<seq<Byte>>,
      ghost rest: seq<Byte>)
    requires 0 < meta <= 100
    ensures lost == 0 <==> Fits(Feed(EMPTY, input))
    ensures lost == 0 <==> Text(cut, rest) == Feed(EMPTY, input)
    ensures |Flatten(cut)| + |rest| + lost == |input|
    ensures lines == Printed(cut, readRc) && tail == Pieces(rest)
    ensures rc == if readRc && cut != [] then Code(CText(cut[|cut| - 1])) else 0
    ensures Text(lines, tail) == Feed(EMPTY, input) <==> Fits(Feed(EMPTY, input)) && Plain(Feed(EMPTY, input), readRc)
  {
    hide Layout.Valid, Layout.Replay, Layout.Unread, Feed, Flatten, Fits, Printed, LastCode, Plain, Progress, DshBuffer;
    var cb := new Cbuf(MINSIZE, MAXSIZE, meta);
    var k, step := 0, 0;
    lines, rc, lost, cut := [], 0, 0, [];
    NothingPrinted(readRc, 0);
    ProgressStart(input, cb.view);
    while k < |input|
      invariant cb.Valid() && fresh(cb) && fresh(cb.data)
      invariant k <= |input| && Progress(input, k, cb.view, cut, lost)
      invariant lines == Printed(cut, readRc) && rc == LastCode(cut, readRc, 0)
    {
      var waiting := Max(1, avail(step));
      var src := input[k..Min(k + waiting, |input|)];
      var n, more, dropped;
      ghost var moreCut;
      n, more, rc, dropped, moreCut := Round(cb, src, readRc, rc, input, k, cut, lost);
      PrintedConcat(cut, moreCut, readRc);
      LastCodeConcat(cut, moreCut, readRc, 0);
      lines := lines + more;
      cut := cut + moreCut;
      lost := lost + dropped;
      k := k + n;
      step := step + 1;
    }
    ProgressEnd(input, cb.view, cut, lost);
    tail, rest := FlushOutput(cb);
    LastCodeIs(cut, readRc);
    PrintedSame(cut, rest, readRc, input);
  }

  lemma LastCodeIs(cut: seq<seq<Byte>>, readRc: bool)
    ensures LastCode(cut, readRc, 0) == if readRc && cut != [] then Code(CText(cut[|cut| - 1])) else 0
  {
  }

  /** One turn of the poll loop. */
  method Round(cb: Cbuf, src: seq<Byte>, readRc: bool, rc0: int, ghost input: seq<Byte>, k: nat,
      ghost cut: seq<seq<Byte>>, ghost lost: nat)
    returns (n: int, lines: seq<seq<Byte>>, rc: int, dropped: int, ghost moreCut: seq<seq<Byte>>)
    requires cb.Valid() && k + |src| <= |input| && src == input[k..k + |src|] && src != []
    requires Progress(input, k, cb.view, cut, lost)
    modifies cb, cb.data
    ensures cb.Valid() && (cb.data == old(cb.data) || fresh(cb.data))
    ensures 0 < n <= |src| && dropped >= 0
    ensures Progress(input, k + n, cb.view, cut + moreCut, lost + dropped)
    ensures lines == Printed(moreCut, readRc) && rc == LastCode(moreCut, readRc, rc0)
  {
    hide Layout.Valid, Layout.Replay, Layout.Unread, Feed, Flatten, Fits, Printed, LastCode, Progress, DshBuffer;
    ProgressBuffer(input, k, cb.view, cut, lost);
    ghost var m := cb.view;
    n, lines, rc, dropped, moreCut := DoOutput(cb, src, readRc, rc0);
    assert src[..n] == input[k..k + n];
    ProgressStep(input, k, m, cut, lost, n, cb.view, moreCut, dropped);
  }

  lemma ProgressBuffer(input: seq<Byte>, k: nat, m: Model, cut: seq<seq<Byte>>, lost: nat)
    requires Progress(input, k, m, cut, lost)
    ensures DshBuffer(m)
  {
  }

  /** At the end of the input. */
  lemma ProgressEnd(input: seq<Byte>, m: Model, cut: seq<seq<Byte>>, lost: nat)
    requires Progress(input, |input|, m, cut, lost)
    ensures NEWLINE !in m.unread && |Flatten(cut)| + |m.unread| + lost == |input|
    ensures lost == 0 <==> Fits(Feed(EMPTY, input))
    ensures lost == 0 <==> Text(cut, m.unread) == Feed(EMPTY, input)
  {
    hide Feed, Flatten, Fits, DshBuffer;
    assert input[..|input|] == input;
    CutLengthOf(input);
  }

  lemma {:induction false} PrintedShorter(ls: seq<seq<Byte>>, readRc: bool)
    ensures |Flatten(Printed(ls, readRc))| <= |Flatten(ls)|
    ensures Printed(ls, readRc) == ls ==> forall i :: 0 <= i < |ls| ==> PlainLine(ls[i], readRc)
    ensures (forall i :: 0 <= i < |ls| ==> ls[i] != [] && PlainLine(ls[i], readRc)) ==> Printed(ls, readRc) == ls
    ensures |Printed(ls, readRc)| <= |ls|
  {
    hide Image, PlainLine;
    if ls != [] {
      var n := |ls| - 1;
      PrintedShorter(ls[..n], readRc);
      ImageShorter(ls[n], readRc);
      var p, s := Printed(ls[..n], readRc), Image(ls[n], readRc);
      FlattenNext(ls[..n], ls[n]);
      assert ls == ls[..n] + [ls[n]];
      if s == [] {
        assert Printed(ls, readRc) == p;
      } else {
        FlattenNext(p, s);
        assert Printed(ls, readRc) == p + [s];
        if p + [s] == ls {
          assert p == (p + [s])[..|p|] && s == (p + [s])[|p|];
        }
      }
    }
  }

  lemma FlattenNext(ls: seq<seq<Byte>>, s: seq<Byte>)
    ensures Flatten(ls + [s]) == Flatten(ls) + s && |Flatten(ls + [s])| == |Flatten(ls)| + |s|
  {
    assert (ls + [s])[..|ls|] == ls;
  }

  /** What is printed is what came if and only if it was taken off as it came and
      is plain. */
  lemma PrintedSame(cut: seq<seq<Byte>>, rest: seq<Byte>, readRc: bool, input: seq<Byte>)
    requires |Flatten(cut)| + |rest| <= |input|
    requires |Flatten(cut)| + |rest| == |input| <==> Fits(Feed(EMPTY, input))
    requires Text(cut, rest) == Feed(EMPTY, input) <==> Fits(Feed(EMPTY, input))
    ensures Text(Printed(cut, readRc), Pieces(rest)) == Feed(EMPTY, input)
      <==> Fits(Feed(EMPTY, input)) && Plain(Feed(EMPTY, input), readRc)
  {
    hide Feed, Flatten, Fits, Printed, PlainLine, Pieces;
    PrintedShorter(cut, readRc);
    CutLengthOf(input);
    PiecesShorter(rest);
    FeedIsCut(input);
  }

  lemma PiecesShorter(s: seq<Byte>)
    ensures |Pieces(s)| <= |s| && (Pieces(s) == s <==> 0 !in s)
  {
  }

  lemma CutLengthOf(s: seq<Byte>)
    ensures |Flatten(Feed(EMPTY, s).lines)| + |Feed(EMPTY, s).rest| == |s|
  {
    FeedIsCut(s);
    CutLength(Feed(EMPTY, s).lines, Feed(EMPTY, s).rest, s);
  }

  lemma ProgressStart(input: seq<Byte>, m: Model)
    requires m.Valid() && m.maxsize == MAXSIZE && m.policy == WrapMany && 0 < m.meta <= 100
    requires m.size == MINSIZE && m.unread == []
    ensures Progress(input, 0, m, [], 0)
  {
    assert input[..0] == [];
  }

  /** _flush_output: what is left when no newline will come, each piece up to its
      first NUL.  No whole line is left by then, so the inner call of
      _flush_lines, which is passed the first thread of all instead of this one,
      never prints a line. */
  method FlushOutput(cb: Cbuf) returns (tail: seq<Byte>, ghost rest: seq<Byte>)
    requires cb.Valid() && NEWLINE !in cb.view.unread
    modifies cb`used, cb`iOut, cb`view
    ensures cb.Valid() && cb.view.unread == []
    ensures rest == old(cb.view).unread && tail == Pieces(rest)
  {
    hide Layout.Valid, Layout.Replay, Layout.Unread, Feed, Model.Valid, Pieces, CText;
    rest := cb.view.unread;
    var lines, rc;
    ghost var cut;
    lines, rc, cut := FlushLines(cb, false, 0);
    FeedNoNewline(EMPTY, rest);
    assert [] + rest == rest;
    tail := [];
    ghost var left := rest;
    var n, buf := ReadPiece(cb, PIECE);
    while n > 0
      invariant cb.Valid() && n == |buf| == Min(PIECE, |left|) && buf + cb.view.unread == left
      invariant tail + Pieces(left) == Pieces(rest)
      invariant n == 0 ==> left == []
      decreases |left|
    {
      NextPiece(tail, left, buf, cb.view.unread);
      tail := tail + CText(buf);
      left := cb.view.unread;
      n, buf := ReadPiece(cb, PIECE);
    }
    NoPieces(tail);
  }

  lemma NextPiece(tail: seq<Byte>, left: seq<Byte>, buf: seq<Byte>, more: seq<Byte>)
    requires left == buf + more && |buf| == Min(PIECE, |left|) && left != []
    ensures (tail + CText(buf)) + Pieces(more) == tail + Pieces(left)
  {
    hide CText;
    assert buf == left[..|buf|] && more == left[|buf|..];
    Assoc(tail, CText(buf), Pieces(more));
  }

  lemma NoPieces(tail: seq<Byte>)
    ensures tail + Pieces([]) == tail
  {
  }

  method ReadPiece(cb: Cbuf, len: int) returns (n: int, out: seq<Byte>)
    requires cb.Valid() && len > 0
    modifies cb`used, cb`iOut, cb`view
    ensures cb.Valid() && n == |out| == Min(len, |old(cb.view).unread|)
    ensures out + cb.view.unread == old(cb.view).unread
    ensures n == 0 ==> cb.view.unread == []
  {
    hide Layout.Valid, Layout.Replay, Layout.Unread;
    n, out := cb.Read(len);
  }
}
