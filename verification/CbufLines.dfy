/** The line searches of src/pdsh/cbuf.c and the operations built on them. */
module CbufLines {
  import opened Ring
  import opened CbufModel
  import opened CbufShape
  import opened Cbuf

  function Lines(s: seq<Byte>): (n: nat)
    ensures n <= |s|
  {
    if s == [] then 0 else Lines(s[..|s| - 1]) + (if s[|s| - 1] == NEWLINE then 1 else 0)
  }

  lemma LinesConcat(a: seq<Byte>, b: seq<Byte>)
    ensures Lines(a + b) == Lines(a) + Lines(b)
  {
    if b == [] {
      assert a + b == a;
    } else {
      LinesConcat(a, b[..|b| - 1]);
      assert (a + b)[..|a + b| - 1] == a + b[..|b| - 1];
    }
  }

  lemma LinesPrefix(u: seq<Byte>, i: nat, j: nat)
    requires i <= j <= |u|
    ensures Lines(u[..i]) <= Lines(u[..j])
    ensures i < j && u[j - 1] == NEWLINE ==> Lines(u[..i]) < Lines(u[..j])
  {
    if i < j {
      LinesPrefix(u, i, j - 1);
      assert u[..j][..j - 1] == u[..j - 1];
    }
  }

  /** What a search of `lines` lines among the unread bytes `u` must answer: the
      length `n` of the first `lines` lines if there are so many, and else
      nothing; or, for -1, of all the lines that fit in `chars` bytes. */
  ghost predicate UnreadLine(u: seq<Byte>, chars: int, lines: int, n: int, found: int) {
    && 0 <= n <= |u|
    && found == Lines(u[..n])
    && (n > 0 ==> u[n - 1] == NEWLINE)
    && (lines >= 0 ==> found == if Lines(u) >= lines then lines else 0)
    && (lines < 0 ==> n <= Max(chars, 0) && forall j :: n <= j < Min(chars, |u|) ==> u[j] != NEWLINE)
  }

  lemma UnreadLineUnique(u: seq<Byte>, chars: int, lines: int, n: int, found: int, n': int, found': int)
    requires UnreadLine(u, chars, lines, n, found) && UnreadLine(u, chars, lines, n', found')
    ensures n == n' && found == found'
  {
    if n < n' {
      LinesPrefix(u, n, n');
    } else if n' < n {
      LinesPrefix(u, n', n);
    }
  }

  /** The counters of cbuf_find_unread_line after `n` bytes: `m` is the end of
      the last line seen, `l` the lines seen, `lines` and `left` what is still
      wanted. */
  ghost predicate Scanned(u: seq<Byte>, chars: int, nlines: int, n: int, m: int, l: int, lines: int, left: int) {
    && 0 <= m <= n <= |u|
    && l == Lines(u[..n]) == Lines(u[..m])
    && (m > 0 ==> u[m - 1] == NEWLINE)
    && (forall j :: m <= j < n ==> u[j] != NEWLINE)
    && (if nlines > 0 then left < 0 && lines == nlines - l else lines < 0 && left == chars - n)
  }

  lemma ScanNext(u: seq<Byte>, chars: int, nlines: int, n: int, m: int, l: int, lines: int, left: int)
    requires Scanned(u, chars, nlines, n, m, l, lines, left) && n < |u|
    requires if nlines > 0 then lines > 0 else left > 0
    ensures var left' := if left > 0 then left - 1 else left;
      if u[n] == NEWLINE then
        Scanned(u, chars, nlines, n + 1, n + 1, l + 1, if lines > 0 then lines - 1 else lines, left')
      else Scanned(u, chars, nlines, n + 1, m, l, lines, left')
  {
    assert u[..n + 1][..n] == u[..n];
  }

  lemma ScanEnd(u: seq<Byte>, chars: int, nlines: int, n: int, m: int, l: int, lines: int, left: int)
    requires Scanned(u, chars, nlines, n, m, l, lines, left)
    requires lines == 0 || left == 0 || n == |u|
    requires nlines > 0 ==> lines >= 0
    requires nlines < 0 ==> left >= 0
    requires nlines != 0
    ensures if lines > 0 then UnreadLine(u, chars, nlines, 0, 0) else UnreadLine(u, chars, nlines, m, l)
  {
    assert u[..|u|] == u;
    LinesPrefix(u, n, |u|);
  }

  method FindUnreadLine(cb: Cbuf, chars: int, nlines: int) returns (m: int, found: int)
    requires cb.Valid() && nlines >= -1
    ensures UnreadLine(cb.view.unread, chars, nlines, m, found)
  {
    hide Layout.Valid, Layout.Replay, Layout.Unread, Layout.Reused, Slice, Wrap, Scanned;
    ghost var u := cb.view.unread;
    var n, l, lines, left := 0, 0, nlines, chars;
    m := 0;
    if lines == 0 || (lines <= -1 && left <= 0) {
      return 0, 0;
    }
    if cb.used == 0 {
      return 0, 0;
    }
    if lines > 0 {
      left := -1;
    }
    var i := cb.iOut;
    cb.Shape().UnreadAt(cb.data[..], 0);
    WrapSame(cb.iOut, cb.size + 1);
    assert Scanned(u, chars, nlines, n, m, l, lines, left) by { ScanStart(u, chars, nlines); }
    while i != cb.iIn
      invariant 0 <= n <= cb.used && i == Wrap(cb.iOut + n, cb.size + 1) && (i == cb.iIn <==> n == cb.used)
      invariant Scanned(u, chars, nlines, n, m, l, lines, left)
      invariant if nlines > 0 then lines > 0 else left > 0
      decreases cb.used - n
    {
      cb.Shape().UnreadAt(cb.data[..], n);
      cb.Shape().UnreadAt(cb.data[..], n + 1);
      ScanNext(u, chars, nlines, n, m, l, lines, left);
      n := n + 1;
      if left > 0 {
        left := left - 1;
      }
      if cb.data[i] == NEWLINE {
        if lines > 0 {
          lines := lines - 1;
        }
        m := n;
        l := l + 1;
      }
      if left == 0 || lines == 0 {
        break;
      }
      i := Wrap(i + 1, cb.size + 1);
    }
    ScanEnd(u, chars, nlines, n, m, l, lines, left);
    if lines > 0 {
      return 0, 0;
    }
    found := l;
  }

  lemma ScanStart(u: seq<Byte>, chars: int, nlines: int)
    requires nlines > 0 || (nlines == -1 && chars > 0)
    ensures Scanned(u, chars, nlines, 0, 0, 0, nlines, if nlines > 0 then -1 else chars)
  {
  }

  /** 1 when the last replay byte is no newline, so that one is understood. */
  function Missing(r: seq<Byte>): (nl: nat)
    requires r != []
    ensures nl <= 1
  {
    if r[|r| - 1] == NEWLINE then 0 else 1
  }

  /** Whether the last `m` bytes begin where a line begins: after a newline, or
      at the first byte ever written if the buffer has not wrapped. */
  predicate StartsLine(r: seq<Byte>, wrapped: bool, m: int)
    requires 0 <= m <= |r|
  {
    if m == |r| then !wrapped else r[|r| - m - 1] == NEWLINE
  }

  /** The whole lines among the replay bytes, the last one taken as complete. */
  function WholeLines(r: seq<Byte>, wrapped: bool): int {
    if r == [] then 0 else Lines(r) + Missing(r) - (if wrapped then 1 else 0)
  }

  /** What a search of `lines` lines back from the end of the replay bytes `r`
      must answer: the length `n` of exactly the last `lines` lines, or nothing if
      there are not so many; or, for -1, of the most lines that fit in `chars`
      bytes, an understood newline included. */
  ghost predicate ReplayLine(r: seq<Byte>, wrapped: bool, chars: int, lines: int, n: int, found: int, nl: int) {
    && 0 <= n <= |r|
    && (r == [] || lines == 0 || (lines < 0 && chars <= 0) ==> n == found == nl == 0)
    && (r != [] && lines > 0 ==>
      && nl == Missing(r)
      && (n > 0 <==> lines <= WholeLines(r, wrapped))
      && (n == 0 ==> found == 0)
      && (n > 0 ==> StartsLine(r, wrapped, n) && found == lines == Lines(Last(r, n)) + nl))
    && (r != [] && lines < 0 && chars > 0 ==>
      && nl == Missing(r)
      && (n == 0 ==> found == 0)
      && (n > 0 ==> StartsLine(r, wrapped, n) && n + nl <= chars && found == Lines(Last(r, n)) + nl)
      && (forall m :: n < m <= |r| && StartsLine(r, wrapped, m) ==> m + nl > chars))
  }

  /** One more byte back. */
  lemma LinesBack(r: seq<Byte>, n: nat)
    requires n < |r|
    ensures Lines(Last(r, n + 1)) == Lines(Last(r, n)) + (if r[|r| - 1 - n] == NEWLINE then 1 else 0)
  {
    var c := r[|r| - 1 - n];
    assert Last(r, n + 1) == [c] + Last(r, n);
    LinesConcat([c], Last(r, n));
    assert [c][..0] == [];
  }

  lemma LinesLast(r: seq<Byte>, n: nat, m: nat)
    requires n <= m <= |r|
    ensures Lines(Last(r, n)) <= Lines(Last(r, m))
    ensures n < m && r[|r| - m] == NEWLINE ==> Lines(Last(r, n)) < Lines(Last(r, m))
  {
    if n < m {
      LinesLast(r, n, m - 1);
      LinesBack(r, m - 1);
    }
  }

  lemma ReplayLineUnique(r: seq<Byte>, wrapped: bool, chars: int, lines: int, n: int, found: int, nl: int, n': int,
      found': int, nl': int)
    requires ReplayLine(r, wrapped, chars, lines, n, found, nl) && ReplayLine(r, wrapped, chars, lines, n', found', nl')
    ensures n == n' && found == found' && nl == nl'
  {
    if 0 < n < n' {
      LinesLast(r, n, n + 1);
      LinesLast(r, n + 1, n');
    } else if 0 < n' < n {
      LinesLast(r, n', n' + 1);
      LinesLast(r, n' + 1, n);
    }
  }

  /** The counters of cbuf_find_replay_line after `n` bytes back: `m` is the
      length after the last newline seen, `l` the whole lines it holds. */
  ghost predicate ScannedBack(r: seq<Byte>, chars: int, nlines: int, n: int, m: int, l: int, lines: int, left: int) {
    && 0 <= m <= n <= |r| && r != []
    && l == Lines(Last(r, n)) - (1 - Missing(r))
    && (Lines(Last(r, n)) == 0 ==> m == 0)
    && (Lines(Last(r, n)) > 0 ==> m < n && r[|r| - m - 1] == NEWLINE && Lines(Last(r, m)) == Lines(Last(r, n)) - 1)
    && (forall j :: m < j < n ==> !StartsLine(r, true, j))
    && (if nlines > 0 then left < 0 && lines == nlines - l
        else lines == nlines < 0 && left == chars + 1 - Missing(r) - n)
  }

  lemma ScanBackStart(r: seq<Byte>, chars: int, nlines: int)
    requires r != [] && (nlines > 0 || (nlines == -1 && chars > 0))
    ensures ScannedBack(r, chars, nlines, 0, 0, Missing(r) - 1,
              if nlines > 0 then nlines + 1 - Missing(r) else nlines,
              if nlines > 0 then -1 - Missing(r) else chars + 1 - Missing(r))
  {
    assert Last(r, 0) == [];
  }

  lemma ScanBackNext(r: seq<Byte>, chars: int, nlines: int, n: int, m: int, l: int, lines: int, left: int)
    requires ScannedBack(r, chars, nlines, n, m, l, lines, left) && n < |r|
    requires if nlines > 0 then lines > 0 else left > 0
    ensures var left' := if left > 0 then left - 1 else left;
      if r[|r| - 1 - n] == NEWLINE then
        ScannedBack(r, chars, nlines, n + 1, n, l + 1, if lines > 0 then lines - 1 else lines, left')
      else ScannedBack(r, chars, nlines, n + 1, m, l, lines, left')
  {
    LinesBack(r, n);
  }

  lemma ScanBackEndCounted(r: seq<Byte>, wrapped: bool, chars: int, nlines: int, n: int, m: int, l: int, lines: int,
      left: int)
    requires ScannedBack(r, chars, nlines, n, m, l, lines, left) && nlines > 0
    requires lines == 0 || (lines > 0 && n == |r|)
    ensures if lines == 0 then ReplayLine(r, wrapped, chars, nlines, m, l, Missing(r))
      else if !wrapped && lines == 1 then ReplayLine(r, wrapped, chars, nlines, n, l + 1, Missing(r))
      else ReplayLine(r, wrapped, chars, nlines, 0, 0, Missing(r))
  {
    LinesLast(r, n, |r|);
    assert Last(r, |r|) == r;
  }

  lemma ScanBackEndBounded(r: seq<Byte>, wrapped: bool, chars: int, n: int, m: int, l: int, left: int)
    requires ScannedBack(r, chars, -1, n, m, l, -1, left) && chars > 0
    requires left == 0 || (left > 0 && n == |r|)
    ensures if !wrapped && left > 0 then ReplayLine(r, wrapped, chars, -1, n, l + 1, Missing(r))
      else ReplayLine(r, wrapped, chars, -1, m, l, Missing(r))
  {
    assert Last(r, |r|) == r;
    forall j | m < j <= |r| && StartsLine(r, wrapped, j) && (wrapped || left == 0)
      ensures j + Missing(r) > chars
    {
      assert StartsLine(r, true, j) || j == |r|;
    }
  }

  lemma ReplayLineNone(r: seq<Byte>, wrapped: bool, chars: int, nlines: int)
    ensures r == [] || nlines == 0 || (nlines < 0 && chars <= 0) ==> ReplayLine(r, wrapped, chars, nlines, 0, 0, 0)
  {
  }

  /** The backward loop of cbuf_find_replay_line. */
  method ScanBack(cb: Cbuf, ghost chars: int, ghost nlines: int, l0: int, lines0: int, left0: int)
    returns (n: int, m: int, l: int, lines: int, left: int)
    requires cb.Valid() && cb.view.replay != []
    requires ScannedBack(cb.view.replay, chars, nlines, 0, 0, l0, lines0, left0)
    requires if nlines > 0 then lines0 > 0 > left0 else left0 > 0 > lines0 == nlines
    ensures ScannedBack(cb.view.replay, chars, nlines, n, m, l, lines, left)
    ensures if nlines > 0 then lines == 0 > left || (lines > 0 > left && n == |cb.view.replay|)
      else lines == nlines && (left == 0 || (left > 0 && n == |cb.view.replay|))
  {
    hide Layout.Valid, Layout.Replay, Layout.Unread, Layout.Reused, Slice, Wrap, ScannedBack, Missing;
    ghost var r := cb.view.replay;
    cb.Shape().ReplayAt(cb.data[..], 0);
    WrapBack(cb.iOut, cb.size + 1);
    n, m, l, lines, left := 0, 0, l0, lines0, left0;
    var i := cb.iOut;
    while i != cb.iRep
      invariant 0 <= n <= |r| && i == Wrap(cb.iOut - n + (cb.size + 1), cb.size + 1) && (i == cb.iRep <==> n == |r|)
      invariant ScannedBack(r, chars, nlines, n, m, l, lines, left)
      invariant if nlines > 0 then lines > 0 > left else left > 0 > lines == nlines
      decreases |r| - n
    {
      cb.Shape().ReplayAt(cb.data[..], n);
      cb.Shape().ReplayAt(cb.data[..], n + 1);
      ScanBackNext(r, chars, nlines, n, m, l, lines, left);
      i := Wrap(i + cb.size, cb.size + 1);
      n := n + 1;
      if left > 0 {
        left := left - 1;
      }
      if cb.data[i] == NEWLINE {
        if lines > 0 {
          lines := lines - 1;
        }
        m := n - 1;
        l := l + 1;
      }
      if left == 0 || lines == 0 {
        break;
      }
    }
  }

  method FindReplayLine(cb: Cbuf, chars: int, nlines: int) returns (m: int, found: int, nl: int)
    requires cb.Valid() && nlines >= -1
    ensures ReplayLine(cb.view.replay, cb.gotWrap, chars, nlines, m, found, nl)
  {
    hide Layout.Valid, Layout.Replay, Layout.Unread, Layout.Reused, Slice, Wrap, ScannedBack, ReplayLine, Lines,
      StartsLine, WholeLines;
    ghost var r := cb.view.replay;
    cb.Shape().ReplayAt(cb.data[..], 0);
    WrapBack(cb.iOut, cb.size + 1);
    ReplayLineNone(r, cb.gotWrap, chars, nlines);
    if nlines == 0 || (nlines <= -1 && chars <= 0) {
      return 0, 0, 0;
    }
    if cb.iOut == cb.iRep {
      return 0, 0, 0;
    }
    cb.Shape().ReplayAt(cb.data[..], 1);
    var l, lines, left := 0, nlines, chars;
    nl := 0;
    if lines > 0 {
      left := -1;
    } else {
      left := left + 1;
    }
    if cb.data[Wrap(cb.iOut + cb.size, cb.size + 1)] != NEWLINE {
      nl := 1;
      left := left - 1;
    } else {
      if lines > 0 {
        lines := lines + 1;
      }
      l := l - 1;
    }
    ScanBackStart(r, chars, nlines);
    var n;
    n, m, l, lines, left := ScanBack(cb, chars, nlines, l, lines, left);
    if nlines > 0 {
      ScanBackEndCounted(r, cb.gotWrap, chars, nlines, n, m, l, lines, left);
    } else {
      ScanBackEndBounded(r, cb.gotWrap, chars, n, m, l, left);
    }
    if !cb.gotWrap && (left > 0 || lines > 0) {
      if lines > 0 {
        lines := lines - 1;
      }
      m := n;
      l := l + 1;
    }
    if lines > 0 {
      return 0, 0, nl;
    }
    found := l;
  }

  /** `n` is the length that such a search answers. */
  ghost predicate UnreadLen(u: seq<Byte>, chars: int, lines: int, n: int) {
    0 <= n <= |u| && UnreadLine(u, chars, lines, n, Lines(u[..n]))
  }

  ghost predicate ReplayLen(r: seq<Byte>, wrapped: bool, chars: int, lines: int, n: int) {
    exists found, nl :: ReplayLine(r, wrapped, chars, lines, n, found, nl)
  }

  /** cbuf_drop_line */
  method DropLine(cb: Cbuf, len: int, lines: int) returns (n: int)
    requires cb.Valid()
    modifies cb`used, cb`iOut, cb`view
    ensures cb.Valid()
    ensures len < 0 || lines < -1 ==> n == -1 && cb.view == old(cb.view)
    ensures len >= 0 && lines >= -1 ==>
      && UnreadLen(old(cb.view).unread, len, lines, n)
      && cb.view == old(cb.view).Drop(n)
  {
    hide Layout.Valid, Layout.Replay, Layout.Unread, Layout.Reused, Lines;
    assert cb.view.Drop(0) == cb.view;
    if len < 0 || lines < -1 {
      return -1;
    }
    var found;
    n, found := FindUnreadLine(cb, len, lines);
    if n > 0 {
      cb.Dropper(n);
    }
  }

  /** What cbuf_peek_line and cbuf_read_line put into a buffer of `len` bytes,
      the terminating NUL not counted. */
  function Shown(text: seq<Byte>, len: nat): (r: seq<Byte>)
    ensures r <= text && |r| < Max(len, 1) && (r == text || |r| + 1 >= len)
  {
    text[..Min(|text|, Max(len - 1, 0))]
  }

  /** cbuf_peek_line */
  method PeekLine(cb: Cbuf, len: int, lines: int) returns (n: int, out: seq<Byte>)
    requires cb.Valid()
    ensures len < 0 || lines < -1 ==> n == -1 && out == []
    ensures len >= 0 && lines >= -1 ==>
      && UnreadLen(cb.view.unread, len - 1, lines, n)
      && out == Shown(cb.view.unread[..n], len)
  {
    hide Layout.Valid, Layout.Replay, Layout.Unread, Layout.Reused, Lines;
    out := [];
    if len < 0 || lines < -1 {
      return -1, [];
    }
    var found;
    n, found := FindUnreadLine(cb, len - 1, lines);
    if n > 0 && len > 0 {
      var m := Min(n, len - 1);
      if m > 0 {
        var l;
        l, out := cb.Reader(m, m, 0);
      }
    }
  }

  /** cbuf_read_line */
  method ReadLine(cb: Cbuf, len: int, lines: int) returns (n: int, out: seq<Byte>)
    requires cb.Valid()
    modifies cb`used, cb`iOut, cb`view
    ensures cb.Valid()
    ensures len < 0 || lines < -1 ==> n == -1 && out == [] && cb.view == old(cb.view)
    ensures len >= 0 && lines >= -1 ==>
      && UnreadLen(old(cb.view).unread, len - 1, lines, n)
      && out == Shown(old(cb.view).unread[..n], len)
      && cb.view == old(cb.view).Drop(n)
  {
    hide Layout.Valid, Layout.Replay, Layout.Unread, Layout.Reused, Lines;
    assert cb.view.Drop(0) == cb.view;
    n, out := PeekLine(cb, len, lines);
    if n > 0 {
      cb.Dropper(n);
    }
  }

  /** The answer of cbuf_replay_line: an understood newline counts if there is
      any memory to show it in, and is shown if there is space for it. */
  ghost predicate ReplayedLine(r: seq<Byte>, wrapped: bool, chars: int, lines: int, n: int, out: seq<Byte>) {
    exists m, found, nl :: ReplayLine(r, wrapped, chars, lines, m, found, nl)
      && n == (if m > 0 && chars >= 0 then m + nl else m)
      && out == (if m > 0 then ShownBack(Last(r, m), chars, nl) else [])
  }

  /** The bytes cbuf_replay_line shows in `chars` bytes: if the lines do not fit
      these are the most recent bytes of them. */
  function ShownBack(text: seq<Byte>, chars: int, nl: int): seq<Byte>
    requires nl >= 0
  {
    Last(text, Max(Min(|text|, chars - nl), 0)) + (if nl == 1 && chars > 0 then [NEWLINE] else [])
  }

  /** That is the end of the text with its newline. */
  lemma ShownBackIs(text: seq<Byte>, chars: int, nl: int)
    requires nl == 0 || nl == 1
    ensures var t := if nl == 1 then text + [NEWLINE] else text;
      ShownBack(text, chars, nl) == Last(t, Min(|t|, Max(chars, 0)))
  {
  }

  method ShowBack(cb: Cbuf, m: int, len: int, nl: int) returns (out: seq<Byte>)
    requires cb.Valid() && 0 < m <= |cb.view.replay| && 0 <= nl && 0 <= len
    ensures out == ShownBack(Last(cb.view.replay, m), len - 1, nl)
  {
    hide Layout.Valid, Layout.Replay, Layout.Unread, Layout.Reused;
    out := [];
    if len > 0 {
      var k := Max(Min(m, len - 1 - nl), 0);
      if k > 0 {
        var l;
        l, out := cb.Replayer(k, k, 0);
      }
      assert out == Last(Last(cb.view.replay, m), k);
      if nl == 1 && len > 1 {
        out := out + [NEWLINE];
      }
    }
  }

  method ReplayLines(cb: Cbuf, len: int, lines: int) returns (n: int, out: seq<Byte>)
    requires cb.Valid()
    ensures len < 0 || lines < -1 ==> n == -1 && out == []
    ensures len >= 0 && lines >= -1 ==> ReplayedLine(cb.view.replay, cb.gotWrap, len - 1, lines, n, out)
  {
    hide Layout.Valid, Layout.Replay, Layout.Unread, Layout.Reused, Lines, StartsLine, WholeLines;
    out := [];
    if len < 0 || lines < -1 {
      return -1, [];
    }
    var m, found, nl := FindReplayLine(cb, len - 1, lines);
    n := m;
    if m > 0 {
      out := ShowBack(cb, m, len, nl);
      if len > 0 {
        n := m + nl;
      }
    }
    assert ReplayLine(cb.view.replay, cb.gotWrap, len - 1, lines, m, found, nl);
  }

  /** cbuf_rewind_line */
  method RewindLine(cb: Cbuf, len: int, lines: int) returns (n: int)
    requires cb.Valid()
    modifies cb`used, cb`iOut, cb`view
    ensures cb.Valid()
    ensures len < 0 || lines < -1 ==> n == -1 && cb.view == old(cb.view)
    ensures len >= 0 && lines >= -1 ==>
      && ReplayLen(old(cb.view).replay, cb.gotWrap, len, lines, n)
      && cb.view == old(cb.view).Rewind(n)
  {
    hide Layout.Valid, Layout.Replay, Layout.Unread, Layout.Reused, Lines, StartsLine, WholeLines;
    assert cb.view.Rewind(0) == cb.view;
    if len < 0 || lines < -1 {
      return -1;
    }
    var found, nl;
    n, found, nl := FindReplayLine(cb, len, lines);
    assert ReplayLine(cb.view.replay, cb.gotWrap, len, lines, n, found, nl);
    if n > 0 {
      cb.RewindBy(n);
    }
  }

  /** Rewinding `k` lines and reading `k` lines brings the buffer back to where
      it was, if the last byte read was the end of a line. */
  lemma RewindLineThenReadLine(m: Model, len: int, len': int, k: int, n: int, found: int, nl: int, n': int, found': int)
    requires k > 0 && m.Valid() && m.replay != [] && m.replay[|m.replay| - 1] == NEWLINE
    requires ReplayLine(m.replay, m.gotWrap, len, k, n, found, nl) && n > 0
    requires UnreadLine(m.Rewind(n).unread, len', k, n', found')
    ensures n' == n && found' == k
    ensures m.Rewind(n).Drop(n') == m
    ensures m.Rewind(n).unread[..n'] == Last(m.replay, n)
  {
    var t := Last(m.replay, n);
    assert (t + m.unread)[..n] == t && (t + m.unread)[n..] == m.unread;
    LinesConcat(t, m.unread);
    UnreadLineUnique(t + m.unread, len', k, n, k, n', found');
    assert m.replay[..|m.replay| - n] + t == m.replay;
  }
}
