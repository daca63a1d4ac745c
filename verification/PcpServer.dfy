/** The receiving side of pdcp: src/pdsh/pcp_server.c.  Records are read and
    understood one after the other; what each of them stands for is stated against
    the trees that the client is about to send, so that the methods below say
    together that the server takes exactly what the client sends and answers each
    record once.  The file system is a map; a complaint to the client is a flag. */
module PcpServer {
  import opened Decimal
  import opened PcpModel
  import opened Sequences

  /** What reading one record comes to. */
  datatype Line = Eof | Newline | Lost | Got(text: string)

  datatype Control = Bad | Control(dir: bool, mode: nat, size: nat, name: string)

  // ---- Records

  /** A C string has a NUL behind its end. */
  function CharAt(s: string, i: nat): char {
    if i < |s| then s[i] else NUL
  }

  function OctalValue(s: string): nat
    requires forall i :: 0 <= i < |s| ==> '0' <= s[i] <= '7'
  {
    if s == "" then 0 else OctalValue(s[..|s| - 1]) * 8 + (s[|s| - 1] as int - '0' as int)
  }

  predicate AllOctal(s: string) {
    forall i :: 0 <= i < |s| ==> '0' <= s[i] <= '7'
  }

  /** What a "C" or "D" record says. */
  function ControlOf(buf: string): Control {
    if |buf| < 6 || !AllOctal(buf[1..5]) || buf[5] != ' ' then Bad
    else
      var rest := buf[6..];
      var n := DigitRun(rest);
      if CharAt(rest, n) != ' ' then Bad
      else Control(buf[0] == 'D', OctalValue(buf[1..5]), Value(rest[..n]), rest[n + 1..])
  }

  /** getnum */
  method GetNum(s: string, start: nat) returns (t: nat, cp: nat)
    requires start <= |s|
    ensures cp == start + DigitRun(s[start..]) <= |s| && t == Value(s[start..][..cp - start])
  {
    t, cp := 0, start;
    assert s[start..][..0] == "";
    DigitRunOf(s[start..], 0);
    while IsDigit(CharAt(s, cp))
      invariant start <= cp <= |s| && AllDigits(s[start..][..cp - start]) && t == Value(s[start..][..cp - start])
      decreases |s| - cp
    {
      var digits := s[start..][..cp - start];
      assert s[start..][..cp + 1 - start] == digits + [s[cp]];
      assert (digits + [s[cp]])[..|digits|] == digits;
      t := t * 10 + (s[cp] as int - '0' as int);
      cp := cp + 1;
    }
    DigitRunOf(s[start..], cp - start);
  }

  /** Where a run of digits ends. */
  lemma {:induction false} DigitRunOf(s: string, n: nat)
    requires n <= |s| && AllDigits(s[..n])
    ensures DigitRun(s) >= n && (!IsDigit(CharAt(s, n)) ==> DigitRun(s) == n)
  {
    if n > 0 {
      assert s[1..][..n - 1] == s[..n][1..];
      assert s[0] == s[..n][0];
      DigitRunOf(s[1..], n - 1);
      assert CharAt(s[1..], n - 1) == CharAt(s, n);
    }
  }

  method ParseControl(buf: string) returns (c: Control)
    requires buf != ""
    ensures c == ControlOf(buf)
  {
    var mode, cp: nat := 0, 1;
    assert buf[1..1] == "";
    while cp < 5
      invariant 1 <= cp <= 5 && cp <= |buf| && AllOctal(buf[1..cp]) && mode == OctalValue(buf[1..cp])
    {
      if !('0' <= CharAt(buf, cp) <= '7') {
        assert |buf| >= 5 ==> buf[1..5][cp - 1] == buf[cp];
        return Bad;
      }
      assert buf[1..cp + 1] == buf[1..cp] + [buf[cp]];
      assert (buf[1..cp] + [buf[cp]])[..cp - 1] == buf[1..cp];
      mode := mode * 8 + (buf[cp] as int - '0' as int);
      cp := cp + 1;
    }
    if CharAt(buf, cp) != ' ' {
      return Bad;
    }
    cp := cp + 1;
    var size;
    size, cp := GetNum(buf, cp);
    assert CharAt(buf[6..], cp - 6) == CharAt(buf, cp);
    if CharAt(buf, cp) != ' ' {
      return Bad;
    }
    cp := cp + 1;
    assert buf[6..][cp - 6..] == buf[cp..];
    c := Control(buf[0] == 'D', mode, size, buf[cp..]);
  }

  /** What follows a number, if it is `c`. */
  function Past(s: string, c: char): (r: (bool, string))
    ensures |r.1| <= |s|
  {
    var rest := s[DigitRun(s)..];
    if rest != "" && rest[0] == c then (true, rest[1..]) else (false, s)
  }

  /** Whether a "T" record has four numbers. */
  function TimesOf(buf: string): bool
    requires buf != ""
  {
    var (a, s1) := Past(buf[1..], ' ');
    var (b, s2) := Past(s1, ' ');
    var (c, s3) := Past(s2, ' ');
    a && b && c && DigitRun(s3) == |s3|
  }

  /** A number and what delimits it. */
  method Delimited(buf: string, start: nat, c: char) returns (ok: bool, cp: nat)
    requires start <= |buf| && c != NUL && !IsDigit(c)
    ensures cp <= |buf| && ok == Past(buf[start..], c).0 && (ok ==> buf[cp..] == Past(buf[start..], c).1)
  {
    var t;
    t, cp := GetNum(buf, start);
    assert buf[start..][cp - start..] == buf[cp..];
    if CharAt(buf, cp) != c {
      return false, start;
    }
    assert buf[cp..][1..] == buf[cp + 1..];
    ok, cp := true, cp + 1;
  }

  method ParseTimes(buf: string) returns (ok: bool)
    requires buf != "" && NUL !in buf
    ensures ok == TimesOf(buf)
  {
    var cp, t;
    ok, cp := Delimited(buf, 1, ' ');
    if !ok {
      return;
    }
    ok, cp := Delimited(buf, cp, ' ');
    if !ok {
      return;
    }
    ok, cp := Delimited(buf, cp, ' ');
    if !ok {
      return;
    }
    ghost var start := cp;
    t, cp := GetNum(buf, cp);
    ok := CharAt(buf, cp) == NUL;
  }

  function CString(s: string): (r: string)
    ensures NUL !in r && (NUL !in s ==> r == s)
  {
    if s == "" || s[0] == NUL then "" else [s[0]] + CString(s[1..])
  }

  // ---- The server

  /** A line: at least one character before the newline that ends it. */
  predicate IsLine(l: string) {
    |l| >= 2 && l[|l| - 1] == '\n' && '\n' !in l[..|l| - 1]
  }

  /** What _sink makes of what is left of the input, and how much it takes. */
  predicate ReadAs(rest: string, line: Line, n: nat) {
    && n <= |rest|
    && (line.Eof? <==> rest == "") && (line.Eof? ==> n == 0) && (line.Got? ==> n >= 2)
    && (line.Newline? ==> rest != "" && rest[0] == '\n')
    && (line.Lost? ==> '\n' !in rest)
    && (line.Got? ==>
          && line.text == rest[..n] && |line.text| < BUFSIZ && '\n' !in line.text[..n - 1]
          && (IsLine(line.text) || |line.text| == BUFSIZ - 1))
  }

  lemma NoRecord(rest: string, line: Line, n: nat)
    requires n <= |rest| && !line.Got?
    requires line.Eof? <==> rest == ""
    requires line.Eof? ==> n == 0
    requires line.Newline? ==> rest[0] == '\n'
    requires line.Lost? ==> '\n' !in rest
    ensures ReadAs(rest, line, n)
  {
  }

  lemma Record(rest: string, before: string, ch: char, n: nat)
    requires n <= |rest| && before + [ch] == rest[..n] && '\n' !in before && before != "" && n < BUFSIZ
    requires ch == '\n' || n == BUFSIZ - 1
    ensures ReadAs(rest, Got(before + [ch]), n)
  {
    assert (before + [ch])[..n - 1] == before;
  }

  lemma SomeMore(input: string, start: nat, at: nat, to: nat, was: seq<Event>, kept: string)
    requires start <= at <= to <= |input|
    ensures was + Bytes(input[start..at]) + Bytes(input[at..to]) == was + Bytes(input[start..to])
    ensures kept + input[start..at] + input[at..to] == kept + input[start..to]
  {
    hide Bytes;
    BytesConcat(input[start..at], input[at..to]);
    assert input[start..at] + input[at..to] == input[start..to];
    Assoc(was, Bytes(input[start..at]), Bytes(input[at..to]));
    Assoc(kept, input[start..at], input[at..to]);
  }

  lemma OneMore(input: string, start: nat, at: nat, was: seq<Event>)
    requires start <= at < |input|
    ensures input[start..at + 1] == input[start..at] + [input[at]] == input[start..][..at + 1 - start]
    ensures was + Bytes(input[start..at]) + Bytes(input[at..at + 1]) == was + Bytes(input[start..at + 1])
  {
    hide Bytes;
    BytesConcat(input[start..at], input[at..at + 1]);
    assert input[start..at] + input[at..at + 1] == input[start..at + 1];
    Assoc(was, Bytes(input[start..at]), Bytes(input[at..at + 1]));
  }

  /** A line that comes is what is read. */
  lemma LineComes(rest: string, line: Line, n: nat, l: string, more: string)
    requires ReadAs(rest, line, n) && IsLine(l) && |l| < BUFSIZ && rest == l + more
    ensures line == Got(l) && n == |l| && rest[n..] == more
  {
    NoNewline(l, |l| - 1);
    assert rest[..|l|] == l && forall i :: 0 <= i < |l| ==> rest[i] == l[i];
    if line.Got? {
      NoNewline(line.text, n - 1);
      assert forall i :: 0 <= i < n ==> rest[i] == line.text[i];
      assert n <= |l|;
    }
  }

  lemma NoNewline(s: string, k: nat)
    requires k <= |s| && '\n' !in s[..k]
    ensures forall i :: 0 <= i < k ==> s[i] != '\n'
  {
    assert forall i :: 0 <= i < k ==> s[i] == s[..k][i];
  }

  /** The file content with `chunk` written at `off`. */
  function WriteAt(data: string, off: nat, chunk: string): string
    requires off <= |data|
  {
    data[..off] + chunk + (if off + |chunk| < |data| then data[off + |chunk|..] else "")
  }

  class Server {
    const input: string        // all that the client will have sent
    const preserve: bool
    const targetIsDir: bool
    const outfile: string
    const blksize: nat         // of the file system that is written to
    var pos: nat
    var trace: seq<Event>
    var complained: bool       // whether an error was sent to the client
    var fs: Files
    var cnt: nat               // BUF
    var buf: array<char>

    ghost predicate Valid()
      reads this
    {
      pos <= |input| && cnt <= buf.Length && Whole(cnt)
    }

    constructor (input: string, preserve: bool, targetIsDir: bool, outfile: string, blksize: nat, fs: Files)
      ensures Valid() && pos == 0 && trace == [] && !complained && this.fs == fs && fresh(buf)
      ensures this.input == input && this.preserve == preserve && this.targetIsDir == targetIsDir
        && this.outfile == outfile
    {
      this.input, this.preserve, this.targetIsDir := input, preserve, targetIsDir;
      this.outfile, this.blksize := outfile, blksize;
      this.fs, pos, trace, complained, cnt := fs, 0, [], false, 0;
      buf := new char[0];
    }

    /** read of up to `amt` bytes; it may return fewer, but none only at the end. */
    method Read(amt: nat) returns (j: nat)
      requires Valid() && amt > 0
      modifies this`pos, this`trace
      ensures Valid() && pos == old(pos) + j && j <= amt && (j == 0 <==> old(pos) == |input|)
      ensures trace == old(trace) + Bytes(input[old(pos)..pos]) && (j == 0 ==> trace == old(trace))
    {
      if pos == |input| {
        j := 0;
        assert trace + Bytes(input[pos..pos]) == trace;
      } else {
        j :| 0 < j <= amt && j <= |input| - pos;
        trace := trace + Bytes(input[pos..pos + j]);
        pos := pos + j;
      }
    }

    method WriteAck()
      modifies this`trace
      ensures trace == old(trace) + [Ack]
    {
      trace := trace + [Ack];
    }

    method Error()
      modifies this`complained
      ensures complained
    {
      complained := true;
    }

    /** The start of the loop of _sink: one record is read, a byte at a time. */
    method ReadRecord() returns (line: Line)
      requires Valid()
      modifies this`pos, this`trace
      ensures Valid() && old(pos) <= pos && trace == old(trace) + Bytes(input[old(pos)..pos])
      ensures ReadAs(input[old(pos)..], line, pos - old(pos))
    {
      hide Bytes, ReadAs, Whole, IsLine;
      ghost var start := pos;
      var rc := Read(1);
      if rc == 0 {
        NoRecord(input[start..], Eof, 0);
        return Eof;
      }
      if input[pos - 1] == '\n' {
        NoRecord(input[start..], Newline, 1);
        return Newline;
      }
      var text := [input[pos - 1]];
      while true
        invariant Valid() && pos == start + |text| && text == input[start..pos] && 1 <= |text| < BUFSIZ - 1
        invariant '\n' !in text && trace == old(trace) + Bytes(input[start..pos])
        decreases |input| - pos
      {
        rc := Read(1);
        if rc == 0 {
          assert input[start..] == text;
          NoRecord(input[start..], Lost, |text|);
          return Lost;
        }
        var ch := input[pos - 1];
        OneMore(input, start, pos - 1, old(trace));
        ghost var before := text;
        text := text + [ch];
        if |text| == BUFSIZ - 1 || ch == '\n' {
          Record(input[start..], before, ch, pos - start);
          break;
        }
      }
      line := Got(text);
    }

    /** _allocbuf */
    method AllocBuf()
      requires Valid()
      modifies this`cnt, this`buf
      ensures Valid() && cnt > 0 && (buf == old(buf) || fresh(buf))
    {
      var size := RoundUp(blksize);
      if size == 0 {
        size := BUFSIZ;
      }
      if cnt < size {
        buf := new char[size];
      }
      cnt := size;
    }

    /** Until `amt` bytes are in the buffer from `cp` on. */
    method Fill(cp: nat, amt: nat) returns (ok: bool)
      requires Valid() && cp + amt <= cnt
      modifies this`pos, this`trace, this`complained, buf
      ensures Valid() && old(pos) <= pos && trace == old(trace) + Bytes(input[old(pos)..pos])
      ensures ok <==> amt <= |input| - old(pos)
      ensures ok ==> pos == old(pos) + amt && complained == old(complained)
      ensures ok ==> buf[..cp + amt] == old(buf[..cp]) + input[old(pos)..pos]
    {
      hide Bytes, Whole;
      var done: nat := 0;
      BytesNone();
      assert input[pos..pos] == "";
      while done < amt
        invariant done <= amt && Valid() && pos == old(pos) + done && complained == old(complained)
        invariant trace == old(trace) + Bytes(input[old(pos)..pos])
        invariant buf[..cp + done] == old(buf[..cp]) + input[old(pos)..pos]
      {
        var j := Read(amt - done);
        if j == 0 {
          Error();
          return false;
        }
        SomeMore(input, old(pos), pos - j, pos, old(trace), old(buf[..cp]));
        Keep(j, cp + done);
        done := done + j;
      }
      ok := true;
    }

    /** The bytes just read go into the buffer. */
    method Keep(j: nat, at: nat)
      requires Valid() && j <= pos && at + j <= cnt
      modifies buf
      ensures buf[..at + j] == old(buf[..at]) + input[pos - j..pos]
    {
      for k := 0 to j
        invariant buf[..at + k] == old(buf[..at]) + input[pos - j..pos - j + k]
      {
        buf[at + k] := input[pos - j + k];
      }
    }

    /** The data of a file: through the buffer, which is written out when it is
        full, and cut off behind it. */
    method ReceiveData(np: string, size: nat) returns (ok: bool)
      requires Valid() && cnt > 0 && np in fs && fs[np].RegNode?
      modifies this`pos, this`trace, this`complained, this`fs, buf
      ensures Valid() && old(pos) <= pos
      ensures ok <==> size <= |input| - old(pos)
      ensures ok ==> pos == old(pos) + size && trace == old(trace) + Bytes(input[old(pos)..pos])
      ensures ok ==> complained == old(complained)
      ensures ok ==> fs == old(fs)[np := old(fs[np]).(data := input[old(pos)..pos])]
    {
      hide Bytes, Rewritten, WriteAt, Whole;
      NoBlocks();
      ghost var start, files := pos, fs;
      RewrittenNot(fs, np);
      var i: nat, count: nat, off: nat := 0, 0, 0;
      assert input[pos..pos] == "" && buf[..0] == "";
      assert trace == old(trace) + Bytes(input[start..pos]) by { BytesNone(); }
      while i < size
        invariant Valid() && Held(np, start, count, off) && complained == old(complained)
        invariant pos == start + (if i < size then i else size) && count < cnt
        invariant i < size ==> Whole(count)
        invariant trace == old(trace) + Bytes(input[start..pos]) && Rewritten(files, fs, np)
        decreases size - i
      {
        var amt := if i + BUFSIZ > size then size - i else BUFSIZ;
        NextMultiple(count, cnt);
        ghost var now := fs;
        ok, count, off := Block(np, amt, count, off, start, old(trace));
        if !ok {
          return;
        }
        RewrittenTwice(files, now, fs, np);
        i := i + BUFSIZ;
      }
      if count != 0 {
        ghost var now := fs;
        Flush(np, count, off, start);
        RewrittenTwice(files, now, fs, np);
        off := off + count;
      }
      RewrittenEnd(files, fs, np, input[start..pos]);
      Truncate(np, size);
      ok := true;
    }

    /** What has been read since `start` is what has been written, and then what
        is in the buffer. */
    ghost predicate Held(np: string, start: nat, count: nat, off: nat)
      reads this, buf
    {
      && np in fs && fs[np].RegNode?
      && start + off + count == pos && pos <= |input| && count <= cnt <= buf.Length
      && off <= |fs[np].data| && fs[np].data[..off] == input[start..start + off]
      && buf[..count] == input[start + off..pos]
    }

    /** One turn of the loop over the blocks. */
    method Block(np: string, amt: nat, count: nat, off: nat, ghost start: nat, ghost was: seq<Event>)
      returns (ok: bool, count': nat, off': nat)
      requires Valid() && Held(np, start, count, off) && count + amt <= cnt && cnt > 0
      requires trace == was + Bytes(input[start..pos])
      modifies this`pos, this`trace, this`complained, this`fs, buf
      ensures Valid() && old(pos) <= pos && (ok <==> amt <= |input| - old(pos))
      ensures ok ==> pos == old(pos) + amt && complained == old(complained)
      ensures ok ==> trace == was + Bytes(input[start..pos])
      ensures ok ==> Held(np, start, count', off') && Rewritten(old(fs), fs, np)
      ensures ok ==> count' == (if count + amt == cnt then 0 else count + amt) < cnt
    {
      hide Bytes, Rewritten, Whole;
      ok := Fill(count, amt);
      count', off' := count + amt, off;
      if ok {
        BytesConcat(input[start..old(pos)], input[old(pos)..pos]);
        assert input[start..old(pos)] + input[old(pos)..pos] == input[start..pos];
        assert input[start + off..old(pos)] + input[old(pos)..pos] == input[start + off..pos];
        Assoc(was, Bytes(input[start..old(pos)]), Bytes(input[old(pos)..pos]));
        RewrittenNot(fs, np);
        if count' == cnt {
          Flush(np, count', off, start);
          count', off' := 0, off + count';
        }
      }
    }

    /** write to the open file, at `off` */
    method Flush(np: string, count: nat, off: nat, ghost start: nat)
      requires Valid() && Held(np, start, count, off)
      modifies this`fs
      ensures Held(np, start, 0, off + count) && Rewritten(old(fs), fs, np)
    {
      assert input[start..start + off] + buf[..count] == input[start..pos];
      Written(fs[np].data, input[start..pos], off, buf[..count]);
      fs := fs[np := fs[np].(data := WriteAt(fs[np].data, off, buf[..count]))];
      assert buf[..0] == "" && input[pos..pos] == "";
    }

    /** ftruncate */
    method Truncate(np: string, size: nat)
      requires np in fs && fs[np].RegNode? && size <= |fs[np].data|
      modifies this`fs
      ensures fs == old(fs)[np := old(fs[np]).(data := old(fs[np].data)[..size])]
    {
      fs := fs[np := fs[np].(data := fs[np].data[..size])];
    }

    /** _response: the client's byte that says that the data was all right */
    method Response() returns (ok: bool)
      requires Valid()
      modifies this`pos, this`trace, this`complained
      ensures Valid() && old(pos) <= pos && trace == old(trace) + Bytes(input[old(pos)..pos])
      ensures ok <==> old(pos) < |input| && input[old(pos)] == NUL
      ensures ok ==> pos == old(pos) + 1 && complained == old(complained)
    {
      var j := Read(1);
      if j == 0 || input[pos - 1] != NUL {
        Error();
        return false;
      }
      ok := true;
    }

    // ---- One record after another

    /** mkdir */
    method Mkdir(np: string, mode: nat) returns (ok: bool)
      modifies this`fs
      ensures ok <==> np !in old(fs) && InDir(old(fs), np)
      ensures fs == if ok then old(fs)[np := DirNode(mode)] else old(fs)
    {
      ok := np !in fs && InDir(fs, np);
      if ok {
        fs := fs[np := DirNode(mode)];
      }
    }

    /** open with O_WRONLY and O_CREAT */
    method Open(np: string, mode: nat) returns (ok: bool)
      modifies this`fs
      ensures ok <==> if np in old(fs) then old(fs)[np].RegNode? else InDir(old(fs), np)
      ensures fs == if ok && np !in old(fs) then old(fs)[np := RegNode(mode, "")] else old(fs)
    {
      ok := if np in fs then fs[np].RegNode? else InDir(fs, np);
      if ok && np !in fs {
        fs := fs[np := RegNode(mode, "")];
      }
    }

    /** What _sink relies on: the client sends just these trees, with `tail`
        behind them, and there is room for them. */
    ghost predicate Expected(targ: string, isdir: bool, ts: seq<Tree>, timed: bool, tail: string)
      reads this
    {
      && pos <= |input|
      && WellFormed(ts, preserve) && Target(targ, isdir, ts) && Fits(fs, targ, isdir, ts)
      && Reachable(fs, targ, isdir, ts) && (targetIsDir ==> IsDir(fs, outfile))
      && (timed ==> preserve && ts != [])
      && input[pos..] == Out(Due(ts, preserve, timed)) + tail
    }

    /** A record for a file or a directory, with what belongs to it. */
    method Entry(np: string, c: Control, ghost t: Tree, ghost tail: string) returns (more: bool)
      requires Valid() && c.Control?
      modifies this, buf
      ensures Valid() && old(pos) <= pos && (buf == old(buf) || fresh(buf))
      ensures old(Awaits(np, c, t, tail)) ==>
        && more && complained == old(complained) && input[pos..] == tail
        && trace == old(trace) + ([Ack] + Body(t, preserve))
        && fs == PlaceTree(old(fs), np, t, preserve) && (targetIsDir ==> IsDir(fs, outfile))
      decreases |input| - pos, 3
    {
      if c.dir {
        more := TakeDir(np, c, t, tail);
      } else {
        more := TakeFile(np, c, t, tail);
      }
    }

    /** A directory: made unless it is there, and gone down. */
    method TakeDir(np: string, c: Control, ghost t: Tree, ghost tail: string) returns (more: bool)
      requires Valid() && c.Control? && c.dir
      modifies this, buf
      ensures Valid() && old(pos) <= pos && (buf == old(buf) || fresh(buf))
      ensures old(Awaits(np, c, t, tail)) ==>
        && more && complained == old(complained) && input[pos..] == tail
        && trace == old(trace) + ([Ack] + Body(t, preserve))
        && fs == PlaceTree(old(fs), np, t, preserve) && (targetIsDir ==> IsDir(fs, outfile))
      ensures old(if np in fs then fs[np].RegNode? else !InDir(fs, np)) ==>
        more && complained && fs == old(fs) && pos == old(pos) && trace == old(trace)
      decreases |input| - pos, 2, 0
    {
      hide Events, WellFormed, Fits, PlaceAll, Bytes, Out, Due, Exit, Tail, After, Closing;
      ghost var good := Awaits(np, c, t, tail);
      if np in fs {
        if fs[np].RegNode? {
          Error();
          return true;
        }
        if preserve {
          fs := fs[np := DirNode(c.mode)];
        }
      } else {
        var made := Mkdir(np, c.mode);
        if !made {
          Error();
          return true;
        }
      }
      ghost var kids := if t.Dir? then t.kids else [];
      if good {
        NodeMade(old(fs), fs, np, t, preserve);
        KidsDue(t, preserve, tail);
      }
      Sink(np, kids, true, tail);
      Closed(kids, preserve, tail);
      more := true;
    }

    /** The record has been read, and the rest of its tree is still to come. */
    ghost predicate Awaits(np: string, c: Control, t: Tree, tail: string)
      reads this
    {
      && pos <= |input| && c == ControlFor(t)
      && (if np in fs then (fs[np].DirNode? <==> t.Dir?) else InDir(fs, np))
      && (t.Dir? ==> WellFormed(t.kids, preserve) && Fits(PlaceNode(fs, np, t, preserve), np, true, t.kids))
      && (targetIsDir ==> IsDir(fs, outfile))
      && input[pos..] == Out(Body(t, preserve)) + tail
    }

    /** A file: opened, filled and acknowledged. */
    method TakeFile(np: string, c: Control, ghost t: Tree, ghost tail: string) returns (more: bool)
      requires Valid() && c.Control? && !c.dir
      modifies this, buf
      ensures Valid() && old(pos) <= pos && (buf == old(buf) || fresh(buf))
      ensures old(Awaits(np, c, t, tail)) ==>
        && more && complained == old(complained) && input[pos..] == tail
        && trace == old(trace) + ([Ack] + Body(t, preserve))
        && fs == PlaceTree(old(fs), np, t, preserve) && (targetIsDir ==> IsDir(fs, outfile))
      ensures old(if np in fs then fs[np].DirNode? else !InDir(fs, np)) ==>
        more && complained && fs == old(fs) && pos == old(pos) && trace == old(trace)
    {
      hide Bytes, Out, WellFormed, Fits, Contents, Events;
      ghost var good := Awaits(np, c, t, tail);
      var there := np in fs;
      var isOpen := Open(np, c.mode);
      if !isOpen {
        Error();
        return true;
      }
      if there && preserve {
        fs := fs[np := fs[np].(mode := c.mode)];
      }
      WriteAck();
      AllocBuf();
      ghost var files := fs;
      if good {
        OutContents(t);
        Ahead(input, pos, t.data, [NUL], tail);
      }
      more := TakeData(np, c.size);
      if good {
        ContentsRead(old(trace), t);
        FileMade(old(fs), files, np, t, preserve);
      }
    }

    /** The data with the byte behind it, and the acknowledgement. */
    method TakeData(np: string, size: nat) returns (ok: bool)
      requires Valid() && cnt > 0 && np in fs && fs[np].RegNode?
      modifies this`pos, this`trace, this`complained, this`fs, buf
      ensures Valid() && old(pos) <= pos
      ensures old(pos + size < |input| && input[pos + size] == NUL) ==>
        && ok && complained == old(complained) && pos == old(pos) + size + 1
        && trace == old(trace) + Bytes(input[old(pos)..old(pos) + size]) + Bytes([NUL]) + [Ack]
        && fs == old(fs)[np := old(fs[np]).(data := input[old(pos)..old(pos) + size])]
    {
      hide Bytes;
      ok := ReceiveData(np, size);
      if !ok {
        return;
      }
      ghost var at := pos;
      ok := Response();
      if !ok {
        return;
      }
      assert input[at..pos] == [NUL];
      WriteAck();
    }

    /** _sink: the trees of one directory, up to the record that ends it or to the
        end of the connection. */
    method Sink(targ: string, ghost ts: seq<Tree>, ghost nested: bool, ghost more: string)
      requires Valid()
      modifies this, buf
      ensures Valid() && old(pos) <= pos && (buf == old(buf) || fresh(buf))
      ensures old(Expected(targ, IsDir(fs, targ), ts, false, Tail(nested, more))) ==>
        && complained == old(complained) && input[pos..] == After(nested, more)
        && trace == old(trace) + ([Ack] + Events(ts, preserve) + Closing(nested))
        && fs == PlaceAll(old(fs), targ, IsDir(old(fs), targ), ts, preserve)
        && (targetIsDir ==> IsDir(fs, outfile))
      decreases |input| - pos, 1
    {
      hide Events, WellFormed, Fits, PlaceAll, Bytes, Out, Due, Body, Exit, Tail, After, Closing;
      ghost var isdir := IsDir(fs, targ);
      ghost var good := Expected(targ, isdir, ts, false, Tail(nested, more));
      ghost var left, timed := ts, false;
      if targetIsDir && !IsDir(fs, outfile) {
        Error();
        return;
      }
      WriteAck();
      var targisdir := IsDir(fs, targ);
      DueStart(ts, preserve);
      ghost var was := trace;
      var goOn := true;
      while goOn
        invariant Valid() && old(pos) <= pos && (buf == old(buf) || fresh(buf)) && targisdir == isdir
        invariant good ==> complained == old(complained)
        invariant good && goOn ==> Expected(targ, isdir, left, timed, Tail(nested, more))
        invariant good && goOn ==> trace + Due(left, preserve, timed) == was + Events(ts, preserve)
        invariant good && goOn ==>
          PlaceAll(fs, targ, isdir, left, preserve) == PlaceAll(old(fs), targ, isdir, ts, preserve)
        invariant good && !goOn ==>
          && trace == was + Events(ts, preserve) + Closing(nested) && input[pos..] == After(nested, more)
          && fs == PlaceAll(old(fs), targ, isdir, ts, preserve) && (targetIsDir ==> IsDir(fs, outfile))
        decreases goOn, |input| - pos
      {
        goOn, left, timed := Turn(targ, targisdir, left, timed, nested, more);
      }
      Regroup(old(trace), Events(ts, preserve), Closing(nested), Ack);
    }

    /** One turn of the loop of _sink. */
    method Turn(targ: string, targisdir: bool, ghost ts: seq<Tree>, ghost timed: bool, ghost nested: bool,
        ghost more: string)
      returns (goOn: bool, ghost left: seq<Tree>, ghost timed': bool)
      requires Valid()
      modifies this, buf
      ensures Valid() && old(pos) <= pos && (goOn ==> old(pos) < pos) && (buf == old(buf) || fresh(buf))
      ensures old(Expected(targ, targisdir, ts, timed, Tail(nested, more))) ==> complained == old(complained)
      ensures old(Expected(targ, targisdir, ts, timed, Tail(nested, more))) && goOn ==>
        && Expected(targ, targisdir, left, timed', Tail(nested, more))
        && trace + Due(left, preserve, timed') == old(trace) + Due(ts, preserve, timed)
        && PlaceAll(fs, targ, targisdir, left, preserve) == PlaceAll(old(fs), targ, targisdir, ts, preserve)
      ensures old(Expected(targ, targisdir, ts, timed, Tail(nested, more))) && !goOn ==>
        && trace == old(trace) + Due(ts, preserve, timed) + Closing(nested) && input[pos..] == After(nested, more)
        && fs == PlaceAll(old(fs), targ, targisdir, ts, preserve) && (targetIsDir ==> IsDir(fs, outfile))
      decreases |input| - pos, 0
    {
      hide Out, Events, Due, Body, WellFormed, Fits, PlaceAll, PlaceTree, Tail, After, Closing, Bytes;
      left, timed' := ts, timed;
      ghost var good := Expected(targ, targisdir, ts, timed, Tail(nested, more));
      if good {
        if ts != [] {
          FitsStep(fs, targ, targisdir, ts, preserve);
          FirstName(ts, preserve, targ, targisdir);
          DueStart(ts[1..], preserve);
          TreeFits(fs, targ, targisdir, ts, preserve);
          StaysReachable(fs, targ, targisdir, ts, preserve);
        } else {
          NothingDue(fs, targ, targisdir, preserve, timed);
        }
      }
      ghost var was := trace;
      var move := NextMove(ts, timed, nested, more);
      if move.Take? {
        ghost var t := if ts != [] then ts[0] else Reg("", 0, 0, 0, "");
        left, timed' := if ts != [] then ts[1..] else [], false;
        goOn := Entry(Np(targ, targisdir, move.c.name), move.c, t, Out(Events(left, preserve)) + Tail(nested, more));
      } else {
        Answer(move);
        goOn, timed' := move == Skip || move == Times, timed || move == Times;
        if good && !goOn {
          ClosedUp(was, preserve, timed, nested);
        }
      }
    }

    method Answer(move: Move)
      modifies this`trace, this`complained
      ensures trace == old(trace) + (if move == End || move == Times then [Ack] else [])
      ensures complained == (old(complained) || move == Stop(true))
    {
      if move == Stop(true) {
        Error();
      }
      if move == End || move == Times {
        WriteAck();
      }
    }

    /** The next record is read and understood. */
    method NextMove(ghost ts: seq<Tree>, ghost timed: bool, ghost nested: bool, ghost more: string) returns (move: Move)
      requires Valid()
      modifies this`pos, this`trace
      ensures Valid() && old(pos) <= pos && (move.Take? ==> move.c.Control?)
      ensures move == Skip || move == Times || move.Take? ==> old(pos) < pos
      ensures
        WellFormed(ts, preserve) && (timed ==> preserve && ts != [])
        && input[old(pos)..] == Out(Due(ts, preserve, timed)) + Tail(nested, more) ==>
          if ts == [] then
            && move == (if nested then End else Stop(false)) && input[pos..] == After(nested, more)
            && trace == old(trace) + (if nested then Bytes("E\n") else [])
          else if preserve && !timed then
            && move == Times && input[pos..] == Out(Due(ts, preserve, true)) + Tail(nested, more)
            && trace + [Ack] + Due(ts, preserve, true) == old(trace) + Due(ts, preserve, timed)
          else
            && move == Take(ControlFor(ts[0]))
            && input[pos..] == Out(Body(ts[0], preserve)) + (Out(Events(ts[1..], preserve)) + Tail(nested, more))
            && trace + ([Ack] + Body(ts[0], preserve)) + Events(ts[1..], preserve)
              == old(trace) + Due(ts, preserve, timed)
    {
      hide Out, Events, Due, Body, WellFormed, ReadAs, MoveOf, Bytes, TimeLine, ControlLine, ControlFor;
      ghost var rest := input[pos..];
      var line := ReadRecord();
      ghost var n := pos - old(pos);
      ReadSome(rest, line, n);
      move := Classify(line);
      assert rest[n..] == input[pos..] && input[old(pos)..pos] == rest[..n];
      if WellFormed(ts, preserve) && (timed ==> preserve && ts != [])
        && rest == Out(Due(ts, preserve, timed)) + Tail(nested, more) {
        RecordComes(rest, line, n, ts, preserve, timed, nested, more);
        BytesNone();
      }
    }
  }

  lemma ClosedUp(was: seq<Event>, preserve: bool, timed: bool, nested: bool)
    ensures was + (if nested then Bytes("E\n") else []) + (if nested then [Ack] else [])
      == was + Due([], preserve, timed) + Closing(nested)
  {
  }

  /** What a record has _sink do. */
  datatype Move = Stop(error: bool) | Skip | End | Times | Take(c: Control)

  function Stripped(text: string): string
    requires text != ""
  {
    CString(if text[|text| - 1] == '\n' then text[..|text| - 1] else text)
  }

  function MoveOf(line: Line): (m: Move)
    ensures m.Take? ==> line.Got? && m.c.Control?
    ensures m == Skip || m == Times ==> line.Got?
  {
    if line.Eof? then Stop(false)
    else if !line.Got? || line.text == "" then Stop(true)
    else if line.text[0] == 1 as char then Skip
    else if line.text[0] == 2 as char then Stop(false)
    else if line.text[0] == 'E' then End
    else
      var record := Stripped(line.text);
      if record == "" then Stop(true)
      else if record[0] == 'T' then (if TimesOf(record) then Times else Stop(true))
      else if record[0] != 'C' && record[0] != 'D' then Stop(true)
      else if ControlOf(record).Bad? then Stop(true)
      else Take(ControlOf(record))
  }

  /** How _sink decides on a record. */
  method Classify(line: Line) returns (m: Move)
    ensures m == MoveOf(line)
  {
    hide ControlOf, TimesOf, CString;
    if line.Eof? {
      return Stop(false);
    }
    if !line.Got? || line.text == "" {
      return Stop(true);
    }
    var text := line.text;
    if text[0] == 1 as char || text[0] == 2 as char {
      return if text[0] == 2 as char then Stop(false) else Skip;
    }
    if text[0] == 'E' {
      return End;
    }
    var record := Stripped(text);
    if record == "" {
      return Stop(true);
    }
    if record[0] == 'T' {
      var ok := ParseTimes(record);
      return if ok then Times else Stop(true);
    }
    if record[0] != 'C' && record[0] != 'D' {
      return Stop(true);
    }
    var c := ParseControl(record);
    m := if c.Bad? then Stop(true) else Take(c);
  }

  /** Behind the trees of a directory comes the record that ends it. */
  function Tail(nested: bool, more: string): string {
    if nested then "E\n" + more else ""
  }

  function After(nested: bool, more: string): string {
    if nested then more else ""
  }

  function Closing(nested: bool): seq<Event> {
    if nested then Exit() else []
  }

  /** What comes next, and what is read of it. */
  lemma RecordComes(rest: string, line: Line, n: nat, ts: seq<Tree>, preserve: bool, timed: bool, nested: bool,
      more: string)
    requires ReadAs(rest, line, n) && WellFormed(ts, preserve) && (timed ==> preserve && ts != [])
    requires rest == Out(Due(ts, preserve, timed)) + Tail(nested, more)
    ensures var end, m := Tail(nested, more), MoveOf(line);
      if ts == [] then
        if nested then m == End && rest[..n] == "E\n" && rest[n..] == more else m == Stop(false) && n == 0 && rest == ""
      else if preserve && !timed then
        var l := TimeLine(ts[0]);
        && m == Times && rest[..n] == l && rest[n..] == Out(Due(ts, preserve, true)) + end
        && Due(ts, preserve, timed) == Bytes(l) + [Ack] + Due(ts, preserve, true)
      else
        var l := ControlLine(ts[0]);
        && m == Take(ControlFor(ts[0])) && rest[..n] == l
        && rest[n..] == Out(Body(ts[0], preserve)) + (Out(Events(ts[1..], preserve)) + end)
        && Due(ts, preserve, timed) == Bytes(l) + ([Ack] + Body(ts[0], preserve)) + Events(ts[1..], preserve)
  {
    hide Out, Due, Body, Events, TimeLine, ControlLine, IsLine, ReadAs, MoveOf, Bytes;
    var end := Tail(nested, more);
    if ts == [] {
      NothingOut(preserve, timed);
      assert rest == end;
      if nested {
        EndMoves();
        LineComes(rest, line, n, "E\n", more);
      } else {
        AtEnd(rest, line, n);
      }
    } else if preserve && !timed {
      var l := TimeLine(ts[0]);
      DueTimes(ts, preserve);
      TimesComes(ts[0], preserve);
      Assoc(l, Out(Due(ts, preserve, true)), end);
      LineComes(rest, line, n, l, Out(Due(ts, preserve, true)) + end);
    } else {
      var l, b, r := ControlLine(ts[0]), Out(Body(ts[0], preserve)), Out(Events(ts[1..], preserve));
      DueControl(ts, preserve, timed);
      ControlComes(ts[0], preserve);
      Assoc(l, b + r, end);
      Assoc(b, r, end);
      LineComes(rest, line, n, l, b + (r + end));
    }
  }

  lemma NothingOut(preserve: bool, timed: bool)
    ensures Out(Due([], preserve, timed)) == "" && Due([], preserve, timed) == []
  {
  }

  lemma AtEnd(rest: string, line: Line, n: nat)
    requires ReadAs(rest, line, n) && rest == ""
    ensures line == Eof && n == 0 && rest == "" && MoveOf(line) == Stop(false)
  {
  }

  lemma EndMoves()
    ensures MoveOf(Got("E\n")) == End && IsLine("E\n")
  {
  }

  lemma ReadSome(rest: string, line: Line, n: nat)
    requires ReadAs(rest, line, n)
    ensures n <= |rest| && (line.Got? ==> 2 <= n == |line.text|)
  {
  }

  lemma DueTimes(ts: seq<Tree>, preserve: bool)
    requires ts != [] && preserve
    ensures Due(ts, preserve, false) == Bytes(TimeLine(ts[0])) + [Ack] + Due(ts, preserve, true)
    ensures Out(Due(ts, preserve, false)) == TimeLine(ts[0]) + Out(Due(ts, preserve, true))
  {
    hide Body, Events, TimeLine, ControlLine, Bytes;
    var l := TimeLine(ts[0]);
    var head := Head(ts[0], false);
    Assoc5(Bytes(l) + [Ack], Bytes(ControlLine(ts[0])), [Ack], Body(ts[0], preserve), Events(ts[1..], preserve));
    Assoc5([], Bytes(ControlLine(ts[0])), [Ack], Body(ts[0], preserve), Events(ts[1..], preserve));
    OutConcat(Bytes(l) + [Ack], Due(ts, preserve, true));
    OutLine(l);
  }

  lemma Assoc5<T>(a: seq<T>, b: seq<T>, c: seq<T>, d: seq<T>, e: seq<T>)
    ensures a + b + c + d + e == a + (b + c + d + e)
  {
  }

  lemma OutLine(l: string)
    ensures Out(Bytes(l) + [Ack]) == l
  {
    hide Bytes;
    OutConcat(Bytes(l), [Ack]);
    OutBytes(l);
    assert [Ack][1..] == [];
    assert Out([Ack]) == "";
    assert l + "" == l;
  }

  lemma DueControl(ts: seq<Tree>, preserve: bool, timed: bool)
    requires ts != [] && (preserve ==> timed)
    ensures Due(ts, preserve, timed)
      == Bytes(ControlLine(ts[0])) + ([Ack] + Body(ts[0], preserve)) + Events(ts[1..], preserve)
    ensures Out(Due(ts, preserve, timed))
      == ControlLine(ts[0]) + (Out(Body(ts[0], preserve)) + Out(Events(ts[1..], preserve)))
  {
    hide Body, Events, ControlLine, Bytes;
    var l, b, r := ControlLine(ts[0]), Body(ts[0], preserve), Events(ts[1..], preserve);
    assert Due(ts, preserve, timed) == (Bytes(l) + [Ack]) + (b + r);
    OutConcat(Bytes(l) + [Ack], b + r);
    OutConcat(b, r);
    OutLine(l);
  }

  lemma OctalValues(mode: nat)
    requires mode < 4096
    ensures AllOctal(Octal(mode)) && OctalValue(Octal(mode)) == mode
  {
    var s := Octal(mode);
    assert s[..3][..2] == s[..2] && s[..2][..1] == s[..1] && s[..1][..0] == "";
    assert forall i :: 0 <= i < 4 ==> s[i] as int - '0' as int == OctalAt(mode, i);
    assert OctalValue(s[..1]) == OctalAt(mode, 0);
    assert OctalValue(s[..2]) == OctalAt(mode, 0) * 8 + OctalAt(mode, 1);
    assert OctalValue(s[..3]) == (OctalAt(mode, 0) * 8 + OctalAt(mode, 1)) * 8 + OctalAt(mode, 2);
    EightParts(mode);
  }

  function OctalAt(mode: nat, i: nat): nat {
    if i == 0 then mode / 512 % 8 else if i == 1 then mode / 64 % 8 else if i == 2 then mode / 8 % 8 else mode % 8
  }

  lemma EightParts(mode: nat)
    requires mode < 4096
    ensures ((OctalAt(mode, 0) * 8 + OctalAt(mode, 1)) * 8 + OctalAt(mode, 2)) * 8 + OctalAt(mode, 3) == mode
  {
    assert mode / 64 == (mode / 8) / 8 && mode / 512 == (mode / 64) / 8;
  }

  lemma {:induction false} CStringSame(s: string)
    requires NUL !in s
    ensures CString(s) == s
  {
  }

  predicate Plain(s: string) {
    NUL !in s && '\n' !in s
  }

  lemma DigitsPlain(s: string)
    requires AllDigits(s)
    ensures Plain(s)
  {
  }

  lemma OctalPlain(mode: nat)
    requires mode < 4096
    ensures Plain(Octal(mode))
  {
    OctalValues(mode);
  }

  /** What parsing makes of a "C" or "D" record as it is printed. */
  lemma ControlComes(t: Tree, preserve: bool)
    requires Sendable(t, preserve)
    ensures var l := ControlLine(t);
      IsLine(l) && |l| < BUFSIZ && MoveOf(Got(l)) == Take(ControlFor(t))
  {
    hide Numeral, Octal, ControlOf, CString, Value;
    var l := ControlLine(t);
    var size: nat := if t.Dir? then 0 else |t.data|;
    var k := if t.Dir? then "D" else "C";
    var r := k + Octal(t.mode) + " " + Numeral(size) + " " + t.name;
    OctalPlain(t.mode);
    DigitsPlain(Numeral(size));
    assert Plain(r);
    assert l == r + "\n" && l[..|l| - 1] == r;
    CStringSame(r);
    ControlParsed(k, t.mode, size, t.name);
  }

  lemma ControlParsed(k: string, mode: nat, size: nat, name: string)
    requires |k| == 1 && mode < 4096
    ensures ControlOf(k + Octal(mode) + " " + Numeral(size) + " " + name) == Control(k[0] == 'D', mode, size, name)
  {
    hide Numeral, Octal, Value, OctalValue;
    var n := Numeral(size);
    var r := k + Octal(mode) + " " + n + " " + name;
    var rest := n + " " + name;
    OctalValues(mode);
    ValueNumeral(size);
    assert r == (k + Octal(mode) + " ") + rest;
    assert r[1..5] == Octal(mode) && r[5] == ' ' && r[6..] == rest && r[0] == k[0];
    assert rest[..|n|] == n && rest[|n|] == ' ' && rest[|n| + 1..] == name;
    DigitRunOf(rest, |n|);
  }

  lemma TimesComes(t: Tree, preserve: bool)
    requires Sendable(t, preserve) && preserve
    ensures var l := TimeLine(t);
      IsLine(l) && |l| < BUFSIZ && MoveOf(Got(l)) == Times
  {
    hide Numeral, CString, TimesOf, ControlLine;
    var l, m, a := TimeLine(t), Numeral(t.mtime), Numeral(t.atime);
    var r := "T" + m + " 0 " + a + " 0";
    DigitsPlain(m);
    DigitsPlain(a);
    assert Plain(r);
    assert l == r + "\n" && l[..|l| - 1] == r;
    CStringSame(r);
    TimesParsed(m, a);
  }

  lemma PastNumber(n: string, c: char, more: string)
    requires AllDigits(n) && !IsDigit(c)
    ensures Past(n + [c] + more, c) == (true, more)
  {
    var s := n + [c] + more;
    assert s[..|n|] == n && s[|n|] == c;
    DigitRunOf(s, |n|);
    assert s[|n|..][1..] == more;
  }

  lemma TimesParsed(m: string, a: string)
    requires AllDigits(m) && AllDigits(a)
    ensures TimesOf("T" + m + " 0 " + a + " 0")
  {
    hide Past;
    var r := "T" + m + " 0 " + a + " 0";
    var s3 := "0";
    var s2 := a + [' '] + s3;
    var s1 := "0" + [' '] + s2;
    assert r[1..] == m + [' '] + s1;
    PastNumber(m, ' ', s1);
    PastNumber("0", ' ', s2);
    PastNumber(a, ' ', s3);
    AllDigitRun(s3);
  }

  lemma TreeFits(fs: Files, targ: string, isdir: bool, ts: seq<Tree>, preserve: bool)
    requires Fits(fs, targ, isdir, ts) && ts != []
    ensures var np := Np(targ, isdir, ts[0].name);
      && (np in fs ==> (fs[np].DirNode? <==> ts[0].Dir?))
      && PlaceAll(fs, targ, isdir, ts, preserve)
        == PlaceAll(PlaceTree(fs, np, ts[0], preserve), targ, isdir, ts[1..], preserve)
  {
  }

  lemma NothingDue(fs: Files, targ: string, isdir: bool, preserve: bool, timed: bool)
    ensures Due([], preserve, timed) == [] && PlaceAll(fs, targ, isdir, [], preserve) == fs
  {
  }

  lemma Regroup<T>(a: seq<T>, b: seq<T>, c: seq<T>, x: T)
    ensures a + [x] + b + c == a + ([x] + b + c)
  {
  }

  /** What comes after the head of a tree. */
  function Body(t: Tree, preserve: bool): seq<Event> {
    if t.Reg? then Contents(t) else Events(t.kids, preserve) + Exit()
  }

  /** What is left of the exchange; the times of the first tree may be over. */
  function Due(ts: seq<Tree>, preserve: bool, timed: bool): seq<Event> {
    if ts == [] then [] else Head(ts[0], preserve && !timed) + Body(ts[0], preserve) + Events(ts[1..], preserve)
  }

  function ControlFor(t: Tree): Control {
    Control(t.Dir?, t.mode, if t.Dir? then 0 else |t.data|, t.name)
  }

  lemma DueStart(ts: seq<Tree>, preserve: bool)
    ensures Due(ts, preserve, false) == Events(ts, preserve)
  {
  }

  lemma OutContents(t: Tree)
    requires t.Reg?
    ensures Out(Contents(t)) == t.data + [NUL]
  {
    OutConcat(Bytes(t.data) + Bytes([NUL]), [Ack]);
    OutConcat(Bytes(t.data), Bytes([NUL]));
    OutBytes(t.data);
    OutBytes([NUL]);
    assert Out([Ack]) == "";
  }

  lemma Ahead(input: string, pos: nat, a: string, b: string, tail: string)
    requires pos <= |input| && input[pos..] == (a + b) + tail && |b| == 1
    ensures pos + |a| < |input| && input[pos..pos + |a|] == a && input[pos + |a|] == b[0]
      && input[pos + |a| + 1..] == tail
  {
    var rest := input[pos..];
    assert rest[..|a|] == a && rest[|a|] == b[0] && rest[|a| + 1..] == tail;
  }

  lemma FileMade(fs: Files, made: Files, np: string, t: Tree, preserve: bool)
    requires t.Reg? && (np in fs ==> fs[np].RegNode?)
    requires made == if np !in fs then fs[np := RegNode(t.mode, "")]
      else if preserve then fs[np := fs[np].(mode := t.mode)]
      else fs
    ensures made[np := made[np].(data := t.data)] == PlaceTree(fs, np, t, preserve)
  {
  }

  lemma NodeMade(fs: Files, made: Files, np: string, t: Tree, preserve: bool)
    requires t.Dir? && (np in fs ==> fs[np].DirNode?)
    requires made == if np !in fs || preserve then fs[np := DirNode(t.mode)] else fs
    ensures made == PlaceNode(fs, np, t, preserve) && IsDir(made, np)
    ensures forall q :: IsDir(fs, q) ==> IsDir(made, q)
  {
  }

  lemma KidsDue(t: Tree, preserve: bool, tail: string)
    requires t.Dir?
    ensures Out(Body(t, preserve)) + tail == Out(Due(t.kids, preserve, false)) + Tail(true, tail)
  {
    hide Events;
    DueStart(t.kids, preserve);
    OutConcat(Events(t.kids, preserve), Exit());
    OutLine("E\n");
    Assoc(Out(Events(t.kids, preserve)), "E\n", tail);
  }

  lemma Closed(kids: seq<Tree>, preserve: bool, tail: string)
    ensures [Ack] + Events(kids, preserve) + Closing(true) == [Ack] + (Events(kids, preserve) + Exit())
    ensures After(true, tail) == tail
  {
  }

  lemma ContentsRead(was: seq<Event>, t: Tree)
    requires t.Reg?
    ensures was + [Ack] + Bytes(t.data) + Bytes([NUL]) + [Ack] == was + ([Ack] + Contents(t))
  {
  }

  /** Only the data of one file differs. */
  predicate Rewritten(a: Files, b: Files, np: string) {
    && np in a && a[np].RegNode? && np in b && b[np].RegNode?
    && b == a[np := a[np].(data := b[np].data)]
  }

  lemma RewrittenNot(a: Files, np: string)
    requires np in a && a[np].RegNode?
    ensures Rewritten(a, a, np)
  {
  }

  lemma RewrittenTwice(a: Files, b: Files, c: Files, np: string)
    requires Rewritten(a, b, np) && Rewritten(b, c, np)
    ensures Rewritten(a, c, np)
  {
  }

  lemma RewrittenEnd(a: Files, b: Files, np: string, all: string)
    requires Rewritten(a, b, np) && |all| <= |b[np].data| && b[np].data[..|all|] == all
    ensures np in b && b[np].RegNode? && b[np := b[np].(data := b[np].data[..|all|])] == a[np := a[np].(data := all)]
  {
  }

  /** A number of whole blocks. */
  predicate Whole(n: nat) {
    n % BUFSIZ == 0
  }

  function RoundUp(x: nat): (r: nat)
    ensures Whole(r)
  {
    ((x + (BUFSIZ - 1)) / BUFSIZ) * BUFSIZ
  }

  lemma NoBlocks()
    ensures Whole(0)
  {
  }

  lemma NextMultiple(count: nat, cnt: nat)
    requires count < cnt && Whole(count) && Whole(cnt)
    ensures count + BUFSIZ <= cnt && Whole(count + BUFSIZ) && Whole(0)
  {
  }

  lemma Written(data: string, all: string, off: nat, chunk: string)
    requires off <= |data| && data[..off] + chunk == all
    ensures |WriteAt(data, off, chunk)| >= |all| && WriteAt(data, off, chunk)[..|all|] == all
  {
  }
}
