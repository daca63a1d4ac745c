/** Whole runs of a circular buffer. */
module CbufRuns {
  // Every method of class Cbuf, and every write of CbufCopy, is one of the operations
  // below on the `view` of a buffer, so what holds of every run here holds of every
  // sequence of calls.

  import opened Ring
  import opened CbufModel
  import opened Sequences

  datatype Op =
    | Write(len: nat, src: seq<Byte>)   // a write of `len` bytes whose source delivers `src`
    | Line(text: seq<Byte>)             // cbuf_write_line of a text with its newline
    | CopyIn(bytes: seq<Byte>)          // cbuf_copy or cbuf_move of these unread bytes of another buffer
    | Read(n: nat)                      // also cbuf_drop, the line forms of both, and what cbuf_move takes away
    | Rewind(n: nat)                    // also by lines
    | Flush
    | SetPolicy(p: Overwrite)
  {
    predicate TakesIn() {
      Write? || Line? || CopyIn?
    }

    /** How many bytes there should be room for. */
    function Asked(): nat {
      match this
      case Write(len, _) => len
      case Line(text) => |text|
      case CopyIn(bytes) => |bytes|
      case _ => 0
    }
  }

  /** The bytes a step takes in. */
  function Input(m: Model, op: Op): seq<Byte>
    requires m.Valid()
  {
    m.GrowKeeps(op.Asked());
    var g := m.Grow(op.Asked());
    match op
    case Write(len, src) => src[..Min(g.Accept(len), |src|)]
    case Line(text) => if g.Admits(|text|) then text else []
    case CopyIn(bytes) => bytes[..g.Accept(|bytes|)]
    case _ => []
  }

  /** The unread bytes a step destroys: what a write reports in `ndropped`. */
  function Dropped(m: Model, op: Op): nat
    requires m.Valid()
  {
    m.GrowKeeps(op.Asked());
    Max(0, |Input(m, op)| - m.Grow(op.Asked()).Free())
  }

  /** A line and a copy leave out what would be overwritten at once. */
  function Step(m: Model, op: Op): (m': Model)
    requires m.Valid()
    ensures m'.Valid()
  {
    m.GrowKeeps(op.Asked());
    match op
    case Write(len, src) => m.Write(len, src)
    case Line(_) => m.Grow(op.Asked()).Append(Shortened(m, op))
    case CopyIn(_) => m.Grow(op.Asked()).Append(Shortened(m, op))
    case Read(n) => m.Drop(Min(n, |m.unread|))
    case Rewind(n) => m.Rewind(Min(n, |m.replay|))
    case Flush => m.Flush()
    case SetPolicy(p) => m.(policy := p)
  }

  function Shortened(m: Model, op: Op): seq<Byte>
    requires m.Valid()
  {
    m.GrowKeeps(op.Asked());
    Last(Input(m, op), Min(|Input(m, op)|, m.Grow(op.Asked()).size))
  }

  /** A line or a copy of more than the buffer can hold comes into it while it
      holds nothing and has never wrapped. */
  predicate Silent(m: Model, op: Op)
    requires m.Valid()
  {
    && (op.Line? || op.CopyIn?) && |Input(m, op)| > m.Grow(op.Asked()).size
    && m.Held() == [] && !m.gotWrap
  }

  /** Whatever brings bytes in, it appends them to the grown buffer; whether that
      counts as wrapped then is the exception. */
  lemma StepAppends(m: Model, op: Op)
    requires m.Valid() && op.TakesIn()
    ensures m.Grow(op.Asked()).Valid()
    ensures var g, x := m.Grow(op.Asked()), Input(m, op);
      && Step(m, op) == g.Append(x).(gotWrap := Step(m, op).gotWrap)
      && (Step(m, op).gotWrap <==> m.gotWrap || (|m.Held() + x| > g.size && !Silent(m, op)))
  {
    hide Model.Accept, Model.Admits, Last;
    var g, x := m.Grow(op.Asked()), Input(m, op);
    m.GrowKeeps(op.Asked());
    hide Model.Grow;
    assert g.Held() == m.Held();
    g.AppendHeld(x);
    if !op.Write? {
      hide Model.Append;
      g.AppendEnd(x);
      g.AppendEndWraps(x);
    }
  }

  /** What a step hands to the caller. */
  function Output(m: Model, op: Op): seq<Byte> {
    if op.Read? then m.unread[..Min(op.n, |m.unread|)] else []
  }

  function Run(m: Model, ops: seq<Op>): (m': Model)
    requires m.Valid()
    ensures m'.Valid()
  {
    if ops == [] then m else Step(Run(m, ops[..|ops| - 1]), ops[|ops| - 1])
  }

  /** All the bytes taken in since the buffer was last empty by construction. */
  function History(m: Model, ops: seq<Op>): seq<Byte>
    requires m.Valid()
  {
    if ops == [] then m.Held() else
      NextHistory(Run(m, ops[..|ops| - 1]), History(m, ops[..|ops| - 1]), ops[|ops| - 1])
  }

  function NextHistory(m: Model, h: seq<Byte>, op: Op): seq<Byte>
    requires m.Valid()
  {
    match op
    case Flush => []
    case _ => h + Input(m, op)
  }

  predicate New(m: Model) {
    m.Valid() && m.replay == [] && m.unread == [] && !m.gotWrap
  }

  /** `b` holds the end of `h`, and counts as wrapped only if that is not all of it. */
  predicate HoldsEnd(b: Model, h: seq<Byte>) {
    && |b.Held()| <= |h|
    && b.Held() == Last(h, |b.Held()|)
    && (b.gotWrap ==> |b.Held()| < |h|)
  }

  lemma StepHoldsEnd(b: Model, h: seq<Byte>, op: Op)
    requires b.Valid() && HoldsEnd(b, h)
    ensures HoldsEnd(Step(b, op), NextHistory(b, h, op))
  {
    if op.TakesIn() {
      hide Step, Input;
      InHoldsEnd(b, h, op);
    } else {
      assert h + [] == h;
      match op
      case Read(n) =>
        var k := Min(n, |b.unread|);
        assert (b.replay + b.unread[..k]) + b.unread[k..] == b.replay + b.unread;
      case Rewind(n) =>
        var k := Min(n, |b.replay|);
        assert b.replay[..|b.replay| - k] + (Last(b.replay, k) + b.unread) == b.replay + b.unread;
      case _ =>
    }
  }

  lemma InHoldsEnd(b: Model, h: seq<Byte>, op: Op)
    requires b.Valid() && HoldsEnd(b, h) && op.TakesIn()
    ensures HoldsEnd(Step(b, op), h + Input(b, op))
  {
    hide Model.Append, Last, Model.Grow, Input, Step, Silent;
    StepAppends(b, op);
    b.GrowKeeps(op.Asked());
    var x, g := Input(b, op), b.Grow(op.Asked());
    g.AppendHeld(x);
    assert g.Held() == b.Held();
    LastOfLast(h, |b.Held()|, x, Min(|b.Held()| + |x|, g.size));
  }

  /** A step that takes bytes in loses none while the buffer is not full; none
      but a flush gives bytes away. */
  lemma StepKeepsMuch(b: Model, h: seq<Byte>, op: Op, size: nat)
    requires b.Valid() && |b.Held()| >= Min(|h|, size) && size <= b.size
    ensures |Step(b, op).Held()| >= Min(|NextHistory(b, h, op)|, size) && size <= Step(b, op).size
    ensures op.TakesIn() ==> |Step(b, op).Held()| == Min(|b.Held()| + |Input(b, op)|, Step(b, op).size)
  {
    if op.TakesIn() {
      hide Model.Append, Model.Accept, Input, Step;
      StepAppends(b, op);
      b.GrowKeeps(op.Asked());
      b.Grow(op.Asked()).AppendHeld(Input(b, op));
      GrowsOnly(b, op.Asked());
    }
  }

  lemma GrowsOnly(b: Model, len: nat)
    requires b.Valid()
    ensures b.Grow(len).size >= b.size
  {
    if len > b.Free() && b.size < b.maxsize {
      b.GrownSizeBounds(len - b.Free());
    }
  }

  /** Something was lost in silence since the last flush. */
  predicate SilentSince(m: Model, ops: seq<Op>)
    requires m.Valid()
  {
    ops != [] && !ops[|ops| - 1].Flush?
    && (SilentSince(m, ops[..|ops| - 1]) || Silent(Run(m, ops[..|ops| - 1]), ops[|ops| - 1]))
  }

  /** A buffer that does not count as wrapped has lost bytes of `h` exactly if
      there was such a loss. */
  predicate Counts(b: Model, h: seq<Byte>, silent: bool) {
    !b.gotWrap ==> (silent <==> |b.Held()| < |h|)
  }

  lemma StepCounts(b: Model, h: seq<Byte>, op: Op, silent: bool)
    requires b.Valid() && |b.Held()| <= |h| && Counts(b, h, silent)
    ensures Counts(Step(b, op), NextHistory(b, h, op), !op.Flush? && (silent || Silent(b, op)))
  {
    if op.TakesIn() {
      hide Model.Append, Model.Accept, Model.Admits, Input, Step;
      StepAppends(b, op);
      b.GrowKeeps(op.Asked());
      b.Grow(op.Asked()).AppendHeld(Input(b, op));
    }
  }

  /** In every run the buffer holds the end of the bytes taken in since it was
      empty, the unread ones last: all of them, or at least as many as it could
      hold at first.  What counts as wrapped has lost some; what has lost some
      counts as wrapped unless all that happened in silence. */
  lemma {:induction false} RunsHoldTheEnd(m: Model, ops: seq<Op>)
    requires New(m)
    ensures HoldsEnd(Run(m, ops), History(m, ops))
    ensures |Run(m, ops).Held()| >= Min(|History(m, ops)|, m.size) && Run(m, ops).size >= m.size
    ensures (Run(m, ops).gotWrap <==> |Run(m, ops).Held()| < |History(m, ops)|)
      <==> Run(m, ops).gotWrap || !SilentSince(m, ops)
  {
    RunsCount(m, ops);
  }

  lemma {:induction false} RunsCount(m: Model, ops: seq<Op>)
    requires New(m)
    ensures HoldsEnd(Run(m, ops), History(m, ops)) && Counts(Run(m, ops), History(m, ops), SilentSince(m, ops))
    ensures |Run(m, ops).Held()| >= Min(|History(m, ops)|, m.size) && Run(m, ops).size >= m.size
  {
    hide Step, NextHistory, Silent;
    if ops != [] {
      RunsCount(m, ops[..|ops| - 1]);
      var b, h, op := Run(m, ops[..|ops| - 1]), History(m, ops[..|ops| - 1]), ops[|ops| - 1];
      StepHoldsEnd(b, h, op);
      StepKeepsMuch(b, h, op, m.size);
      StepCounts(b, h, op, SilentSince(m, ops[..|ops| - 1]));
    }
  }

  /** A line of three bytes in a new buffer for two: its first byte is lost, and
      the buffer does not count as wrapped. */
  lemma LongLineUncounted()
    ensures var m, line := Model([], [], 2, 2, 1, WrapMany, false), [97, 98, NEWLINE];
      && New(m) && History(m, [Line(line)]) == line
      && Run(m, [Line(line)]) == m.(unread := [98, NEWLINE])
  {
    var m, line := Model([], [], 2, 2, 1, WrapMany, false), [97, 98, NEWLINE];
    assert [Line(line)][..0] == [];
    assert Run(m, []) == m && History(m, []) == [];
    assert Input(m, Line(line)) == line;
    assert Shortened(m, Line(line)) == [98, NEWLINE];
    assert m.Append([98, NEWLINE]) == m.(unread := [98, NEWLINE]);
  }

  lemma LastOfLast<T>(h: seq<T>, k: nat, x: seq<T>, n: nat)
    requires k <= |h| && n <= k + |x|
    ensures Last(Last(h, k) + x, n) == Last(h + x, n)
  {
  }

  predicate NoRewind(ops: seq<Op>) {
    forall i :: 0 <= i < |ops| ==> !ops[i].Rewind? && !ops[i].Flush?
  }

  function Written(m: Model, ops: seq<Op>): seq<Byte>
    requires m.Valid()
  {
    if ops == [] then [] else
      Written(m, ops[..|ops| - 1]) + Input(Run(m, ops[..|ops| - 1]), ops[|ops| - 1])
  }

  function Delivered(m: Model, ops: seq<Op>): seq<Byte>
    requires m.Valid()
  {
    if ops == [] then [] else
      Delivered(m, ops[..|ops| - 1]) + Output(Run(m, ops[..|ops| - 1]), ops[|ops| - 1])
  }

  function TotalDropped(m: Model, ops: seq<Op>): nat
    requires m.Valid()
  {
    if ops == [] then 0 else
      TotalDropped(m, ops[..|ops| - 1]) + Dropped(Run(m, ops[..|ops| - 1]), ops[|ops| - 1])
  }

  /** The bytes that rewinds made unread again. */
  function TotalRewound(m: Model, ops: seq<Op>): nat
    requires m.Valid()
  {
    if ops == [] then 0 else
      var op := ops[|ops| - 1];
      TotalRewound(m, ops[..|ops| - 1]) + (if op.Rewind? then Min(op.n, |Run(m, ops[..|ops| - 1]).replay|) else 0)
  }

  /** The unread bytes that flushes threw away. */
  function TotalFlushed(m: Model, ops: seq<Op>): nat
    requires m.Valid()
  {
    if ops == [] then 0 else
      TotalFlushed(m, ops[..|ops| - 1]) + (if ops[|ops| - 1].Flush? then |Run(m, ops[..|ops| - 1]).unread| else 0)
  }

  /** No byte is lost from account in any run: what was unread, came in or was
      rewound is what was delivered, is unread, was flushed or was reported as
      dropped by a write. */
  lemma {:induction false} RunsConserve(m: Model, ops: seq<Op>)
    requires m.Valid()
    ensures |m.unread| + |Written(m, ops)| + TotalRewound(m, ops)
      == |Delivered(m, ops)| + |Run(m, ops).unread| + TotalFlushed(m, ops) + TotalDropped(m, ops)
  {
    if ops != [] {
      var before, op := ops[..|ops| - 1], ops[|ops| - 1];
      RunsConserve(m, before);
      var b := Run(m, before);
      assert op == ops[|ops| - 1];
      if op.TakesIn() {
        hide Step;
        StepAccounts(b, op);
      }
    }
  }

  // ---- The order of what is read

  /** All bytes that were there at first or came in, in their order. */
  function Stream(m: Model, ops: seq<Op>): seq<Byte>
    requires m.Valid()
  {
    m.Held() + Written(m, ops)
  }

  /** Where in that stream reading goes on: reads move it forward and rewinds
      back; writes move it over what they drop, flushes over what is unread. */
  function Position(m: Model, ops: seq<Op>): int
    requires m.Valid()
  {
    if ops == [] then |m.replay| else
      NextPosition(Run(m, ops[..|ops| - 1]), Position(m, ops[..|ops| - 1]), ops[|ops| - 1])
  }

  function NextPosition(b: Model, p: int, op: Op): int
    requires b.Valid()
  {
    match op
    case Read(n) => p + Min(n, |b.unread|)
    case Rewind(n) => p - Min(n, |b.replay|)
    case Flush => p + |b.unread|
    case SetPolicy(_) => p
    case _ => p + Dropped(b, op)
  }

  /** The unread bytes are those of the stream from position `p` on, and the
      replay bytes those just before it. */
  predicate StandsAt(b: Model, stream: seq<Byte>, p: int) {
    && |b.replay| <= p <= |stream|
    && b.unread == stream[p..] && b.replay == stream[p - |b.replay|..p]
  }

  lemma StepStandsAt(b: Model, stream: seq<Byte>, p: int, op: Op)
    requires b.Valid() && StandsAt(b, stream, p)
    ensures StandsAt(Step(b, op), stream + Input(b, op), NextPosition(b, p, op))
    ensures var o := Output(b, op); p + |o| <= |stream| && o == stream[p..p + |o|]
  {
    if op.TakesIn() {
      hide StandsAt, Step;
      InStandsAt(b, stream, p, op);
      Bounded(b, stream, p);
    } else {
      assert stream + [] == stream;
      OtherStandsAt(b, stream, p, op);
    }
  }

  lemma OtherStandsAt(b: Model, stream: seq<Byte>, p: int, op: Op)
    requires b.Valid() && StandsAt(b, stream, p) && !op.TakesIn()
    ensures StandsAt(Step(b, op), stream, NextPosition(b, p, op))
    ensures var o := Output(b, op); p + |o| <= |stream| && o == stream[p..p + |o|]
  {
    hide StandsAt, Last, Dropped, Input, Model.Drop, Model.Rewind;
    HeldIsEnd(b, stream, p);
    match op
    case Read(n) => ReadStandsAt(b, stream, p, Min(n, |b.unread|));
    case Rewind(n) => RewindStandsAt(b, stream, p, Min(n, |b.replay|));
    case Flush => assert StandsAt(b.Flush(), stream, |stream|) by { Emptied(b.Flush(), stream); }
    case SetPolicy(o) => SameStandsAt(b, b.(policy := o), stream, p);
  }

  lemma ReadStandsAt(b: Model, stream: seq<Byte>, p: int, k: nat)
    requires StandsAt(b, stream, p) && k <= |b.unread|
    ensures StandsAt(b.Drop(k), stream, p + k) && p + k <= |stream| && b.unread[..k] == stream[p..p + k]
  {
    ReadOn(stream, p - |b.replay|, p, k);
  }

  lemma RewindStandsAt(b: Model, stream: seq<Byte>, p: int, k: nat)
    requires StandsAt(b, stream, p) && k <= |b.replay|
    ensures StandsAt(b.Rewind(k), stream, p - k)
  {
    hide Last;
    LastPart(stream, p - |b.replay|, p, k);
  }

  lemma Emptied(b: Model, stream: seq<Byte>)
    requires b.replay == [] == b.unread
    ensures StandsAt(b, stream, |stream|)
  {
  }

  lemma SameStandsAt(b: Model, c: Model, stream: seq<Byte>, p: int)
    requires StandsAt(b, stream, p) && c.replay == b.replay && c.unread == b.unread
    ensures StandsAt(c, stream, p)
  {
  }

  lemma ReadOn(s: seq<Byte>, i: nat, p: nat, k: nat)
    requires i <= p <= p + k <= |s|
    ensures s[p..][..k] == s[p..p + k] && s[p..][k..] == s[p + k..]
    ensures s[i..p] + s[p..][..k] == s[i..p + k]
  {
  }

  lemma LastPart(s: seq<Byte>, i: nat, p: nat, k: nat)
    requires i <= p <= |s| && k <= p - i
    ensures Last(s[i..p], k) + s[p..] == s[p - k..]
    ensures s[i..p][..p - i - k] == s[i..p - k]
  {
  }

  lemma InStandsAt(b: Model, stream: seq<Byte>, p: int, op: Op)
    requires b.Valid() && StandsAt(b, stream, p) && op.TakesIn()
    ensures StandsAt(Step(b, op), stream + Input(b, op), p + Dropped(b, op))
  {
    hide Model.Append, Model.Grow, Model.Accept, Model.Write, Input, Dropped, Last, Step;
    var x := Input(b, op);
    InEnds(b, op);
    HeldIsEnd(b, stream, p);
    var r := Step(b, op);
    assert (stream + x)[p - |b.replay|..] == stream[p - |b.replay|..] + x;
    EndOf(stream + x, p - |b.replay|, r.Held());
    Parts(stream + x, r.replay, r.unread);
  }

  lemma HeldIsEnd(b: Model, stream: seq<Byte>, p: int)
    requires StandsAt(b, stream, p)
    ensures 0 <= p - |b.replay| && |stream| == p + |b.unread| && b.Held() == stream[p - |b.replay|..]
  {
  }

  lemma InEnds(b: Model, op: Op)
    requires b.Valid() && op.TakesIn()
    ensures var x, r := Input(b, op), Step(b, op);
      && |r.Held()| <= |b.Held() + x| && r.Held() == Last(b.Held() + x, |r.Held()|)
      && |b.unread| + |x| == |r.unread| + Dropped(b, op)
  {
    hide Model.Append, Model.Accept, Last, Model.Grow, Input, Step;
    StepAppends(b, op);
    b.GrowKeeps(op.Asked());
    var x, g := Input(b, op), b.Grow(op.Asked());
    g.AppendHeld(x);
    assert g.Held() == b.Held();
  }

  lemma EndOf(s: seq<Byte>, i: nat, t: seq<Byte>)
    requires i <= |s| && |t| <= |s| - i && t == Last(s[i..], |t|)
    ensures t == s[|s| - |t|..]
  {
  }

  lemma Parts(s: seq<Byte>, a: seq<Byte>, b: seq<Byte>)
    requires |a| + |b| <= |s| && a + b == s[|s| - |a + b|..]
    ensures b == s[|s| - |b|..] && a == s[|s| - |b| - |a|..|s| - |b|]
  {
    assert b == (a + b)[|a|..] && a == (a + b)[..|a|];
  }

  /** In every run the bytes come in the order in which they were written: each
      read delivers the stream from the position that reads, rewinds, drops and
      flushes have led to. */
  lemma {:induction false} RunsReadTheStream(m: Model, ops: seq<Op>, next: Op)
    requires m.Valid()
    ensures StandsAt(Run(m, ops), Stream(m, ops), Position(m, ops))
    ensures var o, p := Output(Run(m, ops), next), Position(m, ops);
      0 <= p && p + |o| <= |Stream(m, ops)| && o == Stream(m, ops)[p..p + |o|]
  {
    hide StandsAt, Step, Output, Input, NextPosition;
    if ops == [] {
      AtFirst(m);
    } else {
      var before, op := ops[..|ops| - 1], ops[|ops| - 1];
      RunsReadTheStream(m, before, op);
      StepStandsAt(Run(m, before), Stream(m, before), Position(m, before), op);
      Assoc(m.Held(), Written(m, before), Input(Run(m, before), op));
    }
    StepStandsAt(Run(m, ops), Stream(m, ops), Position(m, ops), next);
    Bounded(Run(m, ops), Stream(m, ops), Position(m, ops));
  }

  lemma AtFirst(m: Model)
    requires m.Valid()
    ensures StandsAt(m, Stream(m, []), |m.replay|)
  {
    assert m.Held() + [] == m.Held();
  }

  lemma Bounded(b: Model, stream: seq<Byte>, p: int)
    requires StandsAt(b, stream, p)
    ensures 0 <= p <= |stream|
  {
  }

  lemma StepIsFifo(b: Model, op: Op)
    requires b.Valid() && !op.Rewind? && !op.Flush? && Dropped(b, op) == 0
    ensures b.unread + Input(b, op) == Output(b, op) + Step(b, op).unread
  {
    if op.TakesIn() {
      hide Model.Append, Input, Step, Model.Grow;
      StepAppends(b, op);
      b.GrowKeeps(op.Asked());
      b.Grow(op.Asked()).AppendUnread(Input(b, op));
    }
  }

  /** First in, first out: if no write reported a drop, the bytes delivered are
      the bytes written, in order, up to the unread rest. */
  lemma {:induction false} RunsAreFifo(m: Model, ops: seq<Op>)
    requires m.Valid() && NoRewind(ops) && TotalDropped(m, ops) == 0
    ensures m.unread + Written(m, ops) == Delivered(m, ops) + Run(m, ops).unread
  {
    if ops != [] {
      var before, op := ops[..|ops| - 1], ops[|ops| - 1];
      hide Step, Dropped, Output, Input;
      RunsAreFifo(m, before);
      var b, d, w := Run(m, before), Delivered(m, before), Written(m, before);
      StepIsFifo(b, op);
      Glue(m.unread, w, Input(b, op), d, b.unread, Output(b, op), Step(b, op).unread);
    }
  }

  lemma Glue(a: seq<Byte>, w: seq<Byte>, x: seq<Byte>, d: seq<Byte>, u: seq<Byte>, o: seq<Byte>, u': seq<Byte>)
    requires a + w == d + u && u + x == o + u'
    ensures a + (w + x) == (d + o) + u'
  {
    assert a + (w + x) == (a + w) + x;
    assert (d + u) + x == d + (u + x);
  }

  /** Nothing is dropped while the buffer could still have grown enough, and
      never under NoDrop. */
  lemma DropsOnlyWhenFull(m: Model, op: Op)
    requires m.Valid()
    ensures m.policy == NoDrop ==> Dropped(m, op) == 0
    ensures |m.unread| + op.Asked() <= m.maxsize ==> Dropped(m, op) == 0
    ensures Dropped(m, op) > 0 ==> Step(m, op).size == m.maxsize
  {
    hide Step, Model.Append;
    m.GrowKeeps(op.Asked());
    if op.Asked() > m.Free() && m.size < m.maxsize {
      m.GrownSizeBounds(op.Asked() - m.Free());
    }
    if op.TakesIn() {
      StepAppends(m, op);
      m.Grow(op.Asked()).AppendHeld(Input(m, op));
    }
  }

  /** Whatever brings bytes in: what was unread and what was taken in is what is
      unread then and what was dropped. */
  lemma StepAccounts(m: Model, op: Op)
    requires m.Valid() && op.TakesIn()
    ensures |m.unread| + |Input(m, op)| == |Step(m, op).unread| + Dropped(m, op)
  {
    hide Step, Input, Model.Append;
    StepAppends(m, op);
    m.GrowKeeps(op.Asked());
    m.Grow(op.Asked()).AppendHeld(Input(m, op));
  }
}
