/** The scheduler of src/pdsh/dsh.c. */
module Fanout {
  // How dsh() keeps at most `fanout` connections going: the main thread, one worker
  // thread per host and the thread that handles signals, as a transition system over
  // the steps between which they can be interleaved.  A step is one access to what
  // the threads share.  Only where the canceling thread compares a state first with
  // DSH_NEW and then with DSH_RCMD are two reads one step: no state becomes DSH_NEW
  // again, so the later read alone decides.  thd_mutex keeps out nobody who uses the
  // same state, and is left out.

  /** state_t */
  datatype HostState = New | Rcmd | Reading | Done | Failed | Canceled

  /** Where the main thread is in its two loops. */
  datatype MainPc =
    | Lock          // about to lock threadcount_mutex for host `i`
    | Test          // holds it; compares fanout and threadcount
    | Waiting       // in pthread_cond_wait
    | Woken         // signalled; about to lock the mutex again
    | Skip          // advances past canceled threads
    | Create        // pthread_create for host `i`
    | Count         // threadcount++
    | Unlock
    | Break         // no more threads; unlocks and leaves the loop
    | LastLock      // the wait for the remaining threads
    | LastTest
    | LastWaiting
    | LastWoken
    | LastUnlock
    | Returned

  /** Where the thread of a host is. */
  datatype WorkerPc =
    | NotStarted
    | Starting      // about to set DSH_RCMD
    | Connecting    // in rcmd_connect
    | Testing       // _update_connect_state looks whether it was canceled
    | Storing       // it was not; about to set DSH_READING
    | Closing       // looks again, to close the connection if canceled
    | Returning     // looks once more, for the answer
    | Running       // poll / read / report loop, or copying
    | Finishing(result: HostState)
    | Locking       // about to lock threadcount_mutex
    | Decrement     // holds it; threadcount--
    | Signal        // pthread_cond_signal
    | Release
    | Finished

  /** Where _cancel_pending_threads is, in the thread that handles signals. */
  datatype CancelPc = Idle | Look(j: nat) | Set(j: nat)

  datatype Owner = Nobody | Main | Worker(k: nat) | Canceller

  datatype State = State(
    fanout: nat,
    i: nat,
    pc: MainPc,
    states: seq<HostState>,
    workers: seq<WorkerPc>,
    threadcount: int,
    owner: Owner,
    cancel: CancelPc,
    started: seq<nat>)     // history: the hosts for which a thread was created

  datatype Action = MainStep | WorkerStep(k: nat, ok: bool) | CancelStep

  // ---- The steps

  /** The start of the first loop; a host whose rcmd_create failed is canceled. */
  predicate Init(s: State) {
    && s.fanout >= 1 && s.i == 0 && |s.workers| == |s.states|
    && s.pc == (if |s.states| > 0 then Lock else LastLock)
    && (forall k :: 0 <= k < |s.states| ==> s.states[k] == New || s.states[k] == Canceled)
    && (forall k :: 0 <= k < |s.workers| ==> s.workers[k] == NotStarted)
    && s.threadcount == 0 && s.owner == Nobody && s.cancel == Idle && s.started == []
  }

  predicate Enabled(s: State, a: Action) {
    && |s.workers| == |s.states|
    && match a
       case MainStep => MainEnabled(s)
       case WorkerStep(k, ok) => k < |s.workers| && WorkerEnabled(s, k)
       case CancelStep => s.cancel != Idle || s.owner == Nobody
  }

  /** A lock waits for the mutex; a condition wait for its signal. */
  predicate MainEnabled(s: State) {
    && (s.pc.Lock? || s.pc.Woken? || s.pc.LastLock? || s.pc.LastWoken? ==> s.owner == Nobody)
    && (!s.pc.Waiting? && !s.pc.LastWaiting? && !s.pc.Returned?)
    && (s.pc.Create? || s.pc.Count? || s.pc.Unlock? ==> s.i < |s.states|)
  }

  predicate WorkerEnabled(s: State, k: nat)
    requires k < |s.workers|
  {
    && s.workers[k] != NotStarted && s.workers[k] != Finished
    && (s.workers[k] == Locking ==> s.owner == Nobody)
  }

  function Do(s: State, a: Action): State
    requires Enabled(s, a)
  {
    match a
    case MainStep => DoMain(s)
    case WorkerStep(k, ok) => DoWorker(s, k, ok)
    case CancelStep => DoCancel(s)
  }

  function DoMain(s: State): State
    requires MainEnabled(s) && |s.workers| == |s.states|
  {
    match s.pc
    case Lock => s.(owner := Main, pc := Test)
    case Test => if s.fanout == s.threadcount then s.(owner := Nobody, pc := Waiting) else s.(pc := Skip)
    case Woken => s.(owner := Main, pc := Skip)
    case Skip =>
      if s.i >= |s.states| then s.(pc := Break)
      else if s.states[s.i] == Canceled then s.(i := s.i + 1)
      else s.(pc := Create)
    case Create => s.(workers := s.workers[s.i := Starting], started := s.started + [s.i], pc := Count)
    case Count => s.(threadcount := s.threadcount + 1, pc := Unlock)
    case Unlock => s.(owner := Nobody, i := s.i + 1, pc := if s.i + 1 < |s.states| then Lock else LastLock)
    case Break => s.(owner := Nobody, pc := LastLock)
    case LastLock => s.(owner := Main, pc := LastTest)
    case LastTest => if s.threadcount > 0 then s.(owner := Nobody, pc := LastWaiting) else s.(pc := LastUnlock)
    case LastWoken => s.(owner := Main, pc := LastTest)
    case LastUnlock => s.(owner := Nobody, pc := Returned)
  }

  /** _rsh_thread and _rcp_thread; `ok` says how the connection or the command
      turns out. */
  function DoWorker(s: State, k: nat, ok: bool): State
    requires k < |s.workers| == |s.states| && WorkerEnabled(s, k)
  {
    match s.workers[k]
    case Starting => At(s, k, Rcmd, Connecting)
    case Connecting =>
      At(s, k, s.states[k], if ok then Testing else Finishing(Failed))
    case Testing => At(s, k, s.states[k], if s.states[k] == Canceled then Closing else Storing)
    case Storing => At(s, k, Reading, Closing)
    case Closing => At(s, k, s.states[k], Returning)
    case Returning => At(s, k, s.states[k], if s.states[k] == Canceled then Finishing(Done) else Running)
    case Running => At(s, k, s.states[k], Finishing(if ok then Done else Failed))
    case Finishing(result) => At(s, k, result, Locking)
    case Locking => At(s, k, s.states[k], Decrement).(owner := Worker(k))
    case Decrement => At(s, k, s.states[k], Signal).(threadcount := s.threadcount - 1)
    case Signal => At(s, k, s.states[k], Release).(pc := Wake(s.pc))
    case Release => At(s, k, s.states[k], Finished).(owner := Nobody)
  }

  function At(s: State, k: nat, state: HostState, w: WorkerPc): State
    requires k < |s.workers| == |s.states|
  {
    s.(states := s.states[k := state], workers := s.workers[k := w])
  }

  /** A signal wakes the one thread that may be waiting, or is lost. */
  function Wake(pc: MainPc): MainPc {
    if pc == Waiting then Woken else if pc == LastWaiting then LastWoken else pc
  }

  /** _cancel_pending_threads: it looks at a state and sets it in two steps, for
      only the main thread is kept out by the mutex. */
  function DoCancel(s: State): State
    requires s.cancel != Idle || s.owner == Nobody
  {
    match s.cancel
    case Idle => s.(owner := Canceller, cancel := Look(0))
    case Look(j) =>
      if j >= |s.states| then s.(owner := Nobody, cancel := Idle)
      else if s.states[j] == New || s.states[j] == Rcmd then s.(cancel := Set(j))
      else s.(cancel := Look(j + 1))
    case Set(j) =>
      if j >= |s.states| then s
      else s.(states := s.states[j := Canceled], cancel := Look(j + 1))
  }

  // ---- Sums over the workers

  function Total(f: WorkerPc -> nat, ws: seq<WorkerPc>): nat {
    if ws == [] then 0 else Total(f, ws[..|ws| - 1]) + f(ws[|ws| - 1])
  }

  lemma {:induction false} TotalAt(f: WorkerPc -> nat, ws: seq<WorkerPc>, k: nat, w: WorkerPc)
    requires k < |ws|
    ensures Total(f, ws[k := w]) == Total(f, ws) - f(ws[k]) + f(w)
    ensures Total(f, ws) >= f(ws[k])
  {
    var n := |ws| - 1;
    if k == n {
      assert ws[k := w][..n] == ws[..n];
    } else {
      TotalAt(f, ws[..n], k, w);
      assert ws[k := w][..n] == ws[..n][k := w];
    }
  }

  lemma {:induction false} SomeWorker(f: WorkerPc -> nat, ws: seq<WorkerPc>) returns (k: nat)
    requires Total(f, ws) > 0
    ensures k < |ws| && f(ws[k]) > 0
  {
    var n := |ws| - 1;
    if f(ws[n]) > 0 {
      k := n;
    } else {
      k := SomeWorker(f, ws[..n]);
    }
  }

  lemma {:induction false} TotalZero(f: WorkerPc -> nat, ws: seq<WorkerPc>)
    requires forall k :: 0 <= k < |ws| ==> f(ws[k]) == 0
    ensures Total(f, ws) == 0
  {
    if ws != [] {
      TotalZero(f, ws[..|ws| - 1]);
    }
  }

  predicate Live(w: WorkerPc) {
    w != NotStarted && w != Finished
  }

  /** A worker is counted until it has decremented threadcount. */
  function Counted(w: WorkerPc): nat {
    if Live(w) && w != Signal && w != Release then 1 else 0
  }

  function LiveOne(w: WorkerPc): nat {
    if Live(w) then 1 else 0
  }

  function CountedWorkers(s: State): nat {
    Total(Counted, s.workers)
  }

  function LiveWorkers(s: State): nat {
    Total(LiveOne, s.workers)
  }

  // ---- The invariant

  predicate MainHolds(pc: MainPc) {
    (pc.Test? || pc.Skip? || pc.Create? || pc.Count? || pc.Unlock? || pc.Break? || pc.LastTest? || pc.LastUnlock?)
  }

  predicate WorkerHolds(w: WorkerPc) {
    w == Decrement || w == Signal || w == Release
  }

  /** The mutex is held by whoever is between locking and unlocking it. */
  predicate Exclusive(s: State) {
    && |s.workers| == |s.states|
    && (s.owner == Main <==> MainHolds(s.pc))
    && (s.owner == Canceller <==> s.cancel != Idle)
    && (forall k :: 0 <= k < |s.workers| ==> (s.owner == Worker(k) <==> WorkerHolds(s.workers[k])))
    && (s.owner.Worker? ==> s.owner.k < |s.workers|)
    && (s.cancel.Set? ==> s.cancel.j < |s.states|)
    && (s.cancel.Look? ==> s.cancel.j <= |s.states|)
  }

  predicate InLast(pc: MainPc) {
    pc.LastLock? || pc.LastTest? || pc.LastWaiting? || pc.LastWoken? || pc.LastUnlock? || pc.Returned?
  }

  /** A worker has decremented threadcount and is about to signal. */
  predicate SignalDue(s: State) {
    && s.owner.Worker? && s.owner.k < |s.workers| && s.workers[s.owner.k] == Signal
  }

  /** A worker that is no longer counted still holds the mutex. */
  predicate Decremented(s: State) {
    s.owner.Worker? && s.owner.k < |s.workers| && (s.workers[s.owner.k] == Signal || s.workers[s.owner.k] == Release)
  }

  /** All hosts whose turn has not come are canceled. */
  predicate NoneLeft(s: State) {
    forall k :: s.i <= k < |s.states| ==> s.states[k] == Canceled
  }

  /** The mutex is held by a worker that is about to decrement threadcount, or by
      the thread that cancels all hosts whose turn has not come. */
  predicate RoomToCome(s: State) {
    s.owner == Canceller || (s.owner.Worker? && s.owner.k < |s.workers| && s.workers[s.owner.k] == Decrement)
  }

  /** threadcount is what it is meant to be, and no wakeup is lost. */
  predicate Counts(s: State) {
    && s.fanout >= 1
    && s.threadcount + (if s.pc == Count then 1 else 0) == CountedWorkers(s)
    && 0 <= s.threadcount <= s.fanout
    && (Decremented(s) ==> s.threadcount < s.fanout)
    && (s.pc == Waiting && !SignalDue(s) ==> s.threadcount == s.fanout)
    && (s.pc == LastWaiting ==> s.threadcount > 0 || SignalDue(s))
  }

  /** Behind the test there is room for one more thread, or none will be made. */
  predicate Room(s: State) {
    && (s.pc.Create? || s.pc.Count? ==> s.threadcount < s.fanout)
    && (s.pc.Skip? ==> s.threadcount < s.fanout || NoneLeft(s))
    && (s.pc.Woken? ==> s.threadcount < s.fanout || NoneLeft(s) || RoomToCome(s))
  }

  predicate Bounded(s: State) {
    Counts(s) && Room(s)
  }

  /** The main thread returns only when no thread is left. */
  predicate Quiet(s: State) {
    s.pc.LastUnlock? || s.pc.Returned? ==> forall k :: 0 <= k < |s.workers| ==> !Live(s.workers[k])
  }

  /** The main thread takes the hosts in turn, and leaves out only canceled ones. */
  predicate InTurn(s: State) {
    && |s.workers| == |s.states|
    && s.i <= |s.states|
    && (InLast(s.pc) || s.pc == Break ==> s.i == |s.states|)
    && (s.pc.Lock? || s.pc.Test? || s.pc.Waiting? || s.pc.Woken? || s.pc.Create? || s.pc.Count? || s.pc.Unlock? ==>
      s.i < |s.states|)
    && (forall k :: 0 <= k < |s.workers| && s.workers[k] == NotStarted ==>
      s.states[k] == New || s.states[k] == Canceled)
    && (forall k :: 0 <= k < s.i && s.workers[k] == NotStarted ==> s.states[k] == Canceled)
    && (forall k :: Edge(s) <= k < |s.workers| ==> s.workers[k] == NotStarted)
    && (s.pc.Count? || s.pc.Unlock? ==> s.workers[s.i] != NotStarted)
    && (s.pc == Create ==> s.states[s.i] == New)
  }

  /** No host from here on has a thread. */
  function Edge(s: State): nat {
    if (s.pc.Count? || s.pc.Unlock?) then s.i + 1 else s.i
  }

  /** The threads are created in the order of the hosts, one for each. */
  predicate InOrder(s: State) {
    && (forall x, y :: 0 <= x < y < |s.started| ==> s.started[x] < s.started[y])
    && (forall k :: 0 <= k < |s.workers| ==> (s.workers[k] != NotStarted <==> k in s.started))
    && (forall x :: 0 <= x < |s.started| ==> s.started[x] < Edge(s) && s.started[x] < |s.workers|)
  }

  /** The hosts without a thread that the canceling thread has passed are canceled. */
  predicate Swept(s: State) {
    && |s.workers| == |s.states|
    && (s.cancel != Idle ==> forall k :: 0 <= k < s.cancel.j && k < |s.workers| && s.workers[k] == NotStarted ==>
      s.states[k] == Canceled)
  }

  predicate Inv(s: State) {
    Exclusive(s) && Bounded(s) && Quiet(s) && InTurn(s) && InOrder(s) && Swept(s)
  }

  lemma InitInv(s: State)
    requires Init(s)
    ensures Inv(s)
  {
    TotalZero(Counted, s.workers);
  }

  // ---- Every step keeps it

  lemma MainExclusive(s: State)
    requires Exclusive(s) && MainEnabled(s)
    ensures Exclusive(DoMain(s))
  {
  }

  lemma MainBounded(s: State)
    requires Exclusive(s) && Bounded(s) && InTurn(s) && MainEnabled(s)
    ensures Bounded(DoMain(s))
  {
    hide Total;
    if s.pc == Create {
      TotalAt(Counted, s.workers, s.i, Starting);
    }
  }

  lemma MainQuiet(s: State)
    requires Exclusive(s) && Bounded(s) && Quiet(s) && MainEnabled(s)
    ensures Quiet(DoMain(s))
  {
    hide Total;
    if s.pc == LastTest && s.threadcount == 0 {
      forall k | 0 <= k < |s.workers|
        ensures !Live(s.workers[k])
      {
        TotalAt(Counted, s.workers, k, Finished);
        assert s.owner != Worker(k);
      }
    }
  }

  lemma MainInTurn(s: State)
    requires InTurn(s) && MainEnabled(s)
    ensures InTurn(DoMain(s))
  {
  }

  lemma MainInOrder(s: State)
    requires InTurn(s) && InOrder(s) && MainEnabled(s)
    ensures InOrder(DoMain(s))
  {
  }

  lemma WorkerExclusive(s: State, k: nat, ok: bool)
    requires Exclusive(s) && k < |s.workers| && WorkerEnabled(s, k)
    ensures Exclusive(DoWorker(s, k, ok))
  {
  }

  lemma WorkerCounts(s: State, k: nat, ok: bool)
    requires Exclusive(s) && Counts(s) && k < |s.workers| && WorkerEnabled(s, k)
    ensures Counts(DoWorker(s, k, ok))
  {
    hide Total;
    TotalAt(Counted, s.workers, k, DoWorker(s, k, ok).workers[k]);
  }

  lemma WorkerBounded(s: State, k: nat, ok: bool)
    requires Exclusive(s) && Bounded(s) && InTurn(s) && k < |s.workers| && WorkerEnabled(s, k)
    ensures Bounded(DoWorker(s, k, ok))
  {
    hide Exclusive, Counts, Room, InTurn, DoWorker, WorkerEnabled;
    WorkerCounts(s, k, ok);
    WorkerRoom(s, k, ok);
  }

  lemma WorkerRoom(s: State, k: nat, ok: bool)
    requires Exclusive(s) && Bounded(s) && InTurn(s) && k < |s.workers| && WorkerEnabled(s, k)
    ensures Room(DoWorker(s, k, ok))
  {
    if (s.pc.Woken? || s.pc.Skip?) && NoneLeft(s) {
      WorkerNoneLeft(s, k, ok);
    }
    hide Total, CountedWorkers, NoneLeft, InTurn;
    assert WorkerHolds(s.workers[k]) <==> s.owner == Worker(k);
  }

  lemma WorkerNoneLeft(s: State, k: nat, ok: bool)
    requires InTurn(s) && k < |s.workers| && WorkerEnabled(s, k) && (s.pc.Woken? || s.pc.Skip?) && NoneLeft(s)
    ensures NoneLeft(DoWorker(s, k, ok))
  {
    hide DoWorker;
    WorkerChanges(s, k, ok);
  }

  lemma WorkerQuiet(s: State, k: nat, ok: bool)
    requires Quiet(s) && k < |s.workers| == |s.states| && WorkerEnabled(s, k)
    ensures Quiet(DoWorker(s, k, ok))
  {
  }

  /** A worker changes its own state and place, and may wake the main thread. */
  lemma WorkerChanges(s: State, k: nat, ok: bool)
    requires k < |s.workers| == |s.states| && WorkerEnabled(s, k)
    ensures var t := DoWorker(s, k, ok);
      && |t.workers| == |s.workers| && |t.states| == |s.states| && t.workers[k] != NotStarted
      && (forall j :: 0 <= j < |s.workers| && j != k ==> t.workers[j] == s.workers[j] && t.states[j] == s.states[j])
      && t.i == s.i && t.started == s.started && t.cancel == s.cancel && (t.pc == s.pc || t.pc == Wake(s.pc))
  {
  }

  lemma WorkerInTurn(s: State, k: nat, ok: bool)
    requires InTurn(s) && k < |s.workers| && WorkerEnabled(s, k)
    ensures InTurn(DoWorker(s, k, ok))
  {
    hide DoWorker;
    WorkerChanges(s, k, ok);
  }

  lemma WorkerInOrder(s: State, k: nat, ok: bool)
    requires InTurn(s) && InOrder(s) && k < |s.workers| && WorkerEnabled(s, k)
    ensures InOrder(DoWorker(s, k, ok))
  {
    hide DoWorker;
    WorkerChanges(s, k, ok);
  }

  lemma CancelExclusive(s: State)
    requires Exclusive(s) && Enabled(s, CancelStep)
    ensures Exclusive(DoCancel(s))
  {
  }

  lemma CancelInTurn(s: State)
    requires Exclusive(s) && InTurn(s) && Enabled(s, CancelStep)
    ensures InTurn(DoCancel(s))
  {
  }

  lemma CancelOthers(s: State)
    requires Exclusive(s) && Bounded(s) && Quiet(s) && InTurn(s) && InOrder(s) && Swept(s) && Enabled(s, CancelStep)
    ensures Bounded(DoCancel(s)) && Quiet(DoCancel(s)) && InOrder(DoCancel(s))
  {
    if s.pc.Woken? || s.pc.Skip? {
      CancelNoneLeft(s);
    }
    hide Total, NoneLeft, InTurn, Swept;
    assert DoCancel(s).workers == s.workers && DoCancel(s).pc == s.pc;
  }

  lemma CancelNoneLeft(s: State)
    requires Exclusive(s) && InTurn(s) && Swept(s) && Enabled(s, CancelStep) && (s.pc.Woken? || s.pc.Skip?)
    ensures NoneLeft(s) || (s.cancel != Idle && DoCancel(s).cancel == Idle) ==> NoneLeft(DoCancel(s))
  {
  }

  lemma SweptOn(s: State, a: Action)
    requires InTurn(s) && Swept(s) && Enabled(s, a)
    ensures Swept(Do(s, a))
  {
    match a
    case MainStep =>
    case WorkerStep(k, ok) =>
      WorkerChanges(s, k, ok);
      hide DoWorker;
    case CancelStep =>
  }

  lemma StepInv(s: State, a: Action)
    requires Inv(s) && Enabled(s, a)
    ensures Inv(Do(s, a))
  {
    hide Exclusive, Bounded, Quiet, InTurn, InOrder, Swept, DoMain, DoWorker, DoCancel, MainEnabled, WorkerEnabled;
    SweptOn(s, a);
    match a {
      case MainStep =>
        MainExclusive(s);
        MainBounded(s);
        MainQuiet(s);
        MainInTurn(s);
        MainInOrder(s);
      case WorkerStep(k, ok) =>
        WorkerExclusive(s, k, ok);
        WorkerBounded(s, k, ok);
        WorkerQuiet(s, k, ok);
        WorkerInTurn(s, k, ok);
        WorkerInOrder(s, k, ok);
      case CancelStep =>
        CancelExclusive(s);
        CancelInTurn(s);
        CancelOthers(s);
    }
  }

  // ---- What this means for a state

  /** At most `fanout` threads are live at any time, and as long as nobody holds
      the mutex threadcount says how many. */
  lemma FanoutKept(s: State)
    requires Inv(s)
    ensures LiveWorkers(s) <= s.fanout
    ensures s.owner == Nobody ==> s.threadcount == LiveWorkers(s)
  {
    hide Total, InTurn, InOrder;
    LiveSplit(s.workers);
    if Decremented(s) {
      var k := s.owner.k;
      TotalAt(Leaving, s.workers, k, Finished);
      TotalZero(Leaving, s.workers[k := Finished]);
    } else {
      TotalZero(Leaving, s.workers);
    }
  }

  function Leaving(w: WorkerPc): nat {
    if w == Signal || w == Release then 1 else 0
  }

  lemma {:induction false} LiveSplit(ws: seq<WorkerPc>)
    ensures Total(LiveOne, ws) == Total(Counted, ws) + Total(Leaving, ws)
  {
    if ws != [] {
      LiveSplit(ws[..|ws| - 1]);
    }
  }

  /** As long as dsh has not returned, some thread can take a step, and unless
      the thread that handles signals has the mutex, one of the others. */
  lemma SomethingToDo(s: State) returns (a: Action)
    requires Inv(s) && s.pc != Returned
    ensures Enabled(s, a) && (a == CancelStep ==> s.owner == Canceller)
  {
    hide Total, InOrder, Counted;
    if s.owner == Canceller {
      a := CancelStep;
    } else if s.owner.Worker? {
      a := WorkerStep(s.owner.k, true);
    } else if s.pc != Waiting && s.pc != LastWaiting {
      a := MainStep;
    } else {
      var k := SomeWorker(Counted, s.workers);
      CountedLives(s.workers[k]);
      a := WorkerStep(k, true);
    }
  }

  lemma CountedLives(w: WorkerPc)
    ensures Counted(w) > 0 ==> w != NotStarted && w != Finished
  {
  }

  /** When dsh returns, the thread of every host has finished, but for hosts
      that were canceled before their turn. */
  lemma AllServed(s: State, k: nat)
    requires Inv(s) && s.pc == Returned && k < |s.workers|
    ensures s.workers[k] == Finished || (s.workers[k] == NotStarted && s.states[k] == Canceled)
    ensures s.workers[k] == Finished <==> k in s.started
  {
    hide Total, Exclusive, Bounded;
  }

  // ---- Runs

  predicate Run(s: State, steps: seq<Action>, t: State)
    decreases |steps|
  {
    if steps == [] then s == t
    else Enabled(s, steps[0]) && Run(Do(s, steps[0]), steps[1..], t)
  }

  lemma {:induction false} RunInv(s: State, steps: seq<Action>, t: State)
    requires Inv(s) && Run(s, steps, t)
    ensures Inv(t) && t.fanout == s.fanout && |t.workers| == |s.workers|
    decreases |steps|
  {
    hide Inv, Do, Enabled;
    if steps != [] {
      StepInv(s, steps[0]);
      StepKeepsSize(s, steps[0]);
      RunInv(Do(s, steps[0]), steps[1..], t);
    }
  }

  lemma StepKeepsSize(s: State, a: Action)
    requires Enabled(s, a)
    ensures Do(s, a).fanout == s.fanout && |Do(s, a).workers| == |s.workers| == |s.states| == |Do(s, a).states|
  {
  }

  // ---- The state in which a host ends

  /** The connection to host `k`, or its command, fails. */
  predicate Fails(s: State, a: Action, k: nat) {
    k < |s.workers| && a == WorkerStep(k, false) && (s.workers[k] == Connecting || s.workers[k] == Running)
  }

  /** The thread of a host has stored its result. */
  predicate Stored(w: WorkerPc) {
    w == Locking || w == Decrement || w == Signal || w == Release || w == Finished
  }

  /** The canceling thread, which has looked before, sets a state behind that. */
  predicate Overwrites(s: State, a: Action, k: nat) {
    k < |s.workers| && a == CancelStep && s.cancel == Set(k) && Stored(s.workers[k])
  }

  /** At some step of a run. */
  predicate FailsIn(s: State, steps: seq<Action>, t: State, k: nat)
    requires Run(s, steps, t)
    decreases |steps|
  {
    steps != [] && (Fails(s, steps[0], k) || FailsIn(Do(s, steps[0]), steps[1..], t, k))
  }

  predicate OverwrittenIn(s: State, steps: seq<Action>, t: State, k: nat)
    requires Run(s, steps, t)
    decreases |steps|
  {
    steps != [] && (Overwrites(s, steps[0], k) || OverwrittenIn(Do(s, steps[0]), steps[1..], t, k))
  }

  predicate Decided(w: WorkerPc) {
    w.Finishing? || Stored(w)
  }

  /** The state of a host at the end, from what is still to happen. */
  function EndsAs(s: State, k: nat, fails: bool, overwritten: bool): HostState
    requires k < |s.workers| == |s.states|
  {
    if overwritten then Canceled
    else if s.workers[k].Finishing? then s.workers[k].result
    else if Stored(s.workers[k]) then s.states[k]
    else if fails then Failed else Done
  }

  /** The main thread does to a worker no more than to create it. */
  lemma MainCreates(s: State, k: nat)
    requires InTurn(s) && MainEnabled(s) && k < |s.workers|
    ensures var u := DoMain(s);
      && |u.workers| == |s.workers| && u.states == s.states
      && (u.workers[k] == s.workers[k] || (s.workers[k] == NotStarted && u.workers[k] == Starting))
  {
  }

  /** A worker does nothing to another one. */
  lemma OthersKept(s: State, j: nat, ok: bool, k: nat)
    requires |s.workers| == |s.states| && j < |s.workers| && WorkerEnabled(s, j) && k < |s.workers| && j != k
    ensures var u := DoWorker(s, j, ok);
      |u.workers| == |u.states| == |s.workers| && u.workers[k] == s.workers[k] && u.states[k] == s.states[k]
  {
  }

  lemma StepDecided(s: State, a: Action, k: nat)
    requires Inv(s) && Enabled(s, a) && k < |s.workers|
    ensures |Do(s, a).workers| == |Do(s, a).states| == |s.workers|
    ensures Decided(s.workers[k]) ==> Decided(Do(s, a).workers[k]) && !Fails(s, a, k)
    ensures Fails(s, a, k) ==> Decided(Do(s, a).workers[k])
  {
    TurnOf(s);
    hide Inv, InTurn, DoMain, MainEnabled;
    match a
    case MainStep => MainCreates(s, k);
    case CancelStep =>
    case WorkerStep(j, ok) =>
      if j != k {
        hide DoWorker;
        OthersKept(s, j, ok, k);
      }
  }

  lemma TurnOf(s: State)
    requires Inv(s)
    ensures InTurn(s)
  {
    hide Total, InTurn;
  }

  lemma OwnStepEnds(s: State, k: nat, ok: bool, fails: bool, overwritten: bool)
    requires k < |s.workers| == |s.states| && WorkerEnabled(s, k)
    requires var u := DoWorker(s, k, ok); |u.workers| == |u.states| == |s.workers| && (Decided(u.workers[k]) ==> !fails)
    ensures EndsAs(DoWorker(s, k, ok), k, fails, overwritten) ==
      EndsAs(s, k, fails || Fails(s, WorkerStep(k, ok), k), overwritten)
  {
  }

  lemma StepEnds(s: State, a: Action, k: nat, fails: bool, overwritten: bool)
    requires Inv(s) && Enabled(s, a) && k < |s.workers|
    requires |Do(s, a).workers| == |Do(s, a).states| == |s.workers|
    requires Decided(Do(s, a).workers[k]) ==> !fails
    ensures EndsAs(Do(s, a), k, fails, overwritten) ==
      EndsAs(s, k, fails || Fails(s, a, k), overwritten || Overwrites(s, a, k))
  {
    TurnOf(s);
    hide Inv, InTurn, DoMain, MainEnabled, DoWorker;
    match a
    case MainStep => MainCreates(s, k);
    case CancelStep =>
    case WorkerStep(j, ok) =>
      if j == k {
        OwnStepEnds(s, k, ok, fails, overwritten);
      } else {
        OthersKept(s, j, ok, k);
      }
  }

  lemma {:induction false} NoneFails(s: State, steps: seq<Action>, t: State, k: nat)
    requires Inv(s) && Run(s, steps, t) && k < |s.workers| && Decided(s.workers[k])
    ensures !FailsIn(s, steps, t, k)
    decreases |steps|
  {
    hide Inv, Do, Enabled, Fails, Decided;
    if steps != [] {
      StepInv(s, steps[0]);
      StepDecided(s, steps[0], k);
      NoneFails(Do(s, steps[0]), steps[1..], t, k);
    }
  }

  lemma {:induction false} RunEndsAs(s: State, steps: seq<Action>, t: State, k: nat)
    requires Inv(s) && Run(s, steps, t) && k < |s.workers| == |s.states|
    ensures k < |t.workers| == |t.states|
    ensures t.workers[k] == Finished ==>
      t.states[k] == EndsAs(s, k, FailsIn(s, steps, t, k), OverwrittenIn(s, steps, t, k))
    decreases |steps|
  {
    hide Inv, Do, Enabled, Fails, Overwrites;
    if steps == [] {
    } else {
      hide EndsAs, Decided;
      var u := Do(s, steps[0]);
      StepInv(s, steps[0]);
      StepDecided(s, steps[0], k);
      RunEndsAs(u, steps[1..], t, k);
      if Decided(u.workers[k]) {
        NoneFails(u, steps[1..], t, k);
      }
      StepEnds(s, steps[0], k, FailsIn(u, steps[1..], t, k), OverwrittenIn(u, steps[1..], t, k));
    }
  }

  /** Of a host whose thread has finished the state says whether the connection or
      the command failed, unless the canceling thread has set it behind that. */
  lemma ResultKept(s: State, steps: seq<Action>, t: State, k: nat)
    requires Init(s) && Run(s, steps, t) && k < |s.workers|
    ensures |t.workers| == |t.states| == |s.workers|
    ensures t.workers[k] == Finished ==>
      t.states[k] == if OverwrittenIn(s, steps, t, k) then Canceled
                     else if FailsIn(s, steps, t, k) then Failed
                     else Done
  {
    hide Inv, Run;
    InitInv(s);
    RunInv(s, steps, t);
    RunEndsAs(s, steps, t, k);
  }

  /** What the state of a host may be, by where its thread is. */
  predicate StateFits(w: WorkerPc, st: HostState) {
    match w
    case NotStarted => st == New || st == Canceled
    case Starting => st == New || st == Canceled
    case Connecting => st == Rcmd || st == Canceled
    case Testing => st == Rcmd || st == Canceled
    case Storing => st == Rcmd || st == Canceled
    case Closing => st == Reading || st == Canceled
    case Returning => st == Reading || st == Canceled
    case Running => st == Reading || st == Canceled
    case Finishing(r) => st == Reading || st == Canceled || (st == Rcmd && r == Failed)
    case _ => st == Done || st == Failed || st == Canceled
  }

  ghost predicate AllFit(s: State) {
    && |s.workers| == |s.states|
    && (forall k :: 0 <= k < |s.workers| ==> StateFits(s.workers[k], s.states[k]))
    && (forall k :: 0 <= k < |s.workers| && s.workers[k].Finishing? ==>
          s.workers[k].result == Done || s.workers[k].result == Failed)
  }

  lemma OwnStepFits(s: State, j: nat, ok: bool)
    requires AllFit(s) && j < |s.workers| && WorkerEnabled(s, j)
    ensures AllFit(DoWorker(s, j, ok))
  {
    var u := DoWorker(s, j, ok);
    forall k | 0 <= k < |u.workers|
      ensures StateFits(u.workers[k], u.states[k])
      ensures u.workers[k].Finishing? ==> u.workers[k].result == Done || u.workers[k].result == Failed
    {
      if k != j {
        hide DoWorker;
        OthersKept(s, j, ok, k);
        assert StateFits(s.workers[k], s.states[k]);
      } else {
        assert StateFits(s.workers[j], s.states[j]);
      }
    }
  }

  lemma MainStepFits(s: State)
    requires AllFit(s) && InTurn(s) && MainEnabled(s)
    ensures AllFit(DoMain(s))
  {
    var u := DoMain(s);
    forall k | 0 <= k < |u.workers|
      ensures StateFits(u.workers[k], u.states[k])
      ensures u.workers[k].Finishing? ==> u.workers[k].result == Done || u.workers[k].result == Failed
    {
      hide DoMain, InTurn, MainEnabled;
      MainCreates(s, k);
      assert StateFits(s.workers[k], s.states[k]);
    }
  }

  lemma CancelStepFits(s: State)
    requires AllFit(s) && (s.cancel != Idle || s.owner == Nobody)
    ensures AllFit(DoCancel(s))
  {
  }

  lemma {:induction false} RunFits(s: State, steps: seq<Action>, t: State)
    requires Inv(s) && AllFit(s) && Run(s, steps, t)
    ensures AllFit(t)
    decreases |steps|
  {
    hide Inv, AllFit, InTurn, DoMain, DoWorker, DoCancel;
    if steps != [] {
      StepInv(s, steps[0]);
      TurnOf(s);
      match steps[0] {
        case MainStep => MainStepFits(s);
        case CancelStep => CancelStepFits(s);
        case WorkerStep(k, ok) => OwnStepFits(s, k, ok);
      }
      RunFits(Do(s, steps[0]), steps[1..], t);
    }
  }

  /** In every run the state of a host says how far its thread is, or that it was
      canceled. */
  lemma StatesShow(s: State, steps: seq<Action>, t: State, k: nat)
    requires Init(s) && Run(s, steps, t) && k < |t.workers| == |t.states|
    ensures StateFits(t.workers[k], t.states[k])
  {
    hide Inv, Run, StateFits;
    InitInv(s);
    InitFits(s);
    RunFits(s, steps, t);
  }

  lemma InitFits(s: State)
    requires Init(s)
    ensures AllFit(s)
  {
  }

  /** The canceling thread sets just the states that it finds to be those of hosts
      that wait for their turn or for their connection. */
  lemma CancelsPending(s: State, j: nat)
    requires s.cancel == Look(j) && j < |s.states|
    ensures var t := DoCancel(s); t.states == s.states && (t.cancel != Idle)
    ensures var t := DoCancel(s); var u := DoCancel(t);
      if s.states[j] == New || s.states[j] == Rcmd then u.states == s.states[j := Canceled] && u.cancel == Look(j + 1)
      else t.cancel == Look(j + 1)
  {
  }

  /** The states of every run from the start are as required. */
  lemma Safe(s: State, steps: seq<Action>, t: State)
    requires Init(s) && Run(s, steps, t)
    ensures 0 <= t.threadcount <= s.fanout && LiveWorkers(t) <= s.fanout
    ensures t.owner == Nobody ==> t.threadcount == LiveWorkers(t)
    ensures forall x, y :: 0 <= x < y < |t.started| ==> t.started[x] < t.started[y]
    ensures |t.workers| == |t.states| == |s.states|
    ensures t.pc == Returned ==> forall k :: 0 <= k < |t.workers| ==>
      if k in t.started then t.workers[k] == Finished else t.states[k] == Canceled
  {
    InitInv(s);
    RunInv(s, steps, t);
    FanoutKept(t);
    if t.pc == Returned {
      forall k | 0 <= k < |t.workers|
        ensures if k in t.started then t.workers[k] == Finished else t.states[k] == Canceled
      {
        AllServed(t, k);
      }
    }
  }

  // ---- Every run ends

  function MainRank(pc: MainPc): nat {
    match pc
    case Lock => 13 case Test => 12 case Waiting => 9 case Woken => 11 case Skip => 10
    case Create => 9 case Count => 8 case Unlock => 7 case Break => 9
    case LastLock => 8 case LastTest => 7 case LastWaiting => 4 case LastWoken => 8
    case LastUnlock => 3 case Returned => 0
  }

  function WorkerRank(w: WorkerPc): nat {
    match w
    case NotStarted => 18 case Starting => 17 case Connecting => 16 case Testing => 15
    case Storing => 14 case Closing => 13 case Returning => 12 case Running => 11
    case Finishing(result) => 10 case Locking => 9 case Decrement => 8 case Signal => 7
    case Release => 1 case Finished => 0
  }

  /** What the main thread and the workers have before them. */
  function Work(s: State): nat
    requires s.i <= |s.states|
  {
    (|s.states| - s.i) * 20 + MainRank(s.pc) + Total(WorkerRank, s.workers)
  }

  /** What the thread that handles signals has before it. */
  function Canceling(s: State): nat
    requires Exclusive(s)
  {
    match s.cancel
    case Idle => 0
    case Look(j) => 2 * (|s.states| - j) + 1
    case Set(j) => 2 * (|s.states| - j)
  }

  predicate Arrival(s: State, a: Action) {
    a == CancelStep && s.cancel == Idle
  }

  lemma MainWorks(s: State)
    requires InTurn(s) && MainEnabled(s)
    ensures DoMain(s).i <= |s.states| && Work(DoMain(s)) < Work(s)
    ensures DoMain(s).cancel == s.cancel && |DoMain(s).states| == |s.states|
  {
    hide Total;
    if s.pc == Create {
      TotalAt(WorkerRank, s.workers, s.i, Starting);
    }
  }

  lemma WorkerWorks(s: State, k: nat, ok: bool)
    requires k < |s.workers| == |s.states| && s.i <= |s.states| && WorkerEnabled(s, k)
    ensures Work(DoWorker(s, k, ok)) < Work(s)
    ensures DoWorker(s, k, ok).cancel == s.cancel && |DoWorker(s, k, ok).states| == |s.states|
  {
    hide Total;
    TotalAt(WorkerRank, s.workers, k, DoWorker(s, k, ok).workers[k]);
  }

  lemma CancelWorks(s: State)
    requires Exclusive(s) && s.i <= |s.states| && Enabled(s, CancelStep) && Exclusive(DoCancel(s))
    ensures Work(DoCancel(s)) == Work(s)
    ensures Canceling(DoCancel(s)) < Canceling(s) + if s.cancel == Idle then 2 * |s.states| + 2 else 0
  {
    hide Total;
  }

  /** A step of the main thread or of a worker is work done, and nothing but the
      arrival of a signal makes more work. */
  lemma StepWorks(s: State, a: Action)
    requires Inv(s) && Enabled(s, a)
    ensures Inv(Do(s, a)) && Work(Do(s, a)) <= Work(s) && (a != CancelStep ==> Work(Do(s, a)) < Work(s))
    ensures Work(Do(s, a)) + Canceling(Do(s, a))
      < Work(s) + Canceling(s) + if Arrival(s, a) then 2 * |s.states| + 2 else 0
  {
    hide Total, Bounded, InOrder, Exclusive, Quiet, DoMain, DoWorker, DoCancel, Work, Canceling;
    StepInv(s, a);
    match a {
      case MainStep =>
        MainWorks(s);
        SameCanceling(s, DoMain(s));
      case WorkerStep(k, ok) =>
        WorkerWorks(s, k, ok);
        SameCanceling(s, DoWorker(s, k, ok));
      case CancelStep =>
        CancelWorks(s);
    }
  }

  lemma SameCanceling(s: State, t: State)
    requires Exclusive(s) && Exclusive(t) && s.cancel == t.cancel && |s.states| == |t.states|
    ensures Canceling(t) == Canceling(s)
  {
  }

  function Arrivals(s: State, steps: seq<Action>): nat
    decreases |steps|
  {
    if steps == [] || !Enabled(s, steps[0]) then 0
    else (if Arrival(s, steps[0]) then 1 else 0) + Arrivals(Do(s, steps[0]), steps[1..])
  }

  /** No run is longer than the work at its start and the signals during it
      allow.  As something can be done until dsh returns, it does return. */
  lemma {:induction false} RunEnds(s: State, steps: seq<Action>, t: State)
    requires Inv(s) && Run(s, steps, t)
    ensures |steps| <= Work(s) + Canceling(s) + (2 * |s.states| + 2) * Arrivals(s, steps)
    decreases |steps|
  {
    hide Inv, Do, Enabled, Work, Canceling;
    InvParts(s);
    if steps != [] {
      var a, u := steps[0], Do(s, steps[0]);
      StepWorks(s, a);
      InvParts(u);
      StepKeepsSize(s, a);
      RunEnds(u, steps[1..], t);
      Distribute(2 * |s.states| + 2, Arrivals(u, steps[1..]));
    }
  }

  lemma Distribute(c: nat, n: nat)
    ensures c * (1 + n) == c + c * n
  {
  }

  lemma InvParts(s: State)
    requires Inv(s)
    ensures s.i <= |s.states| && Exclusive(s)
  {
  }

  // ---- What the code relies on, and what it does not give

  /** The test before the first wait is not repeated after it.  So a wakeup
      without a signal, which pthread_cond_wait may make, lets a run go beyond the
      limit if and only if nobody holds the mutex then and some host whose turn is
      still to come is not canceled. */
  lemma SpuriousWakeupOverruns(s: State)
    requires Inv(s) && s.pc == Waiting
    ensures (exists steps, t :: Run(s.(pc := Woken), steps, t) && LiveWorkers(t) > t.fanout)
      <==> s.owner == Nobody && !NoneLeft(s)
  {
    hide Inv, LiveWorkers, Run;
    if s.owner == Nobody && !NoneLeft(s) {
      var steps, t := Overrun(s);
      assert Run(s.(pc := Woken), steps, t);
    } else {
      WokenInv(s);
      forall steps, t | Run(s.(pc := Woken), steps, t)
        ensures LiveWorkers(t) <= t.fanout
      {
        RunInv(s.(pc := Woken), steps, t);
        FanoutKept(t);
      }
    }
  }

  /** Otherwise it does no harm. */
  lemma WokenInv(s: State)
    requires Inv(s) && s.pc == Waiting && (s.owner != Nobody || NoneLeft(s))
    ensures Inv(s.(pc := Woken))
  {
    hide Total;
    assert s.owner.Worker? ==> WorkerHolds(s.workers[s.owner.k]);
  }

  lemma Overrun(s: State) returns (steps: seq<Action>, t: State)
    requires Inv(s) && s.pc == Waiting && s.owner == Nobody && !NoneLeft(s)
    ensures Run(s.(pc := Woken), steps, t) && LiveWorkers(t) == s.fanout + 1 && t.fanout == s.fanout
  {
    hide Total, InOrder;
    FanoutKept(s);
    var a := s.(pc := Woken);
    var b := DoMain(a);
    var k :| s.i <= k < |s.states| && s.states[k] != Canceled;
    steps, t := SkipToCreate(b, k);
    assert ([MainStep] + steps)[1..] == steps;
    steps := [MainStep] + steps;
    assert Run(a, steps, t);
  }

  /** The main thread goes on to the next host that is not canceled. */
  lemma {:induction false} SkipToCreate(s: State, k: nat) returns (steps: seq<Action>, t: State)
    requires |s.workers| == |s.states| && s.pc == Skip && s.i <= k < |s.states| && s.states[k] != Canceled
    requires forall j :: s.i <= j < |s.workers| ==> s.workers[j] == NotStarted
    ensures Run(s, steps, t) && LiveWorkers(t) == LiveWorkers(s) + 1 && t.fanout == s.fanout
    decreases k - s.i
  {
    hide Total;
    var u := DoMain(s);
    if s.states[s.i] == Canceled {
      steps, t := SkipToCreate(u, k);
    } else {
      t := DoMain(u);
      TotalAt(LiveOne, s.workers, s.i, Starting);
      steps := [MainStep];
      assert steps[1..] == [] && Run(t, [], t);
      assert Run(u, steps, t);
    }
    assert ([MainStep] + steps)[1..] == steps;
    steps := [MainStep] + steps;
  }

  /** The worker is about to set its state without looking, or runs. */
  predicate Heedless(w: WorkerPc) {
    w == Starting || w == Storing || w == Running
  }

  /** A canceled host that no thread will run: it has none yet, and gets none; or
      the thread will see it in time; or it is over. */
  predicate Gone(s: State, k: nat)
    requires k < |s.workers| == |s.states|
  {
    var w := s.workers[k];
    && !Heedless(w)
    && (w.NotStarted? || w.Connecting? || w.Testing? || w.Closing? || w.Returning? ==> s.states[k] == Canceled)
  }

  lemma StepGone(s: State, a: Action, k: nat)
    requires Inv(s) && Enabled(s, a) && k < |s.workers| == |s.states| && Gone(s, k)
    ensures |Do(s, a).workers| == |Do(s, a).states| == |s.workers| && Gone(Do(s, a), k)
  {
    hide Exclusive, Bounded, Quiet, InOrder, Swept;
    StepKeepsSize(s, a);
    match a
    case MainStep =>
    case WorkerStep(j, ok) =>
      WorkerGone(s, j, ok, k);
    case CancelStep =>
      hide InTurn;
  }

  lemma WorkerGone(s: State, j: nat, ok: bool, k: nat)
    requires j < |s.workers| == |s.states| && WorkerEnabled(s, j) && k < |s.workers| && Gone(s, k)
    ensures |DoWorker(s, j, ok).workers| == |DoWorker(s, j, ok).states| == |s.workers| && Gone(DoWorker(s, j, ok), k)
  {
    WorkerChanges(s, j, ok);
    if j != k {
      hide DoWorker;
    }
  }

  lemma {:induction false} RunGone(s: State, steps: seq<Action>, t: State, k: nat)
    requires Inv(s) && Run(s, steps, t) && k < |s.workers| == |s.states| && Gone(s, k)
    ensures k < |t.workers| && t.workers[k] != Running
    decreases |steps|
  {
    hide Inv, Do, Enabled;
    if steps != [] {
      StepInv(s, steps[0]);
      StepGone(s, steps[0], k);
      RunGone(Do(s, steps[0]), steps[1..], t, k);
    }
  }

  /** A worker sets its state without looking at the start, and after a look that
      may be out of date once it is connected.  So a canceled host still comes to
      run if and only if its thread is about to do so, or runs already. */
  lemma CancelOverwritten(s: State, k: nat)
    requires Inv(s) && k < |s.workers| == |s.states| && s.states[k] == Canceled
    ensures (exists steps, t :: Run(s, steps, t) && k < |t.workers| && t.workers[k] == Running)
      <==> Heedless(s.workers[k])
  {
    hide Inv, Run;
    if Heedless(s.workers[k]) {
      var steps, t := StartsAnyway(s, k);
      assert Run(s, steps, t) && t.workers[k] == Running;
    } else {
      forall steps, t | Run(s, steps, t)
        ensures k < |t.workers| && t.workers[k] != Running
      {
        RunGone(s, steps, t, k);
      }
    }
  }

  /** A worker that nobody disturbs any more comes to run. */
  lemma {:induction false} StartsAnyway(s: State, k: nat) returns (steps: seq<Action>, t: State)
    requires k < |s.workers| == |s.states|
    requires Heedless(s.workers[k])
      || (s.workers[k] in [Connecting, Testing, Closing, Returning] && s.states[k] != Canceled)
    ensures Run(s, steps, t) && k < |t.workers| && t.workers[k] == Running
    decreases WorkerRank(s.workers[k])
  {
    if s.workers[k] == Running {
      steps, t := [], s;
    } else {
      var a := WorkerStep(k, true);
      steps, t := StartsAnyway(Do(s, a), k);
      assert ([a] + steps)[1..] == steps;
      steps := [a] + steps;
    }
  }

  // ---- That this happens

  /** The state in which dsh starts with `n` hosts. */
  function Start(fanout: nat, n: nat): State {
    State(fanout, 0, if n > 0 then Lock else LastLock, seq(n, _ => New), seq(n, _ => NotStarted), 0, Nobody, Idle, [])
  }

  lemma {:induction false} RunOn(s: State, steps: seq<Action>, t: State, a: Action)
    requires Run(s, steps, t) && Enabled(t, a)
    ensures Run(s, steps + [a], Do(t, a))
    decreases |steps|
  {
    hide Do, Enabled;
    if steps == [] {
      assert [a][1..] == [] && [] + [a] == [a];
      assert Run(Do(t, a), [], Do(t, a));
    } else {
      assert (steps + [a])[1..] == steps[1..] + [a];
      RunOn(Do(s, steps[0]), steps[1..], t, a);
    }
  }

  /** One thread is made, and the main thread goes on from `i` to the next host. */
  lemma OneCreated(s: State, steps: seq<Action>, t: State) returns (more: seq<Action>, u: State)
    requires Run(s, steps, t) && |t.workers| == |t.states| && t.pc == Lock && t.owner == Nobody && t.i < |t.states|
    requires t.fanout != t.threadcount && t.states[t.i] != Canceled
    ensures Run(s, more, u) && u.threadcount == t.threadcount + 1
    ensures u == t.(i := t.i + 1, pc := if t.i + 1 < |t.states| then Lock else LastLock,
                    workers := t.workers[t.i := Starting], threadcount := t.threadcount + 1,
                    started := t.started + [t.i])
  {
    hide Run;
    more, u := steps, t;
    for n := 0 to 6
      invariant Run(s, more, u)
      invariant n == 0 ==> u == t
      invariant n == 1 ==> u == t.(owner := Main, pc := Test)
      invariant n == 2 ==> u == t.(owner := Main, pc := Skip)
      invariant n == 3 ==> u == t.(owner := Main, pc := Create)
      invariant n == 4 ==>
        u == t.(owner := Main, pc := Count, workers := t.workers[t.i := Starting], started := t.started + [t.i])
      invariant n == 5 ==>
        u == t.(owner := Main, pc := Unlock, workers := t.workers[t.i := Starting], started := t.started + [t.i],
                threadcount := t.threadcount + 1)
      invariant n == 6 ==> u == t.(i := t.i + 1, pc := if t.i + 1 < |t.states| then Lock else LastLock,
                    workers := t.workers[t.i := Starting], threadcount := t.threadcount + 1,
                    started := t.started + [t.i])
    {
      RunOn(s, more, u, MainStep);
      more, u := more + [MainStep], Do(u, MainStep);
    }
  }

  /** With one connection at a time and two hosts dsh comes to wait, and a wakeup
      without a signal then lets it have two. */
  lemma SpuriousWakeupHappens() returns (s: State, steps: seq<Action>, t: State)
    ensures Init(s) && s.fanout == 1 && |s.states| == 2 && Run(s, steps, t) && t.pc == Waiting
    ensures exists more, u :: Run(t.(pc := Woken), more, u) && LiveWorkers(u) > u.fanout
  {
    hide Run, LiveWorkers;
    s := Start(1, 2);
    RunNowhere(s);
    steps, t := OneCreated(s, [], s);
    RunOn(s, steps, t, MainStep);
    steps, t := steps + [MainStep], Do(t, MainStep);
    RunOn(s, steps, t, MainStep);
    steps, t := steps + [MainStep], Do(t, MainStep);
    InitInv(s);
    RunInv(s, steps, t);
    assert t.states[1] == New;
    hide Inv;
    SpuriousWakeupOverruns(t);
  }

  lemma RunNowhere(s: State)
    ensures Run(s, [], s)
  {
  }

  /** A host that is canceled before the first step of its thread, or (`late`)
      after the thread has looked and before it sets its state, runs. */
  lemma CancelOverwrittenHappens(late: bool) returns (s: State, steps: seq<Action>, t: State)
    ensures Init(s) && |s.states| == 1 && Run(s, steps, t) && |t.workers| == |t.states| == 1
    ensures t.states[0] == Canceled && t.workers[0] == if late then Storing else Starting
    ensures exists more, u :: Run(t, more, u) && |u.workers| == 1 && u.workers[0] == Running
  {
    hide Run, DoMain, MainEnabled, DoWorker, WorkerEnabled;
    s, steps, t := CreatedOrLooked(late);
    for n := 0 to 3
      invariant Run(s, steps, t) && |t.workers| == |t.states| == 1 && t.workers[0] == if late then Storing else Starting
      invariant n == 0 ==> t.owner == Nobody && t.cancel == Idle
      invariant t.states[0] == (if n == 3 then Canceled else if late then Rcmd else New)
      invariant n > 0 ==> t.cancel == if n == 1 then Look(0) else if n == 2 then Set(0) else Look(1)
    {
      RunOn(s, steps, t, CancelStep);
      steps, t := steps + [CancelStep], Do(t, CancelStep);
    }
    var more, u := StartsAnyway(t, 0);
    InitInv(s);
    RunInv(s, steps, t);
    RunInv(t, more, u);
  }

  /** The thread of the one host is created, or has looked at its state. */
  lemma CreatedOrLooked(late: bool) returns (s: State, steps: seq<Action>, t: State)
    ensures Init(s) && |s.states| == 1 && Run(s, steps, t) && |t.workers| == |t.states| == 1
    ensures t.owner == Nobody && t.cancel == Idle
    ensures if late then t.workers[0] == Storing && t.states[0] == Rcmd
      else t.workers[0] == Starting && t.states[0] == New
  {
    hide Run, DoMain, MainEnabled;
    s := Start(1, 1);
    RunNowhere(s);
    steps, t := OneCreated(s, [], s);
    if late {
      for n := 0 to 3
        invariant Run(s, steps, t) && |t.workers| == |t.states| == 1 && t.owner == Nobody && t.cancel == Idle
        invariant t.workers[0]
          == (if n == 0 then Starting else if n == 1 then Connecting else if n == 2 then Testing else Storing)
        invariant t.states[0] == if n == 0 then New else Rcmd
      {
        RunOn(s, steps, t, WorkerStep(0, true));
        steps, t := steps + [WorkerStep(0, true)], Do(t, WorkerStep(0, true));
      }
    }
  }

  /** And a host whose connection has failed can end as canceled: the canceling
      thread looks at its state before that, and sets it behind it. */
  lemma FailureOverwritten() returns (s: State, steps: seq<Action>, t: State)
    ensures Init(s) && |s.states| == 1 && Run(s, steps, t) && |t.workers| == |t.states| == 1
    ensures t.workers[0] == Finished && t.states[0] == Canceled && FailsIn(s, steps, t, 0)
  {
    hide Run, FailsIn, DoMain, MainEnabled;
    s, steps, t := FailsLookedAt();
    ghost var w := WorkerStep(0, true);
    ghost var acts := [CancelStep, CancelStep, w, w, w, w];
    ghost var pcs := [Locking, Locking, Locking, Decrement, Signal, Release, Finished];
    for n := 0 to 6
      invariant Run(s, steps, t) && |t.workers| == |t.states| == 1 && t.workers[0] == pcs[n]
      invariant n <= 1 ==> t.cancel == if n == 0 then Set(0) else Look(1)
      invariant n == 2 ==> t.owner == Nobody
      invariant n > 0 ==> t.states[0] == Canceled
      invariant FailsIn(s, steps, t, 0)
    {
      FailsOn(s, steps, t, acts[n], 0);
      steps, t := steps + [acts[n]], Do(t, acts[n]);
    }
  }

  /** The first part of that: the failure is recorded. */
  lemma FailsLookedAt() returns (s: State, steps: seq<Action>, t: State)
    ensures Init(s) && |s.states| == 1 && Run(s, steps, t) && |t.workers| == |t.states| == 1
    ensures t.workers[0] == Locking && t.states[0] == Failed && t.cancel == Set(0) && FailsIn(s, steps, t, 0)
  {
    hide Run, FailsIn, DoMain, MainEnabled;
    s := Start(1, 1);
    RunNowhere(s);
    steps, t := OneCreated(s, [], s);
    ghost var acts := [WorkerStep(0, true), CancelStep, CancelStep, WorkerStep(0, false), WorkerStep(0, true)];
    ghost var pcs := [Starting, Connecting, Connecting, Connecting, Finishing(Failed), Locking];
    for n := 0 to 5
      invariant Run(s, steps, t) && |t.workers| == |t.states| == 1 && t.workers[0] == pcs[n]
      invariant n <= 1 ==> t.owner == Nobody && t.cancel == Idle
      invariant n >= 2 ==> t.cancel == if n == 2 then Look(0) else Set(0)
      invariant n >= 1 ==> t.states[0] == if n < 5 then Rcmd else Failed
      invariant n >= 4 ==> FailsIn(s, steps, t, 0)
    {
      FailsOn(s, steps, t, acts[n], 0);
      steps, t := steps + [acts[n]], Do(t, acts[n]);
    }
  }

  lemma {:induction false} FailsOn(s: State, steps: seq<Action>, t: State, a: Action, k: nat)
    requires Run(s, steps, t) && Enabled(t, a)
    ensures Run(s, steps + [a], Do(t, a))
    ensures FailsIn(s, steps + [a], Do(t, a), k) <==> FailsIn(s, steps, t, k) || Fails(t, a, k)
    decreases |steps|
  {
    hide Do, Enabled, Fails;
    RunOn(s, steps, t, a);
    if steps == [] {
      assert [] + [a] == [a] && [a][1..] == [];
    } else {
      assert (steps + [a])[1..] == steps[1..] + [a];
      FailsOn(Do(s, steps[0]), steps[1..], t, a, k);
    }
  }
}
