/**
 The submit-context handshake of rtw_cmd.c, as interleaved steps. A submitter keeps a submit_ctx on
 its stack, hands a command pointing at it to the worker and waits with a timeout; the worker runs
 the command, signals the context under sctx_mutex if the command still points at one, and frees the
 command. A submitter whose context is still SUBMITTED when it holds the mutex unlinks it.
 */
module SubmitCtx {

  datatype Status = Submitted | DoneSuccess | DoneError

  /** Where the submitter is; the mutex is held from SHolding to SReleasing. */
  datatype SubmitterPc = SPrepared | SWaiting | SWoken | SHolding | SClearing | SReleasing | SReturned

  /** Where the worker is with this command; sctx is read at WChecking, written through at WStatus and WSignal. */
  datatype WorkerPc = WIdle | WQueued | WPost | WChecking | WStatus | WSignal | WNull | WReleasing | WFreeing | WDone

  /**
   One command and its submission. Fixed: cmdsz is above MAX_CMDSZ, a callback takes the command over,
   the submitter waits, the worker takes sctx_mutex. Changing: the rest; linked is cmd->sctx != NULL,
   done is the completion, res the handler's success, ret what rtw_sctx_wait returned.
   */
  datatype Cmd = Cmd(oversize: bool, callback: bool, waitAck: bool, locks: bool,
                     spc: SubmitterPc, wpc: WorkerPc,
                     linked: bool, status: Status, done: bool, freed: nat, res: bool, ret: bool)

  datatype Holder = Free | Submitter(i: nat) | Worker(i: nat)

  datatype State = State(cmds: seq<Cmd>, mutex: Holder)

  datatype Action =
    | Enqueue(accepted: bool)  // rtw_enqueue_cmd; accepted is the outcome of the PHL enqueue
    | WakeDone | WakeTimeout   // rtw_sctx_wait returns
    | SLock | SRead | SClear | SUnlock
    | WRun(ok: bool) | WLock | WCheck | WSetStatus | WComplete | WUnlink | WUnlock | WFree

  // ----- the steps -----

  predicate Enabled(c: Cmd, i: nat, mutex: Holder, a: Action) {
    match a
    case Enqueue(_) => c.spc == SPrepared
    case WakeDone => c.spc == SWaiting && c.done
    case WakeTimeout => c.spc == SWaiting
    case SLock => c.spc == SWoken && mutex == Free
    case SRead => c.spc == SHolding
    case SClear => c.spc == SClearing
    case SUnlock => c.spc == SReleasing
    case WRun(_) => c.wpc == WQueued
    case WLock => c.wpc == WPost && (c.locks ==> mutex == Free)
    case WCheck => c.wpc == WChecking
    case WSetStatus => c.wpc == WStatus
    case WComplete => c.wpc == WSignal
    case WUnlink => c.wpc == WNull
    case WUnlock => c.wpc == WReleasing
    case WFree => c.wpc == WFreeing
  }

  function Act(c: Cmd, a: Action): Cmd {
    match a
    case Enqueue(accepted) =>
      var back := if c.waitAck then SWaiting else SReturned;
      if c.oversize then c.(freed := c.freed + 1, spc := back)  // freed, yet reported as success
      else if accepted then c.(wpc := WQueued, spc := back)
      else c.(freed := c.freed + 1, spc := SReturned)
    case WakeDone => c.(spc := SWoken, ret := c.status == DoneSuccess)
    case WakeTimeout => c.(spc := SWoken, ret := false)
    case SLock => c.(spc := SHolding)
    case SRead => c.(spc := if c.status == Submitted then SClearing else SReleasing)
    case SClear => c.(linked := false, spc := SReleasing)
    case SUnlock => c.(spc := SReturned)
    case WRun(ok) => c.(res := ok, wpc := WPost)
    case WLock => c.(wpc := WChecking)
    case WCheck => c.(wpc := if c.linked then WStatus else WReleasing)
    case WSetStatus => c.(status := if c.res then DoneSuccess else DoneError, wpc := WSignal)
    case WComplete => c.(done := true, wpc := WNull)
    case WUnlink => c.(linked := false, wpc := WReleasing)
    case WUnlock => c.(wpc := WFreeing)
    case WFree => c.(freed := if c.callback then c.freed else c.freed + 1, wpc := WDone)
  }

  function Mutex(c: Cmd, i: nat, mutex: Holder, a: Action): Holder {
    match a
    case SLock => Submitter(i)
    case SUnlock => Free
    case WLock => if c.locks then Worker(i) else mutex
    case WUnlock => if c.locks then Free else mutex
    case _ => mutex
  }

  datatype Step = Step(i: nat, a: Action)

  predicate CanStep(s: State, st: Step) {
    st.i < |s.cmds| && Enabled(s.cmds[st.i], st.i, s.mutex, st.a)
  }

  function Next(s: State, st: Step): State
    requires CanStep(s, st)
  {
    var c := s.cmds[st.i];
    State(s.cmds[st.i := Act(c, st.a)], Mutex(c, st.i, s.mutex, st.a))
  }

  /** A run: every step is enabled when it is taken. */
  predicate CanRun(s: State, run: seq<Step>)
    decreases run
  {
    run == [] || (CanStep(s, run[0]) && CanRun(Next(s, run[0]), run[1..]))
  }

  function Run(s: State, run: seq<Step>): State
    requires CanRun(s, run)
    decreases run
  {
    if run == [] then s else Run(Next(s, run[0]), run[1..])
  }

  predicate Fresh(c: Cmd) {
    && c.spc == SPrepared && c.wpc == WIdle
    && c.linked == c.waitAck && c.status == Submitted && !c.done
    && c.freed == 0 && !c.ret
  }

  predicate Initial(s: State) {
    s.mutex == Free && forall i :: 0 <= i < |s.cmds| ==> Fresh(s.cmds[i])
  }

  // ----- what must hold -----

  predicate Active(wpc: WorkerPc) {
    wpc != WIdle && wpc != WDone
  }

  predicate SafeCmd(c: Cmd) {
    // the worker signals only a context whose owner has not returned
    && (c.wpc in {WStatus, WSignal} ==> c.spc != SReturned)
    // a timed-out submitter, and the worker, touch only a command not yet freed
    && (c.spc == SClearing || Active(c.wpc) ==> c.freed == 0)
    // a command is freed at most once, and once all is over exactly once unless a callback has it
    && c.freed <= 1
    && (c.spc == SReturned && !Active(c.wpc) ==> c.freed == if c.wpc == WDone && c.callback then 0 else 1)
    // a submitter told of success had its command run with success
    && (c.ret ==> c.status == DoneSuccess && c.res)
  }

  predicate Safe(s: State) {
    forall i :: 0 <= i < |s.cmds| ==> SafeCmd(s.cmds[i])
  }

  /** Commands for which the handshake works: not oversized, completed under the mutex, or not waited for. */
  predicate Disciplined(c: Cmd) {
    c.waitAck ==> !c.oversize && c.locks
  }

  // ----- why it holds -----

  predicate SubmitterHolds(c: Cmd) {
    c.spc in {SHolding, SClearing, SReleasing}
  }

  predicate WorkerHolds(c: Cmd) {
    c.locks && c.wpc in {WChecking, WStatus, WSignal, WNull, WReleasing}
  }

  predicate InvCmd(c: Cmd, i: nat, mutex: Holder) {
    && (c.spc == SPrepared ==> Fresh(c))
    && (SubmitterHolds(c) <==> mutex == Submitter(i))
    && (WorkerHolds(c) <==> mutex == Worker(i))
    && (!c.waitAck ==> c.spc in {SPrepared, SReturned} && !c.linked)
    && (c.spc in {SWaiting, SWoken, SHolding, SClearing, SReleasing} ==> c.wpc != WIdle)
    && (c.wpc in {WStatus, WSignal, WNull} ==> c.linked)
    && (c.linked && c.wpc != WIdle ==> c.spc in {SWaiting, SWoken, SHolding, SClearing})
    && (c.wpc in {WReleasing, WFreeing, WDone} ==> !c.linked)
    && (c.linked && c.wpc != WIdle ==> (c.status == Submitted <==> c.wpc !in {WSignal, WNull}))
    && (c.status == Submitted && c.spc in {SWaiting, SWoken, SHolding, SClearing} ==> c.linked)
    && (c.status != Submitted ==> c.status == if c.res then DoneSuccess else DoneError)
    && (c.status != Submitted ==> c.wpc !in {WIdle, WQueued, WPost, WChecking, WStatus})
    && (c.done ==> c.status != Submitted)
    && (c.spc == SClearing ==> c.status == Submitted)
    && (c.ret ==> c.status == DoneSuccess)
    && c.freed == (if c.spc == SPrepared || Active(c.wpc) || (c.wpc == WDone && c.callback) then 0 else 1)
  }

  predicate Inv(s: State) {
    && (s.mutex != Free ==> s.mutex.i < |s.cmds|)
    && (forall i :: 0 <= i < |s.cmds| ==> Disciplined(s.cmds[i]))
    && (forall i :: 0 <= i < |s.cmds| ==> InvCmd(s.cmds[i], i, s.mutex))
  }

  predicate ByWorker(a: Action) {
    a.WRun? || a.WLock? || a.WCheck? || a.WSetStatus? || a.WComplete? || a.WUnlink? || a.WUnlock? || a.WFree?
  }

  lemma SubmitterKeepsInv(c: Cmd, i: nat, mutex: Holder, a: Action)
    requires Disciplined(c) && InvCmd(c, i, mutex) && Enabled(c, i, mutex, a) && !ByWorker(a)
    ensures InvCmd(Act(c, a), i, Mutex(c, i, mutex, a))
  {
    match a
    case Enqueue(_) =>
    case WakeDone =>
    case WakeTimeout =>
    case SLock =>
    case SRead =>
    case SClear =>
    case SUnlock =>
  }

  lemma WorkerKeepsInv(c: Cmd, i: nat, mutex: Holder, a: Action)
    requires Disciplined(c) && InvCmd(c, i, mutex) && Enabled(c, i, mutex, a) && ByWorker(a)
    ensures InvCmd(Act(c, a), i, Mutex(c, i, mutex, a))
  {
    match a
    case WRun(_) =>
    case WLock =>
    case WCheck =>
    case WSetStatus =>
    case WComplete =>
    case WUnlink =>
    case WUnlock =>
    case WFree =>
  }

  lemma StaysDisciplined(c: Cmd, a: Action)
    requires Disciplined(c)
    ensures Disciplined(Act(c, a))
  {
  }

  lemma StepKeepsInv(s: State, st: Step)
    requires Inv(s) && CanStep(s, st)
    ensures Inv(Next(s, st))
  {
    hide Act, InvCmd, Disciplined;
    var s' := Next(s, st);
    forall j | 0 <= j < |s'.cmds|
      ensures Disciplined(s'.cmds[j]) && InvCmd(s'.cmds[j], j, s'.mutex)
    {
      if j == st.i {
        StaysDisciplined(s.cmds[j], st.a);
        if ByWorker(st.a) {
          WorkerKeepsInv(s.cmds[j], j, s.mutex, st.a);
        } else {
          SubmitterKeepsInv(s.cmds[j], j, s.mutex, st.a);
        }
      } else {
        OthersUnaffected(s.cmds[j], j, s.cmds[st.i], st.i, s.mutex, st.a);
      }
    }
  }

  /** A step of command i moves the mutex only between free and i's own two threads. */
  lemma OthersUnaffected(c: Cmd, j: nat, own: Cmd, i: nat, mutex: Holder, a: Action)
    requires i != j && Enabled(own, i, mutex, a)
    requires InvCmd(own, i, mutex) && InvCmd(c, j, mutex)
    ensures InvCmd(c, j, Mutex(own, i, mutex, a))
  {
  }

  lemma {:induction false} RunKeepsInv(s: State, run: seq<Step>)
    requires Inv(s) && CanRun(s, run)
    ensures Inv(Run(s, run))
    decreases run
  {
    if run != [] {
      StepKeepsInv(s, run[0]);
      RunKeepsInv(Next(s, run[0]), run[1..]);
    }
  }

  /** Every interleaving of any number of disciplined commands is safe at every point. */
  lemma SafeAlways(s: State, run: seq<Step>)
    requires Initial(s) && CanRun(s, run)
    requires forall i :: 0 <= i < |s.cmds| ==> Disciplined(s.cmds[i])
    ensures Safe(Run(s, run))
  {
    RunKeepsInv(s, run);
    var t := Run(s, run);
    forall i | 0 <= i < |t.cmds| ensures SafeCmd(t.cmds[i]) {
      InvIsSafe(t.cmds[i], i, t.mutex);
    }
  }

  lemma InvIsSafe(c: Cmd, i: nat, mutex: Holder)
    requires Disciplined(c) && InvCmd(c, i, mutex)
    ensures SafeCmd(c)
  {
  }

  // ----- what a submitter is told -----

  /** What the steps taken so far say of a command. */
  predicate Recorded(c: Cmd, i: nat, past: seq<Step>) {
    && (c.wpc in {WIdle, WQueued} ==> Step(i, WRun(true)) !in past)
    && (c.wpc !in {WIdle, WQueued} ==> (c.res <==> Step(i, WRun(true)) in past))
    && (c.done <==> Step(i, WComplete) in past)
    && (c.spc in {SPrepared, SWaiting} ==> Step(i, WakeDone) !in past && Step(i, WakeTimeout) !in past)
    && (Step(i, WakeDone) in past ==> c.done && Step(i, WakeTimeout) !in past)
    && (c.ret <==> Step(i, WakeDone) in past && Step(i, WRun(true)) in past)
  }

  lemma SubmitterRecorded(c: Cmd, i: nat, mutex: Holder, a: Action, past: seq<Step>, past': seq<Step>)
    requires InvCmd(c, i, mutex) && Enabled(c, i, mutex, a) && Recorded(c, i, past) && !ByWorker(a)
    requires forall b :: Step(i, b) in past' <==> Step(i, b) in past || b == a
    ensures Recorded(Act(c, a), i, past')
  {
    hide SubmitterHolds, WorkerHolds;
  }

  lemma WorkerRecorded(c: Cmd, i: nat, mutex: Holder, a: Action, past: seq<Step>, past': seq<Step>)
    requires InvCmd(c, i, mutex) && Enabled(c, i, mutex, a) && Recorded(c, i, past) && ByWorker(a)
    requires forall b :: Step(i, b) in past' <==> Step(i, b) in past || b == a
    ensures Recorded(Act(c, a), i, past')
  {
    hide SubmitterHolds, WorkerHolds;
  }

  lemma StepRecorded(c: Cmd, i: nat, mutex: Holder, a: Action, past: seq<Step>)
    requires InvCmd(c, i, mutex) && Enabled(c, i, mutex, a) && Recorded(c, i, past)
    ensures Recorded(Act(c, a), i, past + [Step(i, a)])
  {
    hide InvCmd, Recorded, Enabled, Act;
    var past' := past + [Step(i, a)];
    assert forall b :: Step(i, b) in past' <==> Step(i, b) in past || b == a;
    if ByWorker(a) {
      WorkerRecorded(c, i, mutex, a, past, past');
    } else {
      SubmitterRecorded(c, i, mutex, a, past, past');
    }
  }

  lemma OthersRecorded(c: Cmd, i: nat, past: seq<Step>, st: Step)
    requires Recorded(c, i, past) && st.i != i
    ensures Recorded(c, i, past + [st])
  {
    assert forall b :: Step(i, b) in past + [st] <==> Step(i, b) in past;
  }

  lemma {:induction false} RunRecorded(s: State, run: seq<Step>, i: nat, past: seq<Step>)
    requires Inv(s) && CanRun(s, run) && i < |s.cmds| && Recorded(s.cmds[i], i, past)
    ensures var t := Run(s, run); |t.cmds| == |s.cmds| && Recorded(t.cmds[i], i, past + run)
    decreases run
  {
    hide Act, Recorded, InvCmd, Enabled;
    if run == [] {
      assert past + run == past;
    } else {
      var st := run[0];
      if st.i == i {
        StepRecorded(s.cmds[i], i, s.mutex, st.a, past);
      } else {
        OthersRecorded(s.cmds[i], i, past, st);
      }
      StepKeepsInv(s, st);
      assert past + [st] + run[1..] == past + run;
      RunRecorded(Next(s, st), run[1..], i, past + [st]);
    }
  }

  /**
   In every interleaving of disciplined commands a submitter is told of success exactly if it was woken by
   the completion and the handler succeeded; it can be woken so from the completion on, and not after a timeout.
   */
  lemma ToldExactly(s: State, run: seq<Step>, i: nat)
    requires Initial(s) && CanRun(s, run) && i < |s.cmds|
    requires forall j :: 0 <= j < |s.cmds| ==> Disciplined(s.cmds[j])
    ensures var t := Run(s, run);
            && |t.cmds| == |s.cmds|
            && (t.cmds[i].ret <==> Step(i, WakeDone) in run && Step(i, WRun(true)) in run)
            && (Step(i, WakeDone) in run ==> Step(i, WComplete) in run && Step(i, WakeTimeout) !in run)
            && (t.cmds[i].spc == SWaiting ==> (CanStep(t, Step(i, WakeDone)) <==> Step(i, WComplete) in run))
  {
    hide Disciplined, CanRun, Run;
    RunRecorded(s, run, i, []);
    assert [] + run == run;
  }

  predicate Over(c: Cmd) {
    c.spc == SReturned && !Active(c.wpc)
  }

  /** No deadlock: until every command is over some thread can take a step. */
  lemma NeverStuck(s: State, run: seq<Step>)
    requires Initial(s) && CanRun(s, run)
    requires forall i :: 0 <= i < |s.cmds| ==> Disciplined(s.cmds[i])
    ensures var t := Run(s, run);
            (exists st: Step :: CanStep(t, st)) <==> exists i :: 0 <= i < |t.cmds| && !Over(t.cmds[i])
  {
    hide CanRun, Run, CanStep;
    RunKeepsInv(s, run);
    StuckExactly(Run(s, run));
  }

  lemma StuckExactly(t: State)
    requires Inv(t)
    ensures (exists st: Step :: CanStep(t, st)) <==> exists i :: 0 <= i < |t.cmds| && !Over(t.cmds[i])
  {
    hide Enabled, InvCmd;
    if st: Step :| CanStep(t, st) {
      OverIsOver(t.cmds[st.i], st.i, t.mutex, st.a);
    }
    if i :| 0 <= i < |t.cmds| && !Over(t.cmds[i]) {
      // whoever holds the mutex can go on, and if nobody does this command can
      var j := if t.mutex == Free then i else t.mutex.i;
      HolderIsNotOver(t, j);
      var a := SomeAction(t.cmds[j], j, t.mutex);
      assert CanStep(t, Step(j, a));
    }
  }

  lemma OverIsOver(c: Cmd, i: nat, mutex: Holder, a: Action)
    requires Enabled(c, i, mutex, a)
    ensures !Over(c)
  {
  }

  lemma HolderIsNotOver(t: State, j: nat)
    requires Inv(t) && t.mutex != Free ==> j == t.mutex.i
    requires Inv(t)
    ensures t.mutex != Free ==> j < |t.cmds| && !Over(t.cmds[j])
  {
  }

  lemma SomeAction(c: Cmd, i: nat, mutex: Holder) returns (a: Action)
    requires InvCmd(c, i, mutex) && !Over(c)
    requires mutex == Free || mutex == Submitter(i) || mutex == Worker(i)
    ensures Enabled(c, i, mutex, a)
  {
    a := match c.spc
      case SPrepared => Enqueue(true)
      case SWaiting => WakeTimeout
      case SHolding => SRead
      case SClearing => SClear
      case SReleasing => SUnlock
      case _ =>
        if c.spc == SWoken && mutex == Free then SLock else
        match c.wpc
        case WQueued => WRun(true)
        case WPost => WLock
        case WChecking => WCheck
        case WStatus => WSetStatus
        case WSignal => WComplete
        case WNull => WUnlink
        case WReleasing => WUnlock
        case _ => WFree;
  }

  // ----- and that nothing less will do -----

  /** An oversized command is freed by rtw_enqueue_cmd with success: the waiter then writes into it. */
  lemma OversizeUnsafe(s: State, i: nat) returns (run: seq<Step>)
    requires Initial(s) && i < |s.cmds| && s.cmds[i].waitAck && s.cmds[i].oversize
    ensures CanRun(s, run) && !Safe(Run(s, run))
  {
    run := [Step(i, Enqueue(true)), Step(i, WakeTimeout), Step(i, SLock), Step(i, SRead)];
    var s1 := Next(s, run[0]);
    var s2 := Next(s1, run[1]);
    var s3 := Next(s2, run[2]);
    var s4 := Next(s3, run[3]);
    RunFour(s, run, s1, s2, s3, s4);
    assert !SafeCmd(s4.cmds[i]);
  }

  lemma RunFour(s: State, run: seq<Step>, s1: State, s2: State, s3: State, s4: State)
    requires |run| >= 4
    requires CanStep(s, run[0]) && s1 == Next(s, run[0])
    requires CanStep(s1, run[1]) && s2 == Next(s1, run[1])
    requires CanStep(s2, run[2]) && s3 == Next(s2, run[2])
    requires CanStep(s3, run[3]) && s4 == Next(s3, run[3])
    ensures CanRun(s, run) <==> CanRun(s4, run[4..])
    ensures CanRun(s, run) ==> Run(s, run) == Run(s4, run[4..])
  {
    hide CanStep, Next;
    assert run[1..][1..] == run[2..] && run[2..][1..] == run[3..] && run[3..][1..] == run[4..];
    RunOne(s, run);
    RunOne(s1, run[1..]);
    RunOne(s2, run[2..]);
    RunOne(s3, run[3..]);
  }

  lemma RunOne(s: State, run: seq<Step>)
    requires run != [] && CanStep(s, run[0])
    ensures CanRun(s, run) <==> CanRun(Next(s, run[0]), run[1..])
    ensures CanRun(s, run) ==> Run(s, run) == Run(Next(s, run[0]), run[1..])
  {
  }

  /** Completing without the mutex: the worker sees the link, the owner times out, unlinks and returns. */
  lemma UnlockedUnsafe(s: State, i: nat) returns (run: seq<Step>)
    requires Initial(s) && i < |s.cmds|
    requires s.cmds[i].waitAck && !s.cmds[i].oversize && !s.cmds[i].locks
    ensures CanRun(s, run) && !Safe(Run(s, run))
  {
    run := [Step(i, Enqueue(true)), Step(i, WRun(true)), Step(i, WLock), Step(i, WCheck)]
        + [Step(i, WakeTimeout), Step(i, SLock), Step(i, SRead), Step(i, SClear)] + [Step(i, SUnlock)];
    var c := s.cmds[i];
    var s1 := Next(s, run[0]);
    var s2 := Next(s1, run[1]);
    var s3 := Next(s2, run[2]);
    var s4 := Next(s3, run[3]);
    RunFour(s, run, s1, s2, s3, s4);
    var late := run[4..];
    assert s4.cmds[i] == c.(spc := SWaiting, wpc := WStatus, res := true) && s4.mutex == Free;
    LateReturn(s4, i, late);
  }

  lemma LateReturn(s: State, i: nat, run: seq<Step>)
    requires i < |s.cmds| && s.mutex == Free
    requires s.cmds[i].spc == SWaiting && s.cmds[i].wpc == WStatus && s.cmds[i].status == Submitted
    requires run == [Step(i, WakeTimeout), Step(i, SLock), Step(i, SRead), Step(i, SClear)] + [Step(i, SUnlock)]
    ensures CanRun(s, run) && !Safe(Run(s, run))
  {
    var s1 := Next(s, run[0]);
    var s2 := Next(s1, run[1]);
    var s3 := Next(s2, run[2]);
    var s4 := Next(s3, run[3]);
    RunFour(s, run, s1, s2, s3, s4);
    var last := run[4..];
    assert last == [Step(i, SUnlock)] && last[1..] == [];
    var s5 := Next(s4, last[0]);
    RunOne(s4, last);
    assert Run(s5, []) == s5;
    assert !SafeCmd(s5.cmds[i]);
  }

  /** The handshake is safe in every interleaving exactly when every command waited for is disciplined. */
  lemma SafeExactly(s: State)
    requires Initial(s)
    ensures (forall run: seq<Step> | CanRun(s, run) :: Safe(Run(s, run)))
        <==> forall i :: 0 <= i < |s.cmds| ==> Disciplined(s.cmds[i])
  {
    hide CanRun, Run, Safe, Fresh;
    if forall i :: 0 <= i < |s.cmds| ==> Disciplined(s.cmds[i]) {
      forall run: seq<Step> | CanRun(s, run) ensures Safe(Run(s, run)) {
        SafeAlways(s, run);
      }
    } else {
      var i :| 0 <= i < |s.cmds| && !Disciplined(s.cmds[i]);
      var run;
      if s.cmds[i].oversize {
        run := OversizeUnsafe(s, i);
      } else {
        run := UnlockedUnsafe(s, i);
      }
      assert !Safe(Run(s, run));
    }
  }
}
