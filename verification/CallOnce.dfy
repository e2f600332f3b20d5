/** The `call_once` protocol as atomic steps of any number of threads on one control word.

    The control word is kept as the history of the messages written to it.  A load may return any
    message that is not older than the newest one its thread has seen, so stale reads are part of
    every run; a read-modify-write acts on the newest message.  Every thread and every message has
    a view, the set of writes to other memory that is known to have happened before it:

    - a load with acquire order joins the message's view into the thread's, a relaxed one does not;
    - a write with release order publishes the thread's view in its message;
    - a read-modify-write of any order carries on the view of the message it replaces, as the
      release sequences of ISO C++17 [intro.races] do.

    `SpinLockDelay` may sleep only while the word still holds the value that was read, which is the
    futex contract, and may return early.
 */
module CallOnce {

  const INIT: nat := 0
  const RUNNING: nat := 0x65C2937B
  const WAITER: nat := 0x05A308D2
  const DONE: nat := 221

  // ----- the transitions that SpinLockWait makes -----

  datatype Transition = Transition(from: nat, to: nat, done: bool)

  const TRANS: seq<Transition> := [
    Transition(INIT, RUNNING, true),
    Transition(RUNNING, WAITER, false),
    Transition(DONE, DONE, true)]

  /** The first transition from `v` at or after index `i`, or the length of the table. */
  function Lookup(v: nat, i: nat := 0): (r: nat)
    requires i <= |TRANS|
    ensures i <= r <= |TRANS|
    decreases |TRANS| - i
  {
    if i == |TRANS| || TRANS[i].from == v then i else Lookup(v, i + 1)
  }

  // ----- states -----

  type View = set<nat>

  datatype Message = Message(value: nat, view: View)

  datatype Pc =
    | Idle
    | Entry               // about to load the word with acquire order
    | DebugCheck          // about to load it for the check of debug builds
    | TryClaim            // about to compare-exchange INIT for RUNNING, relaxed
    | WaitLoad            // in SpinLockWait, about to load with acquire order
    | WaitCas(k: nat)     // in SpinLockWait, about to make transition k
    | Delay(v: nat)       // in SpinLockDelay, having read v
    | Asleep
    | StartFn
    | InFn
    | Publish             // about to exchange in DONE with release order
    | Wake                // about to call SpinLockWake
    | Returned
    | Fatal

  datatype Thread = Thread(pc: Pc, seen: nat, view: View)

  /** `debug` says whether the check of debug builds is compiled in.  `owner` is the thread that
      claimed the word, if any; it is read by no step. */
  datatype State = State(
    debug: bool,
    history: seq<Message>,
    threads: seq<Thread>,
    owner: int,
    starts: nat,
    finishes: nat,
    fnWrites: View)

  datatype Action =
    | Call                // either entry point
    | Read(i: nat)        // a load, or a compare-exchange that fails, seeing message i
    | Rmw                 // a compare-exchange that succeeds, or the exchange
    | Sleep
    | Resume              // the delay is over, or the sleep ends by itself
    | Invoke
    | FnWrite(w: nat)
    | FnEnd
    | WakeAll

  ghost predicate Initial(s: State) {
    && s.history == [Message(INIT, {})]
    && (forall t :: 0 <= t < |s.threads| ==> s.threads[t].pc == Idle && s.threads[t].seen == 0)
    && s.owner == -1 && s.starts == 0 && s.finishes == 0 && s.fnWrites == {}
  }

  function Newest(s: State): Message
    requires s.history != []
  {
    s.history[|s.history| - 1]
  }

  // ----- steps -----

  predicate CanRead(s: State, th: Thread, i: nat) {
    th.seen <= i < |s.history|
  }

  predicate Enabled(s: State, t: nat, a: Action) {
    t < |s.threads| && s.history != [] &&
    var th := s.threads[t];
    match a
    case Call => th.pc == Idle || th.pc == Returned
    case Read(i) =>
      CanRead(s, th, i) &&
      (match th.pc
       case Entry => true
       case DebugCheck => true
       case TryClaim => s.history[i].value != INIT
       case WaitLoad => true
       case WaitCas(k) => k < |TRANS| && s.history[i].value != TRANS[k].from
       case _ => false)
    case Rmw =>
      (match th.pc
       case TryClaim => Newest(s).value == INIT
       case WaitCas(k) => k < |TRANS| && Newest(s).value == TRANS[k].from
       case Publish => true
       case _ => false)
    case Sleep => th.pc.Delay? && Newest(s).value == th.pc.v
    case Resume => th.pc.Delay? || th.pc == Asleep
    case Invoke => th.pc == StartFn
    case FnWrite(_) => th.pc == InFn
    case FnEnd => th.pc == InFn
    case WakeAll => th.pc == Wake
  }

  /** Where SpinLockWait's caller goes with the value that SpinLockWait returned. */
  function AfterWait(v: nat): Pc {
    if v == INIT then StartFn else Returned
  }

  function AfterRead(s: State, th: Thread, m: Message, i: nat): Thread {
    match th.pc
    case Entry =>
      var next := if s.debug then DebugCheck else TryClaim;
      Thread(if m.value != DONE then next else Returned, i, th.view + m.view)
    case DebugCheck =>
      var known := m.value == INIT || m.value == RUNNING || m.value == WAITER || m.value == DONE;
      Thread(if known then TryClaim else Fatal, i, th.view)
    case WaitLoad =>
      var k := Lookup(m.value);
      var next :=
        if k == |TRANS| then Delay(m.value)
        else if TRANS[k].to != m.value then WaitCas(k)
        else if TRANS[k].done then AfterWait(m.value)
        else WaitLoad;
      Thread(next, i, th.view + m.view)
    case _ => Thread(WaitLoad, i, th.view)  // a failed compare-exchange
  }

  function AfterRmw(s: State, t: nat): State
    requires Enabled(s, t, Rmw)
  {
    var th, prev, n := s.threads[t], Newest(s), |s.history|;
    match th.pc
    case TryClaim =>
      s.(history := s.history + [Message(RUNNING, prev.view)],
         threads := s.threads[t := Thread(StartFn, n, th.view)],
         owner := t)
    case WaitCas(k) =>
      var tr := TRANS[k];
      var pc := if tr.done then AfterWait(tr.from) else WaitLoad;
      s.(history := s.history + [Message(tr.to, prev.view)],
         threads := s.threads[t := Thread(pc, n, th.view + prev.view)],
         owner := if pc == StartFn then t else s.owner)
    case Publish =>
      var pc := if prev.value == WAITER then Wake else Returned;
      s.(history := s.history + [Message(DONE, th.view + prev.view)],
         threads := s.threads[t := Thread(pc, n, th.view)])
  }

  function Woken(th: Thread): Thread {
    if th.pc == Asleep then th.(pc := WaitLoad) else th
  }

  function Apply(s: State, t: nat, a: Action): State
    requires Enabled(s, t, a)
  {
    var th := s.threads[t];
    match a
    case Call => s.(threads := s.threads[t := th.(pc := Entry)])
    case Read(i) => s.(threads := s.threads[t := AfterRead(s, th, s.history[i], i)])
    case Rmw => AfterRmw(s, t)
    case Sleep => s.(threads := s.threads[t := th.(pc := Asleep)])
    case Resume => s.(threads := s.threads[t := th.(pc := WaitLoad)])
    case Invoke => s.(threads := s.threads[t := th.(pc := InFn)], starts := s.starts + 1)
    case FnWrite(w) =>
      s.(threads := s.threads[t := th.(view := th.view + {w})], fnWrites := s.fnWrites + {w})
    case FnEnd => s.(threads := s.threads[t := th.(pc := Publish)], finishes := s.finishes + 1)
    case WakeAll =>
      var woken := seq(|s.threads|, i requires 0 <= i < |s.threads| => Woken(s.threads[i]));
      s.(threads := woken[t := th.(pc := Returned)])
  }

  datatype Event = Event(thread: nat, action: Action)

  predicate ValidRun(s: State, run: seq<Event>)
    decreases |run|
  {
    run == [] ||
    (Enabled(s, run[0].thread, run[0].action) &&
     ValidRun(Apply(s, run[0].thread, run[0].action), run[1..]))
  }

  function After(s: State, run: seq<Event>): State
    requires ValidRun(s, run)
    decreases |run|
  {
    if run == [] then s else After(Apply(s, run[0].thread, run[0].action), run[1..])
  }

  // ----- what every step keeps -----

  /** The word goes from INIT to RUNNING, perhaps to WAITER, and then to DONE. */
  ghost predicate Shape(h: seq<Message>) {
    && 1 <= |h| <= 4
    && h[0].value == INIT
    && (|h| >= 2 ==> h[1].value == RUNNING)
    && (|h| == 3 ==> h[2].value == WAITER || h[2].value == DONE)
    && (|h| == 4 ==> h[2].value == WAITER && h[3].value == DONE)
    && (forall i :: 0 <= i < |h| && h[i].value != DONE ==> h[i].view == {})
  }

  predicate OwnerPc(pc: Pc) {
    pc == StartFn || pc == InFn || pc == Publish || pc == Wake
  }

  /** What holds of every thread, whoever owns the word. */
  ghost predicate ThreadOk(s: State, t: nat)
    requires t < |s.threads| && s.history != []
  {
    var th, m := s.threads[t], Newest(s);
    && th.seen < |s.history|
    && (th.pc == Returned || th.pc == Wake ==> m.value == DONE && m.view <= th.view)
    && (th.pc == Asleep ==> m.value == WAITER || (m.value == DONE && WakeIsOwed(s)))
    && (th.pc.Delay? ==> th.pc.v == WAITER)
    && (th.pc.WaitCas? ==> th.pc.k < 2)
    && (OwnerPc(th.pc) ==> t == s.owner)
    && th.pc != Fatal
  }

  ghost predicate WakeIsOwed(s: State) {
    0 <= s.owner < |s.threads| && s.threads[s.owner].pc == Wake
  }

  /** How far the owner is, against the word. */
  ghost predicate OwnerOk(s: State)
    requires s.history != []
  {
    var v := Newest(s).value;
    if v == INIT then
      s.owner == -1 && s.starts == 0 && s.finishes == 0 && s.fnWrites == {}
    else
      0 <= s.owner < |s.threads| &&
      var o := s.threads[s.owner];
      if v == DONE then
        s.starts == 1 && s.finishes == 1 && s.fnWrites <= Newest(s).view &&
        o.pc != StartFn && o.pc != InFn && o.pc != Publish
      else
        (o.pc == StartFn || o.pc == InFn || o.pc == Publish) &&
        s.starts == (if o.pc == StartFn then 0 else 1) &&
        s.finishes == (if o.pc == Publish then 1 else 0) &&
        s.fnWrites <= o.view
  }

  ghost predicate Inv(s: State) {
    && Shape(s.history)
    && OwnerOk(s)
    && forall t :: 0 <= t < |s.threads| ==> ThreadOk(s, t)
  }

  lemma InitialInv(s: State)
    requires Initial(s)
    ensures Inv(s)
  {
  }

  lemma LookupTable()
    ensures Lookup(INIT) == 0 && Lookup(RUNNING) == 1 && Lookup(DONE) == 2 && Lookup(WAITER) == 3
  {
    assert Lookup(RUNNING, 1) == 1;
    assert Lookup(DONE, 2) == 2;
    assert Lookup(WAITER, 3) == 3;
    assert Lookup(WAITER, 2) == 3;
    assert Lookup(WAITER, 1) == 3;
    assert Lookup(DONE, 1) == 2;
  }

  /** Every message holds one of the four values, and DONE is the last. */
  lemma ValuesKnown(s: State, i: nat)
    requires Shape(s.history) && i < |s.history|
    ensures var v := s.history[i].value; v == INIT || v == RUNNING || v == WAITER || v == DONE
    ensures s.history[i].value == DONE ==> s.history[i] == Newest(s)
  {
  }

  /** A step that changes one thread, and neither the word nor who owns it, keeps the invariant if
      that thread is still in order and the owner is. */
  lemma OtherThreadsKeep(s: State, s': State, t: nat)
    requires Inv(s) && t < |s.threads|
    requires s'.history == s.history && s'.owner == s.owner
    requires |s'.threads| == |s.threads| && forall u :: 0 <= u < |s.threads| && u != t ==> s'.threads[u] == s.threads[u]
    requires OwnerOk(s') && ThreadOk(s', t)
    requires s.threads[t].pc == Wake ==> s'.threads[t].pc == Wake
    ensures Inv(s')
  {
    forall u | 0 <= u < |s'.threads|
      ensures ThreadOk(s', u)
    {
      assert ThreadOk(s, u);
    }
  }

  /** Where a read can lead: only DONE, read with acquire order, leads out. */
  lemma ReadLeadsTo(s: State, th: Thread, i: nat)
    requires Shape(s.history) && i < |s.history|
    ensures var r := AfterRead(s, th, s.history[i], i);
      && r.seen == i && !OwnerPc(r.pc) && r.pc != Asleep && r.pc != Fatal
      && (r.pc == Returned ==> Newest(s).value == DONE && Newest(s).view <= r.view)
      && (r.pc.Delay? ==> r.pc.v == WAITER)
      && (r.pc.WaitCas? ==> r.pc.k < 2)
  {
    LookupTable();
    ValuesKnown(s, i);
  }

  lemma ReadKeepsInv(s: State, t: nat, i: nat)
    requires Inv(s) && Enabled(s, t, Read(i))
    ensures Inv(Apply(s, t, Read(i)))
  {
    ReadLeadsTo(s, s.threads[t], i);
    assert ThreadOk(s, t);
    OtherThreadsKeep(s, Apply(s, t, Read(i)), t);
  }

  lemma RmwKeepsInv(s: State, t: nat)
    requires Inv(s) && Enabled(s, t, Rmw)
    ensures Inv(Apply(s, t, Rmw))
  {
    var s' := Apply(s, t, Rmw);
    assert ThreadOk(s, t);
    forall u | 0 <= u < |s'.threads|
      ensures ThreadOk(s', u)
    {
      assert ThreadOk(s, u);
    }
  }

  lemma WakeKeepsInv(s: State, t: nat)
    requires Inv(s) && Enabled(s, t, WakeAll)
    ensures Inv(Apply(s, t, WakeAll))
  {
    var s' := Apply(s, t, WakeAll);
    assert ThreadOk(s, t);
    forall u | 0 <= u < |s'.threads|
      ensures ThreadOk(s', u)
    {
      assert ThreadOk(s, u);
    }
  }

  /** The remaining steps change the program counter or the view of one thread. */
  lemma LocalKeepsInv(s: State, t: nat, a: Action)
    requires Inv(s) && Enabled(s, t, a)
    requires a.Call? || a.Sleep? || a.Resume? || a.Invoke? || a.FnWrite? || a.FnEnd?
    ensures Inv(Apply(s, t, a))
  {
    assert ThreadOk(s, t);
    OtherThreadsKeep(s, Apply(s, t, a), t);
  }

  lemma StepKeepsInv(s: State, t: nat, a: Action)
    requires Inv(s) && Enabled(s, t, a)
    ensures Inv(Apply(s, t, a))
  {
    match a {
      case Read(i) => ReadKeepsInv(s, t, i);
      case Rmw => RmwKeepsInv(s, t);
      case WakeAll => WakeKeepsInv(s, t);
      case _ => LocalKeepsInv(s, t, a);
    }
  }

  lemma {:induction false} RunKeepsInv(s: State, run: seq<Event>)
    requires Inv(s) && ValidRun(s, run)
    ensures Inv(After(s, run))
    decreases |run|
  {
    if run != [] {
      StepKeepsInv(s, run[0].thread, run[0].action);
      RunKeepsInv(Apply(s, run[0].thread, run[0].action), run[1..]);
    }
  }

  // ----- safety of every run -----

  /** `fn` is started at most once, and a call that has returned finds it started and finished,
      exactly once. */
  lemma OnceOnly(s: State, run: seq<Event>)
    requires Initial(s) && ValidRun(s, run)
    ensures var e := After(s, run);
      && e.finishes <= e.starts <= 1
      && forall t :: 0 <= t < |e.threads| && e.threads[t].pc == Returned ==> e.starts == 1 && e.finishes == 1
  {
    InitialInv(s);
    RunKeepsInv(s, run);
    var e := After(s, run);
    forall t | 0 <= t < |e.threads| && e.threads[t].pc == Returned
      ensures e.starts == 1 && e.finishes == 1
    {
      assert ThreadOk(e, t);
    }
  }

  /** Two threads are never in `fn`, or on their way into or out of it, at the same time. */
  lemma OneRunner(s: State, run: seq<Event>, t: nat, u: nat)
    requires Initial(s) && ValidRun(s, run)
    requires t < |After(s, run).threads| && u < |After(s, run).threads|
    requires OwnerPc(After(s, run).threads[t].pc) && OwnerPc(After(s, run).threads[u].pc)
    ensures t == u
  {
    InitialInv(s);
    RunKeepsInv(s, run);
    assert ThreadOk(After(s, run), t) && ThreadOk(After(s, run), u);
  }

  /** Everything that `fn` wrote, and everything its thread knew of when it finished, has happened
      before every return. */
  lemma ReturnSeesFn(s: State, run: seq<Event>, t: nat)
    requires Initial(s) && ValidRun(s, run)
    requires t < |After(s, run).threads| && After(s, run).threads[t].pc == Returned
    ensures var e := After(s, run);
      e.history != [] && Newest(e).value == DONE && e.fnWrites <= Newest(e).view <= e.threads[t].view
  {
    InitialInv(s);
    RunKeepsInv(s, run);
    assert ThreadOk(After(s, run), t);
  }

  /** The check of debug builds never fails, however stale the value it reads. */
  lemma NeverFatal(s: State, run: seq<Event>, t: nat)
    requires Initial(s) && ValidRun(s, run) && t < |After(s, run).threads|
    ensures After(s, run).threads[t].pc != Fatal
  {
    InitialInv(s);
    RunKeepsInv(s, run);
    assert ThreadOk(After(s, run), t);
  }

  /** And that is not for want of strictness: any other value would fail it. */
  lemma CheckIsStrict(s: State, t: nat, i: nat)
    requires Enabled(s, t, Read(i)) && s.threads[t].pc == DebugCheck
    ensures Apply(s, t, Read(i)).threads[t].pc == Fatal <==> s.history[i].value !in {INIT, RUNNING, WAITER, DONE}
  {
  }

  /** No wake-up is lost: while a thread sleeps, either the word still says that there is a waiter,
      or the owner has taken that word away and has yet to wake everyone. */
  lemma NoLostWakeup(s: State, run: seq<Event>, t: nat)
    requires Initial(s) && ValidRun(s, run)
    requires t < |After(s, run).threads| && After(s, run).threads[t].pc == Asleep
    ensures var e := After(s, run); e.history != [] && (Newest(e).value == WAITER || WakeIsOwed(e))
  {
    InitialInv(s);
    RunKeepsInv(s, run);
    assert ThreadOk(After(s, run), t);
  }

  // ----- every run can be completed -----

  predicate Busy(pc: Pc) {
    pc != Idle && pc != Returned
  }

  /** How far a thread is from returning, with `v` in the word. */
  function Rank(v: nat, pc: Pc): nat {
    match pc
    case Idle => 0
    case Returned => 0
    case Wake => 1
    case Publish => 2
    case InFn => 3
    case StartFn => 4
    case WaitCas(k) => if k < |TRANS| && TRANS[k].from == v then 5 else 7
    case WaitLoad => 6
    case Delay(_) => 7
    case Asleep => 8
    case TryClaim => 9
    case DebugCheck => 10
    case Entry => 11
    case Fatal => 0
  }

  function Total(v: nat, threads: seq<Thread>): nat {
    if threads == [] then 0 else Rank(v, threads[0].pc) + Total(v, threads[1..])
  }

  function Phase(s: State): nat
    requires s.history != []
  {
    if Newest(s).value == INIT then 2 else if Newest(s).value == DONE then 0 else 1
  }

  lemma {:induction false} TotalUpdate(v: nat, threads: seq<Thread>, t: nat, th: Thread)
    requires t < |threads|
    ensures Total(v, threads[t := th]) == Total(v, threads) - Rank(v, threads[t].pc) + Rank(v, th.pc)
  {
    if t == 0 {
      assert threads[t := th][1..] == threads[1..];
    } else {
      assert threads[t := th][1..] == threads[1..][t - 1 := th];
      TotalUpdate(v, threads[1..], t - 1, th);
    }
  }

  lemma {:induction false} TotalWoken(v: nat, threads: seq<Thread>, woken: seq<Thread>)
    requires |woken| == |threads| && forall i :: 0 <= i < |threads| ==> woken[i] == Woken(threads[i])
    ensures Total(v, woken) <= Total(v, threads)
  {
    if threads != [] {
      TotalWoken(v, threads[1..], woken[1..]);
    }
  }

  /** A sleep that ends by itself, without a wake, or a delay that is over although the word still holds
      the value to sleep on. */
  predicate EndsEarly(s: State, t: nat, a: Action)
    requires Enabled(s, t, a)
  {
    var pc := s.threads[t].pc;
    a.Resume? && (pc == Asleep || (pc.Delay? && Newest(s).value == pc.v))
  }

  /** In this run no delay ends early: whoever sleeps is woken, or sleeps on. */
  predicate SleepersAreWoken(s: State, run: seq<Event>)
    requires ValidRun(s, run)
    decreases |run|
  {
    run == [] ||
    (!EndsEarly(s, run[0].thread, run[0].action) &&
     SleepersAreWoken(Apply(s, run[0].thread, run[0].action), run[1..]))
  }

  /** The state after is nearer to the end: the word has moved on, or the threads have. */
  ghost predicate Nearer(s': State, s: State) {
    && s.history != [] && s'.history != []
    && (Phase(s') < Phase(s) ||
        (Phase(s') == Phase(s) && Total(Newest(s').value, s'.threads) < Total(Newest(s).value, s.threads)))
  }

  lemma ThreadNearer(s: State, s': State, t: nat)
    requires t < |s.threads| == |s'.threads| && s.history != [] && s'.history == s.history
    requires s'.threads == s.threads[t := s'.threads[t]]
    requires Rank(Newest(s).value, s'.threads[t].pc) < Rank(Newest(s).value, s.threads[t].pc)
    ensures Nearer(s', s)
  {
    TotalUpdate(Newest(s).value, s.threads, t, s'.threads[t]);
  }

  lemma OwnerProgress(s: State, t: nat) returns (a: Action)
    requires Inv(s) && t < |s.threads| && OwnerPc(s.threads[t].pc)
    ensures Enabled(s, t, a) && !a.Call? && !EndsEarly(s, t, a) && Nearer(Apply(s, t, a), s)
  {
    var th, v := s.threads[t], Newest(s).value;
    assert ThreadOk(s, t);
    match th.pc {
      case StartFn =>
        a := Invoke;
        ThreadNearer(s, Apply(s, t, a), t);
      case InFn =>
        a := FnEnd;
        ThreadNearer(s, Apply(s, t, a), t);
      case Publish =>
        a := Rmw;
      case Wake =>
        a := WakeAll;
        WakeNearer(s, t);
    }
  }

  lemma WakeNearer(s: State, t: nat)
    requires s.history != [] && Enabled(s, t, WakeAll)
    ensures Nearer(Apply(s, t, WakeAll), s)
  {
    var v := Newest(s).value;
    var woken := seq(|s.threads|, i requires 0 <= i < |s.threads| => Woken(s.threads[i]));
    TotalWoken(v, s.threads, woken);
    TotalUpdate(v, woken, t, s.threads[t].(pc := Returned));
  }

  /** A read of the newest message takes a thread on when the word is INIT or DONE. */
  lemma FreshReadRanks(s: State, th: Thread)
    requires Shape(s.history) && (Newest(s).value == INIT || Newest(s).value == DONE)
    requires th.pc == Entry || th.pc == DebugCheck || th.pc == WaitLoad
          || (th.pc == TryClaim && Newest(s).value == DONE)
          || (th.pc.WaitCas? && th.pc.k < 2 && Newest(s).value != TRANS[th.pc.k].from)
    ensures var v := Newest(s).value;
            Rank(v, AfterRead(s, th, Newest(s), |s.history| - 1).pc) < Rank(v, th.pc)
  {
    LookupTable();
  }

  predicate CanSwap(v: nat, pc: Pc) {
    (pc == TryClaim && v == INIT) || (pc.WaitCas? && pc.k < |TRANS| && v == TRANS[pc.k].from)
  }

  lemma SwapProgress(s: State, t: nat)
    requires Inv(s) && t < |s.threads| && CanSwap(Newest(s).value, s.threads[t].pc)
    requires Newest(s).value == INIT || Newest(s).value == DONE
    ensures Enabled(s, t, Rmw) && Nearer(Apply(s, t, Rmw), s)
  {
    assert ThreadOk(s, t);
  }

  lemma DelayProgress(s: State, t: nat)
    requires Inv(s) && t < |s.threads| && s.threads[t].pc.Delay? && Newest(s).value != WAITER
    ensures Enabled(s, t, Resume) && !EndsEarly(s, t, Resume) && Nearer(Apply(s, t, Resume), s)
  {
    assert ThreadOk(s, t);
    ThreadNearer(s, Apply(s, t, Resume), t);
  }

  lemma ReadProgress(s: State, t: nat, i: nat)
    requires Inv(s) && t < |s.threads| && i == |s.history| - 1 && Enabled(s, t, Read(i))
    requires Newest(s).value == INIT || Newest(s).value == DONE
    ensures Nearer(Apply(s, t, Read(i)), s)
  {
    assert ThreadOk(s, t);
    FreshReadRanks(s, s.threads[t]);
    ThreadNearer(s, Apply(s, t, Read(i)), t);
  }

  /** With nobody in charge of the word, any busy thread can move on by reading what is newest. */
  lemma OthersProgress(s: State, t: nat) returns (a: Action)
    requires Inv(s) && t < |s.threads| && Busy(s.threads[t].pc) && !OwnerPc(s.threads[t].pc)
    requires Newest(s).value == INIT || (Newest(s).value == DONE && !WakeIsOwed(s))
    ensures Enabled(s, t, a) && !a.Call? && !EndsEarly(s, t, a) && Nearer(Apply(s, t, a), s)
  {
    assert ThreadOk(s, t);
    var pc := s.threads[t].pc;
    if CanSwap(Newest(s).value, pc) {
      a := Rmw;
      SwapProgress(s, t);
    } else if pc.Delay? {
      a := Resume;
      DelayProgress(s, t);
    } else {
      a := Read(|s.history| - 1);
      ReadProgress(s, t, |s.history| - 1);
    }
  }

  lemma Progress(s: State) returns (t: nat, a: Action)
    requires Inv(s)
    requires exists u :: 0 <= u < |s.threads| && Busy(s.threads[u].pc)
    ensures Enabled(s, t, a) && !a.Call? && !EndsEarly(s, t, a) && Nearer(Apply(s, t, a), s)
  {
    var u :| 0 <= u < |s.threads| && Busy(s.threads[u].pc);
    assert ThreadOk(s, u);
    if 0 <= s.owner < |s.threads| && OwnerPc(s.threads[s.owner].pc) {
      t := s.owner;
      a := OwnerProgress(s, t);
    } else {
      t := u;
      a := OthersProgress(s, t);
    }
  }

  ghost predicate AllReturned(s: State, s': State) {
    |s'.threads| == |s.threads| &&
    forall t :: 0 <= t < |s.threads| ==> s'.threads[t].pc == if s.threads[t].pc == Idle then Idle else Returned
  }

  /** From every state in order there is a schedule in which every call returns, and every sleeper is
      woken by the owner: none needs its delay to end early. */
  lemma {:induction false} CanFinish(s: State) returns (run: seq<Event>)
    requires Inv(s)
    ensures ValidRun(s, run) && SleepersAreWoken(s, run) && AllReturned(s, After(s, run))
    decreases Phase(s), Total(Newest(s).value, s.threads)
  {
    if exists u :: 0 <= u < |s.threads| && Busy(s.threads[u].pc) {
      var t, a := Progress(s);
      var s' := Apply(s, t, a);
      StepKeepsInv(s, t, a);
      IdleStays(s, t, a);
      var rest := CanFinish(s');
      run := [Event(t, a)] + rest;
      assert run[1..] == rest;
    } else {
      run := [];
    }
  }

  lemma IdleStays(s: State, t: nat, a: Action)
    requires Enabled(s, t, a) && !a.Call?
    ensures |Apply(s, t, a).threads| == |s.threads|
    ensures forall u :: 0 <= u < |s.threads| ==> (Apply(s, t, a).threads[u].pc == Idle <==> s.threads[u].pc == Idle)
  {
  }

  lemma {:induction false} RunsCompose(s: State, a: seq<Event>, b: seq<Event>)
    requires ValidRun(s, a) && ValidRun(After(s, a), b)
    ensures ValidRun(s, a + b) && After(s, a + b) == After(After(s, a), b)
    decreases |a|
  {
    if a == [] {
      assert a + b == b;
    } else {
      assert (a + b)[1..] == a[1..] + b;
      RunsCompose(Apply(s, a[0].thread, a[0].action), a[1..], b);
    }
  }

  /** Whatever has happened so far, the run can be continued until every call has returned, without
      any delay ending early: there is no deadlock, and no sleeper that nobody will wake. */
  lemma NeverStuck(s: State, run: seq<Event>) returns (rest: seq<Event>)
    requires Initial(s) && ValidRun(s, run)
    ensures ValidRun(After(s, run), rest) && SleepersAreWoken(After(s, run), rest)
    ensures ValidRun(s, run + rest) && AllReturned(After(s, run), After(s, run + rest))
  {
    InitialInv(s);
    RunKeepsInv(s, run);
    rest := CanFinish(After(s, run));
    RunsCompose(s, run, rest);
  }

  // ----- what the events of a run amount to -----

  lemma OneMore(s: State, run: seq<Event>, t: nat, a: Action)
    requires ValidRun(s, run) && Enabled(After(s, run), t, a)
    ensures ValidRun(s, run + [Event(t, a)]) && After(s, run + [Event(t, a)]) == Apply(After(s, run), t, a)
  {
    RunsCompose(s, run, [Event(t, a)]);
  }

  /** Threads neither come nor go, and one that has called is never idle again. */
  lemma StepKeepsCaller(s: State, t: nat, a: Action, u: nat)
    requires Enabled(s, t, a) && u < |s.threads|
    ensures |Apply(s, t, a).threads| == |s.threads|
    ensures s.threads[u].pc != Idle || (a.Call? && u == t) ==> Apply(s, t, a).threads[u].pc != Idle
  {
  }

  lemma {:induction false} RunKeepsCaller(s: State, run: seq<Event>, u: nat)
    requires ValidRun(s, run) && u < |s.threads|
    ensures |After(s, run).threads| == |s.threads|
    ensures s.threads[u].pc != Idle ==> After(s, run).threads[u].pc != Idle
    decreases |run|
  {
    if run != [] {
      StepKeepsCaller(s, run[0].thread, run[0].action, u);
      RunKeepsCaller(Apply(s, run[0].thread, run[0].action), run[1..], u);
    }
  }

  lemma {:induction false} CallerIsNotIdle(s: State, run: seq<Event>, k: nat)
    requires ValidRun(s, run) && k < |run| && run[k].action.Call?
    ensures run[k].thread < |s.threads| == |After(s, run).threads|
    ensures After(s, run).threads[run[k].thread].pc != Idle
    decreases |run|
  {
    var t, a := run[0].thread, run[0].action;
    StepKeepsCaller(s, t, a, t);
    if k == 0 {
      RunKeepsCaller(Apply(s, t, a), run[1..], t);
    } else {
      CallerIsNotIdle(Apply(s, t, a), run[1..], k - 1);
    }
  }

  /** Whatever else has happened, every call that was made can return, and then `fn` has been started
      and has finished exactly once. */
  lemma EveryCallReturns(s: State, run: seq<Event>, k: nat) returns (rest: seq<Event>)
    requires Initial(s) && ValidRun(s, run) && k < |run| && run[k].action.Call?
    ensures ValidRun(After(s, run), rest) && SleepersAreWoken(After(s, run), rest) && ValidRun(s, run + rest)
    ensures var e := After(s, run + rest);
      && run[k].thread < |e.threads| && e.threads[run[k].thread].pc == Returned
      && e.starts == 1 && e.finishes == 1
  {
    rest := NeverStuck(s, run);
    CallerIsNotIdle(s, run, k);
    OnceOnly(s, run + rest);
  }

  /** Whoever is not in a call may call, and then can return from it, `fn` having run exactly once. */
  lemma CallReturns(s: State, run: seq<Event>, t: nat) returns (rest: seq<Event>)
    requires Initial(s) && ValidRun(s, run) && t < |After(s, run).threads| && !Busy(After(s, run).threads[t].pc)
    ensures ValidRun(s, run + [Event(t, Call)] + rest)
    ensures var e := After(s, run + [Event(t, Call)] + rest);
      t < |e.threads| && e.threads[t].pc == Returned && e.starts == 1 && e.finishes == 1
  {
    InitialInv(s);
    RunKeepsInv(s, run);
    OneMore(s, run, t, Call);
    rest := EveryCallReturns(s, run + [Event(t, Call)], |run|);
  }

  lemma {:induction false} CountsGrow(s: State, run: seq<Event>)
    requires ValidRun(s, run)
    ensures After(s, run).starts >= s.starts && s.fnWrites <= After(s, run).fnWrites
    ensures After(s, run).finishes > s.finishes ==> exists k :: 0 <= k < |run| && run[k].action == FnEnd
    decreases |run|
  {
    if run != [] {
      var t, a := run[0].thread, run[0].action;
      CountsGrow(Apply(s, t, a), run[1..]);
      if a != FnEnd && After(s, run).finishes > s.finishes {
        var k :| 0 <= k < |run[1..]| && run[1..][k].action == FnEnd;
        assert run[k + 1].action == FnEnd;
      }
    }
  }

  lemma {:induction false} InvokesCount(s: State, run: seq<Event>, j: nat, k: nat)
    requires ValidRun(s, run) && j <= k < |run| && run[j].action == run[k].action == Invoke
    ensures After(s, run).starts >= s.starts + if j < k then 2 else 1
    decreases |run|
  {
    var s' := Apply(s, run[0].thread, run[0].action);
    if j > 0 {
      InvokesCount(s', run[1..], j - 1, k - 1);
    } else if k > 0 {
      InvokesCount(s', run[1..], k - 1, k - 1);
    } else {
      CountsGrow(s', run[1..]);
    }
  }

  /** No run starts `fn` twice, and no call has returned in a run that has not ended `fn`. */
  lemma FnRunsOnce(s: State, run: seq<Event>)
    requires Initial(s) && ValidRun(s, run)
    ensures forall j, k :: 0 <= j <= k < |run| && run[j].action == run[k].action == Invoke ==> j == k
    ensures forall t :: 0 <= t < |After(s, run).threads| && After(s, run).threads[t].pc == Returned ==>
      exists k :: 0 <= k < |run| && run[k].action == FnEnd
  {
    OnceOnly(s, run);
    CountsGrow(s, run);
    forall j, k | 0 <= j <= k < |run| && run[j].action == run[k].action == Invoke
      ensures j == k
    {
      InvokesCount(s, run, j, k);
    }
  }

  lemma {:induction false} WritesAreKept(s: State, run: seq<Event>, k: nat)
    requires ValidRun(s, run) && k < |run| && run[k].action.FnWrite?
    ensures run[k].action.w in After(s, run).fnWrites
    decreases |run|
  {
    var s' := Apply(s, run[0].thread, run[0].action);
    if k == 0 {
      CountsGrow(s', run[1..]);
    } else {
      WritesAreKept(s', run[1..], k - 1);
    }
  }

  /** Every write that `fn` made anywhere in a run has happened before every return. */
  lemma ReturnSeesEveryWrite(s: State, run: seq<Event>, k: nat, t: nat)
    requires Initial(s) && ValidRun(s, run) && k < |run| && run[k].action.FnWrite?
    requires t < |After(s, run).threads| && After(s, run).threads[t].pc == Returned
    ensures run[k].action.w in After(s, run).threads[t].view
  {
    WritesAreKept(s, run, k);
    ReturnSeesFn(s, run, t);
  }

  // ----- sleeping -----

  /** What ends the sleep of thread `t`. */
  predicate EndsSleep(e: Event, t: nat) {
    e.action.WakeAll? || e == Event(t, Resume)
  }

  lemma {:induction false} StaysAsleep(s: State, run: seq<Event>, t: nat)
    requires ValidRun(s, run) && t < |s.threads| && s.threads[t].pc == Asleep
    requires forall k :: 0 <= k < |run| ==> !EndsSleep(run[k], t)
    ensures |After(s, run).threads| == |s.threads| && After(s, run).threads[t].pc == Asleep
    decreases |run|
  {
    if run != [] {
      assert !EndsSleep(run[0], t);
      StaysAsleep(Apply(s, run[0].thread, run[0].action), run[1..], t);
    }
  }

  /** A thread that goes to sleep is asleep until there is a wake, or its sleep ends by itself. */
  lemma {:induction false} SleepsUntilWoken(s: State, run: seq<Event>, j: nat)
    requires ValidRun(s, run) && j < |run| && run[j].action == Sleep
    requires forall k :: j < k < |run| ==> !EndsSleep(run[k], run[j].thread)
    ensures run[j].thread < |After(s, run).threads| && After(s, run).threads[run[j].thread].pc == Asleep
    decreases |run|
  {
    var s' := Apply(s, run[0].thread, run[0].action);
    if j == 0 {
      StaysAsleep(s', run[1..], run[0].thread);
    } else {
      SleepsUntilWoken(s', run[1..], j - 1);
    }
  }

  // ----- what can happen -----

  /** Idle threads have seen no message but the first. */
  predicate IdleUnseen(s: State) {
    forall t :: 0 <= t < |s.threads| && s.threads[t].pc == Idle ==> s.threads[t].seen == 0
  }

  lemma StepKeepsUnseen(s: State, t: nat, a: Action)
    requires Enabled(s, t, a) && IdleUnseen(s)
    ensures IdleUnseen(Apply(s, t, a))
  {
  }

  lemma {:induction false} RunKeepsUnseen(s: State, run: seq<Event>)
    requires ValidRun(s, run) && IdleUnseen(s)
    ensures IdleUnseen(After(s, run))
    decreases |run|
  {
    if run != [] {
      StepKeepsUnseen(s, run[0].thread, run[0].action);
      RunKeepsUnseen(Apply(s, run[0].thread, run[0].action), run[1..]);
    }
  }

  /** A load may be stale without bound: the first load of a call can see any message there has ever
      been. */
  lemma LoadsMayBeStale(s: State, run: seq<Event>, t: nat, i: nat)
    requires Initial(s) && ValidRun(s, run)
    requires t < |After(s, run).threads| && After(s, run).threads[t].pc == Idle && i < |After(s, run).history|
    ensures ValidRun(s, run + [Event(t, Call)] + [Event(t, Read(i))])
  {
    RunKeepsUnseen(s, run);
    OneMore(s, run, t, Call);
    OneMore(s, run + [Event(t, Call)], t, Read(i));
  }

  /** A call on a word that is still INIT claims it. */
  lemma Claims(s: State, t: nat) returns (run: seq<Event>)
    requires Initial(s) && t < |s.threads|
    ensures ValidRun(s, run) && After(s, run).history == s.history + [Message(RUNNING, {})]
    ensures After(s, run).threads == s.threads[t := Thread(StartFn, 1, s.threads[t].view)] && After(s, run).debug == s.debug
  {
    run := [];
    OneMore(s, run, t, Call);
    run := run + [Event(t, Call)];
    OneMore(s, run, t, Read(0));
    run := run + [Event(t, Read(0))];
    if s.debug {
      OneMore(s, run, t, Read(0));
      run := run + [Event(t, Read(0))];
    }
    assert After(s, run).threads[t] == Thread(TryClaim, 0, s.threads[t].view);
    OneMore(s, run, t, Rmw);
    run := run + [Event(t, Rmw)];
  }

  /** A call that finds the word claimed comes to wait for it. */
  lemma Waits(s: State, t: nat, u: nat) returns (run: seq<Event>)
    requires Initial(s) && t < |s.threads| && u < |s.threads| && t != u
    ensures ValidRun(s, run) && After(s, run).history == s.history + [Message(RUNNING, {})]
    ensures |After(s, run).threads| == |s.threads|
    ensures After(s, run).threads[t].pc == StartFn
    ensures After(s, run).threads[u] == Thread(WaitLoad, 1, s.threads[u].view)
  {
    run := Claims(s, t);
    OneMore(s, run, u, Call);
    run := run + [Event(u, Call)];
    OneMore(s, run, u, Read(1));
    run := run + [Event(u, Read(1))];
    if s.debug {
      OneMore(s, run, u, Read(1));
      run := run + [Event(u, Read(1))];
    }
    assert After(s, run).threads[u] == Thread(TryClaim, 1, s.threads[u].view);
    OneMore(s, run, u, Read(1));
    run := run + [Event(u, Read(1))];
  }

  /** There it says that it waits, and goes to sleep. */
  lemma WaiterSleeps(s: State, t: nat, u: nat) returns (run: seq<Event>)
    requires Initial(s) && t < |s.threads| && u < |s.threads| && t != u
    ensures ValidRun(s, run) && |After(s, run).threads| == |s.threads|
    ensures After(s, run).threads[u].pc == Asleep && After(s, run).threads[t].pc == StartFn
  {
    run := Waits(s, t, u);
    LookupTable();
    OneMore(s, run, u, Read(1));
    run := run + [Event(u, Read(1))];
    assert After(s, run).threads[u].pc == WaitCas(1);
    OneMore(s, run, u, Rmw);
    run := run + [Event(u, Rmw)];
    assert After(s, run).threads[u].pc == WaitLoad;
    OneMore(s, run, u, Read(2));
    run := run + [Event(u, Read(2))];
    assert After(s, run).threads[u].pc == Delay(WAITER);
    OneMore(s, run, u, Sleep);
    run := run + [Event(u, Sleep)];
  }

  /** `fn` may write anything anywhere in its run. */
  lemma FnMayWrite(s: State, t: nat, w: nat) returns (run: seq<Event>)
    requires Initial(s) && t < |s.threads|
    ensures ValidRun(s, run + [Event(t, FnWrite(w))])
  {
    run := Claims(s, t);
    OneMore(s, run, t, Invoke);
    run := run + [Event(t, Invoke)];
    OneMore(s, run, t, FnWrite(w));
  }
}
