/** The bounded-worker server as a protocol: one acceptor, N workers and a racing
    `stop` take atomic steps in any order. */
module Server {
  import opened Wrappers

  /** Accepted connections are numbered in the order of their acceptance. */
  type Conn = nat

  /** Where the acceptor thread is in `_accept`. */
  datatype Acceptor =
    | Checking                        // at the loop test
    | Accepting                       // in accept()
    | Configuring(conn: Conn)         // accepted, before settimeout()
    | Offering(conn: Conn)            // before put_nowait()
    | Rejecting(conn: Conn)           // queue.Full raised, before close()
    | Ended(dropped: Option<Conn>)    // thread over; a failed settimeout() drops its connection

  /** Where a worker thread is in `_worker`. */
  datatype Worker =
    | Looking                         // at the loop test
    | Polling                         // in queue.get()
    | Taken(conn: Conn)               // before entering the active set
    | Serving(conn: Conn)             // in the handler
    | Served(conn: Conn)              // `with client` has closed it
    | Finishing(conn: Conn)           // off the active set, before task_done()
    | Gone

  /** Where the caller of `stop` is. */
  datatype Stopper =
    | Running                         // stop() not called yet
    | Signalled                       // the stopping event is set
    | Closing(rest: set<Conn>)        // holding the lock, closing the active connections
    | Draining                        // in the get_nowait() loop
    | Drained(conn: Conn)             // got one, before close()
    | Settling(conn: Conn)            // closed it, before task_done()
    | Joining                         // the queue was found empty

  datatype State = State(
    accepted: nat,
    closed: set<Conn>,
    queue: seq<Conn>,
    unfinished: int,
    active: set<Conn>,
    stopping: bool,
    acceptor: Acceptor,
    workers: seq<Worker>,
    stopper: Stopper)
  {
    /** `max(4, workers * 4)`. */
    function Capacity(): nat { Max(4, 4 * |workers|) }

    /** `_active_lock` is held across several steps only by `stop`. */
    predicate LockFree() { !stopper.Closing? }
  }

  predicate Init(s: State) {
    && s.accepted == 0 && s.closed == {} && s.queue == [] && s.unfinished == 0 && s.active == {}
    && !s.stopping && s.acceptor == Checking && s.stopper == Running
    && forall w :: 0 <= w < |s.workers| ==> s.workers[w] == Looking
  }

  ghost predicate AcceptorStep(s: State, t: State) {
    match s.acceptor
    case Checking => t == s.(acceptor := if s.stopping then Ended(None) else Accepting)
    case Accepting =>
      || t == s.(acceptor := Checking)
      || t == s.(acceptor := Ended(None))
      || t == s.(accepted := s.accepted + 1, acceptor := Configuring(s.accepted))
    case Configuring(c) => t == s.(acceptor := Offering(c)) || t == s.(acceptor := Ended(Some(c)))
    case Offering(c) =>
      if |s.queue| < s.Capacity() then
        t == s.(queue := s.queue + [c], unfinished := s.unfinished + 1, acceptor := Checking)
      else t == s.(acceptor := Rejecting(c))
    case Rejecting(c) =>
      || t == s.(closed := s.closed + {c}, acceptor := Checking)
      || t == s.(closed := s.closed + {c}, acceptor := Ended(None))
    case Ended(_) => false
  }

  ghost predicate WorkerStep(s: State, w: nat, t: State)
    requires w < |s.workers|
  {
    match s.workers[w]
    case Looking => t == s.(workers := s.workers[w := if s.stopping then Gone else Polling])
    case Polling =>
      || t == s.(workers := s.workers[w := Looking])
      || (s.queue != [] && t == s.(queue := s.queue[1..], workers := s.workers[w := Taken(s.queue[0])]))
    case Taken(c) => s.LockFree() && t == s.(active := s.active + {c}, workers := s.workers[w := Serving(c)])
    case Serving(c) => t == s.(closed := s.closed + {c}, workers := s.workers[w := Served(c)])
    case Served(c) => s.LockFree() && t == s.(active := s.active - {c}, workers := s.workers[w := Finishing(c)])
    case Finishing(c) => t == s.(unfinished := s.unfinished - 1, workers := s.workers[w := Looking])
    case Gone => false
  }

  ghost predicate StopStep(s: State, t: State) {
    match s.stopper
    case Running => t == s.(stopping := true, stopper := Signalled)
    case Signalled => t == s.(stopper := Closing(s.active))
    case Closing(rest) =>
      if rest == {} then t == s.(stopper := Draining)
      else exists c :: c in rest && t == s.(closed := s.closed + {c}, stopper := Closing(rest - {c}))
    case Draining =>
      if s.queue == [] then t == s.(stopper := Joining)
      else t == s.(queue := s.queue[1..], stopper := Drained(s.queue[0]))
    case Drained(c) => t == s.(closed := s.closed + {c}, stopper := Settling(c))
    case Settling(c) => t == s.(unfinished := s.unfinished - 1, stopper := Draining)
    case Joining => false
  }

  ghost predicate Next(s: State, t: State) {
    || AcceptorStep(s, t)
    || StopStep(s, t)
    || exists w :: 0 <= w < |s.workers| && WorkerStep(s, w, t)
  }

  // ---------------------------------------------------------------------
  // Who holds what
  // ---------------------------------------------------------------------

  /** How often a connection is in the acceptor's, a worker's or the stopper's hands. */
  function AtAcceptor(a: Acceptor, c: Conn): nat {
    One((a.Configuring? || a.Offering? || a.Rejecting?) && a.conn == c)
  }

  predicate Dropped(a: Acceptor, c: Conn) { a.Ended? && a.dropped == Some(c) }

  predicate IsActive(w: Worker) { w.Serving? || w.Served? }

  predicate IsPassive(w: Worker) { w.Taken? || w.Finishing? }

  function AtStopper(p: Stopper, c: Conn): nat { One((p.Drained? || p.Settling?) && p.conn == c) }

  function InQueue(queue: seq<Conn>, c: Conn): nat {
    if queue == [] then 0 else One(queue[0] == c) + InQueue(queue[1..], c)
  }

  function ActiveWorkers(workers: seq<Worker>, c: Conn): nat {
    if workers == [] then 0
    else One(IsActive(workers[0]) && workers[0].conn == c) + ActiveWorkers(workers[1..], c)
  }

  function PassiveWorkers(workers: seq<Worker>, c: Conn): nat {
    if workers == [] then 0
    else One(IsPassive(workers[0]) && workers[0].conn == c) + PassiveWorkers(workers[1..], c)
  }

  function Busy(workers: seq<Worker>): nat {
    if workers == [] then 0 else One(IsActive(workers[0]) || IsPassive(workers[0])) + Busy(workers[1..])
  }

  /** How many hold a connection: acceptor, queue, workers, `stop`, or nobody any
      more because the acceptor dropped it. */
  function Holders(s: State, c: Conn): nat {
    AtAcceptor(s.acceptor, c) + InQueue(s.queue, c) + ActiveWorkers(s.workers, c) + PassiveWorkers(s.workers, c)
    + AtStopper(s.stopper, c) + One(Dropped(s.acceptor, c))
  }

  /** The unfinished tasks of the queue: those waiting and those taken out. */
  function Pending(s: State): nat {
    |s.queue| + Busy(s.workers) + One(s.stopper.Drained? || s.stopper.Settling?)
  }

  /** What the queue can still come to hold once it has been drained. */
  function Late(s: State): nat {
    |s.queue| + One(s.acceptor.Ended? && s.acceptor.dropped.Some?)
    + One(s.acceptor.Accepting? || s.acceptor.Configuring? || s.acceptor.Offering?)
  }

  /** A connection has at most one holder; an accepted one without a holder is
      closed; and it is in the active set just while a worker serves it. */
  ghost predicate Owned(s: State, c: Conn) {
    && Holders(s, c) <= 1
    && (Holders(s, c) > 0 ==> c < s.accepted)
    && (c < s.accepted && Holders(s, c) == 0 ==> c in s.closed)
    && (c in s.active <==> ActiveWorkers(s.workers, c) > 0)
  }

  ghost predicate Counted(s: State) {
    && |s.queue| <= s.Capacity()
    && s.unfinished == Pending(s)
    && (!s.stopper.Running? ==> s.stopping)
    && (s.stopper.Joining? ==> Late(s) <= 1)
  }

  /** Whoever is about to settle a task has closed its connection; and while `stop` has
      the lock, what is active is closed or still to be closed by it. */
  ghost predicate ClosedFirst(s: State) {
    && (forall w :: 0 <= w < |s.workers| && (s.workers[w].Served? || s.workers[w].Finishing?)
                    ==> s.workers[w].conn in s.closed)
    && (s.stopper.Settling? ==> s.stopper.conn in s.closed)
    && (s.stopper.Closing? ==> s.active <= s.closed + s.stopper.rest)
  }

  ghost predicate Inv(s: State) { Counted(s) && ClosedFirst(s) && forall c :: Owned(s, c) }

  lemma {:induction false} ChangeWorker(workers: seq<Worker>, w: nat, to: Worker, c: Conn)
    requires w < |workers|
    ensures var from := workers[w];
            && ActiveWorkers(workers[w := to], c) + One(IsActive(from) && from.conn == c)
               == ActiveWorkers(workers, c) + One(IsActive(to) && to.conn == c)
            && PassiveWorkers(workers[w := to], c) + One(IsPassive(from) && from.conn == c)
               == PassiveWorkers(workers, c) + One(IsPassive(to) && to.conn == c)
            && Busy(workers[w := to]) + One(IsActive(from) || IsPassive(from))
               == Busy(workers) + One(IsActive(to) || IsPassive(to))
  {
    if w > 0 {
      ChangeWorker(workers[1..], w - 1, to, c);
      assert workers[w := to][0] == workers[0] && workers[w := to][1..] == workers[1..][w - 1 := to];
    } else {
      assert workers[w := to][1..] == workers[1..];
    }
  }

  lemma {:induction false} HandsOf(workers: seq<Worker>, w: nat)
    requires w < |workers|
    ensures IsActive(workers[w]) ==> ActiveWorkers(workers, workers[w].conn) > 0
    ensures IsPassive(workers[w]) ==> PassiveWorkers(workers, workers[w].conn) > 0
    ensures IsActive(workers[w]) || IsPassive(workers[w]) ==> Busy(workers) > 0
  {
    if w > 0 {
      assert workers[w] == workers[1..][w - 1];
      HandsOf(workers[1..], w - 1);
    }
  }

  lemma {:induction false} Append(queue: seq<Conn>, x: Conn, c: Conn)
    ensures InQueue(queue + [x], c) == InQueue(queue, c) + One(x == c)
  {
    if queue == [] {
      assert [x][1..] == [];
    } else {
      Append(queue[1..], x, c);
      assert (queue + [x])[0] == queue[0] && (queue + [x])[1..] == queue[1..] + [x];
    }
  }

  lemma {:induction false} IdleWorkers(workers: seq<Worker>, c: Conn)
    requires forall w :: 0 <= w < |workers| ==> workers[w] == Looking || workers[w] == Gone
    ensures ActiveWorkers(workers, c) == PassiveWorkers(workers, c) == Busy(workers) == 0
  {
    if workers != [] { IdleWorkers(workers[1..], c); }
  }

  lemma InitInv(s: State)
    requires Init(s)
    ensures Inv(s)
  {
    forall c ensures Owned(s, c) { IdleWorkers(s.workers, c); }
    IdleWorkers(s.workers, 0);
  }

  lemma AcceptorKeepsOwned(s: State, t: State, c: Conn)
    requires Owned(s, c) && AcceptorStep(s, t)
    ensures Owned(t, c)
  {
    hide ActiveWorkers, PassiveWorkers, InQueue;
    if s.acceptor.Offering? { Append(s.queue, s.acceptor.conn, c); }
  }

  lemma StopKeepsOwned(s: State, t: State, c: Conn)
    requires Owned(s, c) && ClosedFirst(s) && StopStep(s, t)
    ensures Owned(t, c)
  {
    hide ActiveWorkers, PassiveWorkers;
  }

  lemma WorkerKeepsOwned(s: State, w: nat, t: State, c: Conn)
    requires w < |s.workers| && Owned(s, c) && ClosedFirst(s) && WorkerStep(s, w, t)
    ensures Owned(t, c)
  {
    hide ActiveWorkers, PassiveWorkers;
    ChangeWorker(s.workers, w, t.workers[w], c);
    HandsOf(s.workers, w);
  }

  lemma OthersKeepCounted(s: State, t: State)
    requires Counted(s) && (AcceptorStep(s, t) || StopStep(s, t))
    ensures Counted(t)
  {
    hide Busy;
  }

  lemma WorkerKeepsCounted(s: State, w: nat, t: State)
    requires w < |s.workers| && Counted(s) && WorkerStep(s, w, t)
    ensures Counted(t)
  {
    hide Busy;
    ChangeWorker(s.workers, w, t.workers[w], 0);
  }

  lemma NextKeepsClosedFirst(s: State, t: State)
    requires ClosedFirst(s) && Next(s, t)
    ensures ClosedFirst(t)
  {
    hide AcceptorStep, StopStep, WorkerStep, ClosedFirst;
    if AcceptorStep(s, t) {
      AcceptorKeepsClosedFirst(s, t);
    } else if StopStep(s, t) {
      StopKeepsClosedFirst(s, t);
    } else {
      var w :| 0 <= w < |s.workers| && WorkerStep(s, w, t);
      WorkerKeepsClosedFirst(s, w, t);
    }
  }

  lemma AcceptorKeepsClosedFirst(s: State, t: State)
    requires ClosedFirst(s) && AcceptorStep(s, t)
    ensures ClosedFirst(t)
  {
  }

  lemma StopKeepsClosedFirst(s: State, t: State)
    requires ClosedFirst(s) && StopStep(s, t)
    ensures ClosedFirst(t)
  {
  }

  lemma WorkerKeepsClosedFirst(s: State, w: nat, t: State)
    requires w < |s.workers| && ClosedFirst(s) && WorkerStep(s, w, t)
    ensures ClosedFirst(t)
  {
  }

  lemma NextKeepsInv(s: State, t: State)
    requires Inv(s) && Next(s, t)
    ensures Inv(t)
  {
    hide Owned, Counted, ClosedFirst, AcceptorStep, StopStep, WorkerStep;
    NextKeepsClosedFirst(s, t);
    if AcceptorStep(s, t) || StopStep(s, t) {
      OthersKeepCounted(s, t);
      forall c ensures Owned(t, c) {
        assert Owned(s, c);
        if AcceptorStep(s, t) { AcceptorKeepsOwned(s, t, c); } else { StopKeepsOwned(s, t, c); }
      }
    } else {
      var w :| 0 <= w < |s.workers| && WorkerStep(s, w, t);
      WorkerKeepsCounted(s, w, t);
      forall c ensures Owned(t, c) {
        assert Owned(s, c);
        WorkerKeepsOwned(s, w, t, c);
      }
    }
  }

  // ---------------------------------------------------------------------
  // Whole runs
  // ---------------------------------------------------------------------

  ghost predicate IsRun(states: seq<State>) {
    && states != [] && Init(states[0])
    && forall i :: 0 <= i < |states| - 1 ==> Next(states[i], states[i + 1])
  }

  lemma {:induction false} RunInv(states: seq<State>, i: nat)
    requires IsRun(states) && i < |states|
    ensures Inv(states[i])
  {
    hide Inv, Next, Init;
    if i == 0 {
      InitInv(states[0]);
    } else {
      RunInv(states, i - 1);
      NextKeepsInv(states[i - 1], states[i - 1 + 1]);
    }
  }

  lemma {:induction false} QueueMember(queue: seq<Conn>, c: Conn)
    ensures InQueue(queue, c) > 0 <==> c in queue
  {
    if queue != [] {
      QueueMember(queue[1..], c);
      assert queue == [queue[0]] + queue[1..];
    }
  }

  /** Ownership over every interleaving: at every point of every run an accepted
      connection is in exactly one place, with the acceptor, in the queue once,
      with one worker, with `stop`, dropped, or released and then closed; the queue
      keeps its bound; the unfinished count is what is queued or taken out. */
  lemma Ownership(states: seq<State>, i: nat, c: Conn)
    requires IsRun(states) && i < |states|
    ensures var s := states[i];
            && Holders(s, c) <= 1
            && (Holders(s, c) == 1 ==> c < s.accepted)
            && (c < s.accepted && Holders(s, c) == 0 ==> c in s.closed)
            && |s.queue| <= Max(4, 4 * |s.workers|)
            && s.unfinished == Pending(s)
  {
    hide IsRun, Holders, Pending;
    RunInv(states, i);
    assert Owned(states[i], c);
  }

  /** `task_done` is only ever called with a task unfinished. */
  lemma TaskDoneNeverUnderflows(states: seq<State>, i: nat)
    requires IsRun(states) && i + 1 < |states|
    ensures states[i + 1].unfinished < states[i].unfinished ==> states[i].unfinished > 0
  {
    hide Owned, Next;
    RunInv(states, i);
    RunInv(states, i + 1);
  }

  /** When `stop` lets go of the lock, it has closed everything that was active. */
  lemma LockReleasedClosed(states: seq<State>, i: nat)
    requires IsRun(states) && i + 1 < |states|
    requires states[i].stopper.Closing? && states[i + 1].stopper.Draining?
    ensures states[i].active <= states[i + 1].closed
  {
    hide Owned, AcceptorStep, WorkerStep;
    RunInv(states, i);
    var (s, t) := (states[i], states[i + 1]);
    assert Next(s, t);
    if !StopStep(s, t) { OthersLeaveStopper(s, t); }
  }

  lemma OthersLeaveStopper(s: State, t: State)
    requires AcceptorStep(s, t) || exists w :: 0 <= w < |s.workers| && WorkerStep(s, w, t)
    ensures t.stopper == s.stopper && s.closed <= t.closed
  {
  }

  /** What `stop` found active is closed or still in its hands. */
  predicate Settled(s: State, c: Conn) {
    match s.stopper
    case Running => false
    case Signalled => false
    case Closing(rest) => c in rest || c in s.closed
    case _ => c in s.closed
  }

  lemma StaysSettled(s: State, t: State, c: Conn)
    requires Next(s, t) && Settled(s, c)
    ensures Settled(t, c)
  {
    hide AcceptorStep, WorkerStep;
    if !StopStep(s, t) { OthersLeaveStopper(s, t); }
  }

  /** A connection that is active when `stop` takes the lock is closed from the moment
      `stop` goes on to the queue. */
  lemma {:induction false} StopClosesActive(states: seq<State>, i: nat, j: nat, c: Conn)
    requires IsRun(states) && i < j < |states| && c in states[i].active
    requires states[i].stopper.Signalled? && states[i + 1].stopper.Closing?
    ensures Settled(states[j], c)
    ensures var p := states[j].stopper;
            p.Draining? || p.Drained? || p.Settling? || p.Joining? ==> c in states[j].closed
  {
    hide AcceptorStep, WorkerStep;
    if j == i + 1 {
      var (s, t) := (states[i], states[i + 1]);
      assert Next(s, t);
      if !StopStep(s, t) { OthersLeaveStopper(s, t); }
    } else {
      StopClosesActive(states, i, j - 1, c);
      assert Next(states[j - 1], states[j - 1 + 1]);
      StaysSettled(states[j - 1], states[j], c);
    }
  }

  /** The loops of acceptor and workers are left at their test exactly when the event is
      set; and a connection is only turned away from a full queue. */
  lemma LoopsEndOnStop(states: seq<State>, i: nat, w: nat)
    requires IsRun(states) && i + 1 < |states|
    ensures var (s, t) := (states[i], states[i + 1]);
            && (s.stopping ==> t.stopping)
            && (s.acceptor.Checking? && t.acceptor != s.acceptor ==>
                  if s.stopping then t.acceptor == Ended(None) else t.acceptor == Accepting)
            && |s.workers| == |t.workers|
            && (w < |s.workers| && s.workers[w].Looking? && t.workers[w] != s.workers[w] ==>
                  if s.stopping then t.workers[w] == Gone else t.workers[w] == Polling)
            && (t.acceptor.Rejecting? && t.acceptor != s.acceptor ==>
                  |s.queue| >= 4 && |s.queue| >= 4 * |s.workers|)
  {
    assert Next(states[i], states[i + 1]);
  }

  /** The queue is in the order of acceptance, and what the acceptor holds is newest. */
  ghost predicate InOrder(s: State) {
    && (forall i, j :: 0 <= i < j < |s.queue| ==> s.queue[i] < s.queue[j])
    && (forall i :: 0 <= i < |s.queue| ==> s.queue[i] < Newest(s))
  }

  /** The least number a connection still to be queued can have. */
  function Newest(s: State): nat {
    match s.acceptor
    case Configuring(c) => c
    case Offering(c) => c
    case _ => s.accepted
  }

  /** One step keeps the order, queues only what is newest, and hands out only the oldest. */
  ghost predicate KeepsOrder(s: State, t: State) {
    && InOrder(t) && Newest(s) <= Newest(t) <= t.accepted
    && (t.acceptor.Configuring? || t.acceptor.Offering? ==> t.acceptor.conn < t.accepted)
    && (forall c :: c in t.queue ==> c in s.queue || c >= Newest(s))
    && (forall c :: c in s.queue && c !in t.queue ==> t.queue == s.queue[1..] && c == s.queue[0] && Newest(t) > c)
  }

  ghost predicate Ordered(s: State) {
    && InOrder(s) && Newest(s) <= s.accepted
    && (s.acceptor.Configuring? || s.acceptor.Offering? ==> s.acceptor.conn < s.accepted)
  }

  lemma AcceptorKeepsOrder(s: State, t: State)
    requires Ordered(s) && AcceptorStep(s, t)
    ensures KeepsOrder(s, t)
  {
  }

  lemma OthersKeepOrder(s: State, t: State)
    requires Ordered(s) && t.acceptor == s.acceptor && t.accepted == s.accepted
    requires t.queue == s.queue || (s.queue != [] && t.queue == s.queue[1..])
    ensures KeepsOrder(s, t)
  {
  }

  lemma NextKeepsOrder(s: State, t: State)
    requires Ordered(s) && Next(s, t)
    ensures KeepsOrder(s, t) && Ordered(t)
  {
    hide AcceptorStep, InOrder, Newest, KeepsOrder;
    if AcceptorStep(s, t) { AcceptorKeepsOrder(s, t); } else { OthersKeepOrder(s, t); }
    assert KeepsOrder(s, t) ==> Ordered(t) by { KeptIsOrdered(s, t); }
  }

  lemma KeptIsOrdered(s: State, t: State)
    ensures KeepsOrder(s, t) ==> Ordered(t)
  {
  }

  lemma {:induction false} RunInOrder(states: seq<State>, i: nat)
    requires IsRun(states) && i < |states|
    ensures Ordered(states[i])
  {
    hide Next, Ordered;
    if i == 0 {
      StartsInOrder(states[0]);
    } else {
      RunInOrder(states, i - 1);
      NextKeepsOrder(states[i - 1], states[i - 1 + 1]);
    }
  }

  lemma StartsInOrder(s: State)
    requires Init(s)
    ensures Ordered(s)
  {
  }

  /** First accepted, first served: a connection that leaves the queue was accepted
      before all that are queued later on. */
  lemma {:induction false} FirstAcceptedFirstServed(states: seq<State>, i: nat, j: nat, c: Conn)
    requires IsRun(states) && i < j < |states| && c in states[i].queue && c !in states[i + 1].queue
    ensures forall d :: d in states[j].queue ==> c < d
    ensures c < Newest(states[j])
  {
    hide Next, Newest;
    RunInOrder(states, j - 1);
    assert Next(states[j - 1], states[j - 1 + 1]);
    NextKeepsOrder(states[j - 1], states[j]);
    if j > i + 1 { FirstAcceptedFirstServed(states, i, j - 1, c); }
  }

  ghost predicate AllEnded(s: State) {
    && s.acceptor.Ended? && s.stopper.Joining?
    && forall w :: 0 <= w < |s.workers| ==> s.workers[w] == Gone
  }

  /** Once `stop` has drained the queue and every thread is over, at most one
      accepted connection is unclosed: one put into the queue behind the drain, or
      one the acceptor dropped when settimeout() failed. */
  lemma AtMostOneLeftOpen(states: seq<State>, i: nat, c: Conn)
    requires IsRun(states) && i < |states| && AllEnded(states[i])
    requires c < states[i].accepted && c !in states[i].closed
    ensures var s := states[i];
            if s.acceptor.dropped == Some(c) then s.queue == [] else s.queue == [c] && s.acceptor.dropped == None
  {
    hide IsRun, ActiveWorkers, PassiveWorkers, InQueue, Busy;
    var s := states[i];
    RunInv(states, i);
    assert Owned(s, c);
    IdleWorkers(s.workers, c);
    QueueMember(s.queue, c);
  }

  /** The unfinished count is what is queued and what workers hold exactly as long as
      `stop` does not hold a connection it has drained. */
  lemma UnfinishedExactly(states: seq<State>, i: nat)
    requires IsRun(states) && i < |states|
    ensures var s := states[i];
            s.unfinished == |s.queue| + Busy(s.workers) <==> !(s.stopper.Drained? || s.stopper.Settling?)
  {
    hide IsRun, Owned, Busy;
    RunInv(states, i);
  }

  // ---------------------------------------------------------------------
  // Runs that reach the corner cases, with one worker
  // ---------------------------------------------------------------------

  lemma Extended(states: seq<State>, t: State) returns (more: seq<State>)
    requires IsRun(states) && Next(states[|states| - 1], t)
    ensures IsRun(more) && more != [] && more[|more| - 1] == t
  {
    hide Next, Init;
    more := states + [t];
    forall i | 0 <= i < |more| - 1 ensures Next(more[i], more[i + 1]) {
      assert i < |states| - 1 ==> more[i + 1] == states[i + 1];
    }
  }

  /** One worker idle, the acceptor somewhere, and nothing closed or active. */
  function Idle(accepted: nat, queue: seq<Conn>, acceptor: Acceptor, worker: Worker, stopper: Stopper): State {
    State(accepted, {}, queue, |queue|, {}, !stopper.Running?, acceptor, [worker], stopper)
  }

  lemma AcceptorGoes(states: seq<State>, s: State, t: State) returns (more: seq<State>)
    requires IsRun(states) && states[|states| - 1] == s && AcceptorStep(s, t)
    ensures IsRun(more) && more != [] && more[|more| - 1] == t
  {
    hide AcceptorStep, IsRun;
    more := Extended(states, t);
  }

  lemma StopGoes(states: seq<State>, s: State, t: State) returns (more: seq<State>)
    requires IsRun(states) && states[|states| - 1] == s && StopStep(s, t)
    ensures IsRun(more) && more != [] && more[|more| - 1] == t
  {
    hide StopStep, IsRun;
    more := Extended(states, t);
  }

  /** A connection has been accepted and configured. */
  lemma AcceptedOne(acceptor: Acceptor) returns (states: seq<State>)
    requires acceptor == Offering(0) || acceptor == Ended(Some(0))
    ensures IsRun(states) && states != [] && states[|states| - 1] == Idle(1, [], acceptor, Looking, Running)
  {
    var start := Idle(0, [], Checking, Looking, Running);
    states := [start];
    assert IsRun(states);
    hide IsRun;
    states := AcceptorGoes(states, start, Idle(0, [], Accepting, Looking, Running));
    states := AcceptorGoes(states, Idle(0, [], Accepting, Looking, Running),
                           Idle(1, [], Configuring(0), Looking, Running));
    states := AcceptorGoes(states, Idle(1, [], Configuring(0), Looking, Running),
                           Idle(1, [], acceptor, Looking, Running));
  }

  /** `stop` runs up to its drain, with no connection active. */
  lemma StopDrains(states: seq<State>, queue: seq<Conn>, acceptor: Acceptor) returns (more: seq<State>)
    requires IsRun(states) && states != [] && states[|states| - 1] == Idle(1, queue, acceptor, Looking, Running)
    ensures IsRun(more) && more != [] && more[|more| - 1] == Idle(1, queue, acceptor, Looking, Draining)
  {
    hide IsRun;
    more := StopGoes(states, Idle(1, queue, acceptor, Looking, Running), Idle(1, queue, acceptor, Looking, Signalled));
    more := StopGoes(more, Idle(1, queue, acceptor, Looking, Signalled),
                     Idle(1, queue, acceptor, Looking, Closing({})));
    more := StopGoes(more, Idle(1, queue, acceptor, Looking, Closing({})), Idle(1, queue, acceptor, Looking, Draining));
  }

  lemma StopJoins(states: seq<State>, acceptor: Acceptor) returns (more: seq<State>)
    requires IsRun(states) && states != [] && states[|states| - 1] == Idle(1, [], acceptor, Looking, Draining)
    ensures IsRun(more) && more != [] && more[|more| - 1] == Idle(1, [], acceptor, Gone, Joining)
  {
    hide IsRun;
    more := StopGoes(states, Idle(1, [], acceptor, Looking, Draining), Idle(1, [], acceptor, Looking, Joining));
    var (s, t) := (Idle(1, [], acceptor, Looking, Joining), Idle(1, [], acceptor, Gone, Joining));
    assert WorkerStep(s, 0, t);
    more := Extended(more, t);
  }

  /** A run after which the one unclosed connection was dropped by the acceptor. */
  lemma DroppedRun() returns (states: seq<State>)
    ensures IsRun(states) && states != []
    ensures var s := states[|states| - 1];
            AllEnded(s) && s.accepted == 1 && 0 !in s.closed && s.queue == [] && s.acceptor.dropped == Some(0)
  {
    hide IsRun;
    states := AcceptedOne(Ended(Some(0)));
    states := StopDrains(states, [], Ended(Some(0)));
    states := StopJoins(states, Ended(Some(0)));
  }

  /** A run after which it was put into the queue behind the drain. */
  lemma PutBehindDrainRun() returns (states: seq<State>)
    ensures IsRun(states) && states != []
    ensures var s := states[|states| - 1];
            AllEnded(s) && s.accepted == 1 && 0 !in s.closed && s.queue == [0] && s.acceptor.dropped == None
  {
    hide IsRun;
    states := AcceptedOne(Offering(0));
    states := StopDrains(states, [], Offering(0));
    states := StopJoins(states, Offering(0));
    states := AcceptorGoes(states, Idle(1, [], Offering(0), Gone, Joining), Idle(1, [0], Checking, Gone, Joining));
    states := AcceptorGoes(states, Idle(1, [0], Checking, Gone, Joining), Idle(1, [0], Ended(None), Gone, Joining));
  }

  lemma WorkerGoes(states: seq<State>, s: State, t: State) returns (more: seq<State>)
    requires IsRun(states) && states[|states| - 1] == s && |s.workers| == 1 && WorkerStep(s, 0, t)
    ensures IsRun(more) && more != [] && more[|more| - 1] == t
  {
    hide WorkerStep, IsRun;
    more := Extended(states, t);
  }

  /** A run in which a connection is accepted, queued, served, closed and settled. */
  lemma ServedRun() returns (states: seq<State>)
    ensures IsRun(states) && states != []
    ensures states[|states| - 1] == State(1, {0}, [], 0, {}, false, Checking, [Looking], Running)
  {
    hide IsRun;
    states := AcceptedOne(Offering(0));
    var s := Idle(1, [0], Checking, Looking, Running);
    states := AcceptorGoes(states, Idle(1, [], Offering(0), Looking, Running), s);
    states := WorkerGoes(states, s, s.(workers := [Polling]));
    assert [0][1..] == [];
    var taken := s.(queue := [], workers := [Taken(0)]);
    states := WorkerGoes(states, s.(workers := [Polling]), taken);
    states := WorkerGoes(states, taken, taken.(active := {0}, workers := [Serving(0)]));
    var served := taken.(active := {0}, closed := {0}, workers := [Served(0)]);
    states := WorkerGoes(states, taken.(active := {0}, workers := [Serving(0)]), served);
    assert {0} - {0} == {};
    states := WorkerGoes(states, served, served.(active := {}, workers := [Finishing(0)]));
    states := WorkerGoes(states, served.(active := {}, workers := [Finishing(0)]),
                         served.(active := {}, unfinished := 0, workers := [Looking]));
  }

  /** A run in which a task is unfinished that is neither queued nor with a worker. */
  lemma DrainHoldsRun() returns (states: seq<State>)
    ensures IsRun(states) && states != []
    ensures var s := states[|states| - 1];
            s.stopper == Drained(0) && s.unfinished == 1 && s.queue == [] && Busy(s.workers) == 0
  {
    hide IsRun;
    states := AcceptedOne(Offering(0));
    states := AcceptorGoes(states, Idle(1, [], Offering(0), Looking, Running), Idle(1, [0], Checking, Looking, Running));
    states := StopDrains(states, [0], Checking);
    var s := Idle(1, [0], Checking, Looking, Draining);
    assert [0][1..] == [];
    states := StopGoes(states, s, s.(queue := [], stopper := Drained(0)));
  }

  // ---------------------------------------------------------------------
  // The server object
  // ---------------------------------------------------------------------

  /** The shared fields, and the threads as program counters. Every method is one
      atomic step of one thread; choices of the environment are arbitrary. The ghost
      field records the run. */
  class BackendServer {
    var accepted: nat
    var closed: set<Conn>
    var queue: seq<Conn>
    var unfinished: int
    var active: set<Conn>
    var stopping: bool
    var acceptor: Acceptor
    var workers: seq<Worker>
    var stopper: Stopper
    ghost var states: seq<State>

    /** The fields are where the recorded run has led. */
    ghost predicate Valid()
      reads this
    {
      states != [] && IsRun(states) && states[|states| - 1] == Now()
    }

    ghost method Record()
      requires IsRun(states) && Next(states[|states| - 1], Now())
      modifies this`states
      ensures Valid() && states == old(states) + [Now()]
    {
      hide Next, Init;
      states := states + [Now()];
      forall i | 0 <= i < |states| - 1 ensures Next(states[i], states[i + 1]) {
        assert i < |old(states)| - 1 ==> states[i + 1] == old(states)[i + 1];
      }
    }

    function Now(): State
      reads this
    {
      State(accepted, closed, queue, unfinished, active, stopping, acceptor, workers, stopper)
    }

    constructor (count: nat)
      ensures Valid() && Init(Now()) && |workers| == count
    {
      accepted, closed, queue, unfinished, active, stopping := 0, {}, [], 0, {}, false;
      acceptor, workers, stopper := Checking, seq(count, i => Looking), Running;
      states := [State(0, {}, [], 0, {}, false, Checking, seq(count, i => Looking), Running)];
    }

    /** One step of `_accept`. */
    method AcceptorTurn()
      requires !acceptor.Ended?
      modifies `accepted, `closed, `queue, `unfinished, `acceptor
      ensures AcceptorStep(old(Now()), Now())
    {
      match acceptor {
        case Checking => acceptor := if stopping then Ended(None) else Accepting;
        case Accepting =>
          if * {
            acceptor := Configuring(accepted);
            accepted := accepted + 1;
          } else if * {
            acceptor := Checking;
          } else {
            acceptor := Ended(None);
          }
        case Configuring(client) =>
          if * { acceptor := Offering(client); } else { acceptor := Ended(Some(client)); }
        case Offering(client) =>
          if |queue| < Max(4, 4 * |workers|) {
            queue, unfinished := queue + [client], unfinished + 1;
            acceptor := Checking;
          } else {
            acceptor := Rejecting(client);
          }
        case Rejecting(client) =>
          closed := closed + {client};
          if * { acceptor := Checking; } else { acceptor := Ended(None); }
      }
    }

    /** One step of the `_worker` thread w; not moved is waiting for the lock. */
    method WorkerTurn(w: nat) returns (moved: bool)
      requires w < |workers| && !workers[w].Gone?
      modifies `closed, `queue, `unfinished, `active, `workers
      ensures moved ==> WorkerStep(old(Now()), w, Now())
      ensures !moved ==> Now() == old(Now())
      ensures |workers| == |old(workers)|
    {
      moved := true;
      match workers[w] {
        case Looking => workers := workers[w := if stopping then Gone else Polling];
        case Polling =>
          if queue == [] {
            workers := workers[w := Looking];
          } else {
            var client := queue[0];
            queue := queue[1..];
            workers := workers[w := Taken(client)];
          }
        case Taken(client) =>
          if stopper.Closing? { return false; }
          active := active + {client};
          workers := workers[w := Serving(client)];
        case Serving(client) =>
          closed := closed + {client};
          workers := workers[w := Served(client)];
        case Served(client) =>
          if stopper.Closing? { return false; }
          active := active - {client};
          workers := workers[w := Finishing(client)];
        case Finishing(client) =>
          unfinished := unfinished - 1;
          workers := workers[w := Looking];
      }
    }

    /** One step of `stop`. */
    method StopTurn()
      requires !stopper.Joining?
      modifies `closed, `queue, `unfinished, `stopping, `stopper
      ensures StopStep(old(Now()), Now())
    {
      match stopper {
        case Running => stopping, stopper := true, Signalled;
        case Signalled => stopper := Closing(active);
        case Closing(rest) =>
          if rest == {} {
            stopper := Draining;
          } else {
            var client :| client in rest;
            closed := closed + {client};
            stopper := Closing(rest - {client});
          }
        case Draining =>
          if queue == [] {
            stopper := Joining;
          } else {
            var client := queue[0];
            queue, stopper := queue[1..], Drained(client);
          }
        case Drained(client) =>
          closed := closed + {client};
          stopper := Settling(client);
        case Settling(client) =>
          unfinished := unfinished - 1;
          stopper := Draining;
      }
    }

    /** Any interleaving of turns of a new server is a run, and so keeps the ownership
        invariant. */
    static method Interleave(count: nat, turns: nat) returns (server: BackendServer)
      ensures fresh(server) && server.Valid() && |server.workers| == count && Inv(server.Now())
    {
      server := new BackendServer(count);
      hide Inv, AcceptorStep, WorkerStep, StopStep, IsRun, Init;
      for i := 0 to turns
        invariant fresh(server) && server.Valid() && |server.workers| == count
      {
        if * {
          if !server.acceptor.Ended? {
            server.AcceptorTurn();
            server.Record();
          }
        } else if * {
          if !server.stopper.Joining? {
            server.StopTurn();
            server.Record();
          }
        } else {
          var w :| 0 <= w <= |server.workers|;
          if w < |server.workers| && !server.workers[w].Gone? {
            var moved := server.WorkerTurn(w);
            if moved { server.Record(); }
          }
        }
      }
      RunInv(server.states, |server.states| - 1);
    }
  }
}
