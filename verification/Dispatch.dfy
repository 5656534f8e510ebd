/** The dispatch protocol of `Server::run` and `process_request`: client sockets move between
    the polled list, the waiting queue, the working set and closed; worker threads move between
    the idle queue and busy; both sides talk through one pair of control pipes per thread.

    One event is one iteration of the poll loop (or of a worker's own loop) for one descriptor.
    Sockets and threads are named by identity, not by their position in the poll array. */
module Dispatch {
  import opened Wrappers

  type Socket = nat
  type Thread = nat

  datatype MessageType = NOOP | PROCESS_REQUEST | FINISHED_AND_CONTINUE | FINISHED_AND_CLOSE
                       | SOCKET_CLOSED | EXIT | ERROR

  datatype Message = Message(kind: MessageType, sid: Socket)

  datatype ThreadStatus = CONTINUE | CLOSE

  /** One worker with its two pipe directions; `current` is the message it is working on. */
  datatype Worker = Worker(inbox: seq<Message>, current: Option<Message>, outbox: seq<Message>)

  datatype State = State(
    polled: seq<Socket>,
    waiting: seq<Socket>,
    working: set<Socket>,
    closed: seq<Socket>,
    accepted: set<Socket>,
    idle: seq<Thread>,
    workers: seq<Worker>)

  datatype Event =
    | Accept(s: Socket)                             // a listener is readable
    | ClientReady(s: Socket)                        // a polled client has data
    | ClientHangup(s: Socket)                       // a polled client hung up
    | WorkerReceive(t: Thread)                      // a worker reads its control pipe
    | WorkerFinish(t: Thread, status: ThreadStatus) // processRequest returned
    | MasterReceive(t: Thread)                      // the loop reads a worker's pipe

  // ------------------------------------------------------------ transitions

  predicate WellFormed(st: State) {
    forall i :: 0 <= i < |st.idle| ==> st.idle[i] < |st.workers|
  }

  function Init(n: nat): State {
    State([], [], {}, [], {}, seq(n, i => i), seq(n, i => Worker([], None, [])))
  }

  predicate Enabled(st: State, ev: Event) {
    match ev
    case Accept(s) => s !in st.accepted
    case ClientReady(s) => s in st.polled
    case ClientHangup(s) => s in st.polled
    case WorkerReceive(t) => t < |st.workers| && st.workers[t].current.None? && st.workers[t].inbox != []
    case WorkerFinish(t, _) => t < |st.workers| && st.workers[t].current.Some?
    case MasterReceive(t) => t < |st.workers| && st.workers[t].outbox != []
  }

  function Remove(q: seq<Socket>, x: Socket): seq<Socket>
  {
    if q == [] then [] else if q[0] == x then q[1..] else [q[0]] + Remove(q[1..], x)
  }

  /** Hand socket `s` to thread `t`: it becomes a working socket and the thread gets the request. */
  function Assign(st: State, t: Thread, s: Socket): State
    requires t < |st.workers|
  {
    var w := st.workers[t];
    st.(working := st.working + {s},
        workers := st.workers[t := w.(inbox := w.inbox + [Message(PROCESS_REQUEST, s)])])
  }

  /** A thread that reported back takes the head of the waiting queue or becomes idle. */
  function Reuse(st: State, t: Thread): State
    requires t < |st.workers|
  {
    if st.waiting != [] then
      Assign(st.(waiting := st.waiting[1..]), t, st.waiting[0])
    else
      st.(idle := st.idle + [t])
  }

  function HandleMessage(st: State, t: Thread, msg: Message): State
    requires t < |st.workers|
  {
    match msg.kind
    case FINISHED_AND_CONTINUE =>
      Reuse(st.(working := st.working - {msg.sid}, polled := st.polled + [msg.sid]), t)
    case FINISHED_AND_CLOSE =>
      Reuse(st.(working := st.working - {msg.sid}, closed := st.closed + [msg.sid]), t)
    case _ => st  // an unexpected message is only logged
  }

  function Dispatched(st: State, s: Socket): State
    requires WellFormed(st)
  {
    if st.idle != [] then
      Assign(st.(idle := st.idle[1..], polled := Remove(st.polled, s)), st.idle[0], s)
    else
      st.(polled := Remove(st.polled, s), waiting := st.waiting + [s])
  }

  function WorkerTakes(w: Worker): Worker
    requires w.inbox != []
  {
    var msg := w.inbox[0];
    w.(inbox := w.inbox[1..], current := if msg.kind == PROCESS_REQUEST then Some(msg) else None)
  }

  /** The worker echoes the message it received, with only its type changed. */
  function WorkerReplies(w: Worker, status: ThreadStatus): Worker
    requires w.current.Some?
  {
    var kind := if status == CONTINUE then FINISHED_AND_CONTINUE else FINISHED_AND_CLOSE;
    w.(current := None, outbox := w.outbox + [w.current.value.(kind := kind)])
  }

  function Step(st: State, ev: Event): State
    requires WellFormed(st) && Enabled(st, ev)
  {
    match ev
    case Accept(s) =>
      st.(polled := st.polled + [s], accepted := st.accepted + {s})
    case ClientReady(s) =>
      Dispatched(st, s)
    case ClientHangup(s) =>
      st.(polled := Remove(st.polled, s), working := st.working - {s}, closed := st.closed + [s])
    case WorkerReceive(t) =>
      st.(workers := st.workers[t := WorkerTakes(st.workers[t])])
    case WorkerFinish(t, status) =>
      st.(workers := st.workers[t := WorkerReplies(st.workers[t], status)])
    case MasterReceive(t) =>
      var w := st.workers[t];
      HandleMessage(st.(workers := st.workers[t := w.(outbox := w.outbox[1..])]), t, w.outbox[0])
  }

  // ------------------------------------------------------------ the invariant

  predicate Free(w: Worker) {
    w.inbox == [] && w.current.None? && w.outbox == []
  }

  predicate Loaded(w: Worker) {
    || (|w.inbox| == 1 && w.inbox[0].kind == PROCESS_REQUEST && w.current.None? && w.outbox == [])
    || (w.inbox == [] && w.current.Some? && w.current.value.kind == PROCESS_REQUEST && w.outbox == [])
    || (w.inbox == [] && w.current.None? && |w.outbox| == 1
        && w.outbox[0].kind in {FINISHED_AND_CONTINUE, FINISHED_AND_CLOSE})
  }

  /** The one socket a loaded worker owns. */
  function Owned(w: Worker): Socket {
    if w.inbox != [] then w.inbox[0].sid
    else if w.current.Some? then w.current.value.sid
    else if w.outbox != [] then w.outbox[0].sid
    else 0
  }

  /** Every accepted socket is in exactly one place, exactly once. */
  ghost predicate Partitioned(st: State) {
    multiset(st.polled) + multiset(st.waiting) + multiset(st.working) + multiset(st.closed) == multiset(st.accepted)
  }

  ghost predicate ThreadsAccounted(st: State) {
    && (forall i, j :: 0 <= i < j < |st.idle| ==> st.idle[i] != st.idle[j])
    && (forall t :: 0 <= t < |st.workers| ==>
          if t in st.idle then Free(st.workers[t]) else Loaded(st.workers[t]))
  }

  ghost predicate Into(ws: seq<Worker>, working: set<Socket>) {
    forall t :: 0 <= t < |ws| && Loaded(ws[t]) ==> Owned(ws[t]) in working
  }

  ghost predicate OneToOne(ws: seq<Worker>) {
    forall t, u :: 0 <= t < u < |ws| && Loaded(ws[t]) && Loaded(ws[u]) ==> Owned(ws[t]) != Owned(ws[u])
  }

  ghost predicate Onto(ws: seq<Worker>, working: set<Socket>) {
    forall s :: s in working ==> exists t :: 0 <= t < |ws| && Loaded(ws[t]) && Owned(ws[t]) == s
  }

  /** `Owned` maps the busy threads one to one onto the working sockets. */
  ghost predicate Bijective(st: State) {
    Into(st.workers, st.working) && OneToOne(st.workers) && Onto(st.workers, st.working)
  }

  ghost predicate WorkConserving(st: State) {
    st.waiting != [] ==> st.idle == []
  }

  ghost predicate ThreadsOk(st: State) {
    WellFormed(st) && ThreadsAccounted(st) && Bijective(st) && |st.idle| + |st.working| == |st.workers|
  }

  ghost predicate Inv(st: State) {
    Partitioned(st) && ThreadsOk(st) && WorkConserving(st)
  }

  /** What the partition says of one socket. */
  lemma OnePlace(st: State, s: Socket)
    requires Partitioned(st)
    ensures multiset(st.polled)[s] + multiset(st.waiting)[s] + (if s in st.working then 1 else 0)
            + multiset(st.closed)[s] == if s in st.accepted then 1 else 0
  {
    var all := multiset(st.polled) + multiset(st.waiting) + multiset(st.working) + multiset(st.closed);
    assert all[s] == multiset(st.accepted)[s];
  }

  // ------------------------------------------------------------ one step keeps the partition

  lemma {:induction false} RemoveOne(q: seq<Socket>, x: Socket)
    requires x in q
    ensures multiset(Remove(q, x)) == multiset(q) - multiset{x}
  {
    assert q == [q[0]] + q[1..];
    if q[0] != x {
      RemoveOne(q[1..], x);
    }
  }

  lemma HeadOff(q: seq<Socket>)
    requires q != []
    ensures multiset(q) == multiset{q[0]} + multiset(q[1..])
  {
    assert q == [q[0]] + q[1..];
  }

  lemma ReusePartition(st: State, t: Thread)
    requires Partitioned(st) && t < |st.workers| && (st.waiting != [] ==> st.waiting[0] !in st.working)
    ensures Partitioned(Reuse(st, t))
  {
    if st.waiting != [] {
      HeadOff(st.waiting);
      assert multiset(st.working + {st.waiting[0]}) == multiset(st.working) + multiset{st.waiting[0]};
    }
  }

  /** A thread whose pipe can be read owns the socket it reports. */
  lemma Reporting(st: State, t: Thread)
    requires ThreadsOk(st) && Enabled(st, MasterReceive(t))
    ensures var w := st.workers[t];
            && Loaded(w) && Owned(w) == w.outbox[0].sid && Owned(w) in st.working
            && w.(outbox := []) == Worker([], None, []) && w.outbox[1..] == []
            && w.outbox[0].kind in {FINISHED_AND_CONTINUE, FINISHED_AND_CLOSE}
  {
  }

  /** The state once the report of `t` is read and its socket put back, before `t` is reused. */
  function Reported(st: State, t: Thread): State
    requires t < |st.workers| && st.workers[t].outbox != []
  {
    var w := st.workers[t];
    var s := w.outbox[0].sid;
    var st1 := st.(workers := st.workers[t := w.(outbox := w.outbox[1..])], working := st.working - {s});
    if w.outbox[0].kind == FINISHED_AND_CONTINUE then st1.(polled := st.polled + [s])
    else st1.(closed := st.closed + [s])
  }

  lemma ReportedThenReused(st: State, t: Thread)
    requires ThreadsOk(st) && Enabled(st, MasterReceive(t))
    ensures Step(st, MasterReceive(t)) == Reuse(Reported(st, t), t)
  {
    Reporting(st, t);
    hide ThreadsAccounted, Bijective;
  }

  lemma MasterReceivePartition(st: State, t: Thread)
    requires Partitioned(st) && ThreadsOk(st) && Enabled(st, MasterReceive(t))
    ensures Partitioned(Step(st, MasterReceive(t)))
  {
    Reporting(st, t);
    ReportedThenReused(st, t);
    hide ThreadsOk, Reuse, Step;
    var s := st.workers[t].outbox[0].sid;
    assert multiset(st.working - {s}) == multiset(st.working) - multiset{s};
    assert Partitioned(Reported(st, t));
    if st.waiting != [] {
      OnePlace(st, st.waiting[0]);
    }
    ReusePartition(Reported(st, t), t);
  }

  lemma ClientPartition(st: State, ev: Event)
    requires Partitioned(st) && WellFormed(st) && Enabled(st, ev) && (ev.ClientReady? || ev.ClientHangup?)
    ensures Partitioned(Step(st, ev))
  {
    RemoveOne(st.polled, ev.s);
    OnePlace(st, ev.s);
    assert st.working - {ev.s} == st.working;
    assert multiset(st.working + {ev.s}) == multiset(st.working) + multiset{ev.s};
  }

  lemma StepPartition(st: State, ev: Event)
    requires Partitioned(st) && ThreadsOk(st) && Enabled(st, ev)
    ensures Partitioned(Step(st, ev))
  {
    match ev
    case Accept(s) =>
      assert multiset(st.accepted + {s}) == multiset(st.accepted) + multiset{s};
    case ClientReady(_) => ClientPartition(st, ev);
    case ClientHangup(_) => ClientPartition(st, ev);
    case MasterReceive(t) => MasterReceivePartition(st, t);
    case WorkerReceive(_) =>
    case WorkerFinish(_, _) =>
  }

  // ------------------------------------------------------------ one step keeps the thread accounting

  /** Every thread is accounted for except `t`, which is between two tasks. */
  ghost predicate Between(st: State, t: Thread) {
    && WellFormed(st) && Bijective(st) && |st.idle| + |st.working| + 1 == |st.workers|
    && t < |st.workers| && t !in st.idle && Free(st.workers[t])
    && (forall i, j :: 0 <= i < j < |st.idle| ==> st.idle[i] != st.idle[j])
    && (forall u :: 0 <= u < |st.workers| && u != t ==>
          if u in st.idle then Free(st.workers[u]) else Loaded(st.workers[u]))
  }

  /** A free worker gets a socket that nobody works on. */
  lemma AssignBijective(ws: seq<Worker>, working: set<Socket>, t: Thread, w: Worker, s: Socket)
    requires Into(ws, working) && OneToOne(ws) && Onto(ws, working)
    requires t < |ws| && !Loaded(ws[t]) && Loaded(w) && Owned(w) == s && s !in working
    ensures Into(ws[t := w], working + {s}) && OneToOne(ws[t := w]) && Onto(ws[t := w], working + {s})
  {
    hide Loaded, Owned;
    OntoAfter(ws, working, t, w, working + {s});
  }

  /** A busy worker gives its socket back. */
  lemma ReleaseBijective(ws: seq<Worker>, working: set<Socket>, t: Thread, w: Worker)
    requires Into(ws, working) && OneToOne(ws) && Onto(ws, working)
    requires t < |ws| && Loaded(ws[t]) && !Loaded(w)
    ensures Into(ws[t := w], working - {Owned(ws[t])}) && OneToOne(ws[t := w])
    ensures Onto(ws[t := w], working - {Owned(ws[t])})
  {
    hide Loaded, Owned;
    OntoAfter(ws, working, t, w, working - {Owned(ws[t])});
  }

  lemma OntoAfter(ws: seq<Worker>, working: set<Socket>, t: Thread, w: Worker, after: set<Socket>)
    requires Onto(ws, working) && t < |ws|
    requires forall r :: r in after ==>
               (Loaded(w) && Owned(w) == r) || (r in working && (Loaded(ws[t]) ==> Owned(ws[t]) != r))
    ensures Onto(ws[t := w], after)
  {
    hide Loaded, Owned;
    var ws' := ws[t := w];
    forall r | r in after
      ensures exists u :: 0 <= u < |ws'| && Loaded(ws'[u]) && Owned(ws'[u]) == r
    {
      if Loaded(w) && r == Owned(w) {
        assert ws'[t] == w;
      } else {
        var u :| 0 <= u < |ws| && Loaded(ws[u]) && Owned(ws[u]) == r;
        assert ws'[u] == ws[u];
      }
    }
  }

  lemma AssignThreads(st: State, t: Thread, s: Socket)
    requires Between(st, t) && s !in st.working
    ensures ThreadsOk(Assign(st, t, s))
  {
    var w := Assign(st, t, s).workers[t];
    assert Loaded(w) && Owned(w) == s && !Loaded(st.workers[t]);
    AssignBijective(st.workers, st.working, t, w, s);
    assert WellFormed(Assign(st, t, s));
    AssignAccounted(st, t, s);
    hide Loaded, Owned, Free, Into, OneToOne, Onto, ThreadsAccounted;
  }

  lemma AssignAccounted(st: State, t: Thread, s: Socket)
    requires Between(st, t)
    ensures ThreadsAccounted(Assign(st, t, s))
  {
    hide Bijective, Owned;
    var st' := Assign(st, t, s);
    assert Loaded(st'.workers[t]);
    hide Loaded, Free;
  }

  lemma ReuseThreads(st: State, t: Thread)
    requires Between(st, t) && (st.waiting != [] ==> st.waiting[0] !in st.working)
    ensures ThreadsOk(Reuse(st, t))
  {
    if st.waiting != [] {
      AssignThreads(st.(waiting := st.waiting[1..]), t, st.waiting[0]);
    } else {
      var st' := Reuse(st, t);
      assert forall u :: u in st'.idle <==> u in st.idle || u == t;
    }
  }

  lemma Release(st: State, t: Thread, freed: State)
    requires ThreadsOk(st) && t < |st.workers| && Loaded(st.workers[t])
    requires freed.workers == st.workers[t := Worker([], None, [])]
    requires freed.working == st.working - {Owned(st.workers[t])} && freed.idle == st.idle
    ensures Between(freed, t)
  {
    var w := Worker([], None, []);
    assert !Free(st.workers[t]) && Free(w) && !Loaded(w);
    ReleaseBijective(st.workers, st.working, t, w);
    hide Loaded, Owned, Free, Into, OneToOne, Onto;
  }

  lemma MasterReceiveThreads(st: State, t: Thread)
    requires Partitioned(st) && ThreadsOk(st) && Enabled(st, MasterReceive(t))
    ensures ThreadsOk(Step(st, MasterReceive(t)))
  {
    Reporting(st, t);
    ReportedThenReused(st, t);
    hide ThreadsOk, Reuse, Step, Between, Loaded, Owned;
    Release(st, t, Reported(st, t));
    if st.waiting != [] {
      OnePlace(st, st.waiting[0]);
    }
    ReuseThreads(Reported(st, t), t);
  }

  lemma ClientReadyThreads(st: State, s: Socket)
    requires ThreadsOk(st) && s !in st.working && Enabled(st, ClientReady(s))
    ensures ThreadsOk(Step(st, ClientReady(s)))
  {
    if st.idle != [] {
      var t := st.idle[0];
      var st1 := st.(idle := st.idle[1..], polled := Remove(st.polled, s));
      assert st.idle == [t] + st1.idle;
      assert Between(st1, t);
      AssignThreads(st1, t, s);
    }
  }

  /** A busy worker may change in any way that leaves it busy with the same socket. */
  lemma SameTask(st: State, t: Thread, w: Worker)
    requires ThreadsOk(st) && t < |st.workers| && Loaded(st.workers[t]) && !Free(st.workers[t])
    requires Loaded(w) && Owned(w) == Owned(st.workers[t])
    ensures ThreadsOk(st.(workers := st.workers[t := w]))
  {
    hide Loaded, Owned, Free;
    OntoAfter(st.workers, st.working, t, w, st.working);
  }

  lemma WorkerThreads(st: State, ev: Event)
    requires ThreadsOk(st) && Enabled(st, ev) && (ev.WorkerReceive? || ev.WorkerFinish?)
    ensures ThreadsOk(Step(st, ev))
  {
    var w := st.workers[ev.t];
    assert Loaded(w);
    hide ThreadsOk;
    if ev.WorkerReceive? {
      SameTask(st, ev.t, WorkerTakes(w));
    } else {
      SameTask(st, ev.t, WorkerReplies(w, ev.status));
    }
  }

  lemma StepThreads(st: State, ev: Event)
    requires Partitioned(st) && ThreadsOk(st) && Enabled(st, ev)
    ensures ThreadsOk(Step(st, ev))
  {
    match ev
    case Accept(_) =>
    case ClientReady(s) =>
      OnePlace(st, s);
      ClientReadyThreads(st, s);
    case ClientHangup(s) =>
      OnePlace(st, s);
      assert st.working - {s} == st.working;
    case MasterReceive(t) => MasterReceiveThreads(st, t);
    case WorkerReceive(_) => WorkerThreads(st, ev);
    case WorkerFinish(_, _) => WorkerThreads(st, ev);
  }

  lemma StepWorkConserving(st: State, ev: Event)
    requires WellFormed(st) && WorkConserving(st) && Enabled(st, ev)
    ensures WorkConserving(Step(st, ev))
  {
  }

  lemma InvWellFormed(st: State)
    requires Inv(st)
    ensures WellFormed(st)
  {
  }

  lemma StepKeeps(st: State, ev: Event)
    requires Inv(st) && Enabled(st, ev)
    ensures Inv(Step(st, ev))
  {
    StepPartition(st, ev);
    StepThreads(st, ev);
    StepWorkConserving(st, ev);
  }

  // ------------------------------------------------------------ runs

  /** `evs` can happen in this order from `st`. */
  predicate Possible(st: State, evs: seq<Event>)
    decreases |evs|
  {
    evs == [] || (WellFormed(st) && Enabled(st, evs[0]) && Possible(Step(st, evs[0]), evs[1..]))
  }

  function Run(st: State, evs: seq<Event>): State
    requires Possible(st, evs)
    decreases |evs|
  {
    if evs == [] then st else Run(Step(st, evs[0]), evs[1..])
  }

  lemma {:induction false} RunKeeps(st: State, evs: seq<Event>)
    requires Inv(st) && Possible(st, evs)
    ensures Inv(Run(st, evs))
    decreases |evs|
  {
    if evs != [] {
      StepKeeps(st, evs[0]);
      RunKeeps(Step(st, evs[0]), evs[1..]);
    }
  }

  lemma InitInv(n: nat)
    ensures Inv(Init(n))
  {
    var st := Init(n);
    forall t | 0 <= t < n ensures t in st.idle && Free(st.workers[t]) {
      assert st.idle[t] == t;
    }
  }

  /** Main safety result: every reachable state, for any number of threads and any event order. */
  lemma Safety(n: nat, evs: seq<Event>)
    requires Possible(Init(n), evs)
    ensures Inv(Run(Init(n), evs))
  {
    InitInv(n);
    RunKeeps(Init(n), evs);
  }

  lemma {:induction false} RunAppend(st: State, evs: seq<Event>, ev: Event)
    requires Possible(st, evs) && WellFormed(Run(st, evs)) && Enabled(Run(st, evs), ev)
    ensures Possible(st, evs + [ev]) && Run(st, evs + [ev]) == Step(Run(st, evs), ev)
    decreases |evs|
  {
    if evs == [] {
      assert (evs + [ev])[1..] == [];
    } else {
      assert (evs + [ev])[1..] == evs[1..] + [ev];
      RunAppend(Step(st, evs[0]), evs[1..], ev);
    }
  }

  lemma ClosedNowhereElse(st: State, s: Socket)
    requires Inv(st) && s in st.closed
    ensures multiset(st.closed)[s] == 1 && s !in st.polled && s !in st.waiting && s !in st.working
  {
    OnePlace(st, s);
    assert s in multiset(st.closed);
    assert s !in multiset(st.polled) && s !in multiset(st.waiting);
  }

  lemma StepKeepsClosed(st: State, ev: Event)
    requires Inv(st) && Enabled(st, ev)
    ensures st.closed <= Step(st, ev).closed
  {
    hide Partitioned, ThreadsAccounted, Bijective, WorkConserving;
  }

  /** A socket that was closed is never polled, queued or worked on again, and never closed twice. */
  lemma {:induction false} ClosedForever(st: State, evs: seq<Event>, s: Socket)
    requires Inv(st) && Possible(st, evs) && s in st.closed
    ensures var st' := Run(st, evs);
            && multiset(st'.closed)[s] == 1
            && s !in st'.polled && s !in st'.waiting && s !in st'.working
    decreases |evs|
  {
    hide Inv, Step, Enabled;
    if evs == [] {
      ClosedNowhereElse(st, s);
    } else {
      StepKeeps(st, evs[0]);
      StepKeepsClosed(st, evs[0]);
      ClosedForever(Step(st, evs[0]), evs[1..], s);
    }
  }

  // ------------------------------------------------------------ FIFO service

  /** How many reports of finished threads the loop reads during `evs`. */
  function Reports(evs: seq<Event>): nat {
    if evs == [] then 0 else (if evs[0].MasterReceive? then 1 else 0) + Reports(evs[1..])
  }

  /** One event moves the waiting queue by one place exactly when it reads a report; anything
      else leaves every place as it was and can only add at the end. */
  lemma QueueStep(st: State, ev: Event)
    requires ThreadsOk(st) && Enabled(st, ev)
    ensures var rest := if ev.MasterReceive? && st.waiting != [] then st.waiting[1..] else st.waiting;
            rest <= Step(st, ev).waiting
  {
    if ev.MasterReceive? {
      assert Loaded(st.workers[ev.t]);
    }
  }

  lemma PlaceAfterStep(st: State, ev: Event, k: nat)
    requires Inv(st) && Enabled(st, ev) && k < |st.waiting| && (ev.MasterReceive? ==> 0 < k)
    ensures var k' := if ev.MasterReceive? then k - 1 else k;
            k' < |Step(st, ev).waiting| && Step(st, ev).waiting[k'] == st.waiting[k]
  {
    QueueStep(st, ev);
    var rest := if ev.MasterReceive? && st.waiting != [] then st.waiting[1..] else st.waiting;
    assert rest[if ev.MasterReceive? then k - 1 else k] == st.waiting[k];
  }

  /** A socket at place `k` moves up one place per report, whatever else happens. */
  lemma {:induction false} MovesUp(st: State, evs: seq<Event>, k: nat)
    requires Inv(st) && Possible(st, evs) && k < |st.waiting| && Reports(evs) <= k
    ensures var st' := Run(st, evs);
            k - Reports(evs) < |st'.waiting| && st'.waiting[k - Reports(evs)] == st.waiting[k]
    decreases |evs|
  {
    hide Inv, Step, Enabled;
    if evs != [] {
      StepKeeps(st, evs[0]);
      PlaceAfterStep(st, evs[0], k);
      MovesUp(Step(st, evs[0]), evs[1..], if evs[0].MasterReceive? then k - 1 else k);
    }
  }

  lemma ReportServesHead(st: State, t: Thread)
    requires Inv(st) && st.waiting != [] && Enabled(st, MasterReceive(t))
    ensures var s, st' := st.waiting[0], Step(st, MasterReceive(t));
            && s !in st.working && s in st'.working && s !in st'.waiting
            && t < |st'.workers| && st'.workers[t] == Worker([Message(PROCESS_REQUEST, s)], None, [])
  {
    var s, st' := st.waiting[0], Step(st, MasterReceive(t));
    StepPartition(st, MasterReceive(t));
    Reporting(st, t);
    ReportedThenReused(st, t);
    hide ThreadsOk, WorkConserving, Partitioned, Step;
    OnePlace(st, s);
    assert s in multiset(st.waiting);
    assert s in st'.working;
    OnePlace(st', s);
    assert s !in multiset(st'.waiting);
  }

  /** No overtaking: the socket at place `k` is handed to a thread by exactly the (k+1)-th later
      report, to the very thread that reported, and not before. */
  lemma ServedByReportNumber(st: State, evs: seq<Event>, t: Thread, k: nat)
    requires Inv(st) && k < |st.waiting| && Reports(evs) == k
    requires Possible(st, evs) && Enabled(Run(st, evs), MasterReceive(t))
    ensures Possible(st, evs + [MasterReceive(t)])
    ensures var s := st.waiting[k];
            var before, after := Run(st, evs), Run(st, evs + [MasterReceive(t)]);
            && s in before.waiting && s !in before.working
            && s in after.working && s !in after.waiting
            && t < |after.workers| && after.workers[t] == Worker([Message(PROCESS_REQUEST, s)], None, [])
  {
    hide Inv, Step, Enabled, Run, Possible, Reports;
    RunKeeps(st, evs);
    MovesUp(st, evs, k);
    ReportServesHead(Run(st, evs), t);
    InvWellFormed(Run(st, evs));
    RunAppend(st, evs, MasterReceive(t));
  }

  // ------------------------------------------------------------ draining

  predicate IsThreadStep(ev: Event) {
    ev.WorkerReceive? || ev.WorkerFinish? || ev.MasterReceive?
  }

  /** Steps a worker still needs before its thread can be reused. */
  function Phase(w: Worker): nat {
    3 * |w.inbox| + (if w.current.Some? then 2 else 0) + |w.outbox|
  }

  function PhaseSum(ws: seq<Worker>): nat {
    if ws == [] then 0 else PhaseSum(ws[..|ws| - 1]) + Phase(ws[|ws| - 1])
  }

  function Backlog(st: State): nat {
    3 * |st.waiting| + PhaseSum(st.workers)
  }

  lemma {:induction false} PhaseSumUpdate(ws: seq<Worker>, t: nat, w: Worker)
    requires t < |ws|
    ensures PhaseSum(ws[t := w]) == PhaseSum(ws) - Phase(ws[t]) + Phase(w)
  {
    var last := |ws| - 1;
    if t == last {
      assert ws[t := w][..last] == ws[..last];
    } else {
      assert ws[t := w][..last] == ws[..last][t := w];
      PhaseSumUpdate(ws[..last], t, w);
    }
  }

  lemma {:induction false} PhaseSumZero(ws: seq<Worker>)
    ensures PhaseSum(ws) == 0 <==> forall t :: 0 <= t < |ws| ==> Free(ws[t])
  {
    if ws != [] {
      PhaseSumZero(ws[..|ws| - 1]);
      assert Phase(ws[|ws| - 1]) == 0 <==> Free(ws[|ws| - 1]);
    }
  }

  lemma ThreadStepCost(st: State, ev: Event)
    requires Inv(st) && Enabled(st, ev) && IsThreadStep(ev)
    ensures Backlog(Step(st, ev)) == Backlog(st) - 1
  {
    var w := st.workers[ev.t];
    assert Loaded(w);
    if ev.MasterReceive? {
      Reporting(st, ev.t);
      ReportedThenReused(st, ev.t);
      hide Inv, Step;
      ReuseCost(Reported(st, ev.t), ev.t);
      PhaseSumUpdate(st.workers, ev.t, w.(outbox := w.outbox[1..]));
    } else {
      hide Inv;
      PhaseSumUpdate(st.workers, ev.t, Step(st, ev).workers[ev.t]);
    }
  }

  /** Reusing a thread costs nothing: a waiting socket counts as much as a request in the pipe. */
  lemma ReuseCost(st: State, t: Thread)
    requires t < |st.workers|
    ensures Backlog(Reuse(st, t)) == Backlog(st)
  {
    PhaseSumUpdate(st.workers, t, Reuse(st, t).workers[t]);
    assert st.workers[t := st.workers[t]] == st.workers;
  }

  /** Between client events, every order of thread steps costs the same: the backlog counts
      exactly how many are left. */
  lemma {:induction false} BacklogCountsSteps(st: State, evs: seq<Event>)
    requires Inv(st) && Possible(st, evs) && forall i :: 0 <= i < |evs| ==> IsThreadStep(evs[i])
    ensures Backlog(Run(st, evs)) == Backlog(st) - |evs|
    decreases |evs|
  {
    if evs != [] {
      ThreadStepCost(st, evs[0]);
      StepKeeps(st, evs[0]);
      BacklogCountsSteps(Step(st, evs[0]), evs[1..]);
    }
  }

  lemma SomeThreadCanMove(st: State, t: Thread)
    requires t < |st.workers| && Loaded(st.workers[t])
    ensures exists ev :: IsThreadStep(ev) && Enabled(st, ev)
  {
    var w := st.workers[t];
    if w.inbox != [] {
      assert IsThreadStep(WorkerReceive(t)) && Enabled(st, WorkerReceive(t));
    } else if w.current.Some? {
      assert IsThreadStep(WorkerFinish(t, CLOSE)) && Enabled(st, WorkerFinish(t, CLOSE));
    } else {
      assert IsThreadStep(MasterReceive(t)) && Enabled(st, MasterReceive(t));
    }
  }

  /** No deadlock: while the backlog is positive some thread can move. */
  lemma NoDeadlock(st: State)
    requires ThreadsOk(st) && WorkConserving(st) && st.workers != [] && Backlog(st) > 0
    ensures exists ev :: IsThreadStep(ev) && Enabled(st, ev)
  {
    PhaseSumZero(st.workers);
    if st.waiting != [] {
      assert 0 !in st.idle && Loaded(st.workers[0]);
      SomeThreadCanMove(st, 0);
    } else {
      var t :| 0 <= t < |st.workers| && !Free(st.workers[t]);
      assert Loaded(st.workers[t]);
      SomeThreadCanMove(st, t);
    }
  }

  /** Full drain: the backlog is used up exactly when nobody waits and every thread is idle. */
  lemma Drained(st: State)
    requires ThreadsOk(st)
    ensures Backlog(st) == 0 <==> st.waiting == [] && |st.idle| == |st.workers|
  {
    PhaseSumZero(st.workers);
    if forall t :: 0 <= t < |st.workers| ==> Free(st.workers[t]) {
      assert st.working == {};
    } else {
      var t :| 0 <= t < |st.workers| && !Free(st.workers[t]);
      assert Loaded(st.workers[t]);
      assert Owned(st.workers[t]) in st.working;
    }
  }

  // ------------------------------------------------------------ where a socket goes

  /** The three events of a client: an accepted one is polled, one that hung up is closed, and a
      readable one goes to the first idle thread or to the end of the queue. */
  lemma ClientGoesTo(st: State, ev: Event)
    requires Inv(st) && Enabled(st, ev) && !IsThreadStep(ev)
    ensures var s, st' := ev.s, Step(st, ev);
            && (ev.Accept? ==> st'.polled == st.polled + [s] && st'.waiting == st.waiting
                               && st'.working == st.working && st'.closed == st.closed && st'.idle == st.idle)
            && (ev.ClientHangup? ==> st'.closed == st.closed + [s] && s !in st'.polled && st'.waiting == st.waiting
                                     && st'.working == st.working && st'.idle == st.idle)
            && (ev.ClientReady? ==> s !in st'.polled && st'.closed == st.closed)
            && (ev.ClientReady? && st.idle == [] ==> st'.waiting == st.waiting + [s] && st'.working == st.working)
            && (ev.ClientReady? && st.idle != [] ==>
                  && st'.waiting == st.waiting && s in st'.working && st'.idle == st.idle[1..]
                  && st.idle[0] < |st'.workers|
                  && st'.workers[st.idle[0]] == Worker([Message(PROCESS_REQUEST, s)], None, []))
  {
    hide Bijective, ThreadsAccounted, WorkConserving;
    StepPartition(st, ev);
    OnePlace(Step(st, ev), ev.s);
    if !ev.Accept? {
      OnePlace(st, ev.s);
      assert ev.s in multiset(st.polled);
      assert st.working - {ev.s} == st.working;
      NotPolled(st, ev);
    }
    if ev.ClientReady? && st.idle != [] {
      FirstIdleFree(st);
    }
  }

  lemma NotPolled(st: State, ev: Event)
    requires Inv(st) && Enabled(st, ev) && (ev.ClientReady? || ev.ClientHangup?)
    ensures ev.s !in Step(st, ev).polled
  {
    hide ThreadsAccounted, Bijective, WorkConserving;
    RemoveOne(st.polled, ev.s);
    OnePlace(st, ev.s);
    var rest := Remove(st.polled, ev.s);
    var places: multiset<Socket> := multiset(rest);
    assert places[ev.s] == 0 && ev.s !in places;
  }

  lemma FirstIdleFree(st: State)
    requires Inv(st) && st.idle != []
    ensures st.idle[0] < |st.workers| && Free(st.workers[st.idle[0]])
  {
    assert st.idle[0] in st.idle;
  }

  /** What a worker puts into its pipe stays there until the loop reads it. */
  lemma ReportStays(st: State, ev: Event, t: Thread)
    requires Inv(st) && Enabled(st, ev) && ev != MasterReceive(t)
    requires t < |st.workers| && st.workers[t].outbox != [] && Loaded(st.workers[t])
    ensures t < |Step(st, ev).workers| && Step(st, ev).workers[t] == st.workers[t]
  {
    hide Partitioned, Bijective, WorkConserving;
    if ev.ClientReady? && st.idle != [] {
      assert st.idle[0] in st.idle;
      FirstIdleFree(st);
    }
  }

  lemma {:induction false} ReportWaits(st: State, evs: seq<Event>, t: Thread)
    requires Inv(st) && Possible(st, evs) && forall i :: 0 <= i < |evs| ==> evs[i] != MasterReceive(t)
    requires t < |st.workers| && st.workers[t].outbox != [] && Loaded(st.workers[t])
    ensures t < |Run(st, evs).workers| && Run(st, evs).workers[t] == st.workers[t]
    decreases |evs|
  {
    hide Inv, Step, Enabled;
    if evs != [] {
      ReportStays(st, evs[0], t);
      StepKeeps(st, evs[0]);
      assert forall i :: 0 <= i < |evs| - 1 ==> evs[1..][i] == evs[i + 1];
      ReportWaits(Step(st, evs[0]), evs[1..], t);
    }
  }

  /** The thread of a report takes the head of the waiting queue; with nobody waiting it goes to the
      end of the idle queue. */
  lemma ThreadGoesTo(st: State, t: Thread)
    requires Inv(st) && Enabled(st, MasterReceive(t))
    ensures var st' := Step(st, MasterReceive(t));
            if st.waiting == [] then st'.waiting == [] && st'.idle == st.idle + [t]
            else st'.waiting == st.waiting[1..] && st'.idle == st.idle && st.waiting[0] in st'.working
  {
    Reporting(st, t);
    ReportedThenReused(st, t);
    hide Inv, Step;
  }

  /** The report of a finished request: polled again or closed, by its kind. */
  lemma ReportGoesTo(st: State, t: Thread)
    requires Inv(st) && Enabled(st, MasterReceive(t))
    ensures var s, again, st' := Owned(st.workers[t]), st.workers[t].outbox[0].kind == FINISHED_AND_CONTINUE,
                                 Step(st, MasterReceive(t));
            && st'.polled == (if again then st.polled + [s] else st.polled)
            && st'.closed == (if again then st.closed else st.closed + [s])
  {
    Reporting(st, t);
    ReportedThenReused(st, t);
    hide Inv, Step;
  }

  /** What the status of a request decides: when its report is read, and whatever happens in
      between, the socket of the thread is polled again if and only if the status was CONTINUE, and
      closed if and only if it was CLOSE. */
  lemma StatusDecides(st: State, t: Thread, status: ThreadStatus, evs: seq<Event>)
    requires Inv(st) && Enabled(st, WorkerFinish(t, status))
    requires Possible(Step(st, WorkerFinish(t, status)), evs)
    requires forall i :: 0 <= i < |evs| ==> evs[i] != MasterReceive(t)
    ensures var s, before := Owned(st.workers[t]), Run(Step(st, WorkerFinish(t, status)), evs);
            && Inv(before) && Enabled(before, MasterReceive(t)) && s in st.working && s in before.working
            && var after := Step(before, MasterReceive(t));
               && (s in after.polled <==> status == CONTINUE) && (s in after.closed <==> status == CLOSE)
               && after.polled == (if status == CONTINUE then before.polled + [s] else before.polled)
               && after.closed == (if status == CLOSE then before.closed + [s] else before.closed)
  {
    hide Inv, Enabled, Step, Run, Possible, Owned, Loaded;
    InvWellFormed(st);
    var st1 := Step(st, WorkerFinish(t, status));
    FinishedWorker(st, t, status);
    StepKeeps(st, WorkerFinish(t, status));
    ReportWaits(st1, evs, t);
    RunKeeps(st1, evs);
    WorkingOwned(st, t);
    ReportDecides(Run(st1, evs), t);
  }

  lemma ReportDecides(st: State, t: Thread)
    requires Inv(st) && t < |st.workers| && Loaded(st.workers[t]) && st.workers[t].outbox != []
    ensures Enabled(st, MasterReceive(t)) && Owned(st.workers[t]) in st.working
    ensures var s, again := Owned(st.workers[t]), st.workers[t].outbox[0].kind == FINISHED_AND_CONTINUE;
            var after := Step(st, MasterReceive(t));
            && (s in after.polled <==> again) && (s in after.closed <==> !again)
            && after.polled == (if again then st.polled + [s] else st.polled)
            && after.closed == (if again then st.closed else st.closed + [s])
  {
    hide Inv, Step, Owned, Loaded;
    ReportGoesTo(st, t);
    WorkingOwned(st, t);
    WorkingNowhereElse(st, Owned(st.workers[t]));
  }

  /** Finishing leaves the thread with one report, of the socket it worked on. */
  lemma FinishedWorker(st: State, t: Thread, status: ThreadStatus)
    requires Inv(st) && Enabled(st, WorkerFinish(t, status))
    ensures t < |Step(st, WorkerFinish(t, status)).workers| && t < |st.workers|
    ensures var w := Step(st, WorkerFinish(t, status)).workers[t];
            && Loaded(w) && Loaded(st.workers[t]) && |w.outbox| == 1 && Owned(w) == Owned(st.workers[t])
            && w.outbox[0].kind == if status == CONTINUE then FINISHED_AND_CONTINUE else FINISHED_AND_CLOSE
  {
    hide Partitioned, Bijective, WorkConserving;
  }

  lemma WorkingOwned(st: State, t: Thread)
    requires Inv(st) && t < |st.workers| && Loaded(st.workers[t])
    ensures Owned(st.workers[t]) in st.working
  {
  }

  lemma WorkingNowhereElse(st: State, s: Socket)
    requires Inv(st) && s in st.working
    ensures s !in st.polled && s !in st.waiting && s !in st.closed
  {
    OnePlace(st, s);
    assert s !in multiset(st.polled) && s !in multiset(st.waiting) && s !in multiset(st.closed);
  }
}
