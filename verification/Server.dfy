/** The objects of the dispatch loop, with the fields and methods of the program. Every handler
    is proved to make exactly the transition that module `Dispatch` gives its event. */
module Server {
  import opened Wrappers
  import opened Dispatch

  class ThreadControl {
    var threadList: seq<Thread>
    var threadQueue: seq<Thread>

    constructor (n: nat)
      ensures threadList == threadQueue == seq(n, i => i)
    {
      threadList, threadQueue := [], [];
      new;
      for i := 0 to n
        invariant threadList == threadQueue == seq(i, j => j)
      {
        threadList := threadList + [i];
        ThreadPush(i);
      }
    }

    method ThreadPush(t: Thread)
      modifies `threadQueue
      ensures threadQueue == old(threadQueue) + [t]
    {
      threadQueue := threadQueue + [t];
    }

    method ThreadPop() returns (popped: bool, t: Thread)
      modifies `threadQueue
      ensures popped == (old(threadQueue) != [])
      ensures popped ==> [t] + threadQueue == old(threadQueue)
      ensures !popped ==> threadQueue == old(threadQueue)
    {
      popped, t := false, 0;
      if threadQueue != [] {
        popped, t, threadQueue := true, threadQueue[0], threadQueue[1..];
      }
    }

    /** Takes a thread off the list and returns the number left. The idle queue keeps its entry. */
    method ThreadDelete(pos: nat) returns (left: nat)
      requires pos < |threadList|
      modifies `threadList
      ensures threadList == old(threadList[..pos] + threadList[pos + 1..]) && left == old(|threadList|) - 1
    {
      threadList := threadList[..pos] + threadList[pos + 1..];
      left := |threadList|;
    }

    /** The index operator; `None` stands for the INVALID_INDEX exception. */
    method At(index: int) returns (t: Option<Thread>)
      ensures t == if 0 <= index < |threadList| then Some(threadList[index]) else None
    {
      if 0 <= index < |threadList| {
        return Some(threadList[index]);
      }
      return None;
    }
  }

  /** `openSockets` is the dynamic part of the polled list, from `dyn_socket_base` on. */
  class SocketControl {
    var openSockets: seq<Socket>
    var waitingSockets: seq<Socket>
    var workingSockets: set<Socket>

    constructor ()
      ensures openSockets == waitingSockets == [] && workingSockets == {}
    {
      openSockets, waitingSockets, workingSockets := [], [], {};
    }

    method AddDynSocket(s: Socket)
      modifies `openSockets
      ensures openSockets == old(openSockets) + [s]
    {
      openSockets := openSockets + [s];
    }

    /** None is the exception for a position outside the list. */
    method RemoveAt(pos: int) returns (s: Option<Socket>)
      modifies `openSockets
      ensures s == if 0 <= pos < |old(openSockets)| then Some(old(openSockets)[pos]) else None
      ensures openSockets == if s.Some? then old(openSockets[..pos] + openSockets[pos + 1..]) else old(openSockets)
    {
      if pos < 0 || pos >= |openSockets| {
        return None;
      }
      s := Some(openSockets[pos]);
      openSockets := openSockets[..pos] + openSockets[pos + 1..];
    }

    /** False is the exception for a position outside the list. */
    method MoveToWaiting(pos: int) returns (ok: bool)
      modifies `openSockets, `waitingSockets
      ensures ok <==> 0 <= pos < |old(openSockets)|
      ensures openSockets == if ok then old(openSockets[..pos] + openSockets[pos + 1..]) else old(openSockets)
      ensures waitingSockets == if ok then old(waitingSockets + [openSockets[pos]]) else old(waitingSockets)
    {
      if pos < 0 || pos >= |openSockets| {
        return false;
      }
      waitingSockets := waitingSockets + [openSockets[pos]];
      openSockets := openSockets[..pos] + openSockets[pos + 1..];
      ok := true;
    }

    method GetWaiting() returns (s: Option<Socket>)
      modifies `waitingSockets
      ensures match s
              case Some(head) => [head] + waitingSockets == old(waitingSockets)
              case None => waitingSockets == old(waitingSockets) == []
    {
      if waitingSockets == [] {
        return None;
      }
      s := Some(waitingSockets[0]);
      waitingSockets := waitingSockets[1..];
    }

    method AddToWorking(s: Socket)
      modifies `workingSockets
      ensures workingSockets == old(workingSockets) + {s}
    {
      workingSockets := workingSockets + {s};
    }

    method RemoveFromWorking(s: Socket)
      modifies `workingSockets
      ensures workingSockets == old(workingSockets) - {s}
    {
      workingSockets := workingSockets - {s};
    }

    /** The position of a polled socket in the list. */
    method Position(s: Socket) returns (pos: nat)
      requires s in openSockets
      ensures pos < |openSockets| && openSockets[pos] == s
    {
      pos := 0;
      while openSockets[pos] != s
        invariant pos < |openSockets| && s in openSockets[pos..]
        decreases |openSockets| - pos
      {
        assert openSockets[pos..] == [openSockets[pos]] + openSockets[pos + 1..];
        pos := pos + 1;
      }
    }
  }

  lemma {:induction false} RemoveAtPosition(q: seq<Socket>, pos: nat)
    requires pos < |q| && multiset(q)[q[pos]] == 1
    ensures q[..pos] + q[pos + 1..] == Remove(q, q[pos])
  {
    assert q == [q[0]] + q[1..];
    if pos > 0 {
      assert q[1..][pos - 1] == q[pos] && q[pos] in q[1..];
      assert q[0] != q[pos];
      RemoveAtPosition(q[1..], pos - 1);
      assert q[..pos] + q[pos + 1..] == [q[0]] + (q[1..][..pos - 1] + q[1..][pos..]);
    }
  }

  /** A client event named by position is the event of the socket at that position. */
  lemma ClientEvent(st: State, pos: nat)
    requires Inv(st) && pos < |st.polled|
    ensures Enabled(st, ClientReady(st.polled[pos])) && Inv(Step(st, ClientReady(st.polled[pos])))
    ensures Enabled(st, ClientHangup(st.polled[pos])) && Inv(Step(st, ClientHangup(st.polled[pos])))
    ensures st.polled[..pos] + st.polled[pos + 1..] == Remove(st.polled, st.polled[pos])
    ensures st.idle != [] ==> st.idle[0] < |st.workers|
  {
    var s := st.polled[pos];
    OnePlace(st, s);
    assert s in multiset(st.polled);
    RemoveAtPosition(st.polled, pos);
    StepKeeps(st, ClientReady(s));
    StepKeeps(st, ClientHangup(s));
  }

  /** Reading a report, in the two parts of the handler. */
  lemma ReportRead(st: State, t: Thread)
    requires Inv(st) && Enabled(st, MasterReceive(t))
    ensures WellFormed(st) && Step(st, MasterReceive(t)) == Reuse(Reported(st, t), t)
    ensures st.workers[t].outbox[0].kind in {FINISHED_AND_CONTINUE, FINISHED_AND_CLOSE}
  {
    Reporting(st, t);
    ReportedThenReused(st, t);
  }

  class MainLoop {
    const threads: ThreadControl
    const sockets: SocketControl
    var workers: seq<Worker>
    var closed: seq<Socket>
    var accepted: set<Socket>

    ghost function Abs(): State
      reads this, threads, sockets
    {
      State(sockets.openSockets, sockets.waitingSockets, sockets.workingSockets, closed, accepted,
            threads.threadQueue, workers)
    }

    ghost predicate Valid()
      reads this, threads, sockets
    {
      Inv(Abs()) && threads.threadList == seq(|workers|, i => i)
    }

    constructor (n: nat)
      ensures Valid() && Abs() == Init(n) && fresh(threads) && fresh(sockets)
    {
      threads := new ThreadControl(n);
      sockets := new SocketControl();
      workers := seq(n, i => Worker([], None, []));
      closed, accepted := [], {};
      new;
      InitInv(n);
    }

    method SendControlMessage(t: Thread, msg: Message)
      requires t < |workers|
      modifies `workers
      ensures workers == old(workers[t := workers[t].(inbox := workers[t].inbox + [msg])])
    {
      workers := workers[t := workers[t].(inbox := workers[t].inbox + [msg])];
    }

    method AcceptConnection(s: Socket)
      requires Valid() && Enabled(Abs(), Accept(s))
      modifies this, sockets
      ensures Valid() && Abs() == Step(old(Abs()), Accept(s))
    {
      StepKeeps(Abs(), Accept(s));
      accepted := accepted + {s};
      sockets.AddDynSocket(s);
    }

    /** A free thread takes the socket, or it joins the waiting queue. */
    method Dispatch(pos: nat)
      requires pos < |sockets.openSockets| && WellFormed(Abs())
      requires sockets.openSockets[..pos] + sockets.openSockets[pos + 1..]
               == Remove(sockets.openSockets, sockets.openSockets[pos])
      modifies this, threads, sockets
      ensures Abs() == Dispatched(old(Abs()), old(sockets.openSockets[pos]))
      ensures threads.threadList == old(threads.threadList) && |workers| == old(|workers|)
    {
      var popped, t := threads.ThreadPop();
      if popped {
        assert old(threads.threadQueue)[0] == t;
        var sockid := sockets.RemoveAt(pos);
        sockets.AddToWorking(sockid.value);
        SendControlMessage(t, Message(PROCESS_REQUEST, sockid.value));
      } else {
        var _ := sockets.MoveToWaiting(pos);
      }
    }

    method CloseClient(pos: nat)
      requires pos < |sockets.openSockets|
      modifies this, sockets
      ensures sockets.openSockets == old(sockets.openSockets[..pos] + sockets.openSockets[pos + 1..])
      ensures sockets.workingSockets == old(sockets.workingSockets - {sockets.openSockets[pos]})
      ensures closed == old(closed + [sockets.openSockets[pos]])
      ensures workers == old(workers) && accepted == old(accepted)
      ensures sockets.waitingSockets == old(sockets.waitingSockets)
    {
      var sockid := sockets.RemoveAt(pos);
      sockets.RemoveFromWorking(sockid.value);
      closed := closed + [sockid.value];
    }

    method ClientInput(pos: nat)
      requires Valid() && pos < |sockets.openSockets|
      modifies this, threads, sockets
      ensures Enabled(old(Abs()), ClientReady(old(sockets.openSockets[pos])))
      ensures Valid() && Abs() == Step(old(Abs()), ClientReady(old(sockets.openSockets[pos])))
    {
      ClientEvent(Abs(), pos);
      Dispatch(pos);
    }

    method ClientHangUp(pos: nat)
      requires Valid() && pos < |sockets.openSockets|
      modifies this, sockets
      ensures Enabled(old(Abs()), ClientHangup(old(sockets.openSockets[pos])))
      ensures Valid() && Abs() == Step(old(Abs()), ClientHangup(old(sockets.openSockets[pos])))
    {
      ClientEvent(Abs(), pos);
      CloseClient(pos);
    }

    /** After a report: reuse the thread for a waiting socket or push it on the idle queue. */
    method ReuseThread(t: Thread)
      requires t < |workers| && threads.threadList == seq(|workers|, i => i)
      modifies this, threads, sockets
      ensures Abs() == Reuse(old(Abs()), t) && threads.threadList == old(threads.threadList)
    {
      var waiting := sockets.GetWaiting();
      match waiting {
        case Some(sockid) =>
          sockets.AddToWorking(sockid);
          SendControlMessage(t, Message(PROCESS_REQUEST, sockid));
        case None =>
          var tinfo := threads.At(t);
          threads.ThreadPush(tinfo.value);
      }
    }

    /** Reading one message from the pipe of a worker. */
    method ReceiveMessage(t: Thread) returns (msg: Message)
      requires t < |workers| && workers[t].outbox != []
      modifies `workers
      ensures |workers| == |old(workers)| && [msg] + workers[t].outbox == old(workers[t].outbox)
      ensures workers == old(workers)[t := old(workers)[t].(outbox := workers[t].outbox)]
    {
      msg := workers[t].outbox[0];
      workers := workers[t := workers[t].(outbox := workers[t].outbox[1..])];
    }

    /** A socket comes back from its worker: polled again, or closed. */
    method TakeBack(s: Socket, keep: bool)
      modifies this, sockets
      ensures sockets.workingSockets == old(sockets.workingSockets) - {s}
      ensures sockets.openSockets == old(sockets.openSockets) + if keep then [s] else []
      ensures closed == old(closed) + if keep then [] else [s]
      ensures sockets.waitingSockets == old(sockets.waitingSockets)
      ensures workers == old(workers) && accepted == old(accepted)
    {
      sockets.RemoveFromWorking(s);
      if keep {
        sockets.AddDynSocket(s);
      } else {
        closed := closed + [s];
      }
    }

    /** The socket of a report goes back to the list or is closed; other messages change nothing. */
    method TakeReport(t: Thread) returns (finished: bool)
      requires WellFormed(Abs()) && t < |workers| && workers[t].outbox != []
      modifies this, threads, sockets
      ensures threads.threadList == old(threads.threadList) && |workers| == |old(workers)|
      ensures finished <==> old(workers)[t].outbox[0].kind in {FINISHED_AND_CONTINUE, FINISHED_AND_CLOSE}
      ensures finished ==> Abs() == Reported(old(Abs()), t)
    {
      var msg := ReceiveMessage(t);
      match msg.kind {
        case FINISHED_AND_CONTINUE =>
          TakeBack(msg.sid, true);
          return true;
        case FINISHED_AND_CLOSE =>
          TakeBack(msg.sid, false);
          return true;
        case _ =>
          return false;
      }
    }

    method ControlMessage(t: Thread)
      requires Valid() && Enabled(Abs(), MasterReceive(t))
      modifies this, threads, sockets
      ensures Valid() && Abs() == Step(old(Abs()), MasterReceive(t))
    {
      StepKeeps(Abs(), MasterReceive(t));
      ReportRead(Abs(), t);
      hide Inv, Step, Reuse, Reported;
      var finished := TakeReport(t);
      if finished {
        ReuseThread(t);
      }
    }

    /** One turn of the worker loop: read a message, or answer the one being worked on. */
    method ProcessRequest(t: Thread, status: ThreadStatus)
      requires Valid() && (Enabled(Abs(), WorkerReceive(t)) || Enabled(Abs(), WorkerFinish(t, status)))
      modifies `workers
      ensures Valid()
      ensures Abs() == if old(workers)[t].current.Some? then Step(old(Abs()), WorkerFinish(t, status))
                       else Step(old(Abs()), WorkerReceive(t))
    {
      var w := workers[t];
      if w.current.Some? {
        StepKeeps(Abs(), WorkerFinish(t, status));
        var kind := if status == CONTINUE then FINISHED_AND_CONTINUE else FINISHED_AND_CLOSE;
        workers := workers[t := w.(current := None, outbox := w.outbox + [w.current.value.(kind := kind)])];
      } else {
        StepKeeps(Abs(), WorkerReceive(t));
        var msg := w.inbox[0];
        workers := workers[t :=
          w.(inbox := w.inbox[1..], current := if msg.kind == PROCESS_REQUEST then Some(msg) else None)];
      }
    }

    method Handle(ev: Event)
      requires Valid() && Enabled(Abs(), ev)
      modifies this, threads, sockets
      ensures Valid() && Abs() == Step(old(Abs()), ev)
    {
      match ev {
        case Accept(s) => AcceptConnection(s);
        case ClientReady(s) =>
          var pos := sockets.Position(s);
          ClientInput(pos);
        case ClientHangup(s) =>
          var pos := sockets.Position(s);
          ClientHangUp(pos);
        case WorkerReceive(t) => ProcessRequest(t, CLOSE);
        case WorkerFinish(t, status) => ProcessRequest(t, status);
        case MasterReceive(t) => ControlMessage(t);
      }
    }

    /** The loop over any possible order of events, from the state it is in. */
    method Loop(events: seq<Event>)
      requires Valid() && Possible(Abs(), events)
      modifies this, threads, sockets
      ensures Valid() && Abs() == Run(old(Abs()), events)
    {
      var i := 0;
      while i < |events|
        invariant 0 <= i <= |events|
        invariant Valid() && Possible(Abs(), events[i..])
        invariant Run(Abs(), events[i..]) == Run(old(Abs()), events)
      {
        assert events[i..][1..] == events[i + 1..];
        Handle(events[i]);
        i := i + 1;
      }
    }
  }
}
