/** The response side of `Connection` as a state machine on values: which bytes reach the wire,
    in which order, and which calls are refused. Lengths are those of a 64-bit build. */
module Responses {
  import opened Wrappers
  import opened Streams
  import opened Numbers
  import opened Chunks
  import opened FileRanges

  /** `buffer` is None in unbuffered mode; `out` is everything written to the stream so far. The
      iteration order of the header map is the order in which names were first set. */
  datatype Response = Response(
    status: string,
    headers: seq<(string, string)>,
    headerSent: bool,
    finished: bool,
    chunked: bool,
    buffer: Option<string>,
    out: string)

  datatype Op =
    | Header(name: string, value: string)
    | SetBuffer
    | SetChunked
    | Send(data: string)
    | SendAndFlush(data: string)
    | Flush
    | SendFile(content: FileBytes, from: int, to: int, blocks: seq<string>)  // the blocks the reads give

  /** The state after a call, and whether the call threw. */
  datatype StepResult = StepResult(after: Response, threw: bool)

  // ------------------------------------------------------------ bytes

  function HeaderLines(hs: seq<(string, string)>): string {
    if hs == [] then "" else hs[0].0 + ": " + hs[0].1 + CRLF + HeaderLines(hs[1..])
  }

  /** The header block; `n` is the announced length, left out in chunked mode. */
  function Head(status: string, headers: seq<(string, string)>, chunked: bool, n: nat): string {
    status + CRLF + HeaderLines(headers) +
    (if chunked then CRLF else "Content-Length: " + Decimal(n) + CRLF + CRLF)
  }

  function Chunk(data: string): string { Hex(|data|) + CRLF + data + CRLF }

  function ChunkBytes(cs: seq<string>): string {
    if cs == [] then "" else Chunk(cs[0]) + ChunkBytes(cs[1..])
  }

  function Flatten(cs: seq<string>): string {
    if cs == [] then "" else cs[0] + Flatten(cs[1..])
  }

  /** The blocks of a body as they go out. */
  function Wire(chunked: bool, blocks: seq<string>): string {
    if chunked then ChunkBytes(blocks) else Flatten(blocks)
  }

  // ------------------------------------------------------------ the calls

  function SetHeader(hs: seq<(string, string)>, name: string, value: string): seq<(string, string)> {
    if hs == [] then [(name, value)]
    else if hs[0].0 == name then [(name, value)] + hs[1..]
    else [hs[0]] + SetHeader(hs[1..], name, value)
  }

  function Buffered(r: Response): string {
    if r.buffer.Some? then r.buffer.value else ""
  }

  /** `send_header(n)`: a non-empty buffer decides the announced length, otherwise `n`. */
  function Announced(r: Response, n: nat): nat {
    if Buffered(r) != "" then |Buffered(r)| else n
  }

  function SendHeader(r: Response, n: nat): Response {
    r.(out := r.out + Head(r.status, r.headers, r.chunked, Announced(r, n)), headerSent := true)
  }

  function EnsureHeader(r: Response): Response {
    if r.headerSent then r else SendHeader(r, 0)
  }

  function Write(r: Response, data: string): Response { r.(out := r.out + data) }

  function AddToBuffer(r: Response, data: string): Response {
    if r.buffer.Some? then r.(buffer := Some(r.buffer.value + data)) else r
  }

  function EmptyBuffer(r: Response): Response {
    if r.buffer.Some? then r.(buffer := Some("")) else r
  }

  function DoSend(r: Response, data: string): StepResult {
    if r.finished then StepResult(r, true)
    else if r.buffer.Some? then StepResult(AddToBuffer(r, data), false)
    else if r.chunked then StepResult(Write(EnsureHeader(r), Chunk(data)), false)
    else if r.headerSent then StepResult(r, true)
    else StepResult(Write(SendHeader(r, |data|), data).(finished := true), false)
  }

  function DoSendAndFlush(r: Response, data: string): StepResult {
    if r.finished then StepResult(r, true)
    else
      var r1 := AddToBuffer(r, data);
      if r.chunked then
        var payload := if r1.buffer.Some? then r1.buffer.value else data;
        StepResult(EmptyBuffer(Write(EnsureHeader(r1), Chunk(payload))), false)
      else if r1.headerSent then StepResult(r1, true)
      else StepResult(EmptyBuffer(Write(SendHeader(r1, |data|), data)).(finished := true), false)
  }

  function DoFlush(r: Response): StepResult {
    if r.finished && (!r.headerSent || Buffered(r) != "") then StepResult(r, true)
    else
      var r1 := EnsureHeader(r);
      if Buffered(r) == "" then StepResult(r1.(finished := r.finished || !r.chunked), false)
      else if r.chunked then StepResult(EmptyBuffer(Write(r1, Chunk(Buffered(r)))), false)
      else StepResult(EmptyBuffer(Write(r1, Buffered(r))).(finished := true), false)
  }

  /** Buffered, a file only fills the buffer; otherwise its blocks go out behind a header. Reading
      beyond the end of the file finishes the response. */
  function DoSendFile(r: Response, content: FileBytes, from: int, to: int, blocks: seq<string>): StepResult {
    if r.finished || RangeRefused(|content|, from, to) then StepResult(r, true)
    else if r.buffer.Some? then StepResult(AddToBuffer(r, Flatten(blocks)), false)
    else
      RangeBounds(|content|, from, to);
      var r1 := if r.headerSent then r else SendHeader(r, RangeLength(|content|, from, to));
      StepResult(Write(r1, Wire(r.chunked, blocks)).(finished := !RangeFits(|content|, from, to)), false)
  }

  function Step(r: Response, op: Op): StepResult {
    match op
    case Header(name, value) =>
      if r.headerSent then StepResult(r, true)
      else StepResult(r.(headers := SetHeader(r.headers, name, value)), false)
    case SetBuffer =>
      if r.headerSent then StepResult(r, true)
      else StepResult(r.(buffer := if r.buffer.Some? then r.buffer else Some("")), false)
    case SetChunked =>
      if r.headerSent then StepResult(r, true)
      else StepResult(r.(headers := SetHeader(r.headers, "Transfer-Encoding", "chunked"), chunked := true), false)
    case Send(data) => DoSend(r, data)
    case SendAndFlush(data) => DoSendAndFlush(r, data)
    case Flush => DoFlush(r)
    case SendFile(content, from, to, blocks) => DoSendFile(r, content, from, to, blocks)
  }

  /** `finalize`, which the destructor calls. */
  function Finalize(r: Response): Response {
    Write(if r.chunked && !r.finished then Write(r, "0" + CRLF + CRLF) else r, CRLF).(finished := true)
  }

  function Run(r: Response, ops: seq<Op>): Response
    decreases |ops|
  {
    if ops == [] then r else Run(Step(r, ops[0]).after, ops[1..])
  }

  // ------------------------------------------------------------ what the calls amount to

  /** Whatever the block size and the short reads, the blocks of a file make its range. */
  predicate GoodOp(op: Op) {
    op.SendFile? && !RangeRefused(|op.content|, op.from, op.to) ==>
      Flatten(op.blocks) == FilePart(op.content, op.from, op.to) && "" !in op.blocks
  }

  predicate GoodOps(ops: seq<Op>) { forall i :: 0 <= i < |ops| ==> GoodOp(ops[i]) }

  /** The bytes a caller hands over. */
  function Data(op: Op): string {
    match op
    case Send(data) => data
    case SendAndFlush(data) => data
    case SendFile(content, from, to, blocks) => if RangeRefused(|content|, from, to) then "" else Flatten(blocks)
    case _ => ""
  }

  function AllData(ops: seq<Op>): string { if ops == [] then "" else Data(ops[0]) + AllData(ops[1..]) }

  /** What the calls have settled when the header goes out: the two modes, and that it is out. */
  datatype Plan = Plan(buffered: bool, chunked: bool, sent: bool)

  function NextPlan(p: Plan, op: Op): Plan {
    match op
    case Header(_, _) => p
    case SetBuffer => p.(buffered := true)
    case SetChunked => p.(chunked := true)
    case Send(_) => p.(sent := !p.buffered)
    case SendFile(content, from, to, _) => p.(sent := !p.buffered && !RangeRefused(|content|, from, to))
    case SendAndFlush(_) => p.(sent := true)
    case Flush => p.(sent := true)
  }

  function PlanOf(p: Plan, ops: seq<Op>): Plan
    decreases |ops|
  {
    if ops == [] || p.sent then p else PlanOf(NextPlan(p, ops[0]), ops[1..])
  }

  /** The data up to and with the call that sends the header. */
  function Taken(p: Plan, ops: seq<Op>): string
    decreases |ops|
  {
    if ops == [] || p.sent then "" else Data(ops[0]) + Taken(NextPlan(p, ops[0]), ops[1..])
  }

  predicate IsFlush(op: Op) { op.Flush? || op.SendAndFlush? }

  /** The data after the last flush, with `pending` in the buffer before the calls. */
  function Unflushed(pending: string, ops: seq<Op>): string
    decreases |ops|
  {
    if ops == [] then pending else Unflushed(if IsFlush(ops[0]) then "" else pending + Data(ops[0]), ops[1..])
  }

  /** Nothing is left over exactly when every non-empty piece of data has a flush at or after it. */
  lemma {:induction false} NothingUnflushed(pending: string, ops: seq<Op>)
    ensures Unflushed(pending, ops) == "" <==>
              && (pending != "" ==> exists j :: 0 <= j < |ops| && IsFlush(ops[j]))
              && (forall i :: 0 <= i < |ops| && Data(ops[i]) != "" ==> exists j :: i <= j < |ops| && IsFlush(ops[j]))
    decreases |ops|
  {
    if ops != [] {
      var rest, p := ops[1..], if IsFlush(ops[0]) then "" else pending + Data(ops[0]);
      NothingUnflushed(p, rest);
      assert forall i :: 0 <= i < |rest| ==> rest[i] == ops[i + 1];
      if Unflushed(pending, ops) == "" {
        if !IsFlush(ops[0]) && p != "" {
          var j :| 0 <= j < |rest| && IsFlush(rest[j]);
          assert IsFlush(ops[j + 1]);
        }
        forall i | 0 <= i < |ops| && Data(ops[i]) != "" ensures exists j :: i <= j < |ops| && IsFlush(ops[j]) {
          if i > 0 {
            assert Data(rest[i - 1]) != "";
            var j :| i - 1 <= j < |rest| && IsFlush(rest[j]);
            assert IsFlush(ops[j + 1]);
          }
        }
      } else {
        if p != "" && !exists j :: 0 <= j < |rest| && IsFlush(rest[j]) {
          assert forall j :: 0 < j < |ops| ==> ops[j] == rest[j - 1];
        }
      }
    }
  }

  // ------------------------------------------------------------ what one call puts on the wire

  function PlanFor(r: Response): Plan { Plan(r.buffer.Some?, r.chunked, r.headerSent) }

  predicate Fresh(r: Response) { !r.headerSent && r.out == "" && !r.finished }

  /** Before the header nothing is finished; behind an unchunked header nothing can be buffered. */
  predicate Sound(r: Response) {
    if !r.headerSent then !r.finished else r.chunked || r.finished || r.buffer.None?
  }

  /** The blocks a call writes. */
  function BlocksOf(r: Response, op: Op): seq<string> {
    if Step(r, op).threw then []
    else match op
      case Send(data) => if r.buffer.Some? then [] else [data]
      case SendAndFlush(data) => if r.chunked then [Buffered(r) + data] else [data]
      case Flush => if Buffered(r) == "" then [] else [Buffered(r)]
      case SendFile(_, _, _, blocks) => if r.buffer.Some? then [] else blocks
      case _ => []
  }

  /** The length that a call announces if it sends the header. */
  function LengthOf(r: Response, op: Op): nat {
    match op
    case Send(data) => |data|
    case SendAndFlush(data) => |Buffered(r)| + |data|
    case Flush => |Buffered(r)|
    case SendFile(content, from, to, _) =>
      if RangeRefused(|content|, from, to) then 0
      else
        RangeBounds(|content|, from, to);
        RangeLength(|content|, from, to)
    case _ => 0
  }

  /** One block on the wire. */
  lemma OneBlock(chunked: bool, block: string)
    ensures Wire(chunked, [block]) == if chunked then Chunk(block) else block
    ensures Flatten([block]) == block
  {
    assert ChunkBytes([block]) == Chunk(block) + "" == Chunk(block);
    assert Flatten([block]) == block + "" == block;
  }

  lemma LengthUnused(status: string, hs: seq<(string, string)>, n: nat, m: nat)
    ensures Head(status, hs, true, n) == Head(status, hs, true, m)
  {
  }

  /** A write behind a header that is sent for `n` bytes. */
  lemma WriteBehindHeader(r: Response, n: nat, blocks: seq<string>)
    ensures Write(SendHeader(r, n), Wire(r.chunked, blocks)).out
            == r.out + (Head(r.status, r.headers, r.chunked, Announced(r, n)) + Wire(r.chunked, blocks))
  {
    hide Wire;
    Assoc(r.out, Head(r.status, r.headers, r.chunked, Announced(r, n)), Wire(r.chunked, blocks));
  }

  /** The call that sends the header: one header block with the length of the call, then its
      blocks. Other calls before it write nothing. */
  lemma FirstCall(r: Response, op: Op)
    requires !r.headerSent && !r.finished
    ensures var r' := Step(r, op).after;
            PlanFor(r') == NextPlan(PlanFor(r), op) && Sound(r') && r'.status == r.status
    ensures !Step(r, op).after.headerSent ==> Step(r, op).after.out == r.out && BlocksOf(r, op) == []
    ensures Step(r, op).after.headerSent ==>
              && Step(r, op).after.headers == r.headers && Step(r, op).after.chunked == r.chunked
              && Step(r, op).after.out
                 == r.out + (Head(r.status, r.headers, r.chunked, LengthOf(r, op)) + Wire(r.chunked, BlocksOf(r, op)))
  {
    hide Head, Chunk, RangeLength, RangeRefused, RangeFits, HeaderLines, Wire, Flatten;
    LengthUnused(r.status, r.headers, LengthOf(r, op), Announced(r, 0));
    match op {
      case Send(data) =>
        OneBlock(r.chunked, data);
        WriteBehindHeader(r, if r.chunked then 0 else |data|, [data]);
      case SendAndFlush(data) =>
        var r1 := AddToBuffer(r, data);
        var block := if r.chunked then Buffered(r) + data else data;
        assert "" + data == data;
        OneBlock(r.chunked, block);
        WriteBehindHeader(r1, if r.chunked then 0 else |data|, [block]);
        LengthUnused(r.status, r.headers, LengthOf(r, op), Announced(r1, 0));
        assert !r.chunked ==> Announced(r1, |data|) == LengthOf(r, op);
      case Flush =>
        OneBlock(r.chunked, Buffered(r));
        EmptyWire(r.chunked);
        WriteBehindHeader(r, 0, if Buffered(r) == "" then [] else [Buffered(r)]);
      case SendFile(content, from, to, blocks) =>
        if !RangeRefused(|content|, from, to) {
          WriteBehindHeader(r, LengthOf(r, op), blocks);
        }
      case _ =>
    }
  }

  lemma EmptyWire(chunked: bool)
    ensures Wire(chunked, []) == "" && Flatten([]) == ""
  {
  }

  lemma {:induction false} ChunkBytesConcat(a: seq<string>, b: seq<string>)
    ensures ChunkBytes(a + b) == ChunkBytes(a) + ChunkBytes(b) && Flatten(a + b) == Flatten(a) + Flatten(b)
  {
    if a == [] {
      assert a + b == b;
    } else {
      assert (a + b)[1..] == a[1..] + b;
      ChunkBytesConcat(a[1..], b);
    }
  }

  lemma WireConcat(chunked: bool, a: seq<string>, b: seq<string>)
    ensures Wire(chunked, a + b) == Wire(chunked, a) + Wire(chunked, b)
  {
    ChunkBytesConcat(a, b);
  }

  /** A call behind the header: the modes and the header stay, its blocks are appended. */
  lemma LaterCall(r: Response, op: Op)
    requires r.headerSent && Sound(r)
    ensures var r' := Step(r, op).after;
            && PlanFor(r') == PlanFor(r) && Sound(r') && r'.status == r.status && r'.headers == r.headers
            && r'.out == r.out + Wire(r.chunked, BlocksOf(r, op)) && (r.finished ==> r' == r && BlocksOf(r, op) == [])
  {
    hide Head, Chunk, RangeLength, RangeRefused, RangeFits, HeaderLines, Wire, Flatten;
    EmptyWire(r.chunked);
    assert r.out + "" == r.out;
    match op {
      case Send(data) => OneBlock(r.chunked, data);
      case SendAndFlush(data) =>
        assert "" + data == data;
        OneBlock(r.chunked, Buffered(r) + data);
      case Flush => OneBlock(r.chunked, Buffered(r));
      case _ =>
    }
  }

  // ------------------------------------------------------------ whole runs

  function RunBlocks(r: Response, ops: seq<Op>): seq<string>
    decreases |ops|
  {
    if ops == [] then [] else BlocksOf(r, ops[0]) + RunBlocks(Step(r, ops[0]).after, ops[1..])
  }

  /** The length announced by the call that sends the header. */
  function RunLength(r: Response, ops: seq<Op>): nat
    decreases |ops|
  {
    if ops == [] then 0
    else if Step(r, ops[0]).after.headerSent then LengthOf(r, ops[0])
    else RunLength(Step(r, ops[0]).after, ops[1..])
  }

  /** Behind the header a run only appends blocks. */
  lemma {:induction false} RunLater(r: Response, ops: seq<Op>)
    requires r.headerSent && Sound(r)
    ensures var r' := Run(r, ops);
            && PlanFor(r') == PlanFor(r) && Sound(r') && r'.status == r.status && r'.headers == r.headers
            && r'.out == r.out + Wire(r.chunked, RunBlocks(r, ops))
            && (r.finished ==> r' == r && RunBlocks(r, ops) == [])
    decreases |ops|
  {
    hide Step, BlocksOf, Wire;
    EmptyWire(r.chunked);
    if ops == [] {
      assert r.out + "" == r.out;
    } else {
      var r1, a, b := Step(r, ops[0]).after, BlocksOf(r, ops[0]), RunBlocks(Step(r, ops[0]).after, ops[1..]);
      LaterCall(r, ops[0]);
      RunLater(r1, ops[1..]);
      WireConcat(r.chunked, a, b);
      Assoc(r.out, Wire(r.chunked, a), Wire(r.chunked, b));
    }
  }

  /** Any run of calls: whether the header goes out, and in which mode, is as the calls say; what
      is written is one header block and then the blocks. */
  lemma {:induction false} RunWrites(r: Response, ops: seq<Op>)
    requires !r.headerSent && !r.finished
    ensures PlanFor(Run(r, ops)) == PlanOf(PlanFor(r), ops) && Sound(Run(r, ops)) && Run(r, ops).status == r.status
    ensures !Run(r, ops).headerSent ==> Run(r, ops).out == r.out && RunBlocks(r, ops) == []
    ensures Run(r, ops).headerSent ==>
              var r' := Run(r, ops);
              r'.out == r.out + (Head(r'.status, r'.headers, r'.chunked, RunLength(r, ops))
                                 + Wire(r'.chunked, RunBlocks(r, ops)))
    decreases |ops|
  {
    hide Step, BlocksOf, Wire, Head, LengthOf, NextPlan;
    if ops != [] {
      var r1, a, b := Step(r, ops[0]).after, BlocksOf(r, ops[0]), RunBlocks(Step(r, ops[0]).after, ops[1..]);
      FirstCall(r, ops[0]);
      if r1.headerSent {
        RunLater(r1, ops[1..]);
        WireConcat(r.chunked, a, b);
        var head := Head(r.status, r.headers, r.chunked, LengthOf(r, ops[0]));
        Assoc(r.out, head + Wire(r.chunked, a), Wire(r.chunked, b));
        Assoc(head, Wire(r.chunked, a), Wire(r.chunked, b));
      } else {
        RunWrites(r1, ops[1..]);
        assert [] + b == b;
      }
    }
  }

  /** Calls that keep the framing. `sendAndFlush` announces the whole buffer and writes its argument;
      a file whose range ends behind it finishes the response with too few bytes; a second file goes
      out behind a header that does not announce it. */
  predicate Clean(r: Response, op: Op) {
    match op
    case SendAndFlush(_) => !r.headerSent && !r.chunked ==> Buffered(r) == ""
    case SendFile(content, from, to, blocks) =>
      r.finished || r.buffer.Some? || RangeRefused(|content|, from, to) ||
      (RangeFits(|content|, from, to) && (r.headerSent && !r.chunked ==> Flatten(blocks) == ""))
    case _ => true
  }

  predicate AllClean(r: Response, ops: seq<Op>)
    decreases |ops|
  {
    ops == [] || (Clean(r, ops[0]) && AllClean(Step(r, ops[0]).after, ops[1..]))
  }

  /** Exactly these calls break it: behind an unchunked header nothing may follow. */
  lemma {:induction false} CleanLater(r: Response, ops: seq<Op>)
    requires r.headerSent && Sound(r) && GoodOps(ops)
    ensures !r.chunked ==> (AllClean(r, ops) <==> Flatten(RunBlocks(r, ops)) == "")
    ensures r.chunked && !r.finished ==> (AllClean(r, ops) <==> !Run(r, ops).finished)
    decreases |ops|
  {
    if ops == [] {
      return;
    }
    var op, r1 := ops[0], Step(r, ops[0]).after;
    assert GoodOp(op);
    CleanCall(r, op);
    LaterCall(r, op);
    ChunkBytesConcat(BlocksOf(r, op), RunBlocks(r1, ops[1..]));
    hide Step, BlocksOf, Wire, Clean, GoodOp, Flatten;
    CleanLater(r1, ops[1..]);
    RunLater(r1, ops[1..]);
  }

  /** The same for one call. */
  lemma CleanCall(r: Response, op: Op)
    requires r.headerSent && Sound(r) && GoodOp(op)
    ensures !r.chunked ==> (Clean(r, op) <==> Flatten(BlocksOf(r, op)) == "")
    ensures r.chunked && !r.finished ==> (Clean(r, op) <==> !Step(r, op).after.finished)
    ensures r.finished ==> Clean(r, op)
  {
    hide Head, Chunk, RangeLength, RangeRefused, RangeFits, HeaderLines, Wire;
    if op.SendFile? && !RangeRefused(|op.content|, op.from, op.to) {
      RangeExact(op.content, op.from, op.to);
    }
  }

  /** And for the call that sends the header: announced and written lengths agree exactly when it
      is clean, and if they do not, nothing follows. */
  lemma CleanFirst(r: Response, op: Op)
    requires !r.headerSent && !r.finished && GoodOp(op) && Step(r, op).after.headerSent
    ensures !r.chunked ==> (Clean(r, op) <==> LengthOf(r, op) == |Flatten(BlocksOf(r, op))|)
    ensures r.chunked ==> (Clean(r, op) <==> !Step(r, op).after.finished)
    ensures !Clean(r, op) ==> Step(r, op).after.finished
  {
    hide Head, Chunk, RangeLength, RangeRefused, RangeFits, HeaderLines, Wire;
    match op {
      case Send(data) => OneBlock(r.chunked, data);
      case SendAndFlush(data) => OneBlock(r.chunked, data);
      case Flush => OneBlock(r.chunked, Buffered(r));
      case SendFile(content, from, to, _) => RangeExact(content, from, to);
      case _ =>
    }
  }

  /** The exact condition over a whole run: an unchunked body has the announced length, and a
      chunked one can still be closed, if and only if every call is clean. */
  lemma {:induction false} CleanExactly(r: Response, ops: seq<Op>)
    requires !r.headerSent && !r.finished && GoodOps(ops) && Run(r, ops).headerSent
    ensures !Run(r, ops).chunked ==> (AllClean(r, ops) <==> RunLength(r, ops) == |Flatten(RunBlocks(r, ops))|)
    ensures Run(r, ops).chunked ==> (AllClean(r, ops) <==> !Run(r, ops).finished)
    decreases |ops|
  {
    hide Wire, GoodOp, Flatten, LengthOf, NextPlan, Head;
    var op, r1 := ops[0], Step(r, ops[0]).after;
    assert GoodOp(op);
    FirstCall(r, op);
    EmptyWire(false);
    ChunkBytesConcat(BlocksOf(r, op), RunBlocks(r1, ops[1..]));
    if r1.headerSent {
      CleanFirst(r, op);
      RunLater(r1, ops[1..]);
      CleanLater(r1, ops[1..]);
      hide Step, BlocksOf, Clean;
    } else {
      CleanExactly(r1, ops[1..]);
      assert Clean(r, op) && BlocksOf(r, op) == [];
    }
  }

  // ------------------------------------------------------------ no byte lost or invented

  /** What a clean call takes in is on the wire or in the buffer afterwards, in order. */
  lemma CallConserves(r: Response, op: Op)
    requires Sound(r) && Clean(r, op)
    ensures Flatten(BlocksOf(r, op)) + Buffered(Step(r, op).after)
            == Buffered(r) + (if Step(r, op).threw then "" else Data(op))
  {
    hide Head, Chunk, RangeLength, RangeFits, HeaderLines, Wire;
    assert forall s: string :: s + "" == s && "" + s == s;
    EmptyWire(false);
    match op {
      case Send(data) => OneBlock(false, data);
      case SendAndFlush(data) =>
        OneBlock(false, data);
        OneBlock(false, Buffered(r) + data);
      case Flush => OneBlock(false, Buffered(r));
      case _ =>
    }
  }

  /** Before the header and in chunked mode a clean response takes everything. */
  lemma CallTakes(r: Response, op: Op)
    requires Sound(r) && !r.finished && (!r.headerSent || r.chunked)
    ensures Step(r, op).threw ==> Data(op) == ""
  {
    hide Head, Chunk, RangeLength, RangeFits, HeaderLines, Wire, Flatten;
  }

  /** Behind an unchunked header nothing is taken. */
  lemma CallTakesNothing(r: Response, op: Op)
    requires r.headerSent && !r.chunked && Sound(r) && Clean(r, op)
    ensures Step(r, op).threw || Data(op) == ""
    ensures Buffered(r) == "" ==> Buffered(Step(r, op).after) == ""
  {
    hide Head, Chunk, RangeLength, RangeFits, HeaderLines, Wire, Flatten;
  }

  /** The call that sends an unchunked header empties the buffer, and it stays empty. */
  lemma FirstEmpties(r: Response, op: Op)
    requires !r.headerSent && !r.finished && Step(r, op).after.headerSent && !r.chunked
    ensures Buffered(Step(r, op).after) == ""
  {
    hide Head, Chunk, RangeLength, RangeFits, HeaderLines, Wire, Flatten;
  }

  lemma {:induction false} StaysEmpty(r: Response, ops: seq<Op>)
    requires r.headerSent && !r.chunked && Sound(r) && AllClean(r, ops) && Buffered(r) == ""
    ensures Buffered(Run(r, ops)) == ""
    decreases |ops|
  {
    if ops != [] {
      CallTakesNothing(r, ops[0]);
      LaterCall(r, ops[0]);
      hide Step, Clean;
      StaysEmpty(Step(r, ops[0]).after, ops[1..]);
    }
  }

  lemma Conserved(a: string, b: string, rest: string, mid: string, before: string, data: string, more: string)
    requires a + mid == before + data && b + rest == mid + more
    ensures (a + b) + rest == before + (data + more)
  {
    Assoc(a, b, rest);
    Assoc(a, mid, more);
    Assoc(before, data, more);
  }

  /** Over a clean run: everything handed over until the response is complete is on the wire or in
      the buffer, in order. A chunked response, and one whose header is not out, is never complete;
      an unchunked one is complete with its header. */
  lemma {:induction false} RunConserves(r: Response, ops: seq<Op>)
    requires Sound(r) && !r.finished && (!r.headerSent || r.chunked) && AllClean(r, ops) && GoodOps(ops)
    ensures var r' := Run(r, ops);
            Flatten(RunBlocks(r, ops)) + Buffered(r')
            == Buffered(r) + if r'.headerSent && !r'.chunked then Taken(PlanFor(r), ops) else AllData(ops)
    decreases |ops|
  {
    if ops == [] {
      assert Flatten([]) + Buffered(r) == Buffered(r) + "";
      return;
    }
    var op, r1, rest := ops[0], Step(r, ops[0]).after, ops[1..];
    assert GoodOp(op);
    CallConserves(r, op);
    CallTakes(r, op);
    ChunkBytesConcat(BlocksOf(r, op), RunBlocks(r1, rest));
    var a, b, left := Flatten(BlocksOf(r, op)), Flatten(RunBlocks(r1, rest)), Buffered(Run(r1, rest));
    if r.headerSent {
      LaterCall(r, op);
      CleanCall(r, op);
    } else {
      FirstCall(r, op);
    }
    if !r.headerSent && r1.headerSent {
      CleanFirst(r, op);
      if !r.chunked {
        FirstEmpties(r, op);
        CleanLater(r1, rest);
        StaysEmpty(r1, rest);
        RunLater(r1, rest);
        Conserved(a, "", "", "", Buffered(r), Data(op), "");
        return;
      }
    }
    hide Step, Clean, BlocksOf, Flatten, NextPlan, Data;
    RunConserves(r1, rest);
    RunSettled(r1, rest);
    var more := if Run(r1, rest).headerSent && !Run(r1, rest).chunked then Taken(PlanFor(r1), rest) else AllData(rest);
    Conserved(a, b, left, Buffered(r1), Buffered(r), Data(op), more);
  }

  /** A run from a chunked header stays chunked. */
  lemma RunSettled(r: Response, ops: seq<Op>)
    requires Sound(r)
    ensures r.headerSent ==> PlanFor(Run(r, ops)) == PlanFor(r)
  {
    if r.headerSent {
      RunLater(r, ops);
    }
  }

  /** What one call leaves in the buffer. */
  lemma CallLeaves(r: Response, op: Op)
    requires Sound(r) && !r.finished && (!r.headerSent || r.chunked)
    ensures var r' := Step(r, op).after;
            && (r'.buffer.Some? ==> Buffered(r') == if IsFlush(op) then "" else Buffered(r) + Data(op))
            && (r'.buffer.None? && !r'.headerSent ==> Data(op) == "" && !IsFlush(op))
  {
    hide Head, Chunk, RangeLength, RangeFits, HeaderLines, Wire, Flatten;
    assert Buffered(r) + "" == Buffered(r);
  }

  /** In buffered mode, what stays in the buffer is the data after the last flush. */
  lemma {:induction false} RunLeaves(r: Response, ops: seq<Op>)
    requires Sound(r) && !r.finished && (!r.headerSent || r.chunked) && AllClean(r, ops) && GoodOps(ops)
    requires Run(r, ops).buffer.Some? && (Run(r, ops).headerSent ==> Run(r, ops).chunked)
    ensures Buffered(Run(r, ops)) == Unflushed(Buffered(r), ops)
    decreases |ops|
  {
    if ops == [] {
      return;
    }
    var op, r1, rest := ops[0], Step(r, ops[0]).after, ops[1..];
    assert GoodOp(op);
    CallLeaves(r, op);
    if r.headerSent {
      LaterCall(r, op);
      CleanCall(r, op);
    } else {
      FirstCall(r, op);
      if r1.headerSent {
        CleanFirst(r, op);
      }
    }
    RunSettled(r1, rest);
    assert r1.buffer.None? ==> Buffered(r) == "" && Buffered(r1) == "" && "" + "" == "";
    hide Step, Clean, NextPlan, Data, IsFlush;
    RunLeaves(r1, rest);
  }

  /** Framing, for any calls on a fresh response. The header goes out when the calls say so, and
      then once, before every body byte. With clean calls the body is the data that the calls
      handed over: all of it but what is still in the buffer in chunked mode, and otherwise what
      came up to the call that sent the header. The announced length is the length of the body, and
      a chunked body can be closed, if and only if all calls are clean. */
  lemma Framing(r: Response, ops: seq<Op>)
    requires Fresh(r) && GoodOps(ops)
    ensures PlanFor(Run(r, ops)) == PlanOf(PlanFor(r), ops)
    ensures !Run(r, ops).headerSent ==> Run(r, ops).out == ""
    ensures Run(r, ops).headerSent ==>
              var r' := Run(r, ops);
              r'.out == Head(r.status, r'.headers, r'.chunked, RunLength(r, ops)) + Wire(r'.chunked, RunBlocks(r, ops))
    ensures Run(r, ops).headerSent ==>
              var r' := Run(r, ops);
              AllClean(r, ops) <==>
              if r'.chunked then !r'.finished else RunLength(r, ops) == |Flatten(RunBlocks(r, ops))|
    ensures AllClean(r, ops) && Run(r, ops).headerSent && !Run(r, ops).chunked ==>
              Flatten(RunBlocks(r, ops)) == Buffered(r) + Taken(PlanFor(r), ops)
    ensures AllClean(r, ops) && !(Run(r, ops).headerSent && !Run(r, ops).chunked) ==>
              && Flatten(RunBlocks(r, ops)) + Buffered(Run(r, ops)) == Buffered(r) + AllData(ops)
              && (Run(r, ops).buffer.Some? ==> Buffered(Run(r, ops)) == Unflushed(Buffered(r), ops))
  {
    hide Step, Head, Wire, Flatten, PlanOf, AllClean, RunBlocks;
    var out := Run(r, ops).out;
    RunWrites(r, ops);
    if Run(r, ops).headerSent {
      CleanExactly(r, ops);
    }
    if AllClean(r, ops) {
      RunConserves(r, ops);
      if Run(r, ops).headerSent && !Run(r, ops).chunked {
        CompleteEmpty(r, ops);
      } else if Run(r, ops).buffer.Some? {
        RunLeaves(r, ops);
      }
    }
    assert forall s: string :: "" + s == s && s + "" == s;
  }

  /** Behind an unchunked header nothing is left in the buffer. */
  lemma {:induction false} CompleteEmpty(r: Response, ops: seq<Op>)
    requires !r.headerSent && !r.finished && AllClean(r, ops) && Run(r, ops).headerSent && !Run(r, ops).chunked
    ensures Buffered(Run(r, ops)) == ""
    decreases |ops|
  {
    var op, r1 := ops[0], Step(r, ops[0]).after;
    FirstCall(r, op);
    hide NextPlan, Clean;
    if r1.headerSent {
      RunSettled(r1, ops[1..]);
      FirstEmpties(r, op);
      StaysEmpty(r1, ops[1..]);
    } else {
      CompleteEmpty(r1, ops[1..]);
    }
  }

  /** A finished response never changes again, whatever is called. */
  lemma {:induction false} FinishedForever(r: Response, ops: seq<Op>)
    requires r.finished && Sound(r)
    ensures Run(r, ops) == r
    ensures forall i :: 0 <= i < |ops| && (ops[i].Send? || ops[i].SendAndFlush? || ops[i].SendFile?) ==>
              Step(r, ops[i]).threw
    ensures forall i :: 0 <= i < |ops| && ops[i].Flush? ==>
              (Step(r, ops[i]).threw <==> !r.headerSent || Buffered(r) != "")
    decreases |ops|
  {
    if ops != [] {
      LaterCall(r, ops[0]);
      FinishedForever(r, ops[1..]);
      assert forall i :: 0 < i < |ops| ==> ops[i] == ops[1..][i - 1];
    }
  }

  /** An open response refuses data only behind an unchunked header, and `flush` never. */
  lemma OpenTakes(r: Response, op: Op)
    requires Sound(r) && !r.finished
    ensures op.Send? || op.SendAndFlush? ==>
              (Step(r, op).threw <==> r.headerSent && !r.chunked)
    ensures op.Flush? ==> !Step(r, op).threw
    ensures op.SendFile? ==> (Step(r, op).threw <==> RangeRefused(|op.content|, op.from, op.to))
  {
    hide Head, Chunk, RangeLength, RangeRefused, RangeFits, HeaderLines, Wire, Flatten;
  }

  // ------------------------------------------------------------ calls that break the framing

  /** The exact condition for `sendAndFlush` in unchunked mode: announced and written lengths
      agree if and only if nothing was in the buffer before. */
  lemma SendAndFlushLength(r: Response, data: string)
    requires Fresh(r) && !r.chunked
    ensures var r' := Step(r, SendAndFlush(data)).after;
            exists n :: r'.out == Head(r.status, r.headers, false, n) + data && (n == |data| <==> Buffered(r) == "")
  {
    FirstCall(r, SendAndFlush(data));
    OneBlock(false, data);
    var n := LengthOf(r, SendAndFlush(data));
    assert Step(r, SendAndFlush(data)).after.out == Head(r.status, r.headers, false, n) + data;
  }

  function NewResponse(buffer: Option<string>): Response
  {
    Response("HTTP/1.1 200 OK", [], false, false, false, buffer, "")
  }

  /** "a" is buffered and "b" is sent with `sendAndFlush`: two bytes are announced, one goes out. */
  lemma SendAndFlushWitness()
    ensures var r := NewResponse(Some(""));
            Run(r, [Send("a"), SendAndFlush("b")]).out == Head(r.status, [], false, 2) + "b"
  {
    var r := NewResponse(Some(""));
    var r1 := Step(r, Send("a")).after;
    assert r1 == r.(buffer := Some("a")) by { assert "" + "a" == "a"; }
    FirstCall(r1, SendAndFlush("b"));
    OneBlock(false, "b");
    assert [Send("a"), SendAndFlush("b")][1..] == [SendAndFlush("b")];
    assert [SendAndFlush("b")][1..] == [];
    assert Run(r, [Send("a"), SendAndFlush("b")]) == Run(r1, [SendAndFlush("b")]) == Step(r1, SendAndFlush("b")).after;
  }

  function WholeFile(content: FileBytes): Op { SendFile(content, 0, 0, [content]) }

  /** Two files of two bytes: two bytes are announced, four go out. */
  lemma TwoFilesWitness()
    ensures var r := NewResponse(None);
            Run(r, [WholeFile("ab"), WholeFile("ab")]).out == Head(r.status, [], false, 2) + "abab"
  {
    var r, op := NewResponse(None), WholeFile("ab");
    var r1 := Step(r, op).after;
    FirstCall(r, op);
    OneBlock(false, "ab");
    LaterCall(r1, op);
    assert "ab" + "ab" == "abab";
    Assoc(Head(r.status, [], false, 2), "ab", "ab");
    assert [op, op][1..] == [op] && [op][1..] == [];
    assert Run(r, [op, op]) == Run(r1, [op]) == Step(r1, op).after;
  }

  /** A range that ends at the file size finishes a chunked response: its last chunk is missing. */
  lemma OpenChunksWitness()
    ensures var r := NewResponse(None).(chunked := true);
            Finalize(Step(r, SendFile("ab", 0, 2, ["ab"])).after).out
            == Head(r.status, [], true, 0) + Chunk("ab") + CRLF
  {
    var r, op := NewResponse(None).(chunked := true), SendFile("ab", 0, 2, ["ab"]);
    FirstCall(r, op);
    OneBlock(true, "ab");
    LengthUnused(r.status, [], LengthOf(r, op), 0);
  }

  // ------------------------------------------------------------ decoding what was written

  function WireOf(cs: seq<string>): (ws: seq<WireChunk>)
    ensures |ws| == |cs|
    ensures forall i :: 0 <= i < |cs| ==> ws[i] == WireChunk(Hex(|cs[i]|), cs[i])
  {
    if cs == [] then [] else [WireChunk(Hex(|cs[0]|), cs[0])] + WireOf(cs[1..])
  }

  /** The printed chunks followed by the last chunk are a chunked body. */
  lemma {:induction false} ChunkBytesAreBody(cs: seq<string>, tail: string)
    ensures ChunkBytes(cs) + ("0" + CRLF + CRLF + tail) == Body(WireOf(cs), "0", tail)
    ensures Payload(WireOf(cs)) == Flatten(cs)
  {
    hide Hex, Chunk;
    if cs != [] {
      ChunkBytesAreBody(cs[1..], tail);
      assert WireOf(cs)[1..] == WireOf(cs[1..]);
      ChunkInFront(cs[0], ChunkBytes(cs[1..]), "0" + CRLF + CRLF + tail);
    }
  }

  lemma ChunkInFront(data: string, more: string, rest: string)
    ensures (Chunk(data) + more) + rest == Hex(|data|) + (CRLF + (data + (CRLF + (more + rest))))
  {
    hide Hex;
    var h := Hex(|data|);
    Assoc(Chunk(data), more, rest);
    Assoc(h + CRLF + data, CRLF, more + rest);
    Assoc(h + CRLF, data, CRLF + (more + rest));
    Assoc(h, CRLF, data + (CRLF + (more + rest)));
  }

  lemma HexIsSizeLine(n: nat)
    requires n <= LONG_MAX
    ensures SizeLine(Hex(n), n)
  {
    ScanInvertsPrint(n);
    HexHasNoEol(n);
    HexLength(n);
  }

  lemma {:induction false} PartFits(cs: seq<string>, i: nat)
    requires i < |cs|
    ensures |cs[i]| <= |Flatten(cs)|
  {
    if i > 0 {
      PartFits(cs[1..], i - 1);
    }
  }

  lemma WireOfIsGood(cs: seq<string>, max: nat)
    requires "" !in cs && |Flatten(cs)| <= LONG_MAX && (max == 0 || |Flatten(cs)| <= max)
    ensures GoodChunks(WireOf(cs)) && Fit(WireOf(cs), max) && SizeLine("0", 0)
  {
    forall i | 0 <= i < |cs| ensures SizeLine(Hex(|cs[i]|), |cs[i]|) && |cs[i]| <= |Flatten(cs)| {
      PartFits(cs, i);
      HexIsSizeLine(|cs[i]|);
    }
    HexIsSizeLine(0);
    assert Hex(0) == "0";
  }

  lemma FinalizeBytes(r: Response, before: string, chunks: string)
    requires r.chunked && !r.finished && r.out == before + chunks
    ensures Finalize(r).out == before + (chunks + ("0" + CRLF + CRLF + CRLF))
  {
    assert ("0" + CRLF + CRLF) + CRLF == "0" + CRLF + CRLF + CRLF;
  }

  predicate NonEmptyData(op: Op) { op.Send? || op.SendAndFlush? ==> Data(op) != "" }

  lemma {:induction false} NoEmptyBlocks(r: Response, ops: seq<Op>)
    requires Sound(r) && GoodOps(ops) && forall i :: 0 <= i < |ops| ==> NonEmptyData(ops[i])
    ensures "" !in RunBlocks(r, ops)
    decreases |ops|
  {
    if ops != [] {
      var op := ops[0];
      assert GoodOp(op) && NonEmptyData(op);
      CallNotEmpty(r, op);
      if r.headerSent {
        LaterCall(r, op);
      } else {
        FirstCall(r, op);
      }
      hide Step, BlocksOf, NextPlan;
      NoEmptyBlocks(Step(r, op).after, ops[1..]);
    }
  }

  lemma CallNotEmpty(r: Response, op: Op)
    requires GoodOp(op) && NonEmptyData(op)
    ensures "" !in BlocksOf(r, op)
  {
    hide Head, Chunk, RangeLength, RangeFits, HeaderLines, Wire, Flatten;
  }

  /** The round trip: after any clean calls with non-empty data, buffered or not, and `finalize`,
      both readers get back the blocks of the run. `readAll` stops before the empty line that ends
      the body, `getc` after it; one more CRLF follows on the wire. */
  lemma ChunkedRoundTrip(r: Response, ops: seq<Op>, max: nat) returns (body: string)
    requires Fresh(r) && GoodOps(ops) && AllClean(r, ops)
    requires PlanOf(PlanFor(r), ops).chunked && PlanOf(PlanFor(r), ops).sent
    requires forall i :: 0 <= i < |ops| ==> NonEmptyData(ops[i])
    requires var data := Flatten(RunBlocks(r, ops)); |data| <= LONG_MAX && (max == 0 || |data| <= max)
    ensures Finalize(Run(r, ops)).out == Head(r.status, Run(r, ops).headers, true, 0) + body
    ensures var data := Flatten(RunBlocks(r, ops));
            && ReadAll(Open(body), max, "") == Ok((data, Open(CRLF + CRLF)))
            && GetAll(Reader(Open(body), 0, 0), max).Ok?
            && GetAll(Reader(Open(body), 0, 0), max).value.0 == data
            && GetAll(Reader(Open(body), 0, 0), max).value.1.ins == Open(CRLF)
  {
    hide AllClean, Head, PlanOf, Run, RunBlocks, NonEmptyData;
    var cs, r' := RunBlocks(r, ops), Run(r, ops);
    Framing(r, ops);
    LengthUnused(r.status, r'.headers, RunLength(r, ops), 0);
    NoEmptyBlocks(r, ops);
    body := ChunkBytes(cs) + ("0" + CRLF + CRLF + CRLF);
    FinalizeBytes(r', Head(r.status, r'.headers, true, 0), ChunkBytes(cs));
    Assoc(Head(r.status, r'.headers, true, 0), ChunkBytes(cs), "0" + CRLF + CRLF + CRLF);
    ChunkBytesAreBody(cs, CRLF);
    WireOfIsGood(cs, max);
    ReadAllDecodes(WireOf(cs), "0", CRLF, max, "");
    assert "" + Payload(WireOf(cs)) == Flatten(cs);
    var v := View("", WireOf(cs), "0", CRLF);
    assert "" + Payload(v.chunks) == Payload(v.chunks);
    GetAllDecodes(Reader(Open(body), 0, 0), v, max);
  }

  function BeforeEmpty(cs: seq<string>): (pre: seq<string>)
    ensures pre <= cs && "" !in pre && (|pre| < |cs| ==> cs[|pre|] == "")
  {
    if cs == [] || cs[0] == "" then [] else [cs[0]] + BeforeEmpty(cs[1..])
  }

  lemma EmptyChunkBytes(pre: seq<string>, post: seq<string>, last: string, tail: string)
    requires last == "0" + CRLF + CRLF && (post == [] || post[0] == "")
    ensures var rest := if post == [] then tail else ChunkBytes(post[1..]) + (last + tail);
            ChunkBytes(pre + post) + (last + tail) == ChunkBytes(pre) + (last + rest)
  {
    ChunkBytesConcat(pre, post);
    if post == [] {
      assert ChunkBytes(pre) + "" == ChunkBytes(pre);
    } else {
      var more := ChunkBytes(post[1..]);
      assert Hex(0) == "0" && Chunk("") == last;
      Assoc(ChunkBytes(pre), last + more, last + tail);
      Assoc(last, more, last + tail);
    }
  }

  /** An empty chunked send ends the body early: the reader gets the data before the first empty
      chunk, which is all the data if and only if nothing non-empty was sent after it. */
  lemma EmptyChunkEndsBody(cs: seq<string>, max: nat, tail: string)
    requires |Flatten(cs)| <= LONG_MAX && (max == 0 || |Flatten(cs)| <= max)
    ensures var pre := BeforeEmpty(cs);
            var got := ReadAll(Open(ChunkBytes(cs) + ("0" + CRLF + CRLF + tail)), max, "");
            && got.Ok? && got.value.0 == Flatten(pre)
            && (got.value.0 == Flatten(cs) <==> Flatten(cs[|pre|..]) == "")
  {
    var pre := BeforeEmpty(cs);
    var post := cs[|pre|..];
    assert cs == pre + post;
    ChunkBytesConcat(pre, post);
    WireOfIsGood(pre, max);
    var last := "0" + CRLF + CRLF;
    var rest := if post == [] then tail else ChunkBytes(post[1..]) + (last + tail);
    assert "" !in pre && |Flatten(pre)| <= |Flatten(cs)|;
    EmptyChunkBytes(pre, post, last, tail);
    ChunkBytesAreBody(pre, rest);
    ReadAllDecodes(WireOf(pre), "0", rest, max, "");
    assert "" + Payload(WireOf(pre)) == Flatten(pre);
  }

  /** With the sends "a", "" and "b" the reader gets "a"; with "a" and "" nothing is lost. */
  lemma EmptyChunkWitness(tail: string)
    ensures var end := "0" + CRLF + CRLF + tail;
            var lost, kept := ReadAll(Open(ChunkBytes(["a", "", "b"]) + end), 0, ""),
                              ReadAll(Open(ChunkBytes(["a", ""]) + end), 0, "");
            lost.Ok? && kept.Ok? && lost.value.0 == kept.value.0 == "a"
            && Flatten(["a", "", "b"]) == "ab" && Flatten(["a", ""]) == "a"
  {
    hide ReadAll, ChunkBytes;
    var three, two := ["a", "", "b"], ["a", ""];
    assert three[1..] == ["", "b"] && three[1..][1..] == ["b"] && two[1..] == [""];
    assert Flatten(["b"]) == "b" && Flatten(["", "b"]) == "b" && Flatten([""]) == "";
    assert BeforeEmpty(three) == ["a"] && BeforeEmpty(two) == ["a"] && Flatten(["a"]) == "a";
    EmptyChunkEndsBody(three, 0, tail);
    EmptyChunkEndsBody(two, 0, tail);
  }
}
