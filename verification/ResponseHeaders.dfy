/** The header lines of a response: for every name the value set last before the header goes out. */
module ResponseHeaders {
  import opened Wrappers
  import opened Streams
  import opened Responses

  type Line = (string, string)

  /** No name has two lines. */
  predicate OneEach(hs: seq<Line>) { forall i, j :: 0 <= i < j < |hs| ==> hs[i].0 != hs[j].0 }

  /** The value in the line with this name. */
  ghost predicate Holds(hs: seq<Line>, name: string, v: Option<string>) {
    match v
    case None => forall i :: 0 <= i < |hs| ==> hs[i].0 != name
    case Some(value) => exists i :: 0 <= i < |hs| && hs[i] == (name, value)
  }

  function ValueOf(hs: seq<Line>, name: string): Option<string> {
    if hs == [] then None else if hs[0].0 == name then Some(hs[0].1) else ValueOf(hs[1..], name)
  }

  lemma {:induction false} ValueHeld(hs: seq<Line>, name: string)
    ensures Holds(hs, name, ValueOf(hs, name))
  {
    if hs != [] && hs[0].0 != name {
      ValueHeld(hs[1..], name);
      assert forall i :: 0 < i < |hs| ==> hs[i] == hs[1..][i - 1];
      if ValueOf(hs, name).Some? {
        var i :| 0 <= i < |hs[1..]| && hs[1..][i] == (name, ValueOf(hs, name).value);
        assert hs[i + 1] == (name, ValueOf(hs, name).value);
      }
    } else if hs != [] {
      assert hs[0] == (name, hs[0].1);
    }
  }

  /** The value of `name` when the header of `r` goes out after `ops`. */
  function Final(r: Response, ops: seq<Op>, name: string): Option<string> {
    LastSet(PlanFor(r), ops, name, ValueOf(r.headers, name))
  }

  /** What one call sets the name to. */
  function SetBy(op: Op, name: string, was: Option<string>): Option<string> {
    match op
    case Header(n, value) => if n == name then Some(value) else was
    case SetChunked => if name == "Transfer-Encoding" then Some("chunked") else was
    case _ => was
  }

  /** The value set last by the calls up to the one that sends the header. */
  function LastSet(p: Plan, ops: seq<Op>, name: string, was: Option<string>): Option<string>
    decreases |ops|
  {
    if ops == [] || p.sent then was else LastSet(NextPlan(p, ops[0]), ops[1..], name, SetBy(ops[0], name, was))
  }

  lemma {:induction false} SetHeaderIs(hs: seq<Line>, name: string, value: string)
    requires OneEach(hs)
    ensures var hs' := SetHeader(hs, name, value);
            && OneEach(hs') && Holds(hs', name, Some(value))
            && (forall i :: 0 <= i < |hs'| && hs'[i].0 != name ==> hs'[i] in hs)
            && (forall i :: 0 <= i < |hs| && hs[i].0 != name ==> hs[i] in hs')
  {
    hide Holds;
    var hs' := SetHeader(hs, name, value);
    if hs == [] || hs[0].0 == name {
      HoldsAt(hs', 0, name, value);
      assert hs != [] ==> forall i :: 0 < i < |hs| ==> hs'[i] == hs[i];
    } else {
      var rest, rest' := hs[1..], SetHeader(hs[1..], name, value);
      assert forall i :: 0 < i < |hs| ==> hs[i] == rest[i - 1];
      SetHeaderIs(rest, name, value);
      assert hs' == [hs[0]] + rest';
      HoldsBehind(hs[0], rest', name, value);
      forall i | 0 <= i < |rest'| ensures rest'[i].0 != hs[0].0 {
        if rest'[i].0 != name {
          assert rest'[i] in rest;
        }
      }
      forall i | 0 <= i < |hs'| && hs'[i].0 != name ensures hs'[i] in hs {
        if i > 0 {
          assert hs'[i] == rest'[i - 1] && rest'[i - 1] in rest;
        }
      }
      forall i | 0 <= i < |hs| && hs[i].0 != name ensures hs[i] in hs' {
        if i > 0 {
          assert hs[i] == rest[i - 1] && rest[i - 1] in rest';
        }
      }
    }
  }

  lemma HoldsAt(hs: seq<Line>, i: nat, name: string, value: string)
    requires i < |hs| && hs[i] == (name, value)
    ensures Holds(hs, name, Some(value))
  {
  }

  lemma HoldsBehind(x: Line, hs: seq<Line>, name: string, value: string)
    requires Holds(hs, name, Some(value))
    ensures Holds([x] + hs, name, Some(value))
  {
    var i :| 0 <= i < |hs| && hs[i] == (name, value);
    assert ([x] + hs)[i + 1] == (name, value);
  }

  /** Setting one name leaves the values of the others. */
  lemma OthersKept(hs: seq<Line>, name: string, value: string, other: string, v: Option<string>)
    requires OneEach(hs) && Holds(hs, other, v)
    ensures Holds(SetHeader(hs, name, value), other, if other == name then Some(value) else v)
  {
    SetHeaderIs(hs, name, value);
    var hs' := SetHeader(hs, name, value);
    if other != name && v.Some? {
      var i :| 0 <= i < |hs| && hs[i] == (other, v.value);
      assert hs[i] in hs';
    }
  }

  /** One call before the header. */
  lemma CallSets(r: Response, op: Op, name: string, v: Option<string>)
    requires !r.headerSent && !r.finished && OneEach(r.headers) && Holds(r.headers, name, v)
    ensures var hs := Step(r, op).after.headers; OneEach(hs) && Holds(hs, name, SetBy(op, name, v))
  {
    FirstCall(r, op);
    hide Holds, OneEach;
    match op {
      case Header(n, value) =>
        SetHeaderIs(r.headers, n, value);
        OthersKept(r.headers, n, value, name, v);
      case SetChunked =>
        SetHeaderIs(r.headers, "Transfer-Encoding", "chunked");
        OthersKept(r.headers, "Transfer-Encoding", "chunked", name, v);
      case _ => SameHeaders(r, op);
    }
  }

  lemma SameHeaders(r: Response, op: Op)
    requires !op.Header? && !op.SetChunked?
    ensures Step(r, op).after.headers == r.headers
  {
  }

  /** Over any run: every name has at most one line, with the value that was set for it last before
      the header went out, by `header` or by `setChunkedTransfer`. */
  lemma {:induction false} HeadersAre(r: Response, ops: seq<Op>, name: string, v: Option<string>)
    requires !r.headerSent && !r.finished && OneEach(r.headers) && Holds(r.headers, name, v)
    ensures var hs := Run(r, ops).headers; OneEach(hs) && Holds(hs, name, LastSet(PlanFor(r), ops, name, v))
    decreases |ops|
  {
    hide Step, Holds, OneEach, NextPlan, SetBy;
    if ops == [] {
      return;
    }
    var r1 := Step(r, ops[0]).after;
    FirstCall(r, ops[0]);
    CallSets(r, ops[0], name, v);
    if r1.headerSent {
      RunLater(r1, ops[1..]);
      SentSetsNothing(PlanFor(r1), ops[1..], name, SetBy(ops[0], name, v));
    } else {
      HeadersAre(r1, ops[1..], name, SetBy(ops[0], name, v));
    }
  }

  lemma SentSetsNothing(p: Plan, ops: seq<Op>, name: string, was: Option<string>)
    requires p.sent
    ensures LastSet(p, ops, name, was) == was
  {
  }

  /** Once the header is out, settings are refused and change nothing. */
  lemma LateSettings(r: Response, op: Op)
    requires r.headerSent && (op.Header? || op.SetBuffer? || op.SetChunked?)
    ensures Step(r, op) == StepResult(r, true)
  {
  }

  // ------------------------------------------------------------ the line of a chunked response

  /** A `setChunkedTransfer` before the header, with no later `header` for the same name. */
  lemma {:induction false} ChunkedLineStays(p: Plan, ops: seq<Op>, i: nat, was: Option<string>)
    requires i < |ops| && ops[i] == SetChunked && !PlanOf(p, ops[..i]).sent
    requires forall j :: i < j < |ops| && ops[j].Header? && ops[j].name == "Transfer-Encoding" ==>
               ops[j].value == "chunked"
    ensures LastSet(p, ops, "Transfer-Encoding", was) == Some("chunked")
    decreases |ops|
  {
    hide NextPlan;
    if i == 0 {
      NotSentYet(p, ops, 0);
      StaysSet(NextPlan(p, ops[0]), ops[1..]);
    } else {
      NotSentYet(p, ops, i);
      ChunkedLineStays(NextPlan(p, ops[0]), ops[1..], i - 1, SetBy(ops[0], "Transfer-Encoding", was));
    }
  }

  lemma NotSentYet(p: Plan, ops: seq<Op>, i: nat)
    requires i < |ops| && !PlanOf(p, ops[..i]).sent
    ensures !p.sent && (i > 0 ==> !PlanOf(NextPlan(p, ops[0]), ops[1..][..i - 1]).sent)
  {
    hide NextPlan;
    if i > 0 {
      assert ops[..i][1..] == ops[1..][..i - 1] && ops[..i][0] == ops[0];
    }
  }

  lemma {:induction false} StaysSet(p: Plan, ops: seq<Op>)
    requires forall j :: 0 <= j < |ops| && ops[j].Header? && ops[j].name == "Transfer-Encoding" ==>
               ops[j].value == "chunked"
    ensures LastSet(p, ops, "Transfer-Encoding", Some("chunked")) == Some("chunked")
    decreases |ops|
  {
    hide NextPlan;
    if ops != [] {
      assert forall j :: 0 <= j < |ops| - 1 ==> ops[1..][j] == ops[j + 1];
      StaysSet(NextPlan(p, ops[0]), ops[1..]);
    }
  }

  /** `setChunkedTransfer` and `send("a")`: the status line, the line that says chunked, the empty
      line and the chunk. */
  lemma ChunkedHeadWitness()
    ensures Run(NewResponse(None), [SetChunked, Send("a")]).out
            == "HTTP/1.1 200 OK" + CRLF + ("Transfer-Encoding: chunked" + CRLF) + CRLF + Chunk("a")
  {
    var r := NewResponse(None);
    var ops := [SetChunked, Send("a")];
    var r1 := Step(r, SetChunked).after;
    assert r1 == r.(headers := [("Transfer-Encoding", "chunked")], chunked := true);
    assert ops[1..] == [Send("a")] && [Send("a")][1..] == [];
    assert Run(r, ops) == Run(r1, [Send("a")]) == Step(r1, Send("a")).after;
    FirstCall(r1, Send("a"));
    OneBlock(true, "a");
    OneLine();
  }

  lemma OneLine()
    ensures HeaderLines([("Transfer-Encoding", "chunked")]) == "Transfer-Encoding: chunked" + CRLF
  {
    assert [("Transfer-Encoding", "chunked")][1..] == [];
    assert "Transfer-Encoding" + ": " + "chunked" == "Transfer-Encoding: chunked";
  }
}
