/** A client that reads a response with the program's own readers: the status line, the header
    block, and then the announced number of bytes or the chunks. */
module ResponseReadBack {
  import opened Wrappers
  import opened Streams
  import opened Numbers
  import opened HeaderText
  import opened Chunks
  import opened RequestHeaders
  import Responses
  import ResponseHeaders

  /** The fields of a response as they go out. */
  function Fields(hs: seq<Field>, chunked: bool, n: nat): seq<Field>
  {
    if chunked then hs else hs + [("Content-Length", Decimal(n))]
  }

  lemma {:induction false} LinesAreFields(hs: seq<Field>, more: seq<Field>, tail: string)
    ensures HeadBytes(hs + more, tail) == Responses.HeaderLines(hs) + HeadBytes(more, tail)
  {
    hide FieldText;
    if hs == [] {
      assert hs + more == more;
    } else {
      assert (hs + more)[1..] == hs[1..] + more;
      LinesAreFields(hs[1..], more, tail);
      LineInFront(hs[0]);
      Assoc(FieldText(hs[0]) + CRLF, Responses.HeaderLines(hs[1..]), HeadBytes(more, tail));
      LinesCons(hs);
    }
  }

  lemma LinesCons(hs: seq<Field>)
    requires hs != []
    ensures Responses.HeaderLines(hs) == (FieldText(hs[0]) + CRLF) + Responses.HeaderLines(hs[1..])
  {
  }

  lemma LineInFront(f: Field)
    ensures FieldText(f) == f.0 + ": " + f.1
  {
  }

  /** The header block of the writer is a header block for the reader. */
  lemma HeadIsBlock(status: string, hs: seq<Field>, chunked: bool, n: nat, tail: string)
    ensures Responses.Head(status, hs, chunked, n) + tail == status + CRLF + HeadBytes(Fields(hs, chunked, n), tail)
  {
    hide HeadBytes, Responses.HeaderLines;
    var lines := Responses.HeaderLines(hs);
    if chunked {
      LinesAreFields(hs, [], tail);
      assert hs + [] == hs;
      BlockEnd(tail);
      Assoc(status + CRLF + lines, CRLF, tail);
      Assoc(status + CRLF, lines, CRLF + tail);
    } else {
      var last := "Content-Length: " + Decimal(n) + CRLF + CRLF;
      LinesAreFields(hs, [("Content-Length", Decimal(n))], tail);
      LengthLine(n, tail);
      Assoc(status + CRLF + lines, last, tail);
      Assoc(status + CRLF, lines, last + tail);
    }
  }

  lemma BlockEnd(tail: string)
    ensures HeadBytes([], tail) == CRLF + tail
  {
  }

  lemma LengthLine(n: nat, tail: string)
    ensures HeadBytes([("Content-Length", Decimal(n))], tail) == "Content-Length: " + Decimal(n) + CRLF + CRLF + tail
  {
    var f: Field := ("Content-Length", Decimal(n));
    var none: seq<Field> := [];
    assert [f][1..] == none;
    BlockEnd(tail);
    assert f.0 + ": " == "Content-Length: ";
    Assoc(FieldText(f) + CRLF, CRLF, tail);
  }

  lemma {:induction false} ApplyConcat(h: Head, fs: seq<Field>, f: Field)
    ensures Apply(h, fs + [f])
            == if Apply(h, fs).Ok? then ApplyField(Apply(h, fs).value, Lower(f.0), f.1) else Apply(h, fs)
    decreases |fs|
  {
    hide ApplyField, Lower;
    if fs == [] {
      assert (fs + [f])[1..] == [];
    } else {
      assert (fs + [f])[1..] == fs[1..] + [f];
      var step := ApplyField(h, Lower(fs[0].0), fs[0].1);
      if step.Ok? {
        ApplyConcat(step.value, fs[1..], f);
      }
    }
  }

  lemma LengthField(h: Head, n: nat)
    requires n <= LLONG_MAX
    ensures var f := ("Content-Length", Decimal(n));
            && GoodField(f) && Lower(f.0) == "content-length"
            && ApplyField(h, Lower(f.0), f.1) == Ok(h.(fields := h.fields["content-length" := f.1], length := n))
  {
    hide Lower, Decimal, ScanDecimal, HeaderOptions, NoEol, Trimmed, FieldName;
    LowerOfLength();
    NameOfLength();
    ScanInvertsDecimal(n, LLONG_MAX);
    DecimalPlain(n);
  }

  lemma NameOfLength()
    ensures FieldName("Content-Length")
  {
  }

  lemma LowerOfLength()
    ensures Lower("Content-Length") == "content-length"
  {
    hide Lower;
    LowerConcat("C", "ontent-");
    LowerConcat("L", "ength");
    LowerConcat("C" + "ontent-", "L" + "ength");
    LowerKeeps("ontent-");
    LowerKeeps("ength");
    LowerLetter("C");
    LowerLetter("L");
    assert "Content-Length" == ("C" + "ontent-") + ("L" + "ength");
    assert "content-length" == ("c" + "ontent-") + ("l" + "ength");
  }

  lemma LowerLetter(s: string)
    requires |s| == 1
    ensures Lower(s) == [LowerChar(s[0])]
  {
  }

  /** A decimal number is short and has no byte that a header line would lose. */
  lemma DecimalPlain(n: nat)
    requires n <= LLONG_MAX
    ensures NoEol(Decimal(n)) && Trimmed(Decimal(n)) && |Decimal(n)| <= 20
  {
    var s := Decimal(n);
    assert forall k :: 0 <= k < |s| ==> IsDigit(s[k]);
    var a := n / 100000;
    var b := a / 100000;
    var c := b / 100000;
    DecimalFiveDigits(n);
    DecimalFiveDigits(a);
    DecimalFiveDigits(b);
    DecimalFiveDigits(c);
  }

  lemma DecimalFiveDigits(n: nat)
    ensures |Decimal(n)| <= 5 + |Decimal(n / 100000)| && (n < 100000 ==> |Decimal(n)| <= 5)
  {
    var a, b, c, d := n / 10, n / 100, n / 1000, n / 10000;
    assert b == a / 10 && c == b / 10 && d == c / 10 && n / 100000 == d / 10;
    assert |Decimal(n)| <= 1 + |Decimal(a)| && |Decimal(a)| <= 1 + |Decimal(b)| && |Decimal(b)| <= 1 + |Decimal(c)|;
    assert |Decimal(c)| <= 1 + |Decimal(d)|;
  }

  lemma LastField(fs: seq<Field>, f: Field)
    requires GoodFields(fs) && GoodField(f)
    ensures GoodFields(fs + [f])
  {
  }

  // ------------------------------------------------------------ whole responses

  /** A header block that a reader of header lines takes: printable fields that none of its parsers
      refuses. */
  predicate Readable(status: string, hs: seq<Field>)
  {
    status != "" && NoEol(status) && |status| < MAX_HEADERLINE_LEN && GoodFields(hs) && Apply(NewHead(), hs).Ok?
  }

  /** What the client sees of `wire`: the status line, and the head with the bytes that follow it. */
  ghost predicate Sees(wire: string, status: string, h: Head, after: string)
  {
    exists block ::
      && ReadLine(Open(wire), MAX_HEADERLINE_LEN) == Ok(Line(status, |status| + 2, Open(block)))
      && ReadHead(Open(block), NewHead()) == Ok((h, Open(after)))
  }

  lemma BlockSeen(status: string, hs: seq<Field>, chunked: bool, n: nat, tail: string, h: Head)
    requires Readable(status, hs) && GoodFields(Fields(hs, chunked, n))
    requires Apply(NewHead(), Fields(hs, chunked, n)) == Ok(h)
    ensures Sees(Responses.Head(status, hs, chunked, n) + tail, status, h, tail)
  {
    hide GoodFields, Apply, ReadHead, ReadLine, HeadBytes, Fields, Responses.Head;
    var fs := Fields(hs, chunked, n);
    HeadIsBlock(status, hs, chunked, n, tail);
    ReadsLine(status, HeadBytes(fs, tail), MAX_HEADERLINE_LEN);
    HeadReadsBack(fs, tail, NewHead());
  }

  /** The head the client gets, with the length and the coding of the body. */
  lemma HeadRead(hs: seq<Field>, chunked: bool, n: nat) returns (h: Head)
    requires GoodFields(hs) && Apply(NewHead(), hs).Ok? && n <= LLONG_MAX
    ensures GoodFields(Fields(hs, chunked, n)) && Apply(NewHead(), Fields(hs, chunked, n)) == Ok(h)
    ensures h.chunked <==> exists i :: 0 <= i < |hs| && SaysChunked(hs[i])
    ensures !chunked ==> h.length == n
    ensures h.fields == FieldMap(Fields(hs, chunked, n), map[])
  {
    hide GoodField, GoodFields, ApplyField, Apply, Decimal, SaysChunked, FieldMap;
    HeadMeans(NewHead(), hs);
    h := Apply(NewHead(), hs).value;
    if !chunked {
      h := LengthHeadRead(hs, n);
    }
    HeadMeans(NewHead(), Fields(hs, chunked, n));
  }

  lemma LengthHeadRead(hs: seq<Field>, n: nat) returns (h: Head)
    requires GoodFields(hs) && Apply(NewHead(), hs).Ok? && n <= LLONG_MAX
    ensures GoodFields(Fields(hs, false, n)) && Apply(NewHead(), Fields(hs, false, n)) == Ok(h)
    ensures h.chunked == Apply(NewHead(), hs).value.chunked && h.length == n
  {
    hide GoodField, GoodFields, ApplyField, Apply, Decimal;
    var f: Field := ("Content-Length", Decimal(n));
    LengthField(Apply(NewHead(), hs).value, n);
    ApplyConcat(NewHead(), hs, f);
    LastField(hs, f);
    h := Apply(NewHead(), hs + [f]).value;
  }

  // ------------------------------------------------------------ the headers that the calls have set

  lemma {:induction false} FieldMapAt(fs: seq<Field>, q: map<string, string>, key: string, value: string)
    requires forall i :: 0 <= i < |fs| && Lower(fs[i].0) == key ==> fs[i].1 == value
    ensures var m := FieldMap(fs, q);
            if exists i :: 0 <= i < |fs| && Lower(fs[i].0) == key then key in m && m[key] == value
            else (key in m <==> key in q) && (key in q ==> m[key] == q[key])
    decreases |fs|
  {
    hide Lower;
    if fs != [] {
      var q1 := q[Lower(fs[0].0) := fs[0].1];
      assert forall i :: 0 < i < |fs| ==> fs[i] == fs[1..][i - 1];
      assert forall i :: 0 <= i < |fs| - 1 ==> fs[1..][i] == fs[i + 1];
      FieldMapAt(fs[1..], q1, key, value);
    }
  }

  /** No other spelling of the name has been set. */
  ghost predicate OneSpelling(r: Responses.Response, ops: seq<Responses.Op>, name: string) {
    forall other :: Lower(other) == Lower(name) && other != name ==> ResponseHeaders.Final(r, ops, other) == None
  }

  /** The client finds under a name the value that the calls have set for it last, and nothing under
      a name that they have not set. */
  ghost predicate ShowsHeaders(h: Head, r: Responses.Response, ops: seq<Responses.Op>) {
    forall name :: OneSpelling(r, ops, name) && Lower(name) != "content-length" ==>
      match ResponseHeaders.Final(r, ops, name)
      case Some(value) => Lower(name) in h.fields && h.fields[Lower(name)] == value
      case None => Lower(name) !in h.fields
  }

  lemma OneHeader(r: Responses.Response, ops: seq<Responses.Op>, chunked: bool, n: nat, name: string)
    requires Responses.Fresh(r) && ResponseHeaders.OneEach(r.headers)
    requires OneSpelling(r, ops, name) && Lower(name) != "content-length"
    ensures var m := FieldMap(Fields(Responses.Run(r, ops).headers, chunked, n), map[]);
            match ResponseHeaders.Final(r, ops, name)
            case Some(value) => Lower(name) in m && m[Lower(name)] == value
            case None => Lower(name) !in m
  {
    hide Lower, Decimal, FieldMap, Responses.Run, ResponseHeaders.LastSet, ResponseHeaders.ValueOf;
    var hs := Responses.Run(r, ops).headers;
    var fs, key := Fields(hs, chunked, n), Lower(name);
    var final := ResponseHeaders.Final(r, ops, name);
    LowerOfLength();
    forall i | 0 <= i < |hs| && Lower(hs[i].0) == key ensures hs[i].0 == name && final == Some(hs[i].1) {
      LineIsFinal(r, ops, i);
    }
    FinalHeld(r, ops, name);
    assert forall i :: 0 <= i < |hs| ==> fs[i] == hs[i];
    FieldMapAt(fs, map[], key, if final.Some? then final.value else "");
  }

  lemma FinalHeld(r: Responses.Response, ops: seq<Responses.Op>, name: string)
    requires Responses.Fresh(r) && ResponseHeaders.OneEach(r.headers)
    ensures ResponseHeaders.OneEach(Responses.Run(r, ops).headers)
    ensures ResponseHeaders.Holds(Responses.Run(r, ops).headers, name, ResponseHeaders.Final(r, ops, name))
  {
    ResponseHeaders.ValueHeld(r.headers, name);
    ResponseHeaders.HeadersAre(r, ops, name, ResponseHeaders.ValueOf(r.headers, name));
  }

  lemma LineIsFinal(r: Responses.Response, ops: seq<Responses.Op>, i: nat)
    requires Responses.Fresh(r) && ResponseHeaders.OneEach(r.headers) && i < |Responses.Run(r, ops).headers|
    ensures var line := Responses.Run(r, ops).headers[i]; ResponseHeaders.Final(r, ops, line.0) == Some(line.1)
  {
    hide Responses.Run, ResponseHeaders.LastSet, ResponseHeaders.ValueOf;
    FinalHeld(r, ops, Responses.Run(r, ops).headers[i].0);
  }

  lemma HeadersShown(h: Head, r: Responses.Response, ops: seq<Responses.Op>, chunked: bool, n: nat)
    requires Responses.Fresh(r) && ResponseHeaders.OneEach(r.headers)
    requires h.fields == FieldMap(Fields(Responses.Run(r, ops).headers, chunked, n), map[])
    ensures ShowsHeaders(h, r, ops)
  {
    hide Lower, Decimal, FieldMap, Responses.Run, ResponseHeaders.Final, OneSpelling;
    forall name | OneSpelling(r, ops, name) && Lower(name) != "content-length"
      ensures match ResponseHeaders.Final(r, ops, name)
              case Some(value) => Lower(name) in h.fields && h.fields[Lower(name)] == value
              case None => Lower(name) !in h.fields
    {
      OneHeader(r, ops, chunked, n, name);
    }
  }

  /** The calls have left a header that says chunked. */
  ghost predicate SetsChunked(r: Responses.Response, ops: seq<Responses.Op>) {
    exists name :: Lower(name) == "transfer-encoding" && ResponseHeaders.Final(r, ops, name) == Some("chunked")
  }

  lemma SaysChunkedExactly(r: Responses.Response, ops: seq<Responses.Op>)
    requires Responses.Fresh(r) && ResponseHeaders.OneEach(r.headers)
    ensures var hs := Responses.Run(r, ops).headers;
            (exists i :: 0 <= i < |hs| && SaysChunked(hs[i])) <==> SetsChunked(r, ops)
  {
    hide Lower, Responses.Run, ResponseHeaders.LastSet, ResponseHeaders.ValueOf;
    var hs := Responses.Run(r, ops).headers;
    if i :| 0 <= i < |hs| && SaysChunked(hs[i]) {
      LineIsFinal(r, ops, i);
      assert Lower(hs[i].0) == "transfer-encoding";
    }
    if SetsChunked(r, ops) {
      var name :| Lower(name) == "transfer-encoding" && ResponseHeaders.Final(r, ops, name) == Some("chunked");
      FinalHeld(r, ops, name);
      var i :| 0 <= i < |hs| && hs[i] == (name, "chunked");
      assert SaysChunked(hs[i]);
    }
  }

  /** It does when `setChunkedTransfer` has come before the header, and no `header` call after it has
      replaced its line. */
  lemma ChunkedSet(r: Responses.Response, ops: seq<Responses.Op>, i: nat)
    requires i < |ops| && ops[i] == Responses.SetChunked
    requires !Responses.PlanOf(Responses.PlanFor(r), ops[..i]).sent
    requires forall j :: i < j < |ops| && ops[j].Header? && ops[j].name == "Transfer-Encoding" ==>
               ops[j].value == "chunked"
    ensures SetsChunked(r, ops)
  {
    hide Lower, Responses.PlanOf, ResponseHeaders.LastSet, ResponseHeaders.ValueOf;
    ResponseHeaders.ChunkedLineStays(Responses.PlanFor(r), ops, i,
                                     ResponseHeaders.ValueOf(r.headers, "Transfer-Encoding"));
    LowerOfCoding();
  }

  lemma LowerOfCoding()
    ensures Lower("Transfer-Encoding") == "transfer-encoding"
  {
    hide Lower;
    LowerConcat("T", "ransfer-");
    LowerConcat("E", "ncoding");
    LowerConcat("T" + "ransfer-", "E" + "ncoding");
    LowerKeeps("ransfer-");
    LowerKeeps("ncoding");
    LowerLetter("T");
    LowerLetter("E");
    assert "Transfer-Encoding" == ("T" + "ransfer-") + ("E" + "ncoding");
    assert "transfer-encoding" == ("t" + "ransfer-") + ("e" + "ncoding");
  }

  /** Unchunked: when the calls send the header, the client reads a head that announces exactly the
      body, then the body, which is the data up to the call that sent the header, and then the two
      bytes of `finalize`. The head shows the headers that the calls have set, and says chunked exactly
      when one of them does. */
  lemma UnchunkedReadsBack(r: Responses.Response, ops: seq<Responses.Op>) returns (h: Head)
    requires Responses.Fresh(r) && ResponseHeaders.OneEach(r.headers)
    requires Responses.GoodOps(ops) && Responses.AllClean(r, ops)
    requires var plan := Responses.PlanOf(Responses.PlanFor(r), ops); plan.sent && !plan.chunked
    requires var hs := Responses.Run(r, ops).headers;
             Readable(r.status, hs) && |Responses.Buffered(r) + Responses.Taken(Responses.PlanFor(r), ops)| <= LLONG_MAX
    ensures var body := Responses.Buffered(r) + Responses.Taken(Responses.PlanFor(r), ops);
            && Sees(Responses.Finalize(Responses.Run(r, ops)).out, r.status, h, body + CRLF)
            && h.length == |body|
    ensures ShowsHeaders(h, r, ops) && (h.chunked <==> SetsChunked(r, ops))
  {
    hide Responses.Run, Responses.AllClean, Responses.Head, Responses.PlanOf, Responses.GoodOps, Responses.Taken,
         Responses.RunBlocks, Responses.Flatten, GoodFields, Apply, Sees, SaysChunked, FieldMap, ShowsHeaders, SetsChunked,
         ResponseHeaders.OneEach;
    SaysChunkedExactly(r, ops);
    var r' := Responses.Run(r, ops);
    var body := Responses.Buffered(r) + Responses.Taken(Responses.PlanFor(r), ops);
    Responses.Framing(r, ops);
    h := HeadRead(r'.headers, false, |body|);
    HeadersShown(h, r, ops, false, |body|);
    BlockSeen(r.status, r'.headers, false, |body|, body + CRLF, h);
    Assoc(Responses.Head(r.status, r'.headers, false, |body|), body, CRLF);
  }

  /** Chunked: when the calls send the header, the client sees the headers that they have set, with
      the one that says chunked unless it was replaced, and `readAll` gives the client the data they handed over,
      less what stays in the buffer: all of it if and only if every piece has a flush at or after it. */
  lemma ChunkedReadsBack(r: Responses.Response, ops: seq<Responses.Op>, max: nat)
      returns (data: string, body: string, h: Head)
    requires Responses.Fresh(r) && ResponseHeaders.OneEach(r.headers)
    requires Responses.GoodOps(ops) && Responses.AllClean(r, ops)
    requires var plan := Responses.PlanOf(Responses.PlanFor(r), ops); plan.sent && plan.chunked
    requires forall i :: 0 <= i < |ops| ==> Responses.NonEmptyData(ops[i])
    requires var all := Responses.Buffered(r) + Responses.AllData(ops); |all| <= LONG_MAX && (max == 0 || |all| <= max)
    requires Readable(r.status, Responses.Run(r, ops).headers)
    ensures Sees(Responses.Finalize(Responses.Run(r, ops)).out, r.status, h, body)
    ensures ShowsHeaders(h, r, ops) && (h.chunked <==> SetsChunked(r, ops))
    ensures ReadAll(Open(body), max, "") == Ok((data, Open(CRLF + CRLF)))
    ensures var all, plan := Responses.Buffered(r) + Responses.AllData(ops), Responses.PlanOf(Responses.PlanFor(r), ops);
            var left := if plan.buffered then Responses.Unflushed(Responses.Buffered(r), ops) else "";
            data + left == all && (data == all <==> left == "")
  {
    hide Responses.Run, Responses.AllClean, Responses.Head, Responses.PlanOf, Responses.GoodOps, Responses.RunBlocks,
         Responses.Flatten, Responses.AllData, Responses.Finalize, GoodFields, Apply, Sees, SaysChunked, ReadAll,
         Responses.NonEmptyData, Responses.Unflushed, FieldMap, ShowsHeaders, SetsChunked, ResponseHeaders.OneEach;
    SaysChunkedExactly(r, ops);
    var r' := Responses.Run(r, ops);
    Responses.Framing(r, ops);
    data := Responses.Flatten(Responses.RunBlocks(r, ops));
    body := Responses.ChunkedRoundTrip(r, ops, max);
    h := HeadRead(r'.headers, true, 0);
    HeadersShown(h, r, ops, true, 0);
    BlockSeen(r.status, r'.headers, true, 0, body, h);
  }

  /** When the calls do not send the header, the client gets no status line: only the end of the
      chunks, if any, and one line end. Everything handed over stays in the buffer. */
  lemma NothingSent(r: Responses.Response, ops: seq<Responses.Op>)
    requires Responses.Fresh(r) && Responses.GoodOps(ops) && Responses.AllClean(r, ops)
    requires !Responses.PlanOf(Responses.PlanFor(r), ops).sent
    ensures var plan, r' := Responses.PlanOf(Responses.PlanFor(r), ops), Responses.Run(r, ops);
            && Responses.Finalize(r').out == (if plan.chunked then "0" + CRLF + CRLF else "") + CRLF
            && Responses.Flatten(Responses.RunBlocks(r, ops)) == ""
            && Responses.Buffered(r') == Responses.Buffered(r) + Responses.AllData(ops)
  {
    hide Responses.Step, Responses.AllClean, Responses.Head, Responses.PlanOf, Responses.GoodOps, Responses.AllData;
    Responses.Framing(r, ops);
    Responses.RunWrites(r, ops);
    assert "" + Responses.Buffered(Responses.Run(r, ops)) == Responses.Buffered(Responses.Run(r, ops));
  }

  /** A buffered send that nobody flushes: the client gets two bytes. */
  lemma LostWitness()
    ensures var r := Responses.NewResponse(Some(""));
            Responses.Finalize(Responses.Run(r, [Responses.Send("a")])).out == CRLF
  {
    var r, op := Responses.NewResponse(Some("")), Responses.Send("a");
    assert [op][1..] == [];
    assert Responses.Run(r, [op]) == Responses.Step(r, op).after;
    assert "" + CRLF == CRLF;
  }
}
