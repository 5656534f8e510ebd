/** Reading the chunked transfer coding (section 7.1 of RFC 9112) as `ChunkReader` does it, on
    stream values, and what the three entry points mean for a well-formed body. */
module Chunks {
  import opened Wrappers
  import opened Streams
  import opened Numbers

  const MAX_HEADERLINE_LEN: nat := 65535

  /** The reader's fields: the stream, the size of the current chunk and the position in it. */
  datatype Reader = Reader(ins: Stream, size: nat, pos: nat)

  // ------------------------------------------------------------ the reader

  function TakeTextLine(ins: Stream): (r: Result<(string, Stream)>)
    ensures r.Ok? ==> |r.value.1.rest| < |ins.rest| && !r.value.1.Bad()
  {
    var line :- ReadLine(ins, MAX_HEADERLINE_LEN);
    if line.after.Bad() then Err(InputFailure) else Ok((line.text, line.after))
  }

  /** The size line of a chunk as `getline` and `getc` read it; `max` 0 means no limit. */
  function TakeSize(ins: Stream, max: nat): (r: Result<(nat, Stream)>)
    ensures r.Ok? ==> |r.value.1.rest| <= |ins.rest| && !r.value.1.Bad()
  {
    var (text, after) :- TakeTextLine(ins);
    var n :- StoUL(text);
    if max > 0 && n > max then Err(TooBig) else Ok((n, after))
  }

  /** At a chunk boundary: read the next size, or the end of the body, which leaves size 0. */
  function Load(r: Reader, max: nat): (res: Result<Reader>)
    ensures res.Ok? ==> |res.value.ins.rest| <= |r.ins.rest|
    ensures res.Ok? && res.value.size > 0 ==> res.value.pos < res.value.size
  {
    if r.pos < r.size then Ok(r)
    else
      var (n, ins) :- TakeSize(r.ins, max);
      if n > 0 then Ok(Reader(ins, n, 0))
      else
        var (_, after) :- TakeTextLine(ins);
        Ok(Reader(after, 0, r.pos))
  }

  /** Count one byte that was taken; the line end after the last one is consumed. */
  function Count(r: Reader): (res: Result<Reader>)
    ensures res.Ok? ==> |res.value.ins.rest| <= |r.ins.rest| && res.value.size == r.size
  {
    if r.pos + 1 < r.size then Ok(r.(pos := r.pos + 1))
    else
      var (_, after) :- TakeTextLine(r.ins);
      Ok(Reader(after, r.size, r.pos + 1))
  }

  /** sbumpc and the bookkeeping after it; None at the end of the raw input. */
  function Take(r: Reader): (res: Result<(Option<char>, Reader)>)
    ensures res.Ok? ==> |res.value.1.ins.rest| <= |r.ins.rest| && res.value.1.size == r.size
    ensures res.Ok? && res.value.0.Some? ==> |res.value.1.ins.rest| < |r.ins.rest|
  {
    if r.ins.rest == "" then
      var r' :- Count(r);
      Ok((None, r'))
    else
      var r' :- Count(r.(ins := r.ins.(rest := r.ins.rest[1..])));
      Ok((Some(r.ins.rest[0]), r'))
  }

  /** `getc`; None is EOF. */
  function GetC(r: Reader, max: nat): (res: Result<(Option<char>, Reader)>)
    ensures res.Ok? && res.value.0.Some? ==> |res.value.1.ins.rest| < |r.ins.rest|
  {
    var r1 :- Load(r, max);
    if r1.size == 0 then Ok((None, r1)) else Take(r1)
  }

  /** After a CR: an LF that is the next raw byte belongs to the line. */
  function AfterCr(r: Reader, n: nat): Result<(nat, Reader)> {
    if r.ins.rest != "" && r.ins.rest[0] == '\n' then
      var r' :- Count(r.(ins := r.ins.(rest := r.ins.rest[1..])));
      Ok((n + 1, r'))
    else Ok((n, r))
  }

  /** `getline`, with the text and the count so far. */
  function GetLine(r: Reader, max: nat, t: string, n: nat): Result<(string, nat, Reader)>
    decreases |r.ins.rest|
  {
    var r1 :- Load(r, max);
    if r1.size == 0 then Ok((t, n, r1))
    else
      var (c, r2) :- Take(r1);
      if c == None then
        Ok((t, n + 1, if t == "" then r2.(ins := r2.ins.(eof := true)) else r2))
      else if c.value == '\n' then
        Ok((t, n + 1, r2))
      else if c.value == '\r' then
        var (m, r3) :- AfterCr(r2, n + 1);
        Ok((t, m, r3))
      else GetLine(r2, max, t + [c.value], n + 1)
  }

  /** `read_chunk`: the data and what follows; empty data is the last chunk. */
  function ReadChunk(ins: Stream, max: nat): (r: Result<(string, Stream)>)
    ensures r.Ok? && r.value.0 != "" ==> |r.value.1.rest| < |ins.rest|
  {
    var (text, after) :- TakeTextLine(ins);
    var n :- StoL(text);
    if max > 0 && (n < 0 || n > max) then Err(TooBig)
    else if n == 0 then Ok(("", after))
    else if n < 0 then Err(ReadFailed)
    else if n > |after.rest| then Err(InputFailure)
    else
      var (_, next) :- TakeTextLine(Open(after.rest[n..]));
      Ok((after.rest[..n], next))
  }

  /** `readAll`, with the bytes read so far. */
  function ReadAll(ins: Stream, max: nat, acc: string): Result<(string, Stream)>
    decreases |ins.rest|
  {
    var (data, after) :- ReadChunk(ins, max);
    if data == "" then Ok((acc, after))
    else if max > 0 && |acc + data| > max then Err(TooBig)
    else ReadAll(after, max, acc + data)
  }

  /** A line never gives bytes back, and a line call that leaves the stream good has taken some. */
  lemma {:induction false} GetLineShrinks(r: Reader, max: nat, t: string, n: nat)
    requires GetLine(r, max, t, n).Ok?
    ensures var after := GetLine(r, max, t, n).value.2.ins;
            && |after.rest| <= |r.ins.rest| && (t == "" && !after.Bad() ==> |after.rest| < |r.ins.rest|)
    decreases |r.ins.rest|
  {
    var r1 := Load(r, max).value;
    if r1.size > 0 {
      var (c, r2) := Take(r1).value;
      if c.Some? && !IsEol(c.value) {
        GetLineShrinks(r2, max, t + [c.value], n + 1);
      }
    }
  }

  // ------------------------------------------------------------ well-formed bodies

  /** A chunk on the wire. The size line may carry leading zeros or an extension: all that
      matters is the number the scanners take from it. */
  datatype WireChunk = WireChunk(sizeLine: string, data: string)

  predicate SizeLine(line: string, n: nat) {
    NoEol(line) && |line| < MAX_HEADERLINE_LEN && StoUL(line) == Ok(n) && StoL(line) == Ok(n)
  }

  predicate GoodChunks(cs: seq<WireChunk>) {
    forall i :: 0 <= i < |cs| ==> cs[i].data != "" && SizeLine(cs[i].sizeLine, |cs[i].data|)
  }

  predicate Fit(cs: seq<WireChunk>, max: nat) {
    max > 0 ==> forall i :: 0 <= i < |cs| ==> |cs[i].data| <= max
  }

  function Payload(cs: seq<WireChunk>): string {
    if cs == [] then "" else cs[0].data + Payload(cs[1..])
  }

  /** The chunks, the last chunk's line, the closing empty line and whatever follows the body. */
  function Body(cs: seq<WireChunk>, last: string, tail: string): string {
    if cs == [] then last + (CRLF + (CRLF + tail))
    else cs[0].sizeLine + (CRLF + (cs[0].data + (CRLF + Body(cs[1..], last, tail))))
  }

  /** What a reader still has to deliver: the rest of the current chunk and the chunks after it. */
  datatype View = View(cur: string, chunks: seq<WireChunk>, last: string, tail: string)

  ghost predicate Shows(r: Reader, v: View) {
    && GoodChunks(v.chunks) && SizeLine(v.last, 0)
    && if v.cur == "" then r.size <= r.pos && r.ins == Open(Body(v.chunks, v.last, v.tail))
       else r.pos + |v.cur| == r.size && r.ins == Open(v.cur + (CRLF + Body(v.chunks, v.last, v.tail)))
  }

  function Remaining(v: View): string { v.cur + Payload(v.chunks) }

  function Loaded(v: View): View {
    if v.cur == "" && v.chunks != [] then v.(cur := v.chunks[0].data, chunks := v.chunks[1..]) else v
  }

  /** The view after one payload byte. */
  function Next(v: View): View
    requires GoodChunks(v.chunks) && Remaining(v) != ""
  {
    Loaded(v).(cur := Loaded(v).cur[1..])
  }

  // ------------------------------------------------------------ one call

  lemma TakesLine(text: string, tail: string)
    requires NoEol(text) && |text| < MAX_HEADERLINE_LEN
    ensures TakeTextLine(Open(text + (CRLF + tail))) == Ok((text, Open(tail)))
  {
    assert text + (CRLF + tail) == text + CRLF + tail;
    ReadsLine(text, tail, MAX_HEADERLINE_LEN);
  }

  lemma TakesEmptyLine(tail: string)
    ensures TakeTextLine(Open(CRLF + tail)) == Ok(("", Open(tail)))
  {
    assert "" + (CRLF + tail) == CRLF + tail;
    TakesLine("", tail);
  }

  lemma LoadShows(r: Reader, v: View, max: nat)
    requires Shows(r, v) && Fit(v.chunks, max)
    ensures Remaining(v) == "" ==> Load(r, max) == Ok(Reader(Open(v.tail), 0, r.pos))
    ensures Remaining(v) != "" ==>
              && Load(r, max).Ok? && Shows(Load(r, max).value, Loaded(v))
              && Loaded(v).cur != "" && Remaining(Loaded(v)) == Remaining(v)
              && Fit(Loaded(v).chunks, max)
  {
    if v.cur == "" {
      if v.chunks == [] {
        TakesLine(v.last, CRLF + v.tail);
        TakesEmptyLine(v.tail);
      } else {
        var c := v.chunks[0];
        TakesLine(c.sizeLine, c.data + (CRLF + Body(v.chunks[1..], v.last, v.tail)));
      }
    }
  }

  lemma TakeShows(r: Reader, v: View)
    requires Shows(r, v) && v.cur != ""
    ensures Take(r).Ok? && Take(r).value.0 == Some(v.cur[0])
    ensures Shows(Take(r).value.1, v.(cur := v.cur[1..]))
  {
    var rest := CRLF + Body(v.chunks, v.last, v.tail);
    assert (v.cur + rest)[1..] == v.cur[1..] + rest;
    if |v.cur| == 1 {
      assert v.cur[1..] + rest == rest;
      TakesEmptyLine(Body(v.chunks, v.last, v.tail));
    }
  }

  lemma NextByte(v: View)
    requires GoodChunks(v.chunks) && Remaining(v) != ""
    ensures Loaded(v).cur != "" && Loaded(v).cur[0] == Remaining(v)[0]
    ensures GoodChunks(Next(v).chunks) && Remaining(Next(v)) == Remaining(v)[1..]
    ensures Next(v).tail == v.tail && Next(v).last == v.last
  {
    assert Remaining(Loaded(v)) == Remaining(v) && Loaded(v).cur != "" && GoodChunks(Loaded(v).chunks);
    hide GoodChunks, Loaded;
    assert (Loaded(v).cur + Payload(Loaded(v).chunks))[1..] == Loaded(v).cur[1..] + Payload(Loaded(v).chunks);
  }

  /** `getc` delivers the next payload byte, and after the last one the end of data, exactly once,
      with the closing empty line consumed. */
  lemma GetCDelivers(r: Reader, v: View, max: nat)
    requires Shows(r, v) && Fit(v.chunks, max)
    ensures Remaining(v) == "" ==> GetC(r, max) == Ok((None, Reader(Open(v.tail), 0, r.pos)))
    ensures Remaining(v) != "" ==>
              && GetC(r, max).Ok? && GetC(r, max).value.0 == Some(Remaining(v)[0])
              && Shows(GetC(r, max).value.1, Next(v)) && Fit(Next(v).chunks, max)
  {
    LoadShows(r, v, max);
    if Remaining(v) != "" {
      NextByte(v);
      TakeShows(Load(r, max).value, Loaded(v));
    }
  }

  lemma RawStart(v: View)
    requires GoodChunks(v.chunks) && SizeLine(v.last, 0)
    ensures var raw := Body(v.chunks, v.last, v.tail); raw != "" && raw[0] != '\n'
  {
    var line := if v.chunks == [] then v.last else v.chunks[0].sizeLine;
    assert ScanHex("").None?;
    assert line != "" && !IsEol(line[0]);
  }

  /** After a CR that is not the last of its chunk. */
  lemma AfterCrShows(r: Reader, v: View, n: nat)
    requires Shows(r, v)
    ensures v.cur != "" && v.cur[0] == '\n' ==>
              AfterCr(r, n).Ok? && AfterCr(r, n).value.0 == n + 1 && Shows(AfterCr(r, n).value.1, v.(cur := v.cur[1..]))
    ensures !(v.cur != "" && v.cur[0] == '\n') ==> AfterCr(r, n) == Ok((n, r))
  {
    if v.cur == "" {
      RawStart(v);
    } else if v.cur[0] == '\n' {
      TakeShows(r, v);
    }
  }

  /** One line of a chunked payload: `i` bytes of text, `e` bytes of terminator, and the view after
      them. CR and LF go together only when no chunk ends between them; `e` is 0 at the end. */
  datatype LineView = LineView(i: nat, e: nat, after: View)

  function LineOf(v: View): LineView
    requires GoodChunks(v.chunks)
    decreases |Remaining(v)|
  {
    if Remaining(v) == "" then LineView(0, 0, v)
    else
      NextByte(v);
      var c, v2 := Remaining(v)[0], Next(v);
      if c == '\n' then LineView(0, 1, v2)
      else if c == '\r' then
        if v2.cur != "" && v2.cur[0] == '\n' then LineView(0, 2, Next(v2)) else LineView(0, 1, v2)
      else
        var line := LineOf(v2);
        line.(i := line.i + 1)
  }

  /** The reader after a line: it shows the view after it, or has consumed the body. */
  ghost predicate Settled(r: Reader, line: LineView) {
    if line.e == 0 then r.size == 0 && r.ins == Open(line.after.tail) else r.size > 0 && Shows(r, line.after)
  }

  lemma GetLineStep(r: Reader, v: View, max: nat, t: string, n: nat) returns (r2: Reader)
    requires Shows(r, v) && Fit(v.chunks, max) && Remaining(v) != ""
    ensures Shows(r2, Next(v)) && Fit(Next(v).chunks, max) && r2.size > 0
    ensures var c := Remaining(v)[0];
            GetLine(r, max, t, n) ==
            if c == '\n' then Ok((t, n + 1, r2))
            else if c == '\r' then
              var res := AfterCr(r2, n + 1);
              if res.Ok? then Ok((t, res.value.0, res.value.1)) else Err(res.error)
            else GetLine(r2, max, t + [c], n + 1)
  {
    LoadShows(r, v, max);
    var r1 := Load(r, max).value;
    NextByte(v);
    TakeShows(r1, Loaded(v));
    r2 := Take(r1).value.1;
  }

  lemma LineEnds(r: Reader, v: View, max: nat, t: string, n: nat) returns (r': Reader)
    requires Shows(r, v) && Fit(v.chunks, max) && Remaining(v) != "" && IsEol(Remaining(v)[0])
    ensures GetLine(r, max, t, n) == Ok((t, n + LineOf(v).e, r')) && Settled(r', LineOf(v))
  {
    r' := GetLineStep(r, v, max, t, n);
    NextByte(v);
    if Remaining(v)[0] == '\r' {
      AfterCrShows(r', Next(v), n + 1);
      if Next(v).cur != "" && Next(v).cur[0] == '\n' {
        r' := AfterCr(r', n + 1).value.1;
      }
    }
  }

  lemma TextGrows(t: string, p: string, i: nat)
    requires i < |p|
    ensures (t + [p[0]]) + p[1..][..i] == t + p[..i + 1] && p[1..][i..] == p[i + 1..]
  {
  }

  lemma LineOfSkips(v: View, t: string)
    requires GoodChunks(v.chunks) && Remaining(v) != "" && !IsEol(Remaining(v)[0])
    requires GoodChunks(Next(v).chunks) && LineOf(Next(v)).i <= |Remaining(Next(v))|
    ensures LineOf(v).i == LineOf(Next(v)).i + 1 <= |Remaining(v)| && LineOf(v).e == LineOf(Next(v)).e
    ensures LineOf(v).after == LineOf(Next(v)).after
    ensures (t + [Remaining(v)[0]]) + Remaining(Next(v))[..LineOf(Next(v)).i] == t + Remaining(v)[..LineOf(v).i]
  {
    NextByte(v);
    TextGrows(t, Remaining(v), LineOf(Next(v)).i);
  }

  lemma NoMoreLines(r: Reader, v: View, max: nat, t: string, n: nat) returns (r': Reader)
    requires Shows(r, v) && Fit(v.chunks, max) && Remaining(v) == ""
    ensures LineOf(v).i == LineOf(v).e == 0 && Settled(r', LineOf(v)) && GetLine(r, max, t, n) == Ok((t, n, r'))
  {
    LoadShows(r, v, max);
    r' := Load(r, max).value;
  }

  lemma OneTerminator(v: View)
    requires GoodChunks(v.chunks) && Remaining(v) != "" && IsEol(Remaining(v)[0])
    ensures LineOf(v).i == 0
  {
  }

  /** `getline` exactly, for every chunking. */
  lemma {:induction false} GetLineDelivers(r: Reader, v: View, max: nat, t: string, n: nat) returns (r': Reader)
    requires Shows(r, v) && Fit(v.chunks, max)
    ensures LineOf(v).i <= |Remaining(v)| && Settled(r', LineOf(v))
    ensures GetLine(r, max, t, n).Ok? && GetLine(r, max, t, n).value.2 == r'
    ensures GetLine(r, max, t, n).value.1 == n + LineOf(v).i + LineOf(v).e
    ensures GetLine(r, max, t, n).value.0 == t + Remaining(v)[..LineOf(v).i]
    decreases |Remaining(v)|
  {
    hide GetLine, LineOf, Settled, Fit, GoodChunks, Next, Body, SizeLine;
    var p := Remaining(v);
    if p == "" {
      r' := NoMoreLines(r, v, max, t, n);
      assert t + p[..0] == t;
      return;
    }
    if IsEol(p[0]) {
      r' := LineEnds(r, v, max, t, n);
      OneTerminator(v);
      assert t + p[..0] == t;
      return;
    }
    var r2 := GetLineStep(r, v, max, t, n);
    NextByte(v);
    r' := GetLineDelivers(r2, Next(v), max, t + [p[0]], n + 1);
    LineOfSkips(v, t);
    SettledSame(r', LineOf(Next(v)), LineOf(v));
  }

  lemma SettledSame(r: Reader, line: LineView, longer: LineView)
    requires Settled(r, line) && line.e == longer.e && line.after == longer.after
    ensures Settled(r, longer)
  {
  }

  /** What `LineOf` is for the bytes `p` of a payload. */
  ghost predicate LineFits(line: LineView, p: string, v: View) {
    && line.i == LineLength(p) && line.e <= EolLength(p[line.i..]) && (line.e == 0 <==> line.i == |p|)
    && GoodChunks(line.after.chunks) && Remaining(line.after) == p[line.i + line.e..]
    && line.after.tail == v.tail && line.after.last == v.last
  }

  lemma CrLineOf(v: View)
    requires GoodChunks(v.chunks) && Remaining(v) != "" && Remaining(v)[0] == '\r'
    ensures LineFits(LineOf(v), Remaining(v), v)
  {
    NextByte(v);
    var v2 := Next(v);
    if v2.cur != "" && v2.cur[0] == '\n' {
      NextByte(v2);
    }
  }

  lemma ShortLineOf(v: View)
    requires GoodChunks(v.chunks) && (Remaining(v) == "" || Remaining(v)[0] == '\n')
    ensures LineFits(LineOf(v), Remaining(v), v)
  {
    if Remaining(v) != "" {
      NextByte(v);
    }
  }

  lemma LongerLineOf(v: View)
    requires GoodChunks(v.chunks) && Remaining(v) != "" && !IsEol(Remaining(v)[0]) && GoodChunks(Next(v).chunks)
    requires LineFits(LineOf(Next(v)), Remaining(Next(v)), Next(v))
    ensures LineFits(LineOf(v), Remaining(v), v)
  {
    NextByte(v);
    var line := LineOf(Next(v));
    assert LineOf(v) == line.(i := line.i + 1);
    hide Next, GoodChunks, LineOf, LineFits;
    LongerFits(line, Remaining(v), v, Next(v));
  }

  lemma LongerFits(line: LineView, p: string, v: View, v1: View)
    requires p != "" && !IsEol(p[0]) && LineFits(line, p[1..], v1) && v1.tail == v.tail && v1.last == v.last
    ensures LineFits(line.(i := line.i + 1), p, v)
  {
    hide GoodChunks, LineLength, EolLength, Remaining;
    var i, e := line.i, line.e;
    LineLengthGrows(p);
    TextGrows("", p, i);
    EolFits(p[1..][i..]);
    assert p[1..][i + e..] == p[i + 1 + e..];
  }

  lemma EolFits(s: string)
    ensures EolLength(s) <= |s|
  {
  }

  lemma LineLengthGrows(p: string)
    requires p != "" && !IsEol(p[0])
    ensures LineLength(p) == 1 + LineLength(p[1..]) && p[LineLength(p)..] == p[1..][LineLength(p[1..])..]
  {
  }

  /** The text of the line is the payload up to the first CR or LF; the payload goes on after it. */
  lemma {:induction false} LineOfPayload(v: View)
    requires GoodChunks(v.chunks)
    ensures LineFits(LineOf(v), Remaining(v), v)
    decreases |Remaining(v)|
  {
    hide LineFits, LineOf, Next, GoodChunks;
    var p := Remaining(v);
    if p == "" || p[0] == '\n' {
      ShortLineOf(v);
    } else if p[0] == '\r' {
      CrLineOf(v);
    } else {
      NextByte(v);
      LineOfPayload(Next(v));
      LongerLineOf(v);
    }
  }

  // ------------------------------------------------------------ whole sessions

  /** No chunk ends in a CR whose LF starts the next chunk. */
  predicate NoSplitFrom(before: string, cs: seq<WireChunk>)
    decreases |cs|
  {
    cs == [] ||
    (!(before != "" && before[|before| - 1] == '\r' && cs[0].data != "" && cs[0].data[0] == '\n')
     && NoSplitFrom(cs[0].data, cs[1..]))
  }

  predicate NoSplit(v: View) { NoSplitFrom(v.cur, v.chunks) }

  lemma NoSplitNext(v: View)
    requires GoodChunks(v.chunks) && NoSplit(v) && Remaining(v) != ""
    ensures GoodChunks(Next(v).chunks) && NoSplit(Next(v))
    ensures var p := Remaining(v);
            |p| > 1 && p[0] == '\r' && p[1] == '\n' ==> Next(v).cur != "" && Next(v).cur[0] == '\n'
  {
    NextByte(v);
    var v1, v2 := Loaded(v), Next(v);
    assert NoSplitFrom(v1.cur, v1.chunks);
    assert v2.cur != "" ==> v2.cur[|v2.cur| - 1] == v1.cur[|v1.cur| - 1];
    if |Remaining(v)| > 1 && v2.cur == "" {
      assert v2.chunks != [] && Remaining(v2) == v2.chunks[0].data + Payload(v2.chunks[1..]);
      assert v1.cur[|v1.cur| - 1] == Remaining(v)[0] && Remaining(v)[1] == v2.chunks[0].data[0];
    } else if |Remaining(v)| > 1 {
      assert Remaining(v2)[0] == v2.cur[0];
    }
  }

  lemma NoSplitCr(v: View)
    requires GoodChunks(v.chunks) && NoSplit(v) && Remaining(v) != "" && Remaining(v)[0] == '\r'
    ensures LineOf(v).e == EolLength(Remaining(v)) && NoSplit(LineOf(v).after)
  {
    NextByte(v);
    NoSplitNext(v);
    if Next(v).cur != "" && Next(v).cur[0] == '\n' {
      NoSplitNext(Next(v));
    }
  }

  lemma FitNext(v: View, max: nat)
    requires GoodChunks(v.chunks) && Fit(v.chunks, max) && Remaining(v) != ""
    ensures Fit(Next(v).chunks, max)
  {
  }

  lemma {:induction false} NoSplitLine(v: View)
    requires GoodChunks(v.chunks) && NoSplit(v)
    ensures LineOf(v).i <= |Remaining(v)| && LineOf(v).e == EolLength(Remaining(v)[LineOf(v).i..])
    ensures NoSplit(LineOf(v).after)
    decreases |Remaining(v)|
  {
    var p := Remaining(v);
    if p == "" {
    } else if p[0] == '\r' {
      NoSplitCr(v);
      assert p[0..] == p;
    } else {
      NextByte(v);
      NoSplitNext(v);
      if p[0] != '\n' {
        NoSplitLine(Next(v));
        TextGrows("", p, LineOf(Next(v)).i);
      }
    }
  }

  lemma {:induction false} FitLine(v: View, max: nat)
    requires GoodChunks(v.chunks) && Fit(v.chunks, max)
    ensures Fit(LineOf(v).after.chunks, max)
    decreases |Remaining(v)|
  {
    if Remaining(v) != "" {
      NextByte(v);
      FitNext(v, max);
      if !IsEol(Remaining(v)[0]) {
        FitLine(Next(v), max);
      }
    }
  }

  lemma LineOfUnsplit(v: View, max: nat)
    requires GoodChunks(v.chunks) && NoSplit(v) && Fit(v.chunks, max)
    ensures var plain, line := ReadLine(Open(Remaining(v)), 0).value, LineOf(v);
            && line.i <= |Remaining(v)| && Remaining(v)[..line.i] == plain.text && line.i + line.e == plain.n
            && (line.e == 0 <==> LineLength(Remaining(v)) == |Remaining(v)|)
            && GoodChunks(line.after.chunks) && Remaining(line.after) == plain.after.rest
            && NoSplit(line.after) && Fit(line.after.chunks, max) && line.after.tail == v.tail
  {
    hide GoodChunks, Fit, LineOf, NoSplit, EolLength, LineLength;
    LineOfPayload(v);
    NoSplitLine(v);
    FitLine(v, max);
    var p, i := Remaining(v), LineOf(v).i;
    assert i == |p| ==> p[..i] == p;
  }

  /** When no CRLF pair is split, `getline` gives what `safeGetline` gives on the payload itself. */
  lemma GetLineIsSafeGetline(r: Reader, v: View, max: nat) returns (r': Reader)
    requires Shows(r, v) && Fit(v.chunks, max) && NoSplit(v)
    ensures GetLine(r, max, "", 0).Ok? && GetLine(r, max, "", 0).value.2 == r'
    ensures GetLine(r, max, "", 0).value.0 == ReadLine(Open(Remaining(v)), 0).value.text
    ensures GetLine(r, max, "", 0).value.1 == ReadLine(Open(Remaining(v)), 0).value.n
    ensures Settled(r', LineOf(v))
  {
    r' := GetLineDelivers(r, v, max, "", 0);
    LineOfUnsplit(v, max);
    var p, i := Remaining(v), LineOf(v).i;
    assert "" + p[..i] == p[..i];
  }

  /** Some chunk ends after exactly `k` bytes of `cur` and the chunks after it. */
  predicate ChunkEndsAfter(cur: string, cs: seq<WireChunk>, k: nat)
    decreases |cs|
  {
    k == |cur| || (k > |cur| && cs != [] && ChunkEndsAfter(cs[0].data, cs[1..], k - |cur|))
  }

  lemma EndsAfterNext(v: View, k: nat)
    requires GoodChunks(v.chunks) && Remaining(v) != ""
    ensures ChunkEndsAfter(v.cur, v.chunks, k + 1) <==> ChunkEndsAfter(Next(v).cur, Next(v).chunks, k)
  {
    NextByte(v);
    assert ChunkEndsAfter(v.cur, v.chunks, k + 1) <==> ChunkEndsAfter(Loaded(v).cur, Loaded(v).chunks, k + 1);
  }

  lemma CutAtCr(v: View)
    requires GoodChunks(v.chunks) && Remaining(v) != "" && Remaining(v)[0] == '\r'
    ensures LineOf(v).e < EolLength(Remaining(v)) <==>
            EolLength(Remaining(v)) == 2 && ChunkEndsAfter(v.cur, v.chunks, 1)
  {
    NextByte(v);
    EndsAfterNext(v, 0);
    var v2 := Next(v);
    assert v2.cur != "" ==> Remaining(v2)[0] == v2.cur[0];
  }

  lemma {:induction false} TerminatorCut(v: View)
    requires GoodChunks(v.chunks)
    ensures LineOf(v).i <= |Remaining(v)|
    ensures LineOf(v).e < EolLength(Remaining(v)[LineOf(v).i..]) <==>
            EolLength(Remaining(v)[LineOf(v).i..]) == 2 && ChunkEndsAfter(v.cur, v.chunks, LineOf(v).i + 1)
    decreases |Remaining(v)|
  {
    var p := Remaining(v);
    if p == "" {
    } else if p[0] == '\r' {
      assert p[0..] == p;
      CutAtCr(v);
    } else {
      NextByte(v);
      if p[0] != '\n' {
        TerminatorCut(Next(v));
        EndsAfterNext(v, LineOf(Next(v)).i + 1);
        TextGrows("", p, LineOf(Next(v)).i);
      }
    }
  }

  /** Per line, exactly: `getline` agrees with `safeGetline` unless a chunk ends between the CR
      and the LF of this line, and then it stops one byte early. */
  lemma SplitLineDiffers(r: Reader, v: View, max: nat)
    requires Shows(r, v) && Fit(v.chunks, max)
    ensures var p := Remaining(v);
            var i := LineLength(p);
            var split := EolLength(p[i..]) == 2 && ChunkEndsAfter(v.cur, v.chunks, i + 1);
            var plain := ReadLine(Open(p), 0).value;
            var res := GetLine(r, max, "", 0);
            res.Ok? && res.value.0 == plain.text && res.value.1 == plain.n - (if split then 1 else 0)
  {
    hide GetLine, LineOf, Settled, Fit, GoodChunks, Remaining, ChunkEndsAfter, Body, SizeLine, LineLength;
    var _ := GetLineDelivers(r, v, max, "", 0);
    LineOfPayload(v);
    TerminatorCut(v);
    var p, i := Remaining(v), LineOf(v).i;
    assert "" + p[..i] == p[..i];
    assert i == |p| ==> p[..i] == p;
  }

  lemma SmallSizeLine(n: nat)
    requires n < 256
    ensures SizeLine(Hex(n), n)
  {
    ScanInvertsPrint(n);
    var s := Hex(n);
    assert |s| <= 2 && forall k :: 0 <= k < |s| ==> IsHexDigit(s[k]);
  }

  /** The line "a" with its pair cut: `safeGetline` counts three bytes and `getline` two. */
  lemma SplitLineWitness()
    ensures var cs := [WireChunk("2", "a\r"), WireChunk("1", "\n")];
            && Payload(cs) == "a\r\n" && ReadLine(Open("a\r\n"), 0) == Ok(Line("a", 3, Open("")))
            && GetLine(Reader(Open(Body(cs, "0", "")), 0, 0), 0, "", 0).Ok?
            && GetLine(Reader(Open(Body(cs, "0", "")), 0, 0), 0, "", 0).value.0 == "a"
            && GetLine(Reader(Open(Body(cs, "0", "")), 0, 0), 0, "", 0).value.1 == 2
  {
    hide SizeLine, GetLine, Body, ReadLine, Payload, GoodChunks, ChunkEndsAfter, LineLength, EolLength;
    var cs := [WireChunk("2", "a\r"), WireChunk("1", "\n")];
    var v, r := View("", cs, "0", ""), Reader(Open(Body(cs, "0", "")), 0, 0);
    SplitChunks(cs);
    WholeLineA();
    assert "" + "a\r\n" == "a\r\n";
    SplitLineDiffers(r, v, 0);
  }

  lemma SplitChunks(cs: seq<WireChunk>)
    requires cs == [WireChunk("2", "a\r"), WireChunk("1", "\n")]
    ensures GoodChunks(cs) && SizeLine("0", 0) && Payload(cs) == "a\r\n" && ChunkEndsAfter("", cs, 2)
  {
    hide SizeLine;
    SmallSizeLine(0);
    SmallSizeLine(1);
    SmallSizeLine(2);
    assert Hex(0) == "0" && Hex(1) == "1" && Hex(2) == "2";
    assert cs[1..] == [WireChunk("1", "\n")] && cs[1..][1..] == [];
    assert Payload(cs[1..]) == "\n" + "" == "\n";
    assert "a\r" + "\n" == "a\r\n";
  }

  lemma WholeLineA()
    ensures LineLength("a\r\n") == 1 && EolLength("a\r\n"[1..]) == 2
    ensures ReadLine(Open("a\r\n"), 0) == Ok(Line("a", 3, Open("")))
  {
    LineLengthIs("a\r\n", 1);
    assert "a\r\n" == "a" + "\r\n" && "a\r\n"[1..] == "\r\n" && "\r\n"[2..] == "";
    ReadLineIs("a", "\r\n", 0);
  }

  datatype Call = CallGetC | CallGetLine
  datatype Answer = Byte(c: Option<char>) | Text(line: string, n: nat)

  /** The answers of a reader to a list of calls, up to and including the first end of data. */
  function ReaderSession(r: Reader, max: nat, calls: seq<Call>): Result<seq<Answer>>
    decreases |calls|
  {
    if calls == [] then Ok([])
    else if calls[0].CallGetC? then
      var (c, r') :- GetC(r, max);
      if c == None then Ok([Byte(None)])
      else
        var more :- ReaderSession(r', max, calls[1..]);
        Ok([Byte(c)] + more)
    else
      var (t, n, r') :- GetLine(r, max, "", 0);
      if r'.size == 0 then Ok([Text(t, n)])
      else
        var more :- ReaderSession(r', max, calls[1..]);
        Ok([Text(t, n)] + more)
  }

  /** The same calls on the decoded payload, with one cursor and `safeGetline`. */
  function CursorSession(p: string, calls: seq<Call>): seq<Answer>
    decreases |calls|
  {
    if calls == [] then []
    else if calls[0].CallGetC? then
      if p == "" then [Byte(None)] else [Byte(Some(p[0]))] + CursorSession(p[1..], calls[1..])
    else
      var line := ReadLine(Open(p), 0).value;
      if LineLength(p) == |p| then [Text(line.text, line.n)]
      else [Text(line.text, line.n)] + CursorSession(line.after.rest, calls[1..])
  }

  /** Any interleaving of `getc` and `getline` sees one cursor over the payload. */
  lemma {:induction false} InterleavingRefinesCursor(r: Reader, v: View, max: nat, calls: seq<Call>)
    requires Shows(r, v) && Fit(v.chunks, max) && NoSplit(v)
    ensures ReaderSession(r, max, calls) == Ok(CursorSession(Remaining(v), calls))
    decreases |calls|
  {
    if calls != [] {
      if calls[0].CallGetC? {
        GetCDelivers(r, v, max);
        if Remaining(v) != "" {
          NextByte(v);
          NoSplitNext(v);
          InterleavingRefinesCursor(GetC(r, max).value.1, Next(v), max, calls[1..]);
        }
      } else {
        var r' := GetLineIsSafeGetline(r, v, max);
        LineOfUnsplit(v, max);
        if r'.size > 0 {
          InterleavingRefinesCursor(r', LineOf(v).after, max, calls[1..]);
        }
      }
    }
  }

  // ------------------------------------------------------------ readAll

  lemma ReadChunkReads(c: WireChunk, rest: string, max: nat)
    requires c.data != "" && SizeLine(c.sizeLine, |c.data|)
    ensures ReadChunk(Open(c.sizeLine + (CRLF + (c.data + (CRLF + rest)))), max)
            == if max > 0 && |c.data| > max then Err(TooBig) else Ok((c.data, Open(rest)))
  {
    var after := c.data + (CRLF + rest);
    TakesLine(c.sizeLine, after);
    assert after[..|c.data|] == c.data && after[|c.data|..] == CRLF + rest;
    TakesEmptyLine(rest);
  }

  /** `readAll` returns the concatenated chunk data if it fits the limit and refuses it otherwise;
      it leaves the empty line after the last chunk unread. */
  lemma {:induction false} ReadAllDecodes(cs: seq<WireChunk>, last: string, tail: string, max: nat, acc: string)
    requires GoodChunks(cs) && SizeLine(last, 0) && (max > 0 ==> |acc| <= max)
    ensures ReadAll(Open(Body(cs, last, tail)), max, acc)
            == if max > 0 && |acc + Payload(cs)| > max then Err(TooBig)
               else Ok((acc + Payload(cs), Open(CRLF + tail)))
    decreases |cs|
  {
    if cs == [] {
      TakesLine(last, CRLF + tail);
      assert acc + Payload(cs) == acc;
    } else {
      var acc' := acc + cs[0].data;
      ReadChunkReads(cs[0], Body(cs[1..], last, tail), max);
      assert acc' + Payload(cs[1..]) == acc + Payload(cs);
      if max == 0 || |acc'| <= max {
        ReadAllDecodes(cs[1..], last, tail, max, acc');
      }
    }
  }

  /** Repeated `getc` until EOF. */
  function GetAll(r: Reader, max: nat): Result<(string, Reader)>
    decreases |r.ins.rest|
  {
    var (c, r') :- GetC(r, max);
    if c == None then Ok(("", r'))
    else
      var (s, r'') :- GetAll(r', max);
      Ok(([c.value] + s, r''))
  }

  /** Repeated `getc` and `readAll` agree on the payload; `getc` also takes the closing line. */
  lemma {:induction false} GetAllDecodes(r: Reader, v: View, max: nat)
    requires Shows(r, v) && Fit(v.chunks, max)
    ensures var res := GetAll(r, max);
            res.Ok? && res.value.0 == Remaining(v) && res.value.1.ins == Open(v.tail)
    decreases |Remaining(v)|
  {
    GetCDelivers(r, v, max);
    var p := Remaining(v);
    if p != "" {
      NextByte(v);
      var r1 := GetC(r, max).value.1;
      GetAllDecodes(r1, Next(v), max);
      var s := GetAll(r1, max).value.0;
      assert s == p[1..];
      assert p == [p[0]] + s;
    }
  }

  // ------------------------------------------------------------ bodies that are refused

  /** All three readers stand in front of a size line. */
  ghost predicate Refuse(ins: Stream, pos: nat, max: nat, t: string, n: nat, e: Error) {
    && GetC(Reader(ins, 0, pos), max) == Err(e) && GetLine(Reader(ins, 0, pos), max, t, n) == Err(e)
    && ReadAll(ins, max, t) == Err(e)
  }

  /** A chunk larger than the limit is refused by its size line. */
  lemma TooBigRefused(line: string, size: nat, rest: string, pos: nat, max: nat, t: string, n: nat)
    requires SizeLine(line, size) && 0 < max < size
    ensures Refuse(Open(line + (CRLF + rest)), pos, max, t, n, TooBig)
  {
    hide StoUL, StoL, ReadLine;
    TakesLine(line, rest);
  }

  /** So is a size line without a number, and one whose number does not fit its type. */
  lemma BadSizeRefused(line: string, rest: string, pos: nat, max: nat, t: string, n: nat, e: Error)
    requires NoEol(line) && |line| < MAX_HEADERLINE_LEN && StoUL(line) == Err(e) && StoL(line) == Err(e)
    ensures Refuse(Open(line + (CRLF + rest)), pos, max, t, n, e)
  {
    hide StoUL, StoL, ReadLine;
    TakesLine(line, rest);
  }

  /** `readAll` refuses a body that ends within a chunk. */
  lemma ShortChunkRefused(line: string, size: nat, rest: string, max: nat, acc: string)
    requires SizeLine(line, size) && |rest| < size && (max == 0 || size <= max)
    ensures ReadAll(Open(line + (CRLF + rest)), max, acc) == Err(InputFailure)
  {
    hide StoUL, StoL, ReadLine;
    TakesLine(line, rest);
  }

  /** A size below zero is refused by `readAll`, in either case of a limit. */
  lemma NegativeRefused(line: string, size: int, rest: string, max: nat, acc: string)
    requires NoEol(line) && |line| < MAX_HEADERLINE_LEN && StoL(line) == Ok(size) && size < 0
    ensures ReadAll(Open(line + (CRLF + rest)), max, acc) == Err(if max > 0 then TooBig else ReadFailed)
  {
    hide StoL, ReadLine;
    TakesLine(line, rest);
  }

  /** Within a chunk that the input cuts off: `getc` answers EOF and counts it, `getline` gives the
      text so far and counts one more; at the last byte of the chunk its missing end is an error. */
  lemma CutOffChunk(size: nat, pos: nat, max: nat, t: string, n: nat)
    requires pos < size
    ensures var r := Reader(Open(""), size, pos);
            if pos + 1 == size then GetC(r, max) == Err(InputFailure) && GetLine(r, max, t, n) == Err(InputFailure)
            else
              && GetC(r, max) == Ok((None, Reader(Open(""), size, pos + 1)))
              && GetLine(r, max, t, n) == Ok((t, n + 1, Reader(Stream("", t == "", false), size, pos + 1)))
  {
  }
}
