/** A form sent chunked parses like the form itself: the parser over a chunk reader simulates the
    parser over the decoded payload, however the payload is cut into chunks. A cut inside a CRLF
    pair that is read by `getline` leaves an LF behind, which the next call takes for an empty line;
    where the parser skips empty lines this changes nothing. File contents and the boundaries behind
    them are read byte by byte, and for them no cut matters. */
module ChunkedForms {
  import opened Wrappers
  import opened Streams
  import opened Numbers
  import opened Chunks
  import opened Multipart

  // ------------------------------------------------------------ cuts

  /** The ends of chunks, each named by the number of payload bytes after it. */
  function CutsOf(cs: seq<WireChunk>): set<nat> {
    if cs == [] then {} else {|Payload(cs[1..])|} + CutsOf(cs[1..])
  }

  function Cuts(v: View): set<nat> { {|Payload(v.chunks)|} + CutsOf(v.chunks) }

  lemma {:induction false} CutsBound(cs: seq<WireChunk>, k: nat)
    requires GoodChunks(cs) && k in CutsOf(cs)
    ensures k < |Payload(cs)|
  {
    if k != |Payload(cs[1..])| {
      CutsBound(cs[1..], k);
    }
  }

  lemma {:induction false} EndIsCut(cur: string, cs: seq<WireChunk>, k: nat)
    requires GoodChunks(cs) && k <= |cur| + |Payload(cs)|
    ensures ChunkEndsAfter(cur, cs, k) <==> |cur| + |Payload(cs)| - k in {|Payload(cs)|} + CutsOf(cs)
    decreases |cs|
  {
    var m := |cur| + |Payload(cs)| - k;
    if m in CutsOf(cs) {
      CutsBound(cs, m);
    }
    if cs != [] && k > |cur| {
      EndIsCut(cs[0].data, cs[1..], k - |cur|);
    }
  }

  /** The cuts that a view still has ahead, or stands at, are those of the whole payload. */
  ghost predicate SameCuts(v: View, cuts: set<nat>)
  {
    Cuts(v) <= cuts && forall k :: k in cuts && k <= |Remaining(v)| ==> k in Cuts(v)
  }

  lemma SameCutsNext(v: View, cuts: set<nat>)
    requires GoodChunks(v.chunks) && Remaining(v) != "" && SameCuts(v, cuts)
    ensures SameCuts(Next(v), cuts)
  {
    NextByte(v);
    hide GoodChunks;
    assert Cuts(Next(v)) <= Cuts(v);
    assert forall k :: k in Cuts(v) && k < |Remaining(v)| ==> k in Cuts(Next(v));
  }

  lemma {:induction false} SameCutsLine(v: View, cuts: set<nat>)
    requires GoodChunks(v.chunks) && SameCuts(v, cuts)
    ensures SameCuts(LineOf(v).after, cuts)
    decreases |Remaining(v)|
  {
    hide SameCuts, Next;
    if Remaining(v) != "" {
      NextByte(v);
      SameCutsNext(v, cuts);
      if !IsEol(Remaining(v)[0]) {
        SameCutsLine(Next(v), cuts);
      } else if Next(v).cur != "" {
        SameCutsNext(Next(v), cuts);
      }
    }
  }

  // ------------------------------------------------------------ one line

  /** A cut between the CR and the LF that end the first line. */
  predicate LineCut(rest: string, cuts: set<nat>)
  {
    var i := LineLength(rest);
    EolLength(rest[i..]) == 2 && |rest| - (i + 1) in cuts
  }

  /** The bytes that the end of the first line takes on a chunk reader. */
  function EndTaken(rest: string, cuts: set<nat>): (e: nat)
    ensures LineLength(rest) + e <= |rest|
  {
    var i := LineLength(rest);
    if LineCut(rest, cuts) then 1 else EolLength(rest[i..])
  }

  lemma LineOfCuts(v: View, cuts: set<nat>)
    requires GoodChunks(v.chunks) && SameCuts(v, cuts)
    ensures LineFits(LineOf(v), Remaining(v), v) && LineOf(v).e == EndTaken(Remaining(v), cuts)
  {
    hide GoodChunks, LineOf;
    LineOfPayload(v);
    TerminatorCut(v);
    var s := Remaining(v);
    var i := LineLength(s);
    if EolLength(s[i..]) == 2 {
      EndIsCut(v.cur, v.chunks, i + 1);
    }
  }

  /** The limit the byte counter must stay under; without one the counter must not wrap. */
  function Cap(max: nat): nat { if max == 0 then SIZE_T - 1 else max }

  /** No lone CR at the end, which would set the eof bit of a plain stream. */
  predicate Tidy(s: string) { s == "" || s[|s| - 1] != '\r' }

  lemma EolOf(s: string)
    ensures var e := EolLength(s[LineLength(s)..]);
            LineLength(s) + e <= |s| && (e == 0 <==> LineLength(s) == |s|)
  {
  }

  /** What the first line takes, its end included. */
  function Taken(s: string): (n: nat)
    ensures n <= |s|
  {
    EolOf(s);
    LineLength(s) + EolLength(s[LineLength(s)..])
  }

  lemma GoodLine(s: string, limit: nat)
    ensures var r := ReadLine(Open(s), limit);
            && (r.Ok? && !r.value.after.Bad() ==>
                  LineLength(s) < |s| && r.value == Line(s[..LineLength(s)], Taken(s), Open(s[Taken(s)..])))
            && (r.Ok? && r.value.after.Bad() && Tidy(s) ==> LineLength(s) == |s|)
            && (r.Err? ==> 0 < limit <= LineLength(s))
  {
    hide LineLength, EolLength;
    EolOf(s);
  }

  lemma PlainLine(s: string, n: nat, max: nat)
    requires TakeLine(Plain(Open(s)), n, max).Ok?
    ensures LineLength(s) < |s| && !Over(n + Taken(s), max)
    ensures TakeLine(Plain(Open(s)), n, max) == Ok((s[..LineLength(s)], n + Taken(s), Plain(Open(s[Taken(s)..]))))
  {
    hide ReadLine, LineLength, EolLength, Taken, Tidy;
    GoodLine(s, (max - n) % SIZE_T);
  }

  lemma PlainLineFails(s: string, n: nat, max: nat)
    requires max < SIZE_T && n + |s| <= Cap(max) && Tidy(s) && TakeLine(Plain(Open(s)), n, max).Err?
    ensures LineLength(s) == |s|
  {
    hide ReadLine, LineLength, EolLength, Taken, Tidy;
    LimitFits(n, max, |s|);
    GoodLine(s, (max - n) % SIZE_T);
  }

  /** The line limit is never reached before the limit of the form. */
  lemma LimitFits(n: nat, max: nat, size: nat)
    requires max < SIZE_T && n + size <= Cap(max)
    ensures (max - n) % SIZE_T == if max > 0 then max - n else if n > 0 then SIZE_T - n else 0
  {
  }

  lemma ShowsIsGood(r: Reader, v: View)
    requires Shows(r, v)
    ensures !r.ins.Bad() && GoodChunks(v.chunks)
  {
  }

  /** A line read from the chunks; without a terminator the end of the body has been read as well. */
  lemma ChunkedLine(r: Reader, m: nat, max: nat, v: View, cuts: set<nat>) returns (r': Reader, v': View)
    requires Shows(r, v) && Fit(v.chunks, max) && SameCuts(v, cuts)
    ensures var s := Remaining(v);
            var i, e := LineLength(s), EndTaken(s, cuts);
            && TakeLine(Chunked(r), m, max)
               == (if Over(m + i + e, max) then Err(TooBig) else Ok((s[..i], m + i + e, Chunked(r'))))
            && (e == 0 <==> i == |s|) && (e == 0 ==> r'.ins == Open(v.tail))
            && (e > 0 ==> Shows(r', v') && Fit(v'.chunks, max) && SameCuts(v', cuts)
                          && Remaining(v') == s[i + e..] && v'.tail == v.tail)
  {
    hide GetLine, LineOf, GoodChunks, Fit, Body, SizeLine, SameCuts, EndTaken;
    ShowsIsGood(r, v);
    r' := GetLineDelivers(r, v, max, "", 0);
    LineOfCuts(v, cuts);
    FitLine(v, max);
    SameCutsLine(v, cuts);
    v' := LineOf(v).after;
    assert "" + Remaining(v)[..LineOf(v).i] == Remaining(v)[..LineOf(v).i];
    if LineOf(v).e > 0 {
      ShowsIsGood(r', v');
    }
  }

  // ------------------------------------------------------------ the simulation relation

  /** What stays the same over a parse: the cuts, the limit, the boundary, the payload, and what
      follows the body on the connection. */
  datatype Frame = Frame(cuts: set<nat>, max: nat, b: string, all: string, tail: string)

  predicate EndOf(rest: string, all: string) { |rest| <= |all| && rest == all[|all| - |rest|..] }

  /** The two sources have the same bytes to give, but for the line end `lag` that the chunk reader
      has still to take, and that its count lacks. */
  ghost predicate Lags(f: Frame, plain: Source, n: nat, chunked: Source, m: nat, v: View, lag: string) {
    && plain.Plain? && chunked.Chunked? && plain == Plain(Open(plain.ins.rest))
    && (lag == "" || lag == "\n" || lag == CRLF)
    && Remaining(v) == lag + plain.ins.rest && m + |lag| == n
    && n + |plain.ins.rest| <= |f.all| && EndOf(plain.ins.rest, f.all) && !Over(n, f.max)
    && Shows(chunked.rd, v) && Fit(v.chunks, f.max) && SameCuts(v, f.cuts) && v.tail == f.tail
  }

  lemma EndOfEnd(s: string, all: string, k: nat)
    requires EndOf(s, all) && k <= |s|
    ensures EndOf(s[k..], all)
  {
  }

  lemma EndCut(s: string, cuts: set<nat>)
    ensures var i, lag := LineLength(s), if LineCut(s, cuts) then "\n" else "";
            i + EndTaken(s, cuts) + |lag| == Taken(s) && s[i + EndTaken(s, cuts)..] == lag + s[Taken(s)..]
  {
    hide LineLength;
    var i := LineLength(s);
    if LineCut(s, cuts) {
      assert s[i..][1] == s[i + 1] == '\n';
    }
  }

  lemma LowerCount(n: nat, m: nat, max: nat)
    requires !Over(n, max) && m <= n
    ensures !Over(m, max)
  {
  }

  lemma NoLag(f: Frame, plain: Source, n: nat, chunked: Source, m: nat, v: View)
    requires Lags(f, plain, n, chunked, m, v, "")
    ensures m == n && plain.Plain? && chunked.Chunked?
  {
  }

  /** A line that the plain source gives: the chunks give it too, and an LF lags behind exactly when
      its pair is cut. */
  lemma LineStep(f: Frame, plain: Source, n: nat, chunked: Source, v: View) returns (v': View, lag: string)
    requires Lags(f, plain, n, chunked, n, v, "") && TakeLine(plain, n, f.max).Ok?
    ensures lag == if LineCut(plain.ins.rest, f.cuts) then "\n" else ""
    ensures TakeLine(chunked, n, f.max).Ok?
    ensures var (line, n', p'), (line', m', c') := TakeLine(plain, n, f.max).value, TakeLine(chunked, n, f.max).value;
            line' == line && Lags(f, p', n', c', m', v', lag)
  {
    hide TakeLine, Shows, Fit, SameCuts, EndOf, LineCut, LineLength, EndTaken, Taken, Over;
    var s := plain.ins.rest;
    assert Remaining(v) == s;
    PlainLine(s, n, f.max);
    var r';
    r', v' := ChunkedLine(chunked.rd, n, f.max, v, f.cuts);
    lag := if LineCut(s, f.cuts) then "\n" else "";
    EndOfEnd(s, f.all, Taken(s));
    EndCut(s, f.cuts);
    LowerCount(n + Taken(s), n + LineLength(s) + EndTaken(s, f.cuts), f.max);
    assert LineLength(s) + EndTaken(s, f.cuts) + |lag| == Taken(s);
    hide Lags;
    StillLags(f, s, Taken(s), n + Taken(s), r', n + LineLength(s) + EndTaken(s, f.cuts), v', lag);
  }

  lemma StillLags(f: Frame, s: string, k: nat, n: nat, r: Reader, m: nat, v: View, lag: string)
    requires k <= |s| && n - k + |s| <= |f.all| && EndOf(s[k..], f.all) && !Over(n, f.max)
    requires (lag == "" || lag == "\n") && m + |lag| == n && Remaining(v) == lag + s[k..]
    requires Shows(r, v) && Fit(v.chunks, f.max) && SameCuts(v, f.cuts) && v.tail == f.tail
    ensures Lags(f, Plain(Open(s[k..])), n, Chunked(r), m, v, lag)
  {
    hide Shows, Fit, SameCuts, EndOf, Over, Remaining;
  }

  /** The line end that lags behind is taken for an empty line. */
  lemma SkipLag(f: Frame, plain: Source, n: nat, chunked: Source, m: nat, v: View, lag: string)
      returns (c': Source, m': nat, v': View, lag': string)
    requires Lags(f, plain, n, chunked, m, v, lag) && lag != ""
    ensures TakeLine(chunked, m, f.max) == Ok(("", m', c'))
    ensures Lags(f, plain, n, c', m', v', lag') && |lag'| < |lag|
    ensures lag == "\n" ==> lag' == ""
  {
    hide TakeLine, Shows, Fit, SameCuts, EndOf;
    var s := Remaining(v);
    LineLengthIs(s, 0);
    assert s[0..] == s && s[..0] == "";
    var r';
    r', v' := ChunkedLine(chunked.rd, m, f.max, v, f.cuts);
    var e := EndTaken(s, f.cuts);
    c', m', lag' := Chunked(r'), m + e, lag[e..];
    assert s[e..] == lag[e..] + plain.ins.rest;
  }

  // ------------------------------------------------------------ the pairs that matter

  predicate LineWholeAt(src: Source, cuts: set<nat>) { src.Plain? ==> !LineCut(src.ins.rest, cuts) }

  /** A header line is whole. In a part without a file name the empty line and the line in front of
      it may be cut: what is left behind joins the value, to which it adds nothing. */
  predicate HeaderWhole(src: Source, n: nat, max: nat, text: bool, cuts: set<nat>)
    requires TakeLine(src, n, max).Ok?
  {
    var (line, _, src') := TakeLine(src, n, max).value;
    LineWholeAt(src, cuts) || (text && (line == "" || (src'.Plain? && CRLF <= src'.ins.rest)))
  }

  predicate HeadersWhole(src: Source, n: nat, max: nat, line: string, h: PartHead, text: bool, cuts: set<nat>)
    decreases Raw(src)
  {
    line == "" || HeaderField(line, h).None? || TakeLine(src, n, max).Err? ||
    (HeaderWhole(src, n, max, text, cuts) &&
     var (next, n', src') := TakeLine(src, n, max).value;
     HeadersWhole(src', n', max, next, HeaderField(line, h).value, text, cuts))
  }

  /** In a text only the boundary line in front of a next part must be whole. */
  predicate TextWhole(src: Source, n: nat, max: nat, b: string, line: string, cuts: set<nat>)
    decreases Raw(src)
  {
    line == b || line == b + "--" || TakeLine(src, n, max).Err? ||
    (var (next, n', src') := TakeLine(src, n, max).value;
     (next == b ==> LineWholeAt(src, cuts)) && TextWhole(src', n', max, b, next, cuts))
  }

  /** The lines in front of parts and the header lines are whole; a file part reads no lines. */
  predicate PartsWhole(src: Source, n: nat, max: nat, b: string, line: string, cuts: set<nat>)
    decreases Raw(src)
  {
    line == b + "--" || TakeLine(src, n, max).Err? ||
    (var (line1, n1, s1) := TakeLine(src, n, max).value;
     if line != b then (line1 == b ==> LineWholeAt(src, cuts)) && PartsWhole(s1, n1, max, b, line1, cuts)
     else
       var head := PartHeaders(s1, n1, max, line1, NoHead);
       var text := head.Ok? && head.value.0.filename == "";
       HeaderWhole(src, n, max, text, cuts) && HeadersWhole(s1, n1, max, line1, NoHead, text, cuts) &&
       (head.Err? ||
        var (h, n2, s2) := head.value;
        if text then
          TextWhole(s2, n2, max, b, "", cuts) &&
          (TextLines(s2, n2, max, b, "", "").Err? ||
           var (_, line3, n3, s3) := TextLines(s2, n2, max, b, "", "").value;
           PartsWhole(s3, n3, max, b, line3, cuts))
        else
          FilePart(s2, n2, max, b, h).Err? ||
          var (_, line3, n3, s3) := FilePart(s2, n2, max, b, h).value;
          PartsWhole(s3, n3, max, b, line3, cuts)))
  }

  predicate FormWhole(src: Source, max: nat, b: string, cuts: set<nat>)
  {
    TakeLine(src, 0, max).Err? ||
    (var (line, n, s1) := TakeLine(src, 0, max).value;
     (line == b ==> LineWholeAt(src, cuts)) && PartsWhole(s1, n, max, b, line, cuts))
  }

  // ------------------------------------------------------------ the simulation

  /** After the line in front of the empty line of a text part, the LF that lags behind ends the
      headers, and the empty line lags behind. */
  lemma LagEndsHeaders(f: Frame, plain: Source, n: nat, chunked: Source, m: nat, v: View, line: string, h: PartHead)
      returns (v': View)
    requires Lags(f, plain, n, chunked, m, v, "\n") && CRLF <= plain.ins.rest
    requires line != "" && PartHeaders(plain, n, f.max, line, h).Ok?
    ensures PartHeaders(chunked, m, f.max, line, h).Ok?
    ensures var (h1, n', p'), (h2, m', c') := PartHeaders(plain, n, f.max, line, h).value,
                                            PartHeaders(chunked, m, f.max, line, h).value;
            h2 == h1 && Lags(f, p', n', c', m', v', CRLF)
  {
    hide HeaderField, TakeLine, Shows, Fit, SameCuts, EndOf;
    var c', m', lag';
    c', m', v', lag' := SkipLag(f, plain, n, chunked, m, v, "\n");
    var s := plain.ins.rest;
    LineLengthIs(s, 0);
    assert s[0..] == s && s[..0] == "";
    PlainLine(s, n, f.max);
    EndOfEnd(s, f.all, 2);
    assert s == CRLF + s[2..];
  }

  lemma {:induction false} SameHeaders(f: Frame, plain: Source, n: nat, chunked: Source, m: nat, v: View, lag: string,
                                       line: string, h: PartHead, text: bool) returns (v': View, lag': string)
    requires Lags(f, plain, n, chunked, m, v, lag) && PartHeaders(plain, n, f.max, line, h).Ok?
    requires lag == "" || (text && lag == "\n" && (line == "" || CRLF <= plain.ins.rest))
    requires HeadersWhole(plain, n, f.max, line, h, text, f.cuts)
    ensures PartHeaders(chunked, m, f.max, line, h).Ok?
    ensures var (h1, n', p'), (h2, m', c') := PartHeaders(plain, n, f.max, line, h).value,
                                            PartHeaders(chunked, m, f.max, line, h).value;
            h2 == h1 && Lags(f, p', n', c', m', v', lag') && (text || lag' == "")
    decreases Raw(plain)
  {
    hide HeaderField, Shows, Fit, SameCuts, EndOf, Lags, LineCut, TakeLine;
    v', lag' := v, lag;
    if line == "" {
      return;
    }
    if lag != "" {
      v' := LagEndsHeaders(f, plain, n, chunked, m, v, line, h);
      lag' := CRLF;
      return;
    }
    NoLag(f, plain, n, chunked, m, v);
    v', lag' := LineStep(f, plain, n, chunked, v);
    var (next, n', p') := TakeLine(plain, n, f.max).value;
    var (_, m', c') := TakeLine(chunked, n, f.max).value;
    v', lag' := SameHeaders(f, p', n', c', m', v', lag', next, HeaderField(line, h).value, text);
  }

  /** A line that is no boundary may as well be empty if the value has its text already. */
  lemma TextLineMoves(src: Source, n: nat, max: nat, b: string, line: string, value: string, cuts: set<nat>)
    requires b != "" && line != b && line != b + "--"
    ensures TextLines(src, n, max, b, line, value) == TextLines(src, n, max, b, "", value + line)
    ensures TextWhole(src, n, max, b, line, cuts) == TextWhole(src, n, max, b, "", cuts)
  {
    hide TakeLine, LineWholeAt;
    assert (value + line) + "" == value + line;
  }

  /** The first line of a text is read like any other. */
  lemma TextPartIs(src: Source, n: nat, max: nat, b: string)
    requires b != ""
    ensures TextPart(src, n, max, b) == TextLines(src, n, max, b, "", "")
  {
    hide TakeLine;
    assert "" + "" == "";
  }

  lemma {:induction false} SameText(f: Frame, plain: Source, n: nat, chunked: Source, m: nat, v: View, lag: string,
                                    line: string, value: string) returns (v': View, lag': string)
    requires f.b != "" && Lags(f, plain, n, chunked, m, v, lag) && (line == f.b ==> lag == "")
    requires TextLines(plain, n, f.max, f.b, line, value).Ok? && TextWhole(plain, n, f.max, f.b, line, f.cuts)
    ensures TextLines(chunked, m, f.max, f.b, line, value).Ok?
    ensures var (t1, next1, n', p'), (t2, next2, m', c') := TextLines(plain, n, f.max, f.b, line, value).value,
                                                          TextLines(chunked, m, f.max, f.b, line, value).value;
            t2 == t1 && next2 == next1 && Lags(f, p', n', c', m', v', lag') && (next1 == f.b ==> lag' == "")
    decreases Raw(plain), |lag|
  {
    hide Shows, Fit, SameCuts, EndOf, Lags, LineCut, TakeLine, TextLines, TextWhole;
    v', lag' := v, lag;
    if line == f.b || line == f.b + "--" {
      TextLinesEnd(plain, n, f.max, f.b, line, value);
      TextLinesEnd(chunked, m, f.max, f.b, line, value);
      return;
    }
    if lag != "" {
      var c', m';
      c', m', v', lag' := SkipLag(f, plain, n, chunked, m, v, lag);
      TextLineMoves(plain, n, f.max, f.b, line, value, f.cuts);
      TextLinesUnfold(chunked, m, f.max, f.b, line, value, "", m', c');
      v', lag' := SameText(f, plain, n, c', m', v', lag', "", value + line);
      return;
    }
    NoLag(f, plain, n, chunked, m, v);
    TextGoesOn(plain, n, f.max, f.b, line, value, f.cuts);
    v', lag' := LineStep(f, plain, n, chunked, v);
    var (next, n', p') := TakeLine(plain, n, f.max).value;
    var (_, m', c') := TakeLine(chunked, n, f.max).value;
    TextLinesUnfold(chunked, n, f.max, f.b, line, value, next, m', c');
    v', lag' := SameText(f, p', n', c', m', v', lag', next, value + line);
  }

  lemma TextGoesOn(plain: Source, n: nat, max: nat, b: string, line: string, value: string, cuts: set<nat>)
    requires line != b && line != b + "--" && plain.Plain?
    requires TextLines(plain, n, max, b, line, value).Ok? && TextWhole(plain, n, max, b, line, cuts)
    ensures TakeLine(plain, n, max).Ok?
    ensures var (next, n', p') := TakeLine(plain, n, max).value;
            && TextLines(plain, n, max, b, line, value) == TextLines(p', n', max, b, next, value + line)
            && TextWhole(p', n', max, b, next, cuts) && (next == b ==> !LineCut(plain.ins.rest, cuts))
            && Raw(p') < Raw(plain)
  {
    hide TakeLine, LineCut;
  }

  lemma TextLinesEnd(src: Source, n: nat, max: nat, b: string, stop: string, value: string)
    requires stop == b || stop == b + "--"
    ensures TextLines(src, n, max, b, stop, value) == Ok((value, stop, n, src))
  {
  }

  /** A byte is the same from both; it counts unless it is the second one after a boundary. */
  lemma SameByte(f: Frame, plain: Source, n: nat, chunked: Source, v: View, n': nat) returns (v': View)
    requires Lags(f, plain, n, chunked, n, v, "") && TakeByte(plain, f.max).value.0.Some?
    requires n <= n' <= n + 1 && !Over(n', f.max)
    ensures TakeByte(chunked, f.max).Ok? && TakeByte(chunked, f.max).value.0 == TakeByte(plain, f.max).value.0
    ensures Lags(f, TakeByte(plain, f.max).value.1, n', TakeByte(chunked, f.max).value.1, n', v', "")
    ensures !BadSource(TakeByte(chunked, f.max).value.1)
  {
    hide Shows, GetC, SameCuts, EndOf, GoodChunks, Next;
    ShowsIsGood(chunked.rd, v);
    var s := plain.ins.rest;
    assert Remaining(v) == s && s != "";
    GetCDelivers(chunked.rd, v, f.max);
    NextByte(v);
    SameCutsNext(v, f.cuts);
    EndOfEnd(s, f.all, 1);
    v' := Next(v);
    ShowsIsGood(GetC(chunked.rd, f.max).value.1, v');
  }

  ghost predicate SameCopied(f: Frame, a: Result<Copy>, b: Result<Copy>, v': View) {
    && a.Ok? && b.Ok? && b.value.out == a.value.out && b.value.fsize == a.value.fsize && b.value.n == a.value.n
    && Lags(f, a.value.src, a.value.n, b.value.src, b.value.n, v', "")
  }

  lemma {:induction false} SameCopy(f: Frame, plain: Source, n: nat, chunked: Source, v: View, p: string, cnt: nat,
                                    out: string, fsize: nat) returns (v': View)
    requires Lags(f, plain, n, chunked, n, v, "") && cnt < |p|
    requires var r := CopyFile(plain, n, f.max, p, cnt, out, fsize); r.Ok? && !BadSource(r.value.src)
    ensures SameCopied(f, CopyFile(plain, n, f.max, p, cnt, out, fsize),
                       CopyFile(chunked, n, f.max, p, cnt, out, fsize), v')
    decreases Raw(plain)
  {
    hide Lags, CopyFile, TakeByte, CopyByte, Over;
    var c, p' := CopyGoesOn(f, plain, n, chunked, v, p, cnt, out, fsize);
    v' := SameByte(f, plain, n, chunked, v, n + 1);
    var c' := TakeByte(chunked, f.max).value.1;
    var (cnt', out', fsize') := CopyByte(c, p, cnt, out, fsize);
    CopyFileUnfold(plain, n, f.max, p, cnt, out, fsize, c, p');
    CopyFileUnfold(chunked, n, f.max, p, cnt, out, fsize, c, c');
    if cnt' < |p| {
      v' := SameCopy(f, p', n + 1, c', v', p, cnt', out', fsize');
    }
  }

  /** A copy that does not run out of input takes a byte. */
  lemma CopyGoesOn(f: Frame, plain: Source, n: nat, chunked: Source, v: View, p: string, cnt: nat, out: string,
                   fsize: nat) returns (c: char, p': Source)
    requires Lags(f, plain, n, chunked, n, v, "") && cnt < |p|
    requires var r := CopyFile(plain, n, f.max, p, cnt, out, fsize); r.Ok? && !BadSource(r.value.src)
    ensures TakeByte(plain, f.max) == Ok((Some(c), p')) && !BadSource(p') && !Over(n + 1, f.max) && Raw(p') < Raw(plain)
  {
    hide Shows, SameCuts, EndOf, CopyByte;
    c, p' := plain.ins.rest[0], Plain(Open(plain.ins.rest[1..]));
  }

  lemma SameAfterFile(f: Frame, plain: Source, n: nat, chunked: Source, v: View) returns (v': View)
    requires Lags(f, plain, n, chunked, n, v, "") && AfterFile(plain, n, f.max, f.b).Ok?
    ensures AfterFile(chunked, n, f.max, f.b).Ok?
    ensures var (next1, n1, p'), (next2, n2, c') := AfterFile(plain, n, f.max, f.b).value,
                                                  AfterFile(chunked, n, f.max, f.b).value;
            next2 == next1 && n2 == n1 == n + 1 && Lags(f, p', n1, c', n1, v', "")
  {
    hide Shows, SameCuts, EndOf, GetC;
    assert TakeByte(plain, f.max).value.0.Some?;
    v' := SameByte(f, plain, n, chunked, v, n + 1);
    var p1, c1 := TakeByte(plain, f.max).value.1, TakeByte(chunked, f.max).value.1;
    assert TakeByte(p1, f.max).value.0.Some?;
    v' := SameByte(f, p1, n + 1, c1, v', n + 1);
  }

  lemma SameFilePart(f: Frame, plain: Source, n: nat, chunked: Source, v: View, h: PartHead) returns (v': View)
    requires Lags(f, plain, n, chunked, n, v, "") && FilePart(plain, n, f.max, f.b, h).Ok?
    ensures FilePart(chunked, n, f.max, f.b, h).Ok?
    ensures var (up1, next1, n1, p'), (up2, next2, n2, c') := FilePart(plain, n, f.max, f.b, h).value,
                                                            FilePart(chunked, n, f.max, f.b, h).value;
            up2 == up1 && next2 == next1 && n2 == n1 && Lags(f, p', n1, c', n1, v', "")
  {
    hide Lags, CopyFile, AfterFile;
    NoLag(f, plain, n, chunked, n, v);
    var pattern := CRLF + f.b;
    var copy := CopyFile(plain, n, f.max, pattern, 0, "", 0).value;
    CopyStaysPlain(plain, n, f.max, pattern, 0, "", 0);
    BadSourceEnds(copy.src, copy.n, f.max, f.b);
    v' := SameCopy(f, plain, n, chunked, v, pattern, 0, "", 0);
    v' := SameAfterFile(f, copy.src, copy.n, CopyFile(chunked, n, f.max, pattern, 0, "", 0).value.src, v');
  }

  lemma {:induction false} CopyStaysPlain(src: Source, n: nat, max: nat, p: string, cnt: nat, out: string, fsize: nat)
    requires src.Plain? && cnt < |p| && CopyFile(src, n, max, p, cnt, out, fsize).Ok?
    ensures CopyFile(src, n, max, p, cnt, out, fsize).value.src.Plain?
    decreases Raw(src)
  {
    var (c, src') := TakeByte(src, max).value;
    if c.Some? {
      CopyFileUnfold(src, n, max, p, cnt, out, fsize, c.value, src');
      var (cnt', out', fsize') := CopyByte(c.value, p, cnt, out, fsize);
      if cnt' < |p| {
        CopyStaysPlain(src', n + 1, max, p, cnt', out', fsize');
      }
    }
  }

  lemma BadSourceEnds(src: Source, n: nat, max: nat, b: string)
    ensures BadSource(src) && src.Plain? ==> AfterFile(src, n, max, b).Err?
  {
  }

  /** The same form, with the reader still inside the body; an LF may lag behind the last line. */
  ghost predicate SameForm(f: Frame, a: Result<Form>, b: Result<Form>, v': View, lag: string) {
    && a.Ok? && b.Ok? && b.value.params == a.value.params && b.value.uploads == a.value.uploads
    && Lags(f, a.value.src, a.value.n, b.value.src, b.value.n, v', lag)
  }

  /** Between parts an empty line is as good as any. */
  lemma OuterLineMoves(src: Source, n: nat, max: nat, b: string, line: string, params: map<string, string>,
                       uploads: seq<Upload>, cuts: set<nat>)
    requires b != "" && line != b && line != b + "--"
    ensures ParseParts(src, n, max, b, line, params, uploads) == ParseParts(src, n, max, b, "", params, uploads)
    ensures PartsWhole(src, n, max, b, line, cuts) == PartsWhole(src, n, max, b, "", cuts)
  {
    hide TakeLine, LineWholeAt;
  }

  lemma OuterUnfold(src: Source, n: nat, max: nat, b: string, line: string, params: map<string, string>,
                    uploads: seq<Upload>, next: string, n': nat, src': Source)
    requires line != b && line != b + "--" && TakeLine(src, n, max) == Ok((next, n', src'))
    ensures ParseParts(src, n, max, b, line, params, uploads) == ParseParts(src', n', max, b, next, params, uploads)
  {
  }

  lemma OuterGoesOn(src: Source, n: nat, max: nat, b: string, line: string, params: map<string, string>,
                    uploads: seq<Upload>, cuts: set<nat>)
    requires src.Plain? && line != b && line != b + "--" && PartsWhole(src, n, max, b, line, cuts)
    requires ParseParts(src, n, max, b, line, params, uploads).Ok?
    ensures TakeLine(src, n, max).Ok?
    ensures var (next, n', src') := TakeLine(src, n, max).value;
            && ParseParts(src, n, max, b, line, params, uploads) == ParseParts(src', n', max, b, next, params, uploads)
            && PartsWhole(src', n', max, b, next, cuts) && (next == b ==> !LineCut(src.ins.rest, cuts))
            && Raw(src') < Raw(src)
  {
    hide TakeLine, LineCut;
  }

  /** The header lines of a part that the plain source reads, from the boundary on. */
  lemma HeadRead(f: Frame, plain: Source, n: nat, chunked: Source, v: View) returns (v': View, lag: string)
    requires Lags(f, plain, n, chunked, n, v, "") && PartsWhole(plain, n, f.max, f.b, f.b, f.cuts)
    requires TakeLine(plain, n, f.max).Ok?
    requires var (line1, n1, p1) := TakeLine(plain, n, f.max).value; PartHeaders(p1, n1, f.max, line1, NoHead).Ok?
    ensures TakeLine(chunked, n, f.max).Ok?
    ensures var (line1, n1, p1), (line1', m1, c1) := TakeLine(plain, n, f.max).value, TakeLine(chunked, n, f.max).value;
            && line1' == line1 && PartHeaders(c1, m1, f.max, line1, NoHead).Ok?
            && var (h, n2, p2), (h', m2, c2) := PartHeaders(p1, n1, f.max, line1, NoHead).value,
                                              PartHeaders(c1, m1, f.max, line1, NoHead).value;
               h' == h && Lags(f, p2, n2, c2, m2, v', lag) && (h.filename != "" ==> lag == "")
  {
    hide Lags, TakeLine, PartHeaders, HeadersWhole, TextLines, TextPart, TextWhole, FilePart, LineCut;
    NoLag(f, plain, n, chunked, n, v);
    v', lag := LineStep(f, plain, n, chunked, v);
    var (line1, n1, p1) := TakeLine(plain, n, f.max).value;
    var (_, m1, c1) := TakeLine(chunked, n, f.max).value;
    var (h, _, _) := PartHeaders(p1, n1, f.max, line1, NoHead).value;
    v', lag := SameHeaders(f, p1, n1, c1, m1, v', lag, line1, NoHead, h.filename == "");
  }

  lemma {:induction false} SameParts(f: Frame, plain: Source, n: nat, chunked: Source, m: nat, v: View, lag: string,
                                     line: string, params: map<string, string>, uploads: seq<Upload>)
      returns (v': View, lag': string)
    requires f.b != "" && Lags(f, plain, n, chunked, m, v, lag) && (line == f.b ==> lag == "")
    requires ParseParts(plain, n, f.max, f.b, line, params, uploads).Ok? && PartsWhole(plain, n, f.max, f.b, line, f.cuts)
    ensures SameForm(f, ParseParts(plain, n, f.max, f.b, line, params, uploads),
                     ParseParts(chunked, m, f.max, f.b, line, params, uploads), v', lag')
    decreases Raw(plain), |lag|
  {
    hide Lags, TakeLine, PartHeaders, HeadersWhole, TextLines, TextPart, TextWhole, FilePart, LineCut, HeaderWhole;
    v', lag' := v, lag;
    if line == f.b + "--" {
      return;
    }
    if line != f.b {
      if lag != "" {
        var c', m';
        c', m', v', lag' := SkipLag(f, plain, n, chunked, m, v, lag);
        OuterLineMoves(plain, n, f.max, f.b, line, params, uploads, f.cuts);
        OuterUnfold(chunked, m, f.max, f.b, line, params, uploads, "", m', c');
        v', lag' := SameParts(f, plain, n, c', m', v', lag', "", params, uploads);
        return;
      }
      NoLag(f, plain, n, chunked, m, v);
      OuterGoesOn(plain, n, f.max, f.b, line, params, uploads, f.cuts);
      v', lag' := LineStep(f, plain, n, chunked, v);
      var (next, n', p') := TakeLine(plain, n, f.max).value;
      var (_, m', c') := TakeLine(chunked, n, f.max).value;
      OuterUnfold(chunked, n, f.max, f.b, line, params, uploads, next, m', c');
      v', lag' := SameParts(f, p', n', c', m', v', lag', next, params, uploads);
      return;
    }
    NoLag(f, plain, n, chunked, m, v);
    v', lag' := HeadRead(f, plain, n, chunked, v);
    var (line1, n1, p1) := TakeLine(plain, n, f.max).value;
    var (_, m1, c1) := TakeLine(chunked, n, f.max).value;
    var (h, n2, p2) := PartHeaders(p1, n1, f.max, line1, NoHead).value;
    var (_, m2, c2) := PartHeaders(c1, m1, f.max, line1, NoHead).value;
    if h.filename == "" {
      TextPartIs(p2, n2, f.max, f.b);
      TextPartIs(c2, m2, f.max, f.b);
      v', lag' := SameText(f, p2, n2, c2, m2, v', lag', "", "");
      var (value, line3, n3, p3) := TextLines(p2, n2, f.max, f.b, "", "").value;
      var (_, _, m3, c3) := TextLines(c2, m2, f.max, f.b, "", "").value;
      v', lag' := SameParts(f, p3, n3, c3, m3, v', lag', line3, params[h.fieldname := value], uploads);
      return;
    }
    NoLag(f, p2, n2, c2, m2, v');
    v' := SameFilePart(f, p2, n2, c2, v', h);
    var (upload, line3, n3, p3) := FilePart(p2, n2, f.max, f.b, h).value;
    var (_, _, m3, c3) := FilePart(c2, m2, f.max, f.b, h).value;
    v', lag' := SameParts(f, p3, n3, c3, m3, v', "", line3, params, uploads + [upload]);
  }

  lemma StartsInStep(r: Reader, v: View, max: nat, b: string)
    requires Shows(r, v) && Fit(v.chunks, max)
    ensures Lags(Frame(Cuts(v), max, b, Remaining(v), v.tail), Plain(Open(Remaining(v))), 0, Chunked(r), 0, v, "")
  {
    hide Shows, Fit, Cuts;
    assert "" + Remaining(v) == Remaining(v);
  }

  /** Whenever the payload parses as a form, every chunking of it that leaves the pairs that matter
      whole parses to the same form, and the reader stays inside the body. */
  lemma ChunkingIsTransparent(r: Reader, v: View, max: nat, boundary: string) returns (v': View, lag: string)
    requires Shows(r, v) && Fit(v.chunks, max) && boundary != ""
    requires ParseForm(Plain(Open(Remaining(v))), max, boundary).Ok?
    requires FormWhole(Plain(Open(Remaining(v))), max, boundary, Cuts(v))
    ensures SameForm(Frame(Cuts(v), max, boundary, Remaining(v), v.tail),
                     ParseForm(Plain(Open(Remaining(v))), max, boundary), ParseForm(Chunked(r), max, boundary), v', lag)
  {
    hide Shows, Fit, Cuts, Lags, TakeLine, PartsWhole, LineCut;
    var plain, f := Plain(Open(Remaining(v))), Frame(Cuts(v), max, boundary, Remaining(v), v.tail);
    StartsInStep(r, v, max, boundary);
    v', lag := LineStep(f, plain, 0, Chunked(r), v);
    var (line, n, p1) := TakeLine(plain, 0, max).value;
    var (_, m, c1) := TakeLine(Chunked(r), 0, max).value;
    v', lag := SameParts(f, p1, n, c1, m, v', lag, line, map[], []);
  }

  // ------------------------------------------------------------ forms that end behind the body

  /** The payload fits the limit of the form, and does not end in a lone CR. */
  predicate Roomy(f: Frame) { f.max < SIZE_T && |f.all| <= Cap(f.max) && Tidy(f.all) }

  /** The reader has read the end of the body. */
  predicate Past(f: Frame, src: Source) { Raw(src) <= |f.tail| }

  lemma LineGone(f: Frame, plain: Source, n: nat, chunked: Source, v: View)
    requires Lags(f, plain, n, chunked, n, v, "") && Roomy(f) && TakeLine(plain, n, f.max).Err?
    ensures TakeLine(chunked, n, f.max).Ok? ==> Past(f, TakeLine(chunked, n, f.max).value.2)
  {
    hide TakeLine, Shows, Fit, SameCuts, LineLength, EndTaken, Over;
    var s := plain.ins.rest;
    assert Remaining(v) == s && Tidy(s);
    PlainLineFails(s, n, f.max);
    var r', _ := ChunkedLine(chunked.rd, n, f.max, v, f.cuts);
  }

  lemma {:induction false} HeadersGone(f: Frame, plain: Source, n: nat, chunked: Source, m: nat, v: View,
                                       line: string, h: PartHead)
    requires Lags(f, plain, n, chunked, m, v, "") && Roomy(f) && PartHeaders(plain, n, f.max, line, h).Err?
    requires HeadersWhole(plain, n, f.max, line, h, false, f.cuts)
    ensures var r := PartHeaders(chunked, m, f.max, line, h); r.Ok? ==> Past(f, r.value.2)
    decreases Raw(plain)
  {
    hide HeaderField, Lags, LineCut, TakeLine, Roomy;
    NoLag(f, plain, n, chunked, m, v);
    if HeaderField(line, h).None? {
      return;
    }
    if TakeLine(plain, n, f.max).Err? {
      LineGone(f, plain, n, chunked, v);
      return;
    }
    var v', lag := LineStep(f, plain, n, chunked, v);
    var (next, n', p') := TakeLine(plain, n, f.max).value;
    var (_, m', c') := TakeLine(chunked, n, f.max).value;
    HeadersGone(f, p', n', c', m', v', next, HeaderField(line, h).value);
  }

  lemma {:induction false} TextGone(f: Frame, plain: Source, n: nat, chunked: Source, m: nat, v: View, lag: string,
                                    line: string, value: string)
    requires f.b != "" && Lags(f, plain, n, chunked, m, v, lag) && Roomy(f)
    requires TextLines(plain, n, f.max, f.b, line, value).Err?
    ensures var r := TextLines(chunked, m, f.max, f.b, line, value); r.Ok? ==> Past(f, r.value.3)
    decreases Raw(plain), |lag|
  {
    hide Lags, LineCut, TakeLine, Roomy;
    if lag != "" {
      var c', m', v', lag' := SkipLag(f, plain, n, chunked, m, v, lag);
      TextLineMoves(plain, n, f.max, f.b, line, value, f.cuts);
      TextLinesUnfold(chunked, m, f.max, f.b, line, value, "", m', c');
      TextGone(f, plain, n, c', m', v', lag', "", value + line);
      return;
    }
    NoLag(f, plain, n, chunked, m, v);
    if TakeLine(plain, n, f.max).Err? {
      LineGone(f, plain, n, chunked, v);
      return;
    }
    var v', lag' := LineStep(f, plain, n, chunked, v);
    var (next, n', p') := TakeLine(plain, n, f.max).value;
    var (_, m', c') := TakeLine(chunked, n, f.max).value;
    TextLinesUnfold(plain, n, f.max, f.b, line, value, next, n', p');
    TextLinesUnfold(chunked, n, f.max, f.b, line, value, next, m', c');
    TextGone(f, p', n', c', m', v', lag', next, value + line);
  }

  lemma {:induction false} CopyGone(f: Frame, plain: Source, n: nat, chunked: Source, v: View, p: string, cnt: nat,
                                    out: string, fsize: nat)
    requires Lags(f, plain, n, chunked, n, v, "") && Roomy(f) && cnt < |p|
    requires var r := CopyFile(plain, n, f.max, p, cnt, out, fsize); r.Ok? ==> BadSource(r.value.src)
    ensures var r := CopyFile(chunked, n, f.max, p, cnt, out, fsize); r.Ok? ==> Past(f, r.value.src)
    decreases Raw(plain)
  {
    hide CopyFile, CopyByte, GetC, SameCuts, GoodChunks, Fit, SizeLine, Body, EndOf;
    if plain.ins.rest == "" {
      assert Remaining(v) == "";
      GetCDelivers(chunked.rd, v, f.max);
      CopyFileStops(chunked, n, f.max, p, cnt, out, fsize);
      return;
    }
    var c, p' := plain.ins.rest[0], Plain(Open(plain.ins.rest[1..]));
    assert TakeByte(plain, f.max) == Ok((Some(c), p'));
    var v' := SameByte(f, plain, n, chunked, v, n + 1);
    var c' := TakeByte(chunked, f.max).value.1;
    hide TakeByte, Lags;
    var (cnt', out', fsize') := CopyByte(c, p, cnt, out, fsize);
    CopyFileUnfold(plain, n, f.max, p, cnt, out, fsize, c, p');
    CopyFileUnfold(chunked, n, f.max, p, cnt, out, fsize, c, c');
    if cnt' < |p| {
      CopyGone(f, p', n + 1, c', v', p, cnt', out', fsize');
    }
  }

  lemma AfterGone(f: Frame, plain: Source, n: nat, chunked: Source, v: View)
    requires Lags(f, plain, n, chunked, n, v, "") && Roomy(f) && AfterFile(plain, n, f.max, f.b).Err?
    ensures var r := AfterFile(chunked, n, f.max, f.b); r.Ok? ==> Past(f, r.value.2)
  {
    hide GetC, SameCuts, GoodChunks, Fit, SizeLine, Body, EndOf;
    GetCDelivers(chunked.rd, v, f.max);
    if plain.ins.rest != "" {
      var v' := SameByte(f, plain, n, chunked, v, n + 1);
      var c' := TakeByte(chunked, f.max).value.1;
      assert plain.ins.rest[1..] == "" && Remaining(v') == "";
      GetCDelivers(c'.rd, v', f.max);
    }
  }

  lemma FileGone(f: Frame, plain: Source, n: nat, chunked: Source, v: View, h: PartHead)
    requires Lags(f, plain, n, chunked, n, v, "") && Roomy(f) && FilePart(plain, n, f.max, f.b, h).Err?
    ensures var r := FilePart(chunked, n, f.max, f.b, h); r.Ok? ==> Past(f, r.value.3)
  {
    hide Lags, CopyFile, AfterFile, Roomy, BadSource;
    var pattern := CRLF + f.b;
    var copy := CopyFile(plain, n, f.max, pattern, 0, "", 0);
    if copy.Ok? && !BadSource(copy.value.src) {
      var v' := SameCopy(f, plain, n, chunked, v, pattern, 0, "", 0);
      AfterGone(f, copy.value.src, copy.value.n, CopyFile(chunked, n, f.max, pattern, 0, "", 0).value.src, v');
    } else {
      CopyGone(f, plain, n, chunked, v, pattern, 0, "", 0);
    }
  }

  /** The header lines of a part when the plain source fails in them. */
  lemma HeadGone(f: Frame, plain: Source, n: nat, chunked: Source, v: View, params: map<string, string>,
                 uploads: seq<Upload>)
    requires Lags(f, plain, n, chunked, n, v, "") && Roomy(f) && PartsWhole(plain, n, f.max, f.b, f.b, f.cuts)
    requires TakeLine(plain, n, f.max).Ok?
    requires var (line1, n1, p1) := TakeLine(plain, n, f.max).value; PartHeaders(p1, n1, f.max, line1, NoHead).Err?
    ensures TakeLine(chunked, n, f.max).Ok?
    ensures var (line1, m1, c1) := TakeLine(chunked, n, f.max).value;
            var r := PartHeaders(c1, m1, f.max, line1, NoHead);
            r.Ok? ==> Past(f, r.value.2)
  {
    hide Lags, TakeLine, PartHeaders, HeadersWhole, TextLines, TextPart, TextWhole, FilePart, LineCut, Roomy;
    NoLag(f, plain, n, chunked, n, v);
    var v', lag := LineStep(f, plain, n, chunked, v);
    var (line1, n1, p1) := TakeLine(plain, n, f.max).value;
    var (_, m1, c1) := TakeLine(chunked, n, f.max).value;
    HeadersGone(f, p1, n1, c1, m1, v', line1, NoHead);
  }

  lemma {:induction false} PartsGone(f: Frame, plain: Source, n: nat, chunked: Source, m: nat, v: View, lag: string,
                                     line: string, params: map<string, string>, uploads: seq<Upload>)
    requires f.b != "" && Lags(f, plain, n, chunked, m, v, lag) && (line == f.b ==> lag == "") && Roomy(f)
    requires ParseParts(plain, n, f.max, f.b, line, params, uploads).Err?
    requires PartsWhole(plain, n, f.max, f.b, line, f.cuts)
    ensures var r := ParseParts(chunked, m, f.max, f.b, line, params, uploads); r.Ok? ==> Past(f, r.value.src)
    decreases Raw(plain), |lag|
  {
    hide Lags, TakeLine, PartHeaders, HeadersWhole, TextLines, TextPart, TextWhole, FilePart, LineCut, HeaderWhole, Roomy;
    if line != f.b {
      if lag != "" {
        var c', m', v', lag' := SkipLag(f, plain, n, chunked, m, v, lag);
        OuterLineMoves(plain, n, f.max, f.b, line, params, uploads, f.cuts);
        OuterUnfold(chunked, m, f.max, f.b, line, params, uploads, "", m', c');
        PartsGone(f, plain, n, c', m', v', lag', "", params, uploads);
        return;
      }
      NoLag(f, plain, n, chunked, m, v);
      if TakeLine(plain, n, f.max).Err? {
        LineGone(f, plain, n, chunked, v);
        return;
      }
      var v', lag' := LineStep(f, plain, n, chunked, v);
      var (next, n', p') := TakeLine(plain, n, f.max).value;
      var (_, m', c') := TakeLine(chunked, n, f.max).value;
      OuterUnfold(plain, n, f.max, f.b, line, params, uploads, next, n', p');
      OuterUnfold(chunked, n, f.max, f.b, line, params, uploads, next, m', c');
      PartsGone(f, p', n', c', m', v', lag', next, params, uploads);
      return;
    }
    NoLag(f, plain, n, chunked, m, v);
    if TakeLine(plain, n, f.max).Err? {
      LineGone(f, plain, n, chunked, v);
      return;
    }
    var (line1, n1, p1) := TakeLine(plain, n, f.max).value;
    if PartHeaders(p1, n1, f.max, line1, NoHead).Err? {
      HeadGone(f, plain, n, chunked, v, params, uploads);
      return;
    }
    var v', lag' := HeadRead(f, plain, n, chunked, v);
    var (_, m1, c1) := TakeLine(chunked, n, f.max).value;
    var (h, n2, p2) := PartHeaders(p1, n1, f.max, line1, NoHead).value;
    var (_, m2, c2) := PartHeaders(c1, m1, f.max, line1, NoHead).value;
    if h.filename == "" {
      TextPartIs(p2, n2, f.max, f.b);
      TextPartIs(c2, m2, f.max, f.b);
      if TextLines(p2, n2, f.max, f.b, "", "").Err? {
        TextGone(f, p2, n2, c2, m2, v', lag', "", "");
        return;
      }
      v', lag' := SameText(f, p2, n2, c2, m2, v', lag', "", "");
      var (value, line3, n3, p3) := TextLines(p2, n2, f.max, f.b, "", "").value;
      var (_, _, m3, c3) := TextLines(c2, m2, f.max, f.b, "", "").value;
      PartsGone(f, p3, n3, c3, m3, v', lag', line3, params[h.fieldname := value], uploads);
      return;
    }
    NoLag(f, p2, n2, c2, m2, v');
    if FilePart(p2, n2, f.max, f.b, h).Err? {
      FileGone(f, p2, n2, c2, v', h);
      return;
    }
    v' := SameFilePart(f, p2, n2, c2, v', h);
    var (upload, line3, n3, p3) := FilePart(p2, n2, f.max, f.b, h).value;
    var (_, _, m3, c3) := FilePart(c2, m2, f.max, f.b, h).value;
    PartsGone(f, p3, n3, c3, m3, v', "", line3, params, uploads + [upload]);
  }

  /** A reader that still shows the body has not read its end. */
  lemma ShowsMore(r: Reader, v: View)
    requires Shows(r, v)
    ensures |r.ins.rest| > |v.tail|
  {
    if v.cur == "" {
      BodyIsLonger(v.chunks, v.last, v.tail);
    } else {
      BodyIsLonger(v.chunks, v.last, v.tail);
    }
  }

  lemma {:induction false} BodyIsLonger(cs: seq<WireChunk>, last: string, tail: string)
    ensures |Body(cs, last, tail)| > |tail|
  {
    if cs != [] {
      BodyIsLonger(cs[1..], last, tail);
    }
  }

  /** A form accepted from the chunks lies in the payload if and only if the payload itself parses.
      Otherwise the parser has taken bytes behind the body for a part of the form. */
  lemma AcceptedInside(r: Reader, v: View, max: nat, boundary: string)
    requires Shows(r, v) && Fit(v.chunks, max) && boundary != ""
    requires max < SIZE_T && |Remaining(v)| <= Cap(max) && Tidy(Remaining(v))
    requires FormWhole(Plain(Open(Remaining(v))), max, boundary, Cuts(v))
    ensures var res := ParseForm(Chunked(r), max, boundary);
            res.Ok? && Raw(res.value.src) > |v.tail| <==> ParseForm(Plain(Open(Remaining(v))), max, boundary).Ok?
  {
    hide Shows, Fit, Cuts, FormWhole, ParseForm, Tidy, Remaining;
    if ParseForm(Plain(Open(Remaining(v))), max, boundary).Ok? {
      InsideOf(r, v, max, boundary);
    } else {
      NotInside(r, v, max, boundary);
    }
  }

  lemma InsideOf(r: Reader, v: View, max: nat, boundary: string)
    requires Shows(r, v) && Fit(v.chunks, max) && boundary != ""
    requires FormWhole(Plain(Open(Remaining(v))), max, boundary, Cuts(v))
    requires ParseForm(Plain(Open(Remaining(v))), max, boundary).Ok?
    ensures var res := ParseForm(Chunked(r), max, boundary); res.Ok? && Raw(res.value.src) > |v.tail|
  {
    hide Shows, Fit, Cuts, FormWhole, ParseForm, SameCuts;
    var v', lag := ChunkingIsTransparent(r, v, max, boundary);
    var form := ParseForm(Chunked(r), max, boundary).value;
    ShowsMore(form.src.rd, v');
  }

  lemma NotInside(r: Reader, v: View, max: nat, boundary: string)
    requires Shows(r, v) && Fit(v.chunks, max) && boundary != ""
    requires max < SIZE_T && |Remaining(v)| <= Cap(max) && Tidy(Remaining(v))
    requires FormWhole(Plain(Open(Remaining(v))), max, boundary, Cuts(v))
    requires ParseForm(Plain(Open(Remaining(v))), max, boundary).Err?
    ensures var res := ParseForm(Chunked(r), max, boundary); res.Ok? ==> Raw(res.value.src) <= |v.tail|
  {
    hide Shows, Fit, Cuts, TakeLine, PartsWhole, LineCut, ParseParts, Tidy, Remaining, Lags;
    var plain, f := Plain(Open(Remaining(v))), Frame(Cuts(v), max, boundary, Remaining(v), v.tail);
    StartsInStep(r, v, max, boundary);
    if TakeLine(plain, 0, max).Err? {
      LineGone(f, plain, 0, Chunked(r), v);
      return;
    }
    var v', lag := LineStep(f, plain, 0, Chunked(r), v);
    var (line, n, p1) := TakeLine(plain, 0, max).value;
    var (_, m, c1) := TakeLine(Chunked(r), 0, max).value;
    PartsGone(f, p1, n, c1, m, v', lag, line, map[], []);
  }
}
