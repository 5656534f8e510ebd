/** Forms that do not read back, and what becomes of them. */
module FormFailures {
  import opened Wrappers
  import opened Streams
  import opened Numbers
  import opened UrlCodec
  import opened HeaderText
  import opened Multipart
  import opened Boundary
  import opened Chunks
  import opened ChunkedForms
  import opened FormRoundTrip
  import opened FormCuts
  import opened BodyEnds

  // ------------------------------------------------------------ a cut header line

  /** A line whose pair is cut: the LF is left for the next call, which takes it as an empty line. */
  lemma CutLine(r: Reader, v: View, line: string, rest: string, n: nat, max: nat) returns (r1: Reader, v1: View)
    requires Shows(r, v) && Fit(v.chunks, max) && NoEol(line) && Remaining(v) == line + CRLF + rest
    requires ChunkEndsAfter(v.cur, v.chunks, |line| + 1) && !Over(n + |line| + 1, max)
    ensures TakeLine(Chunked(r), n, max) == Ok((line, n + |line| + 1, Chunked(r1)))
    ensures Shows(r1, v1) && Fit(v1.chunks, max) && Remaining(v1) == "\n" + rest
  {
    hide GetLine, GoodChunks, Fit, Body, SizeLine, LineOf, LineLength, EolLength, ChunkEndsAfter, Remaining;
    r1 := GetLineDelivers(r, v, max, "", 0);
    LineOfPayload(v);
    TerminatorCut(v);
    FitLine(v, max);
    CutText(Remaining(v), line, rest);
    v1 := LineOf(v).after;
    assert "" + line == line;
    ShowsIsGood(r1, v1);
  }

  lemma CutText(p: string, line: string, rest: string)
    requires p == line + CRLF + rest && NoEol(line)
    ensures LineLength(p) == |line| && EolLength(p[|line|..]) == 2
    ensures p[..|line|] == line && p[|line| + 1..] == "\n" + rest
  {
    assert p == line + (CRLF + rest);
    LineLengthIs(p, |line|);
    assert p[|line|..] == CRLF + rest;
  }

  lemma LfLine(r: Reader, v: View, rest: string, n: nat, max: nat) returns (r1: Reader, v1: View)
    requires Shows(r, v) && Fit(v.chunks, max) && Remaining(v) == "\n" + rest && !Over(n + 1, max)
    ensures TakeLine(Chunked(r), n, max) == Ok(("", n + 1, Chunked(r1)))
    ensures Shows(r1, v1) && Remaining(v1) == rest
  {
    hide GetLine, GoodChunks, Fit, Body, SizeLine;
    r1 := GetLineDelivers(r, v, max, "", 0);
    LineOfPayload(v);
    FitLine(v, max);
    v1 := LineOf(v).after;
    var p := Remaining(v);
    LineLengthIs(p, 0);
    assert p[0..] == p && "" + p[..0] == "" && p[1..] == rest;
    ShowsIsGood(r1, v1);
  }

  /** A header line whose pair is cut ends the headers: a content type behind it is not seen, and is
      read as a part of the body. */
  lemma CutHeaderDiffers(r: Reader, v: View, line: string, mimetype: string, sp: Spelling, body: string,
                         n: nat, max: nat, h: PartHead, h': PartHead) returns (r1: Reader, r2: Reader, v2: View)
    requires line != "" && NoEol(line) && HeaderField(line, h) == Some(h') && h'.mimetype != mimetype
    requires NoEol(mimetype) && Trimmed(mimetype) && GoodSpelling(sp) && max < SIZE_T
    requires var s := line + CRLF + (TypeLine(mimetype, sp) + CRLF + (CRLF + body));
             Remaining(v) == s && n + |s| - |body| <= Cap(max)
    requires Shows(r, v) && Fit(v.chunks, max) && ChunkEndsAfter(v.cur, v.chunks, |line| + 1)
    ensures var s, after := Remaining(v), TypeLine(mimetype, sp) + CRLF + (CRLF + body);
            && TakeLine(Plain(Open(s)), n, max) == Ok((line, n + |line| + 2, Plain(Open(after))))
            && PartHeaders(Plain(Open(after)), n + |line| + 2, max, line, h)
               == Ok((h'.(mimetype := mimetype), n + |s| - |body|, Plain(Open(body))))
            && TakeLine(Chunked(r), n, max) == Ok((line, n + |line| + 1, Chunked(r1)))
            && PartHeaders(Chunked(r1), n + |line| + 1, max, line, h) == Ok((h', n + |line| + 2, Chunked(r2)))
            && Shows(r2, v2) && Remaining(v2) == after
  {
    hide ReadLine, HeaderField, TakeLine, PartHeaders, GoodSpelling, GetLine, Shows, Fit, ChunkEndsAfter;
    var t := TypeLine(mimetype, sp);
    var after := t + CRLF + (CRLF + body);
    TypeField(mimetype, sp, h');
    SpellingNoEol(sp);
    FieldLineNoEol(sp.contentType, mimetype);
    assert "" + CRLF + body == CRLF + body;
    TakesPlainLine(line, after, n, max);
    HeaderStep(line, h, h', t, CRLF + body, n + |line| + 2, max);
    HeaderStep(t, h', h'.(mimetype := mimetype), "", body, n + |line| + |t| + 4, max);
    HeadersEnd(Plain(Open(body)), n + |line| + |t| + 6, max, h'.(mimetype := mimetype));
    var v1;
    r1, v1 := CutLine(r, v, line, after, n, max);
    r2, v2 := LfLine(r1, v1, after, n + |line| + 1, max);
    PartHeadersUnfold(Chunked(r1), n + |line| + 1, max, line, h, h', "", n + |line| + 2, Chunked(r2));
    HeadersEnd(Chunked(r2), n + |line| + 2, max, h');
  }

  /** The content type found in the headers that `src` starts with. */
  function TypeSeen(src: Source): Result<string>
  {
    var (line, n, src') :- TakeLine(src, 0, 0);
    var (h, _, _) :- PartHeaders(src', n, 0, line, NoHead);
    Ok(h.mimetype)
  }

  function TypeHeader(): string { "content-type: text/plain" + CRLF + (CRLF + "") }

  function CutHeaders(): seq<WireChunk> { [WireChunk("5", "x: y\r"), WireChunk("1d", "\n" + TypeHeader())] }

  /** The headers "x: y" and "content-type: text/plain" with the first pair cut: the type is lost. */
  lemma CutHeaderWitness()
    ensures Payload(CutHeaders()) == "x: y" + CRLF + TypeHeader()
    ensures TypeSeen(Plain(Open(Payload(CutHeaders())))) == Ok("text/plain")
    ensures TypeSeen(Chunked(Reader(Open(Body(CutHeaders(), "0", "")), 0, 0))) == Ok("")
  {
    hide TakeLine, PartHeaders, HeaderField, CutHeaders, TypeHeader, GoodSpelling, GoodChunks, Body, SizeLine;
    var cs, sp := CutHeaders(), PlainSpelling();
    var v, r := View("", cs, "0", ""), Reader(Open(Body(cs, "0", "")), 0, 0);
    CutHeadersGood();
    OtherField(NoHead);
    var _, _, _ := CutHeaderDiffers(r, v, "x: y", "text/plain", sp, "", 0, 0, NoHead, NoHead);
  }

  function PlainSpelling(): Spelling { Spelling("content-disposition", "content-type") }

  lemma CutSizes()
    ensures SizeLine("0", 0) && SizeLine("5", 5) && SizeLine("1d", 29)
  {
    hide SizeLine;
    SmallSizeLine(0);
    SmallSizeLine(5);
    SmallSizeLine(29);
    assert Hex(0) == "0" && Hex(5) == "5" && Hex(1) == "1" && Hex(29) == Hex(1) + "d" == "1d";
  }

  lemma PlainSpellingGood()
    ensures GoodSpelling(PlainSpelling())
  {
    hide Lower, FieldName, PlainKey;
    NamesArePlain();
    PlainIsName("content-disposition");
    PlainIsName("content-type");
  }

  lemma NamesArePlain()
    ensures PlainKey("content-disposition") && PlainKey("content-type")
  {
  }

  lemma PlainIsName(s: string)
    requires PlainKey(s) && s != ""
    ensures FieldName(s) && Lower(s) == s
  {
    hide Trimmed, Lower;
    PlainKeyFacts(s);
    NoColon(s);
  }

  lemma NoColon(s: string)
    requires PlainKey(s)
    ensures NoEol(s) && Lacks(s, ':')
  {
  }

  lemma CutHeadersGood()
    ensures GoodChunks(CutHeaders()) && SizeLine("0", 0) && ChunkEndsAfter("", CutHeaders(), 5)
    ensures Payload(CutHeaders()) == "x: y" + CRLF + TypeHeader() && |TypeHeader()| == 28
    ensures GoodSpelling(PlainSpelling())
    ensures TypeLine("text/plain", PlainSpelling()) + CRLF + (CRLF + "") == TypeHeader()
  {
    hide SizeLine, GoodSpelling;
    CutSizes();
    PlainSpellingGood();
    var t := TypeHeader();
    assert |t| == 28 && |"\n" + t| == 29 && |"x: y\r"| == 5;
    hide TypeHeader;
    var data := "\n" + t;
    assert CutHeaders() == [WireChunk("5", "x: y\r"), WireChunk("1d", data)];
    assert Payload(CutHeaders()[1..]) == data;
    assert "x: y\r" + data == "x: y" + CRLF + t;
  }

  lemma OtherField(h: PartHead)
    ensures HeaderField("x: y", h) == Some(h)
  {
    FieldLine("x", "y");
    LowerKeeps("x");
    assert "x: y" == "x" + ": " + "y";
  }

  lemma SpellingNoEol(sp: Spelling)
    requires GoodSpelling(sp)
    ensures NoEol(sp.contentType) && sp.contentType != ""
  {
  }

  // ------------------------------------------------------------ a boundary that is not found

  /** One file of one byte, with a boundary byte above 127. */
  function HighParts(): seq<Part> { [File("a", "f", "", "x")] }

  function HighBoundary(): string { ['-', '-', 200 as char] }

  lemma HighBoundaryWitness(sp: Spelling)
    requires GoodSpelling(sp) && |sp.disposition| + |sp.contentType| < 100
    ensures var bytes := FormBytes(HighParts(), HighBoundary(), sp, "");
            !Gives(ParseForm(Plain(Open(bytes)), 0, HighBoundary()), HighParts(), HighBoundary())
  {
    hide FormBytes, ParseForm, Gives, GoodSpelling, GoodPart;
    HighPartsGood();
    HighFormShort(sp);
    FormReadsBack(HighParts(), HighBoundary(), sp, "", 0);
  }

  lemma HighPartsGood()
    ensures GoodParts(HighParts(), HighBoundary()) && NoEol(HighBoundary()) && !Findable(HighParts(), HighBoundary())
  {
    assert (HighBoundary()[2] as int) == 200 && HighParts()[0].File?;
    assert !Contains(CRLF + HighBoundary(), "x");
    assert Trimmed("");
  }

  lemma HighFormShort(sp: Spelling)
    requires |sp.disposition| + |sp.contentType| < 100
    ensures |FormBytes(HighParts(), HighBoundary(), sp, "")| < 1000
  {
    var parts := HighParts();
    assert parts[1..] == [];
    assert |Options(parts[0])| < 100;
  }

  /** A chunked form of one file whose boundary cannot be found, with no header line cut: when two
      bytes follow the body that begin with '-', it is accepted and closed all the same, with the
      rest of the payload for the content of the file. */
  lemma UnfoundFormAccepted(r: Reader, v: View, part: Part, b: string, sp: Spelling, tail: string, max: nat)
      returns (c: nat)
    requires part.File? && GoodPart(part, b) && GoodSpelling(sp) && NoEol(b) && b != "" && !Ascii(b) && max < SIZE_T
    requires |FormBytes([part], b, sp, tail)| < Cap(max)
    requires Shows(r, v) && Fit(v.chunks, max) && Remaining(v) == FormBytes([part], b, sp, tail)
    requires Harmful([part], b, sp, tail, false) !! Cuts(v)
    requires TailAccepted(v.tail, max) && FirstByte(v.tail, max) == Some('-')
    ensures var res := ParseForm(Chunked(r), max, b);
            && res.Ok? && |res.value.uploads| == 1 && c < |CRLF + b|
            && res.value.uploads[0].content + (CRLF + b)[..c] == FileBody(part, FormBytes([], b, sp, tail))
  {
    hide Shows, Fit, Cuts, TakeLine, PartHeaders, FilePart, ParseParts, Lags, GoodSpelling, GoodPart, FormBytes, PartBytes,
         HeaderBytes, TailAccepted, FirstByte, Ascii, Contains, LagOf, HeadPairs;
    var f := Frame(Cuts(v), max, b, Remaining(v), v.tail);
    var body := FileBody(part, FormBytes([], b, sp, tail));
    var rest := AfterLine([part], b, sp, tail, false);
    FormAfterText([part], b, sp, tail);
    StartsInStep(r, v, max, b);
    OnePartCuts(part, b, sp, tail, Cuts(v));
    PartBytesSplit(part, sp, FormBytes([], b, sp, tail));
    var m, s, v1 := PrintedStep(f, b, rest, 0, Chunked(r), v);
    NoLag(f, Plain(Open(rest)), |b| + 2, s, m, v1);
    var m1, c1, h, m2, c2, v2, pre, g := FileHead(f, part, sp, body, m, s, v1);
    assert pre + body == body;
    FileNamed(part, b);
    c := FileTaken(f, part, body, m2, c2, v2);
    var res := FilePart(c2, m2, max, b, HeadOf(part)).value;
    FilePartUnfold(s, m, max, b, map[], [], DispositionLine(part, sp), m1, c1, HeadOf(part), m2, c2, res.0, b + "--",
                   res.2, res.3);
    Closes(res.3, res.2, max, b, map[], [] + [res.0]);
  }

  lemma OnePartCuts(part: Part, b: string, sp: Spelling, tail: string, cuts: set<nat>)
    requires part.File? && Harmful([part], b, sp, tail, false) !! cuts
    ensures LagOf(AfterLine([part], b, sp, tail, false), cuts) == ""
    ensures HeadPairs(part.mimetype, sp, FileBody(part, FormBytes([], b, sp, tail))) !! cuts
    ensures AfterLine([part], b, sp, tail, false) == PartBytes(part, sp, FormBytes([], b, sp, tail))
  {
    hide FormBytes, PartBytes, HeadPairs;
    assert [part][1..] == [];
  }

  lemma FileTaken(f: Frame, part: Part, body: string, m: nat, chunked: Source, v: View) returns (c: nat)
    requires NoEol(f.b) && !Ascii(f.b) && m + |body| < Cap(f.max)
    requires Lags(f, Plain(Open(body)), m, chunked, m, v, "")
    requires TailAccepted(f.tail, f.max) && FirstByte(f.tail, f.max) == Some('-')
    ensures var res := FilePart(chunked, m, f.max, f.b, HeadOf(part));
            && res.Ok? && res.value.1 == f.b + "--" && c < |CRLF + f.b|
            && res.value.0.content + (CRLF + f.b)[..c] == body
  {
    hide Shows, Fit, SameCuts, EndOf, FilePart, TailAccepted, FirstByte, Ascii, Contains;
    assert Remaining(v) == body;
    c := ChunkedWithoutBoundary(chunked.rd, v, m, f.max, f.b, HeadOf(part));
  }

  // ------------------------------------------------------------ fields without a name

  /** Why the exact condition asks for names: the value that a cut boundary puts under the empty name
      is overwritten by a later field with that name, and nothing is seen of the cut. */
  lemma NamelessHidesCut(r: Reader, v: View, first: Part, second: Part, b: string, sp: Spelling, tail: string, max: nat)
    requires first.Text? && second.Text? && first.name == second.name == "" && GoodParts([first, second], b)
    requires GoodSpelling(sp) && NoEol(b) && b != "" && b[0] == '-' && max < SIZE_T
    requires |FormBytes([first, second], b, sp, tail)| <= Cap(max) + |tail|
    requires Shows(r, v) && Fit(v.chunks, max) && Remaining(v) == FormBytes([first, second], b, sp, tail)
    requires Harmful([second], b, sp, tail, false) !! Cuts(v)
    requires Inside(AfterLine([first, second], b, sp, tail, false)) in Cuts(v)
    ensures Gives(ParseForm(Chunked(r), max, b), [first, second], b)
  {
    hide Shows, Fit, Cuts, TakeLine, TextPart, TextLines, ParseParts, Lags, GoodSpelling, GoodPart, FormBytes, PartBytes,
         HeaderBytes, Harmful, AfterLine;
    var f := Frame(Cuts(v), max, b, Remaining(v), v.tail);
    var parts, next := [first, second], AfterLine([second], b, sp, tail, false);
    var rest := AfterLine(parts, b, sp, tail, false);
    FormAfterText(parts, b, sp, tail);
    TailLength(parts, b, sp, tail, false);
    StartsInStep(r, v, max, b);
    var m, s, v1 := PrintedStep(f, b, rest, 0, Chunked(r), v);
    var c1, m1, v2, lag := SkipLag(f, Plain(Open(rest)), |b| + 2, s, m, v1, "\n");
    var lines := [DispositionLine(first, sp), ""] + first.lines;
    HeadAsText(first, second, b, sp, tail);
    NoLag(f, Plain(Open(rest)), |b| + 2, c1, m1, v2);
    TailLength([second], b, sp, tail, false);
    TextPartIs(c1, m1, max, b);
    var m3, c3, v3 := TextCut(f, lines, b, next, m1, c1, m1, v2, "", "", "");
    HeadersEnd(c1, m1, max, NoHead);
    TextPartUnfold(s, m, max, b, map[], [], "", m1, c1, NoHead, m1, c1, "" + "" + Joined(lines), b, m3, c3);
    assert GoodPart([first, second][1], b);
    PartsCut(f, [second], sp, tail, false, m1 + |Lines(lines)| + |b| + 2, c3, m3, v3,
             map[]["" := "" + "" + Joined(lines)], []);
    SecondWins(first, second, b, "" + "" + Joined(lines));
    assert Clean(f, [second], sp, tail, false);
  }

  /** The header block of a text part, read as text. */
  lemma HeadAsText(first: Part, second: Part, b: string, sp: Spelling, tail: string)
    requires first.Text? && second.Text? && GoodParts([first, second], b) && GoodSpelling(sp) && b != "" && b[0] == '-'
    ensures var lines := [DispositionLine(first, sp), ""] + first.lines;
            && (forall i :: 0 <= i < |lines| ==> NoEol(lines[i]) && lines[i] != b && lines[i] != b + "--")
            && AfterLine([first, second], b, sp, tail, false)
               == Lines(lines) + (b + CRLF + AfterLine([second], b, sp, tail, false))
  {
    hide GoodSpelling, GoodPart, FormBytes, AfterLine;
    var d, form := DispositionLine(first, sp), FormBytes([second], b, sp, tail);
    assert GoodPart([first, second][0], b);
    DispositionReadable(first, sp, b);
    DispositionStart(sp, first);
    HeadLines(d, first.lines);
    FormAfterText([second], b, sp, tail);
    NextPart([first, second], b, sp, tail, false);
    assert [first, second][1..] == [second];
    PartBytesSplit(first, sp, form);
    GoodLines(first, b);
  }

  lemma DispositionStart(sp: Spelling, part: Part)
    requires GoodSpelling(sp)
    ensures DispositionLine(part, sp) != "" && DispositionLine(part, sp)[0] != '-'
  {
    assert Lower(sp.disposition)[0] == "content-disposition"[0] == 'c';
  }

  lemma GoodLines(part: Part, b: string)
    requires part.Text? && GoodPart(part, b)
    ensures forall i :: 0 <= i < |part.lines| ==> NoEol(part.lines[i]) && part.lines[i] != b && part.lines[i] != b + "--"
  {
  }

  lemma HeadLines(d: string, lines: seq<string>)
    ensures forall rest :: Lines([d, ""] + lines) + rest == d + CRLF + (CRLF + (Lines(lines) + rest))
  {
    var all := [d, ""] + lines;
    assert all[1..] == [""] + lines && all[1..][1..] == lines;
    assert Lines(all) == d + CRLF + ("" + CRLF + Lines(lines));
    assert "" + CRLF == CRLF;
    forall rest ensures Lines(all) + rest == d + CRLF + (CRLF + (Lines(lines) + rest)) {
      Assoc(d + CRLF, CRLF + Lines(lines), rest);
      Assoc(CRLF, Lines(lines), rest);
    }
  }

  lemma SecondWins(first: Part, second: Part, b: string, value: string)
    requires first.Text? && second.Text? && first.name == second.name == ""
    ensures ParamsOf([second], map[]["" := value]) == ParamsOf([first, second], map[])
    ensures UploadsOf([second], b) == UploadsOf([first, second], b) == []
  {
    var q: map<string, string> := map[];
    assert [first, second][1..] == [second] && [second][1..] == [];
    assert ParamsOf([second], q["" := value]) == q["" := value]["" := Joined(second.lines)];
    assert ParamsOf([second], q["" := Joined(first.lines)]) == q["" := Joined(first.lines)]["" := Joined(second.lines)];
    assert [first, second][0] == first;
  }
}
