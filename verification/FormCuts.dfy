/** Where a printed form may be cut into chunks: exactly not inside the CRLF pairs of the boundary
    lines that `getline` reads in front of a part, and of the header lines of a file part. All other
    pairs, and the contents of files with the boundaries behind them, are free. */
module FormCuts {
  import opened Wrappers
  import opened Streams
  import opened Numbers
  import opened HeaderText
  import opened Multipart
  import opened Boundary
  import opened Chunks
  import opened ChunkedForms
  import opened FormRoundTrip
  import opened BodyEnds

  /** The position inside the CRLF in front of `after`, named by the bytes behind the CR. */
  function Inside(after: string): nat { |after| + 1 }

  /** The pairs of the header lines of a file part. */
  function HeadPairs(mimetype: string, sp: Spelling, body: string): set<nat>
  {
    {Inside(TypeLine(mimetype, sp) + CRLF + (CRLF + body)), Inside(CRLF + body), Inside(body)}
  }

  function FileBody(part: Part, form: string): string
    requires part.File?
  {
    part.content + (CRLF + form)
  }

  /** The pairs that must not be cut. The boundary line behind a file is not read by `getline`. */
  function Harmful(parts: seq<Part>, b: string, sp: Spelling, tail: string, afterFile: bool): set<nat>
  {
    if parts == [] then {}
    else
      var part, rest := parts[0], parts[1..];
      (if afterFile then {} else {Inside(AfterLine(parts, b, sp, tail, false))}) +
      (if part.Text? then {} else HeadPairs(part.mimetype, sp, FileBody(part, FormBytes(rest, b, sp, tail)))) +
      Harmful(rest, b, sp, tail, part.File?)
  }

  predicate Named(parts: seq<Part>) { forall i :: 0 <= i < |parts| && parts[i].Text? ==> parts[i].name != "" }

  // ------------------------------------------------------------ one line

  lemma PrintedCut(text: string, after: string, cuts: set<nat>)
    requires NoEol(text)
    ensures LineCut(text + CRLF + after, cuts) <==> Inside(after) in cuts
  {
    var s := text + CRLF + after;
    assert s == text + (CRLF + after);
    LineLengthIs(s, |text|);
    assert s[|text|..] == CRLF + after;
  }

  function LagOf(after: string, cuts: set<nat>): string { if Inside(after) in cuts then "\n" else "" }

  lemma PrintedStep(f: Frame, text: string, rest: string, n: nat, chunked: Source, v: View)
      returns (m': nat, c': Source, v': View)
    requires NoEol(text) && f.max < SIZE_T && n + |text| + 2 <= Cap(f.max)
    requires Lags(f, Plain(Open(text + CRLF + rest)), n, chunked, n, v, "")
    ensures TakeLine(chunked, n, f.max) == Ok((text, m', c'))
    ensures Lags(f, Plain(Open(rest)), n + |text| + 2, c', m', v', LagOf(rest, f.cuts))
  {
    hide TakeLine, Lags, LineCut;
    TakesPlainLine(text, rest, n, f.max);
    PrintedCut(text, rest, f.cuts);
    var lag;
    v', lag := LineStep(f, Plain(Open(text + CRLF + rest)), n, chunked, v);
    m', c' := TakeLine(chunked, n, f.max).value.1, TakeLine(chunked, n, f.max).value.2;
  }

  /** Lines of text with a line end in front or not: the same value, and the line end of the
      boundary lags behind exactly when its pair is cut. */
  lemma {:induction false} TextCut(f: Frame, lines: seq<string>, stop: string, next: string, n: nat, chunked: Source,
                                   m: nat, v: View, lag: string, line: string, value: string)
      returns (m': nat, c': Source, v': View)
    requires f.b != "" && line != f.b && line != f.b + "--"
    requires forall i :: 0 <= i < |lines| ==> NoEol(lines[i]) && lines[i] != f.b && lines[i] != f.b + "--"
    requires (stop == f.b || stop == f.b + "--") && NoEol(stop) && f.max < SIZE_T
    requires n + |Lines(lines)| + |stop| + 2 <= Cap(f.max)
    requires Lags(f, Plain(Open(Lines(lines) + (stop + CRLF + next))), n, chunked, m, v, lag)
    ensures TextLines(chunked, m, f.max, f.b, line, value) == Ok((value + line + Joined(lines), stop, m', c'))
    ensures Lags(f, Plain(Open(next)), n + |Lines(lines)| + |stop| + 2, c', m', v', LagOf(next, f.cuts))
    decreases |lines|, |lag|
  {
    hide Lags, TakeLine, TextLines, LagOf, NoEol;
    if lag != "" {
      var c1, m1, v1, lag1 := SkipLag(f, Plain(Open(Lines(lines) + (stop + CRLF + next))), n, chunked, m, v, lag);
      TextLinesUnfold(chunked, m, f.max, f.b, line, value, "", m1, c1);
      m', c', v' := TextCut(f, lines, stop, next, n, c1, m1, v1, lag1, "", value + line);
      assert (value + line) + "" == value + line;
      return;
    }
    NoLag(f, Plain(Open(Lines(lines) + (stop + CRLF + next))), n, chunked, m, v);
    if lines == [] {
      assert Lines(lines) + (stop + CRLF + next) == stop + CRLF + next;
      m', c', v' := PrintedStep(f, stop, next, n, chunked, v);
      TextLinesUnfold(chunked, m, f.max, f.b, line, value, stop, m', c');
      TextLinesEnd(c', m', f.max, f.b, stop, value + line);
      assert value + line + Joined(lines) == value + line;
      return;
    }
    LinesCons(lines, stop + CRLF + next);
    var more := Lines(lines[1..]) + (stop + CRLF + next);
    var m1, c1, v1 := PrintedStep(f, lines[0], more, n, chunked, v);
    TextLinesUnfold(chunked, m, f.max, f.b, line, value, lines[0], m1, c1);
    m', c', v' := TextCut(f, lines[1..], stop, next, n + |lines[0]| + 2, c1, m1, v1, LagOf(more, f.cuts), lines[0],
                          value + line);
    assert (value + line) + lines[0] + Joined(lines[1..]) == value + line + Joined(lines);
  }

  // ------------------------------------------------------------ text parts

  /** The header lines of a text part: wherever they are cut, at most two line ends lag behind. */
  lemma TextHead(f: Frame, part: Part, sp: Spelling, body: string, n: nat, chunked: Source, v: View)
      returns (m1: nat, c1: Source, n2: nat, m2: nat, c2: Source, v2: View, lag: string)
    requires part.Text? && GoodPart(part, f.b) && GoodSpelling(sp) && f.max < SIZE_T
    requires n + |HeaderBytes(part, sp, body)| - |body| <= Cap(f.max)
    requires Lags(f, Plain(Open(HeaderBytes(part, sp, body))), n, chunked, n, v, "")
    ensures TakeLine(chunked, n, f.max) == Ok((DispositionLine(part, sp), m1, c1))
    ensures PartHeaders(c1, m1, f.max, DispositionLine(part, sp), NoHead) == Ok((HeadOf(part), m2, c2))
    ensures n2 == n + |HeaderBytes(part, sp, body)| - |body| && Lags(f, Plain(Open(body)), n2, c2, m2, v2, lag)
  {
    hide Lags, TakeLine, PartHeaders, HeaderField, GoodSpelling, Options, GoodPart;
    var d := DispositionLine(part, sp);
    DispositionReadable(part, sp, f.b);
    n2 := n + |d| + 4;
    m1, c1, v2 := PrintedStep(f, d, CRLF + body, n, chunked, v);
    if Inside(CRLF + body) in f.cuts {
      c2, m2, v2, lag := SkipLag(f, Plain(Open(CRLF + body)), n + |d| + 2, c1, m1, v2, "\n");
      NoLag(f, Plain(Open(CRLF + body)), n + |d| + 2, c2, m2, v2);
      lag := EmptyLineLags(f, body, n + |d| + 2, c2, v2);
    } else {
      NoLag(f, Plain(Open(CRLF + body)), n + |d| + 2, c1, m1, v2);
      assert "" + CRLF + body == CRLF + body;
      m2, c2, v2 := PrintedStep(f, "", body, n + |d| + 2, c1, v2);
      lag := LagOf(body, f.cuts);
    }
    PartHeadersUnfold(c1, m1, f.max, d, NoHead, HeadOf(part), "", m2, c2);
    HeadersEnd(c2, m2, f.max, HeadOf(part));
  }

  /** An empty line not yet read may be counted as a line end that lags behind. */
  lemma EmptyLineLags(f: Frame, body: string, n: nat, chunked: Source, v: View) returns (lag: string)
    requires Lags(f, Plain(Open(CRLF + body)), n, chunked, n, v, "") && !Over(n + 2, f.max)
    ensures lag == CRLF && Lags(f, Plain(Open(body)), n + 2, chunked, n, v, lag)
  {
    hide Shows, Fit, SameCuts;
    lag := CRLF;
    EndOfEnd(CRLF + body, f.all, 2);
    assert (CRLF + body)[2..] == body;
  }

  /** A text part is one turn of the outer loop, wherever it is cut. */
  lemma TextTurnCut(f: Frame, part: Part, rest: seq<Part>, sp: Spelling, tail: string, n: nat, chunked: Source, v: View,
                    params: map<string, string>, uploads: seq<Upload>)
      returns (n3: nat, m3: nat, c3: Source, v3: View)
    requires part.Text? && GoodPart(part, f.b) && GoodSpelling(sp) && NoEol(f.b) && f.b != "" && f.max < SIZE_T
    requires var s := PartBytes(part, sp, FormBytes(rest, f.b, sp, tail));
             n + |s| <= Cap(f.max) + |tail| && Lags(f, Plain(Open(s)), n, chunked, n, v, "")
    ensures n3 + |AfterLine(rest, f.b, sp, tail, false)| <= Cap(f.max) + |tail|
    ensures ParseParts(chunked, n, f.max, f.b, f.b, params, uploads)
            == ParseParts(c3, m3, f.max, f.b, LineOfParts(rest, f.b), params[part.name := Joined(part.lines)], uploads)
    ensures var next := AfterLine(rest, f.b, sp, tail, false);
            Lags(f, Plain(Open(next)), n3, c3, m3, v3, LagOf(next, f.cuts))
  {
    hide Lags, TakeLine, PartHeaders, TextPart, TextLines, ParseParts, GoodSpelling, FormBytes, AfterLine, HeaderBytes,
         PartBytes, LagOf;
    var stop, next := LineOfParts(rest, f.b), AfterLine(rest, f.b, sp, tail, false);
    var form := FormBytes(rest, f.b, sp, tail);
    FormAfterText(rest, f.b, sp, tail);
    PartBytesSplit(part, sp, form);
    TailLength(rest, f.b, sp, tail, false);
    var body := Lines(part.lines) + (stop + CRLF + next);
    assert Lines(part.lines) + form == body;
    assert NoEol(stop) by { NoEolConcat(f.b, "--"); }
    var m1, c1, n2, m2, c2, v2, lag := TextHead(f, part, sp, body, n, chunked, v);
    TextPartIs(c2, m2, f.max, f.b);
    m3, c3, v3 := TextCut(f, part.lines, stop, next, n2, c2, m2, v2, lag, "", "");
    n3 := n2 + |Lines(part.lines)| + |stop| + 2;
    assert "" + "" + Joined(part.lines) == Joined(part.lines);
    TextPartUnfold(chunked, n, f.max, f.b, params, uploads, DispositionLine(part, sp), m1, c1, HeadOf(part), m2, c2,
                   Joined(part.lines), stop, m3, c3);
  }

  // ------------------------------------------------------------ what a wrong turn leaves behind

  /** Parsing on never removes a field or an upload. */
  lemma {:induction false} Keeps(src: Source, n: nat, max: nat, b: string, line: string, params: map<string, string>,
                                 uploads: seq<Upload>)
    ensures var r := ParseParts(src, n, max, b, line, params, uploads);
            r.Ok? ==> params.Keys <= r.value.params.Keys && uploads <= r.value.uploads
    decreases Raw(src)
  {
    hide TakeLine, PartHeaders, TextPart, FilePart;
    if ParseParts(src, n, max, b, line, params, uploads).Err? || line == b + "--" {
      return;
    }
    var (line1, n1, s1) := TakeLine(src, n, max).value;
    if line != b {
      Keeps(s1, n1, max, b, line1, params, uploads);
      return;
    }
    var (h, n2, s2) := PartHeaders(s1, n1, max, line1, NoHead).value;
    if h.filename == "" {
      var (value, line3, n3, s3) := TextPart(s2, n2, max, b).value;
      Keeps(s3, n3, max, b, line3, params[h.fieldname := value], uploads);
    } else {
      var (upload, line3, n3, s3) := FilePart(s2, n2, max, b, h).value;
      Keeps(s3, n3, max, b, line3, params, uploads + [upload]);
    }
  }

  /** A boundary line whose pair is cut: the LF is taken for an empty header block, and the part
      becomes the value of the field without a name. */
  lemma CutBoundary(f: Frame, plain: Source, n: nat, chunked: Source, m: nat, v: View, params: map<string, string>,
                    uploads: seq<Upload>)
    requires Lags(f, plain, n, chunked, m, v, "\n")
    ensures var r := ParseParts(chunked, m, f.max, f.b, f.b, params, uploads); r.Ok? ==> "" in r.value.params
  {
    hide Lags, TakeLine, TextPart;
    var c1, m1, _, _ := SkipLag(f, plain, n, chunked, m, v, "\n");
    if ParseParts(chunked, m, f.max, f.b, f.b, params, uploads).Ok? {
      var (value, line3, n3, s3) := TextPart(c1, m1, f.max, f.b).value;
      TextPartUnfold(chunked, m, f.max, f.b, params, uploads, "", m1, c1, NoHead, m1, c1, value, line3, n3, s3);
      Keeps(s3, n3, f.max, f.b, line3, params["" := value], uploads);
    }
  }

  lemma {:induction false} NamesOf(parts: seq<Part>, params: map<string, string>)
    requires Named(parts) && "" !in params
    ensures "" !in ParamsOf(parts, params)
  {
    if parts != [] {
      assert Named(parts[1..]);
      NamesOf(parts[1..], if parts[0].Text? then params[parts[0].name := Joined(parts[0].lines)] else params);
    }
  }

  /** An upload with the wrong content stays in the result. */
  lemma WrongTurn(f: Frame, chunked: Source, n: nat, params: map<string, string>, uploads: seq<Upload>, line1: string,
                  n1: nat, s1: Source, h: PartHead, n2: nat, s2: Source, part: Part, rest: seq<Part>)
    requires TakeLine(chunked, n, f.max) == Ok((line1, n1, s1))
    requires PartHeaders(s1, n1, f.max, line1, NoHead) == Ok((h, n2, s2)) && h.filename != "" && part.File?
    requires FilePart(s2, n2, f.max, f.b, h).Ok? ==> FilePart(s2, n2, f.max, f.b, h).value.0.content != part.content
    ensures var r := ParseParts(chunked, n, f.max, f.b, f.b, params, uploads);
            r.Ok? ==> r.value.uploads != uploads + UploadsOf([part] + rest, f.b)
  {
    hide TakeLine, PartHeaders, FilePart;
    if ParseParts(chunked, n, f.max, f.b, f.b, params, uploads).Ok? {
      var (upload, line3, n3, s3) := FilePart(s2, n2, f.max, f.b, h).value;
      FilePartUnfold(chunked, n, f.max, f.b, params, uploads, line1, n1, s1, h, n2, s2, upload, line3, n3, s3);
      Keeps(s3, n3, f.max, f.b, line3, params, uploads + [upload]);
      var got := ParseParts(s3, n3, f.max, f.b, line3, params, uploads + [upload]).value.uploads;
      assert got[|uploads|] == (uploads + [upload])[|uploads|] == upload;
      assert (uploads + UploadsOf([part] + rest, f.b))[|uploads|].content == part.content;
    }
  }

  // ------------------------------------------------------------ file parts

  lemma TypeStart(sp: Spelling, mimetype: string)
    requires GoodSpelling(sp)
    ensures TypeLine(mimetype, sp) != "" && TypeLine(mimetype, sp)[0] != '-'
  {
    assert Lower(sp.contentType)[0] == "content-type"[0] == 'c';
  }

  /** What stands in front of the content when the header block of a file part ends early. */
  predicate Stray(pre: string, mimetype: string, sp: Spelling)
  {
    pre == "\n" || pre == CRLF || pre == TypeLine(mimetype, sp) + CRLF + CRLF
  }

  /** A view that stands inside a pair may be seen from its LF on. */
  lemma FromLf(f: Frame, body: string, n: nat, chunked: Source, m: nat, v: View) returns (g: Frame)
    requires Lags(f, Plain(Open(body)), n, chunked, m, v, "\n")
    ensures m + 1 == n && g.max == f.max && g.b == f.b && Lags(g, Plain(Open("\n" + body)), m, chunked, m, v, "")
  {
    hide Shows, Fit, SameCuts;
    var s := "\n" + body;
    var filler := seq(m, _ => '-');
    g := f.(all := filler + s);
    assert g.all[|g.all| - |s|..] == s;
    assert "" + s == s;
    LowerCount(n, m, f.max);
  }

  /** The header lines of a file part: read as they are if none of their pairs is cut, and otherwise
      something of them is left in front of the content. */
  lemma FileHead(f: Frame, part: Part, sp: Spelling, body: string, n: nat, chunked: Source, v: View)
      returns (m1: nat, c1: Source, h: PartHead, m2: nat, c2: Source, v2: View, pre: string, g: Frame)
    requires part.File? && GoodPart(part, f.b) && GoodSpelling(sp) && f.max < SIZE_T
    requires n + |HeaderBytes(part, sp, body)| - |body| <= Cap(f.max)
    requires Lags(f, Plain(Open(HeaderBytes(part, sp, body))), n, chunked, n, v, "")
    ensures TakeLine(chunked, n, f.max) == Ok((DispositionLine(part, sp), m1, c1))
    ensures PartHeaders(c1, m1, f.max, DispositionLine(part, sp), NoHead) == Ok((h, m2, c2))
    ensures h.filename == part.filename && m2 + |pre| == n + |HeaderBytes(part, sp, body)| - |body|
    ensures Lags(g, Plain(Open(pre + body)), m2, c2, m2, v2, "") && g.max == f.max && g.b == f.b
    ensures if HeadPairs(part.mimetype, sp, body) !! f.cuts then pre == "" && h == HeadOf(part) && g == f
            else Stray(pre, part.mimetype, sp)
  {
    hide Lags, TakeLine, PartHeaders, HeaderField, GoodSpelling, Options, TypeLine, GoodPart, Inside;
    var d, t := DispositionLine(part, sp), TypeLine(part.mimetype, sp);
    var h0 := HeadOf(part).(mimetype := "");
    var after := t + CRLF + (CRLF + body);
    DispositionReadable(part, sp, f.b);
    TypeReadable(part, sp, h0, f.b);
    m1, c1, v2 := PrintedStep(f, d, after, n, chunked, v);
    g := f;
    if Inside(after) in f.cuts {
      var lag;
      c2, m2, v2, lag := SkipLag(f, Plain(Open(after)), n + |d| + 2, c1, m1, v2, "\n");
      NoLag(f, Plain(Open(after)), n + |d| + 2, c2, m2, v2);
      h, pre := h0, t + CRLF + CRLF;
      assert after == pre + body;
      PartHeadersUnfold(c1, m1, f.max, d, NoHead, h0, "", m2, c2);
      HeadersEnd(c2, m2, f.max, h0);
      return;
    }
    NoLag(f, Plain(Open(after)), n + |d| + 2, c1, m1, v2);
    h := HeadOf(part);
    var mt, ct;
    mt, ct, v2 := PrintedStep(f, t, CRLF + body, m1, c1, v2);
    PartHeadersUnfold(c1, m1, f.max, d, NoHead, h0, t, mt, ct);
    if Inside(CRLF + body) in f.cuts {
      var lag;
      c2, m2, v2, lag := SkipLag(f, Plain(Open(CRLF + body)), m1 + |t| + 2, ct, mt, v2, "\n");
      NoLag(f, Plain(Open(CRLF + body)), m1 + |t| + 2, c2, m2, v2);
      pre := CRLF;
    } else {
      NoLag(f, Plain(Open(CRLF + body)), m1 + |t| + 2, ct, mt, v2);
      assert "" + CRLF + body == CRLF + body;
      m2, c2, v2 := PrintedStep(f, "", body, mt, ct, v2);
      if Inside(body) in f.cuts {
        g := FromLf(f, body, mt + 2, c2, m2, v2);
        pre := "\n";
      } else {
        NoLag(f, Plain(Open(body)), mt + 2, c2, m2, v2);
        pre := "";
        assert "" + body == body;
      }
    }
    PartHeadersUnfold(ct, mt, f.max, t, h0, h, "", m2, c2);
    HeadersEnd(c2, m2, f.max, h);
  }

  lemma {:induction false} FirstOccurrence(p: string, s: string, j: nat) returns (k: nat)
    requires OccursAt(p, s, j)
    ensures k <= j && FirstAt(p, s, k)
  {
    if i: nat :| i < j && OccursAt(p, s, i) {
      k := FirstOccurrence(p, s, i);
    } else {
      k := j;
    }
  }

  /** With something in front of it, the content is not what is copied. */
  lemma StrayContent(pre: string, content: string, b: string, rest: string, k: nat, mimetype: string, sp: Spelling)
    requires NoEol(b) && b != "" && b[0] == '-' && !Contains(CRLF + b, content)
    requires GoodSpelling(sp) && NoEol(TypeLine(mimetype, sp)) && Stray(pre, mimetype, sp)
    requires FirstAt(CRLF + b, pre + (content + (CRLF + b) + rest), k)
    ensures (pre + (content + (CRLF + b) + rest))[..k] != content
    ensures k + |CRLF + b| <= |pre| + |content| + |CRLF + b|
  {
    hide Contains, UniqueStart, FirstAt, GoodSpelling, TypeLine;
    var p, x := CRLF + b, content + (CRLF + b) + rest;
    var s := pre + x;
    PatternOf(b);
    FirstAfterContent(p, content, rest);
    AtMost(p, pre, x, |content|, k);
    if k >= |pre| {
      assert |s[..k]| > |content| by { AtLeast(p, pre, x, |content|, k); }
      return;
    }
    Early(p, s, k);
    var t := TypeLine(mimetype, sp);
    TypeStart(sp, mimetype);
    assert p[0] == '\r' && p[1] == '\n' && p[2] == '-';
    assert s[k] == '\r' && s[k + 1] == '\n' && s[k + 2] == '-';
    EarlyInStray(pre, x, k, t);
    assert x[0] == if content == "" then '\r' else content[0];
    assert k > 0 ==> s[..k][0] == pre[0];
  }

  /** A boundary that begins in the stray bytes takes the last two of them. */
  lemma EarlyInStray(pre: string, x: string, k: nat, t: string)
    requires pre == "\n" || pre == CRLF || pre == t + CRLF + CRLF
    requires NoEol(t) && t != "" && x != "" && k < |pre|
    requires k + 2 < |pre + x| && (pre + x)[k] == '\r' && (pre + x)[k + 1] == '\n' && (pre + x)[k + 2] == '-'
    ensures k + 2 == |pre| && x[0] == '-' && (k > 0 ==> pre[0] == t[0])
  {
    var u := t + CRLF + CRLF;
    assert forall i :: 0 <= i < |t| ==> u[i] == t[i];
    assert u[|t|] == '\r' && u[|t| + 1] == '\n' && u[|t| + 2] == '\r' && u[|t| + 3] == '\n';
    assert forall i :: 0 <= i < |pre| ==> (pre + x)[i] == pre[i];
    assert (pre + x)[|pre|] == x[0];
  }

  lemma Early(p: string, s: string, k: nat)
    requires FirstAt(p, s, k)
    ensures k + |p| <= |s| && forall i :: 0 <= i < |p| ==> s[k + i] == p[i]
  {
    var t := s[k..k + |p|];
    assert forall i :: 0 <= i < |p| ==> t[i] == s[k + i];
  }

  lemma AtMost(p: string, pre: string, x: string, j: nat, k: nat)
    requires FirstAt(p, x, j) && FirstAt(p, pre + x, k)
    ensures k <= |pre| + j
  {
    var s := pre + x;
    assert s[|pre| + j..|pre| + j + |p|] == x[j..j + |p|];
    assert OccursAt(p, s, |pre| + j);
  }

  lemma AtLeast(p: string, pre: string, x: string, j: nat, k: nat)
    requires FirstAt(p, x, j) && FirstAt(p, pre + x, k) && k >= |pre|
    ensures k >= |pre| + j
  {
    var s := pre + x;
    assert s[k..k + |p|] == x[k - |pre|..k - |pre| + |p|];
    assert OccursAt(p, x, k - |pre|);
  }

  lemma StrayUpload(f: Frame, pre: string, content: string, rest: string, m: nat, chunked: Source, v: View, h: PartHead,
                    mimetype: string, sp: Spelling)
    requires NoEol(f.b) && f.b != "" && f.b[0] == '-' && Ascii(f.b) && !Contains(CRLF + f.b, content)
    requires GoodSpelling(sp) && NoEol(TypeLine(mimetype, sp)) && Stray(pre, mimetype, sp)
    requires f.max == 0 || m + |pre| + |content| + |CRLF + f.b| <= f.max
    requires Lags(f, Plain(Open(pre + (content + (CRLF + f.b) + rest))), m, chunked, m, v, "")
    ensures var r := FilePart(chunked, m, f.max, f.b, h); r.Ok? ==> r.value.0.content != content
  {
    hide Lags, CopyFile, AfterFile, UniqueStart, Contains, GoodSpelling, Stray, FirstAt, Ascii;
    var p, x := CRLF + f.b, content + (CRLF + f.b) + rest;
    var s := pre + x;
    PatternOf(f.b);
    assert OccursAt(p, s, |pre| + |content|) by {
      assert s[|pre| + |content|..|pre| + |content| + |p|] == p;
    }
    var k := FirstOccurrence(p, s, |pre| + |content|);
    StrayContent(pre, content, f.b, rest, k, mimetype, sp);
    assert Virtual(p, 0, s) == s;
    CopyStopsAtBoundary(s, m, f.max, p, 0, "", 0, k);
    assert "" + s[..k] == s[..k];
    var _ := SameCopy(f, Plain(Open(s)), m, chunked, v, p, 0, "", 0);
  }

  lemma LostUpload(pre: string, content: string, b: string, rest: string, m: nat, max: nat, chunked: Source, v: View,
                   h: PartHead)
    requires NoEol(b) && !Ascii(b) && !Over(m, max)
    requires chunked.Chunked? && Shows(chunked.rd, v) && Fit(v.chunks, max)
    requires Remaining(v) == pre + (content + (CRLF + b) + rest)
    ensures var r := FilePart(chunked, m, max, b, h); r.Ok? ==> r.value.0.content != content
  {
    hide Shows, Fit, FilePart, TailAccepted, Ascii, Contains;
    var c := ChunkedWithoutBoundary(chunked.rd, v, m, max, b, h);
  }

  lemma FileNamed(part: Part, b: string)
    requires part.File? && GoodPart(part, b)
    ensures part.filename != ""
  {
  }

  /** A file part whose header block is whole, with a boundary that can be found, is one turn of the
      outer loop, wherever its content is cut. */
  lemma FileTurnCut(f: Frame, part: Part, rest: seq<Part>, sp: Spelling, tail: string, chunked: Source,
                    n: nat, m1: nat, c1: Source, n2: nat, c2: Source, v2: View,
                    params: map<string, string>, uploads: seq<Upload>) returns (n3: nat, c3: Source, v3: View)
    requires part.File? && GoodPart(part, f.b) && NoEol(f.b) && Ascii(f.b)
    requires TakeLine(chunked, n, f.max) == Ok((DispositionLine(part, sp), m1, c1))
    requires PartHeaders(c1, m1, f.max, DispositionLine(part, sp), NoHead) == Ok((HeadOf(part), n2, c2))
    requires var body := FileBody(part, FormBytes(rest, f.b, sp, tail));
             n2 + |body| <= Cap(f.max) + |tail| && Lags(f, Plain(Open(body)), n2, c2, n2, v2, "")
    ensures n3 + |AfterLine(rest, f.b, sp, tail, true)| <= Cap(f.max) + |tail|
    ensures var upload := Upload(part.name, part.filename, part.mimetype, RecordedSize(part.content, f.b), part.content);
            ParseParts(chunked, n, f.max, f.b, f.b, params, uploads)
            == ParseParts(c3, n3, f.max, f.b, LineOfParts(rest, f.b), params, uploads + [upload])
    ensures Lags(f, Plain(Open(AfterLine(rest, f.b, sp, tail, true))), n3, c3, n3, v3, "")
  {
    hide Lags, TakeLine, PartHeaders, FilePart, ParseParts, FormBytes, AfterLine, RecordedSize, Ascii, GoodPart;
    var next := AfterLine(rest, f.b, sp, tail, true);
    var end := if rest == [] then "--" else CRLF;
    FileNamed(part, f.b);
    FormAfterFile(rest, f.b, sp, tail);
    TailLength(rest, f.b, sp, tail, true);
    var body := part.content + (CRLF + f.b) + (end + next);
    assert FileBody(part, FormBytes(rest, f.b, sp, tail)) == body;
    FileRead(part, f.b, end, next, n2, f.max);
    v3 := SameFilePart(f, Plain(Open(body)), n2, c2, v2, HeadOf(part));
    n3 := n2 + |part.content| + |f.b| + 3;
    var res := FilePart(c2, n2, f.max, f.b, HeadOf(part)).value;
    c3 := res.3;
    FilePartUnfold(chunked, n, f.max, f.b, params, uploads, DispositionLine(part, sp), m1, c1, HeadOf(part), n2, c2,
                   res.0, LineOfParts(rest, f.b), n3, c3);
  }

  /** Any other file part gives the wrong upload or none. */
  lemma FileTurnWrong(f: Frame, g: Frame, part: Part, rest: seq<Part>, sp: Spelling, tail: string, chunked: Source,
                      n: nat, m1: nat, c1: Source, h: PartHead, m2: nat, c2: Source, v2: View, pre: string,
                      params: map<string, string>, uploads: seq<Upload>)
    requires part.File? && GoodPart(part, f.b) && GoodSpelling(sp) && NoEol(f.b) && f.b != "" && f.b[0] == '-'
    requires TakeLine(chunked, n, f.max) == Ok((DispositionLine(part, sp), m1, c1))
    requires PartHeaders(c1, m1, f.max, DispositionLine(part, sp), NoHead) == Ok((h, m2, c2))
    requires h.filename == part.filename && g.max == f.max && g.b == f.b
    requires !Ascii(f.b) || Stray(pre, part.mimetype, sp)
    requires var body := FileBody(part, FormBytes(rest, f.b, sp, tail));
             m2 + |pre + body| <= Cap(f.max) + |tail| && Lags(g, Plain(Open(pre + body)), m2, c2, m2, v2, "")
    ensures var r := ParseParts(chunked, n, f.max, f.b, f.b, params, uploads);
            r.Ok? ==> r.value.uploads != uploads + UploadsOf([part] + rest, f.b)
  {
    hide TakeLine, PartHeaders, FilePart, ParseParts, FormBytes, AfterLine, Ascii, Shows, Fit, SameCuts, GoodSpelling,
         Stray, EndOf, HeaderField;
    var next := AfterLine(rest, f.b, sp, tail, true);
    var end := if rest == [] then "--" else CRLF;
    FormAfterFile(rest, f.b, sp, tail);
    TailLength(rest, f.b, sp, tail, true);
    var body := part.content + (CRLF + f.b) + (end + next);
    assert FileBody(part, FormBytes(rest, f.b, sp, tail)) == body;
    if Ascii(f.b) {
      TypeReadable(part, sp, NoHead, f.b);
      StrayUpload(g, pre, part.content, end + next, m2, c2, v2, h, part.mimetype, sp);
    } else {
      assert "" + (pre + body) == pre + body;
      LostUpload(pre, part.content, f.b, end + next, m2, f.max, c2, v2, h);
    }
    WrongTurn(f, chunked, n, params, uploads, DispositionLine(part, sp), m1, c1, h, m2, c2, part, rest);
  }

  // ------------------------------------------------------------ the exact condition

  /** The line end that lags behind the boundary line in front of `parts`. */
  function BoundaryLag(parts: seq<Part>, b: string, sp: Spelling, tail: string, afterFile: bool, cuts: set<nat>): string
  {
    if afterFile then "" else LagOf(AfterLine(parts, b, sp, tail, false), cuts)
  }

  ghost predicate Clean(f: Frame, parts: seq<Part>, sp: Spelling, tail: string, afterFile: bool)
  {
    Findable(parts, f.b) && Harmful(parts, f.b, sp, tail, afterFile) !! f.cuts
  }

  lemma CleanText(f: Frame, parts: seq<Part>, sp: Spelling, tail: string, afterFile: bool)
    requires parts != [] && parts[0].Text? && BoundaryLag(parts, f.b, sp, tail, afterFile, f.cuts) == ""
    ensures Clean(f, parts, sp, tail, afterFile) <==> Clean(f, parts[1..], sp, tail, false)
  {
    hide FormBytes, AfterLine, Ascii;
    assert Findable(parts, f.b) <==> Findable(parts[1..], f.b) by {
      assert forall i :: 0 < i < |parts| ==> parts[i] == parts[1..][i - 1];
      assert forall i :: 0 <= i < |parts| - 1 ==> parts[1..][i] == parts[i + 1];
    }
  }

  lemma CleanFile(f: Frame, parts: seq<Part>, sp: Spelling, tail: string, afterFile: bool)
    requires parts != [] && parts[0].File? && BoundaryLag(parts, f.b, sp, tail, afterFile, f.cuts) == ""
    ensures var pairs := HeadPairs(parts[0].mimetype, sp, FileBody(parts[0], FormBytes(parts[1..], f.b, sp, tail)));
            Clean(f, parts, sp, tail, afterFile) <==>
            Ascii(f.b) && pairs !! f.cuts && Clean(f, parts[1..], sp, tail, true)
  {
    hide FormBytes, AfterLine, Ascii, HeadPairs;
  }

  lemma CutIsNotClean(f: Frame, parts: seq<Part>, sp: Spelling, tail: string, afterFile: bool)
    requires parts != [] && BoundaryLag(parts, f.b, sp, tail, afterFile, f.cuts) != ""
    ensures !Clean(f, parts, sp, tail, afterFile) && BoundaryLag(parts, f.b, sp, tail, afterFile, f.cuts) == "\n"
  {
    hide FormBytes, AfterLine, HeadPairs;
  }

  /** Parsing goes through the parts of a clean form; otherwise the first harmful cut, or the first
      file behind a boundary that cannot be found, spoils the result. */
  lemma {:induction false} PartsCut(f: Frame, parts: seq<Part>, sp: Spelling, tail: string, afterFile: bool, n: nat,
                                    chunked: Source, m: nat, v: View, params: map<string, string>, uploads: seq<Upload>)
    requires GoodParts(parts, f.b) && GoodSpelling(sp) && NoEol(f.b) && f.b != "" && f.b[0] == '-' && f.max < SIZE_T
    requires n + |AfterLine(parts, f.b, sp, tail, afterFile)| <= Cap(f.max) + |tail|
    requires Lags(f, Plain(Open(AfterLine(parts, f.b, sp, tail, afterFile))), n, chunked, m, v,
                  BoundaryLag(parts, f.b, sp, tail, afterFile, f.cuts))
    ensures var r := ParseParts(chunked, m, f.max, f.b, LineOfParts(parts, f.b), params, uploads);
            var good := Yields(r, ParamsOf(parts, params), uploads + UploadsOf(parts, f.b));
            && (Clean(f, parts, sp, tail, afterFile) ==> good)
            && (good && Named(parts) && "" !in params ==> Clean(f, parts, sp, tail, afterFile))
    decreases |parts|
  {
    hide Lags, TakeLine, PartHeaders, TextPart, FilePart, GoodSpelling, GoodPart, FormBytes, HeaderBytes, PartBytes,
         RecordedSize, Ascii, Clean, AfterLine, HeadPairs, Stray, LagOf, ParseParts;
    if parts == [] {
      Closes(chunked, m, f.max, f.b, params, uploads);
      NoParts(f, sp, tail, afterFile);
      return;
    }
    var part, rest := parts[0], parts[1..];
    NextPart(parts, f.b, sp, tail, afterFile);
    if BoundaryLag(parts, f.b, sp, tail, afterFile, f.cuts) != "" {
      CutIsNotClean(f, parts, sp, tail, afterFile);
      CutBoundary(f, Plain(Open(AfterLine(parts, f.b, sp, tail, afterFile))), n, chunked, m, v, params, uploads);
      if Named(parts) && "" !in params {
        NamesOf(parts, params);
      }
      return;
    }
    NoLag(f, Plain(Open(AfterLine(parts, f.b, sp, tail, afterFile))), n, chunked, m, v);
    if part.Text? {
      CleanText(f, parts, sp, tail, afterFile);
      var n3, m3, c3, v3 := TextTurnCut(f, part, rest, sp, tail, n, chunked, v, params, uploads);
      PartsCut(f, rest, sp, tail, false, n3, c3, m3, v3, params[part.name := Joined(part.lines)], uploads);
      return;
    }
    CleanFile(f, parts, sp, tail, afterFile);
    var body := FileBody(part, FormBytes(rest, f.b, sp, tail));
    PartBytesSplit(part, sp, FormBytes(rest, f.b, sp, tail));
    FileBodyLong(part, rest, f.b, sp, tail);
    var m1, c1, h, m2, c2, v2, pre, g := FileHead(f, part, sp, body, n, chunked, v);
    if Ascii(f.b) && HeadPairs(part.mimetype, sp, body) !! f.cuts {
      assert pre + body == body;
      var n3, c3, v3 := FileTurnCut(f, part, rest, sp, tail, chunked, n, m1, c1, m2, c2, v2, params, uploads);
      var upload := Upload(part.name, part.filename, part.mimetype, RecordedSize(part.content, f.b), part.content);
      PartsCut(f, rest, sp, tail, true, n3, c3, n3, v3, params, uploads + [upload]);
      assert (uploads + [upload]) + UploadsOf(rest, f.b) == uploads + UploadsOf(parts, f.b);
      return;
    }
    FileTurnWrong(f, g, part, rest, sp, tail, chunked, n, m1, c1, h, m2, c2, v2, pre, params, uploads);
    assert [part] + rest == parts;
  }

  lemma Closes(src: Source, n: nat, max: nat, b: string, params: map<string, string>, uploads: seq<Upload>)
    ensures ParseParts(src, n, max, b, b + "--", params, uploads) == Ok(Form(params, uploads, n, src))
    ensures ParamsOf([], params) == params && uploads + UploadsOf([], b) == uploads
  {
  }

  lemma NoParts(f: Frame, sp: Spelling, tail: string, afterFile: bool)
    ensures Clean(f, [], sp, tail, afterFile)
  {
  }

  lemma FileBodyLong(part: Part, rest: seq<Part>, b: string, sp: Spelling, tail: string)
    requires part.File?
    ensures |FileBody(part, FormBytes(rest, b, sp, tail))| >= |tail|
  {
    FormLength(rest, b, sp, tail);
  }

  /** A printed form sent in chunks reads back if and only if its boundary can be found and no chunk
      ends inside one of the harmful pairs. A field without a name may hide a cut: then this only
      suffices. */
  lemma CutFormReadsBack(r: Reader, v: View, parts: seq<Part>, b: string, sp: Spelling, tail: string, max: nat)
    requires GoodParts(parts, b) && GoodSpelling(sp) && NoEol(b) && b != "" && b[0] == '-' && max < SIZE_T
    requires |FormBytes(parts, b, sp, tail)| <= Cap(max) + |tail|
    requires Shows(r, v) && Fit(v.chunks, max) && Remaining(v) == FormBytes(parts, b, sp, tail)
    ensures var clean := Findable(parts, b) && Harmful(parts, b, sp, tail, false) !! Cuts(v);
            && (clean ==> Gives(ParseForm(Chunked(r), max, b), parts, b))
            && (Named(parts) ==> (Gives(ParseForm(Chunked(r), max, b), parts, b) <==> clean))
  {
    hide FormBytes, Shows, GoodParts, Findable, Harmful, AfterLine, ParseParts, TakeLine, Lags, GoodSpelling, Cuts;
    var f := Frame(Cuts(v), max, b, Remaining(v), v.tail);
    var line, rest := LineOfParts(parts, b), AfterLine(parts, b, sp, tail, false);
    FormAfterText(parts, b, sp, tail);
    assert NoEol(line) by { NoEolConcat(b, "--"); }
    TailLength(parts, b, sp, tail, false);
    StartsInStep(r, v, max, b);
    var m, c, v1 := PrintedStep(f, line, rest, 0, Chunked(r), v);
    PartsCut(f, parts, sp, tail, false, |line| + 2, c, m, v1, map[], []);
    assert [] + UploadsOf(parts, b) == UploadsOf(parts, b);
  }
}
