/** Parts of a form with any header lines in any order: what the lines leave of a part, and that
    such a form is read part by part. */
module PartHeads {
  import opened Wrappers
  import opened Streams
  import opened Numbers
  import opened HeaderText
  import opened Letters
  import opened Multipart
  import opened Boundary
  import opened MultipartBounds
  import opened ChunkedForms
  import opened FormRoundTrip

  // ------------------------------------------------------------ what a list of header lines means

  /** The name of the line is `key`, in any case of letters and with blanks around it. */
  predicate Says(line: string, key: string) { SameButCase(Trim(Before(':', line)), key) }

  function Told(line: string): string { Trim(After(':', line)) }

  /** The last line with this name decides. */
  function LastTold(lines: seq<string>, key: string, none: string): string
  {
    if lines == [] then none
    else if Says(lines[|lines| - 1], key) then Told(lines[|lines| - 1])
    else LastTold(lines[..|lines| - 1], key, none)
  }

  const DISPOSITION := "content-disposition"

  /** The options of a disposition, None if decoding them never returns. */
  function Options(line: string): Option<map<string, string>> { HeaderOptions(Told(line), true, ';') }

  predicate Returns(lines: seq<string>) {
    forall i :: 0 <= i < |lines| && Says(lines[i], DISPOSITION) ==> Options(lines[i]).Some?
  }

  /** The name of the last disposition; without the option it is empty. */
  function LastName(lines: seq<string>, none: string): string
    requires Returns(lines)
  {
    if lines == [] then none
    else
      var line := lines[|lines| - 1];
      if Says(line, DISPOSITION) then
        (if "name" in Options(line).value then Unquote(Options(line).value["name"]) else "")
      else LastName(lines[..|lines| - 1], none)
  }

  /** The file name of the last disposition that has one. */
  function LastFilename(lines: seq<string>, none: string): string
    requires Returns(lines)
  {
    if lines == [] then none
    else
      var line := lines[|lines| - 1];
      if Says(line, DISPOSITION) && "filename" in Options(line).value then Unquote(Options(line).value["filename"])
      else LastFilename(lines[..|lines| - 1], none)
  }

  function FoldHead(lines: seq<string>, h: PartHead): Option<PartHead>
  {
    if lines == [] then Some(h)
    else
      var h' := FoldHead(lines[..|lines| - 1], h);
      if h'.None? then None else HeaderField(lines[|lines| - 1], h'.value)
  }

  /** Quotes around a value are taken off, and nothing else is. */
  lemma UnquoteIs(v: string)
    ensures Unquote("\"" + v + "\"") == v && Unquote("\"") == ""
    ensures v == "" || v[0] != '"' || v[|v| - 1] != '"' ==> Unquote(v) == v
  {
    UnquoteQuoted(v);
  }

  /** One line, by its name. */
  lemma LineMeans(line: string, h: PartHead)
    ensures Says(line, DISPOSITION) ==>
              HeaderField(line, h)
              == if Options(line).None? then None
                 else
                   var q := Options(line).value;
                   Some(h.(fieldname := if "name" in q then Unquote(q["name"]) else "",
                           filename := if "filename" in q then Unquote(q["filename"]) else h.filename))
    ensures Says(line, "content-type") ==> HeaderField(line, h) == Some(h.(mimetype := Told(line)))
    ensures Says(line, "content-transfer-encoding") ==> HeaderField(line, h) == Some(h.(encoding := Told(line)))
    ensures !Says(line, DISPOSITION) && !Says(line, "content-type") && !Says(line, "content-transfer-encoding") ==>
              HeaderField(line, h) == Some(h)
    ensures Says(line, DISPOSITION) ==> !Says(line, "content-type") && !Says(line, "content-transfer-encoding")
    ensures Says(line, "content-type") ==> !Says(line, "content-transfer-encoding")
  {
    hide HeaderOptions, SameButCase, Trim, Before, After, Unquote, Lower;
    var name := Trim(Before(':', line));
    KeysPlain();
    KeyIs(name, DISPOSITION);
    KeyIs(name, "content-type");
    KeyIs(name, "content-transfer-encoding");
    KeysDiffer();
    EmptyQuote();
  }

  lemma EmptyQuote()
    ensures Unquote("") == ""
  {
  }

  lemma KeysPlain()
    ensures PlainKey(DISPOSITION) && PlainKey("content-type") && PlainKey("content-transfer-encoding")
  {
  }

  lemma KeysDiffer()
    ensures DISPOSITION != "content-type" && DISPOSITION != "content-transfer-encoding"
    ensures "content-type" != "content-transfer-encoding"
  {
    assert |DISPOSITION| == 19 && |"content-type"| == 12 && |"content-transfer-encoding"| == 25;
  }

  lemma KeyIs(name: string, key: string)
    requires PlainKey(key)
    ensures Lower(name) == key <==> SameButCase(name, key)
  {
    hide SameButCase, Lower;
    PlainKeyFacts(key);
    CaseInsensitive(name, key);
  }

  /** All lines together: name and file name come from the dispositions, the type from the last type
      line, the coding from the last coding line, and other lines change nothing. */
  lemma {:induction false} LinesMean(lines: seq<string>, h: PartHead)
    ensures FoldHead(lines, h).Some? <==> Returns(lines)
    ensures Returns(lines) ==>
              FoldHead(lines, h)
              == Some(PartHead(LastName(lines, h.fieldname), LastFilename(lines, h.filename),
                               LastTold(lines, "content-type", h.mimetype),
                               LastTold(lines, "content-transfer-encoding", h.encoding)))
  {
    hide HeaderField, Says, Told, Options, Unquote;
    if lines == [] {
      return;
    }
    var n := |lines| - 1;
    LinesMean(lines[..n], h);
    assert forall i :: 0 <= i < n ==> lines[..n][i] == lines[i];
    if Returns(lines) {
      assert Returns(lines[..n]);
      LineMeans(lines[n], FoldHead(lines[..n], h).value);
    } else if Returns(lines[..n]) {
      LineMeans(lines[n], FoldHead(lines[..n], h).value);
    }
  }

  // ------------------------------------------------------------ reading the lines

  lemma {:induction false} FoldFront(x: string, xs: seq<string>, h: PartHead)
    ensures FoldHead([x] + xs, h) == if HeaderField(x, h).None? then None else FoldHead(xs, HeaderField(x, h).value)
  {
    hide HeaderField;
    var all := [x] + xs;
    if xs == [] {
      assert all[..0] == [] && all[|all| - 1] == x;
    } else {
      assert all[..|all| - 1] == [x] + xs[..|xs| - 1];
      FoldFront(x, xs[..|xs| - 1], h);
    }
  }

  predicate HeaderLines(lines: seq<string>) { forall i :: 0 <= i < |lines| ==> lines[i] != "" && NoEol(lines[i]) }

  /** A header block is read line by line up to the empty line, and no byte behind it. */
  lemma {:induction false} BlockRead(lines: seq<string>, body: string, n: nat, max: nat, h: PartHead)
      returns (line: string, n1: nat, s1: Source)
    requires HeaderLines(lines) && FoldHead(lines, h).Some? && max < SIZE_T && n + |Lines(lines)| + 2 <= Cap(max)
    ensures TakeLine(Plain(Open(Lines(lines) + (CRLF + body))), n, max) == Ok((line, n1, s1))
    ensures PartHeaders(s1, n1, max, line, h)
            == Ok((FoldHead(lines, h).value, n + |Lines(lines)| + 2, Plain(Open(body))))
    decreases |lines|
  {
    hide TakeLine, PartHeaders, HeaderField, FoldHead, NoEol;
    if lines == [] {
      assert Lines(lines) + (CRLF + body) == "" + CRLF + body;
      NoEolNil();
      TakesPlainLine("", body, n, max);
      line, n1, s1 := "", n + 2, Plain(Open(body));
      HeadersEnd(s1, n1, max, h);
      FoldNone(h);
      return;
    }
    var rest := lines[1..];
    assert lines == [lines[0]] + rest;
    FoldFront(lines[0], rest, h);
    LinesCons(lines, CRLF + body);
    line, n1, s1 := lines[0], n + |lines[0]| + 2, Plain(Open(Lines(rest) + (CRLF + body)));
    TakesPlainLine(line, Lines(rest) + (CRLF + body), n, max);
    var next, n2, s2 := BlockRead(rest, body, n1, max, HeaderField(line, h).value);
    PartHeadersUnfold(s1, n1, max, line, h, HeaderField(line, h).value, next, n2, s2);
  }

  lemma FoldNone(h: PartHead)
    ensures FoldHead([], h) == Some(h)
  {
  }

  // ------------------------------------------------------------ whole forms

  /** A part with any header lines: a text part of `lines`, or a file part of `content` when the
      lines give a file name. */
  datatype AnyPart = AnyPart(headers: seq<string>, lines: seq<string>, content: string)

  predicate IsFile(part: AnyPart)
    requires Returns(part.headers)
  {
    LastFilename(part.headers, "") != ""
  }

  predicate GoodAny(part: AnyPart, b: string) {
    && HeaderLines(part.headers) && Returns(part.headers)
    && (forall i :: 0 <= i < |part.lines| ==>
          NoEol(part.lines[i]) && part.lines[i] != b && part.lines[i] != b + "--")
    && !Contains(CRLF + b, part.content)
  }

  predicate AllGood(parts: seq<AnyPart>, b: string) { forall i :: 0 <= i < |parts| ==> GoodAny(parts[i], b) }

  predicate NoFiles(parts: seq<AnyPart>, b: string)
    requires AllGood(parts, b)
  {
    forall i :: 0 <= i < |parts| ==> !IsFile(parts[i])
  }

  function Body(part: AnyPart, form: string): string
    requires Returns(part.headers)
  {
    if IsFile(part) then part.content + (CRLF + form) else Lines(part.lines) + form
  }

  function FormOf(parts: seq<AnyPart>, b: string, tail: string): string
    requires AllGood(parts, b)
  {
    if parts == [] then b + "--" + CRLF + tail
    else b + CRLF + PartOf(parts[0], FormOf(parts[1..], b, tail))
  }

  function PartOf(part: AnyPart, form: string): string
    requires Returns(part.headers)
  {
    Lines(part.headers) + (CRLF + Body(part, form))
  }

  function FieldsOf(parts: seq<AnyPart>, b: string, q: map<string, string>): map<string, string>
    requires AllGood(parts, b)
  {
    if parts == [] then q
    else
      FieldsOf(parts[1..], b,
               if IsFile(parts[0]) then q else q[LastName(parts[0].headers, "") := Joined(parts[0].lines)])
  }

  ghost function UploadOf(part: AnyPart, b: string): Upload
    requires Returns(part.headers)
  {
    Upload(LastName(part.headers, ""), LastFilename(part.headers, ""), LastTold(part.headers, "content-type", ""),
           RecordedSize(part.content, b), part.content)
  }

  ghost function FilesOf(parts: seq<AnyPart>, b: string): seq<Upload>
    requires AllGood(parts, b)
  {
    if parts == [] then []
    else (if IsFile(parts[0]) then [UploadOf(parts[0], b)] else []) + FilesOf(parts[1..], b)
  }

  /** The line in front of the parts, and what follows it. */
  function Ahead(parts: seq<AnyPart>, b: string): string { if parts == [] then b + "--" else b }

  function Behind(parts: seq<AnyPart>, b: string, tail: string, afterFile: bool): string
    requires AllGood(parts, b)
  {
    if parts == [] then (if afterFile then CRLF + tail else tail)
    else PartOf(parts[0], FormOf(parts[1..], b, tail))
  }

  lemma FormBehindText(parts: seq<AnyPart>, b: string, tail: string)
    requires AllGood(parts, b)
    ensures FormOf(parts, b, tail) == Ahead(parts, b) + CRLF + Behind(parts, b, tail, false)
  {
  }

  lemma FormBehindFile(parts: seq<AnyPart>, b: string, tail: string)
    requires AllGood(parts, b)
    ensures CRLF + FormOf(parts, b, tail)
            == (CRLF + b) + ((if parts == [] then "--" else CRLF) + Behind(parts, b, tail, true))
  {
    hide PartOf;
    if parts == [] {
      Assoc(b + "--", CRLF, tail);
      Assoc(b, "--", CRLF + tail);
      Assoc(CRLF, b, "--" + (CRLF + tail));
    } else {
      var bytes := PartOf(parts[0], FormOf(parts[1..], b, tail));
      Assoc(b, CRLF, bytes);
      Assoc(CRLF, b, CRLF + bytes);
    }
  }

  lemma {:induction false} LongEnough(parts: seq<AnyPart>, b: string, tail: string)
    requires AllGood(parts, b)
    ensures |FormOf(parts, b, tail)| >= |tail|
  {
    if parts != [] {
      LongEnough(parts[1..], b, tail);
    }
  }

  lemma BehindLong(parts: seq<AnyPart>, b: string, tail: string, afterFile: bool)
    requires AllGood(parts, b)
    ensures |Behind(parts, b, tail, afterFile)| >= |tail|
  {
    if parts != [] {
      LongEnough(parts[1..], b, tail);
    }
  }

  /** The head that the lines of a part give. */
  lemma HeadGiven(part: AnyPart) returns (h: PartHead)
    requires Returns(part.headers)
    ensures FoldHead(part.headers, NoHead) == Some(h)
    ensures h.fieldname == LastName(part.headers, "") && h.filename == LastFilename(part.headers, "")
    ensures h.mimetype == LastTold(part.headers, "content-type", "")
  {
    LinesMean(part.headers, NoHead);
    h := FoldHead(part.headers, NoHead).value;
  }

  lemma AnyTextTurn(part: AnyPart, rest: seq<AnyPart>, b: string, tail: string, n: nat, max: nat,
                    params: map<string, string>, uploads: seq<Upload>) returns (n3: nat)
    requires GoodAny(part, b) && !IsFile(part) && AllGood(rest, b) && NoEol(b) && max < SIZE_T
    requires n + |PartOf(part, FormOf(rest, b, tail))| <= Cap(max) + |tail|
    ensures n3 + |Behind(rest, b, tail, false)| <= Cap(max) + |tail|
    ensures ParseParts(Plain(Open(PartOf(part, FormOf(rest, b, tail)))), n, max, b, b, params, uploads)
            == ParseParts(Plain(Open(Behind(rest, b, tail, false))), n3, max, b, Ahead(rest, b),
                          params[LastName(part.headers, "") := Joined(part.lines)], uploads)
  {
    hide TakeLine, PartHeaders, TextPart, ParseParts, FormOf, Behind, FoldHead, LastName, LastFilename, LastTold, Returns;
    var stop, next := Ahead(rest, b), Behind(rest, b, tail, false);
    FormBehindText(rest, b, tail);
    BehindLong(rest, b, tail, false);
    assert NoEol(stop) by { NoEolConcat(b, "--"); }
    var body := Lines(part.lines) + (stop + CRLF + next);
    assert PartOf(part, FormOf(rest, b, tail)) == Lines(part.headers) + (CRLF + body);
    var h := HeadGiven(part);
    var line1, n1, s1 := BlockRead(part.headers, body, n, max, NoHead);
    var n2 := n + |Lines(part.headers)| + 2;
    TextRead(part.lines, b, stop, next, n2, max);
    n3 := n2 + |Lines(part.lines)| + |stop| + 2;
    TextPartUnfold(Plain(Open(Lines(part.headers) + (CRLF + body))), n, max, b, params, uploads, line1, n1, s1, h, n2,
                   Plain(Open(body)), Joined(part.lines), stop, n3, Plain(Open(next)));
  }

  lemma PartIsFile(part: AnyPart, form: string)
    requires Returns(part.headers) && IsFile(part)
    ensures PartOf(part, form) == Lines(part.headers) + (CRLF + (part.content + (CRLF + form)))
  {
    hide LastFilename;
  }

  lemma AnyFileTurn(part: AnyPart, rest: seq<AnyPart>, b: string, tail: string, n: nat, max: nat,
                    params: map<string, string>, uploads: seq<Upload>) returns (n3: nat)
    requires GoodAny(part, b) && IsFile(part) && AllGood(rest, b) && NoEol(b) && Ascii(b) && max < SIZE_T
    requires n + |PartOf(part, FormOf(rest, b, tail))| <= Cap(max) + |tail|
    ensures n3 + |Behind(rest, b, tail, true)| <= Cap(max) + |tail|
    ensures ParseParts(Plain(Open(PartOf(part, FormOf(rest, b, tail)))), n, max, b, b, params, uploads)
            == ParseParts(Plain(Open(Behind(rest, b, tail, true))), n3, max, b, Ahead(rest, b),
                          params, uploads + [UploadOf(part, b)])
  {
    hide TakeLine, PartHeaders, FilePart, ParseParts, FormOf, Behind, FoldHead, LastName, LastFilename, LastTold, Returns,
         RecordedSize, Ascii, Contains, PartOf, Body;
    PartIsFile(part, FormOf(rest, b, tail));
    var next := Behind(rest, b, tail, true);
    var end := if rest == [] then "--" else CRLF;
    FormBehindFile(rest, b, tail);
    BehindLong(rest, b, tail, true);
    var body := part.content + (CRLF + b) + (end + next);
    Assoc(part.content, CRLF + b, end + next);
    var h := HeadGiven(part);
    var line1, n1, s1 := BlockRead(part.headers, body, n, max, NoHead);
    var n2 := n + |Lines(part.headers)| + 2;
    ContentRead(part.content, b, end, next, n2, max, h);
    n3 := n2 + |part.content| + |b| + 3;
    FilePartUnfold(Plain(Open(Lines(part.headers) + (CRLF + body))), n, max, b, params, uploads, line1, n1, s1, h, n2,
                   Plain(Open(body)), UploadOf(part, b), Ahead(rest, b), n3, Plain(Open(next)));
  }

  lemma {:induction false} AnyPartsRead(parts: seq<AnyPart>, b: string, tail: string, afterFile: bool, n: nat, max: nat,
                                        params: map<string, string>, uploads: seq<Upload>)
    requires AllGood(parts, b) && NoEol(b) && max < SIZE_T
    requires Ascii(b) || NoFiles(parts, b)
    requires n + |Behind(parts, b, tail, afterFile)| <= Cap(max) + |tail|
    ensures Yields(ParseParts(Plain(Open(Behind(parts, b, tail, afterFile))), n, max, b, Ahead(parts, b), params, uploads),
                   FieldsOf(parts, b, params), uploads + FilesOf(parts, b))
    decreases |parts|
  {
    hide ParseParts, FormOf, PartOf, UploadOf, Ascii, LastName, IsFile, HeaderLines;
    if parts == [] {
      ClosedForm(Plain(Open(Behind(parts, b, tail, afterFile))), n, max, b, params, uploads);
      assert uploads + FilesOf(parts, b) == uploads;
      return;
    }
    var part, rest := parts[0], parts[1..];
    if IsFile(part) {
      var n3 := AnyFileTurn(part, rest, b, tail, n, max, params, uploads);
      AnyPartsRead(rest, b, tail, true, n3, max, params, uploads + [UploadOf(part, b)]);
      Assoc(uploads, [UploadOf(part, b)], FilesOf(rest, b));
    } else {
      var q := params[LastName(part.headers, "") := Joined(part.lines)];
      var n3 := AnyTextTurn(part, rest, b, tail, n, max, params, uploads);
      AnyPartsRead(rest, b, tail, false, n3, max, q, uploads);
      assert [] + FilesOf(rest, b) == FilesOf(rest, b);
    }
  }

  lemma ClosedForm(src: Source, n: nat, max: nat, b: string, params: map<string, string>, uploads: seq<Upload>)
    ensures ParseParts(src, n, max, b, b + "--", params, uploads) == Ok(Form(params, uploads, n, src))
  {
  }

  /** Lines in front of the first boundary. */
  predicate Preamble(pre: seq<string>, b: string) {
    forall i :: 0 <= i < |pre| ==> NoEol(pre[i]) && pre[i] != b && pre[i] != b + "--"
  }

  /** The outer loop passes over the lines in front of the first boundary. */
  lemma {:induction false} PreamblePassed(line: string, pre: seq<string>, stop: string, rest: string, b: string,
                                          n: nat, max: nat, params: map<string, string>, uploads: seq<Upload>)
    requires line != b && line != b + "--" && Preamble(pre, b) && NoEol(stop) && max < SIZE_T
    requires n + |Lines(pre)| + |stop| + 2 <= Cap(max)
    ensures ParseParts(Plain(Open(Lines(pre) + (stop + CRLF + rest))), n, max, b, line, params, uploads)
            == ParseParts(Plain(Open(rest)), n + |Lines(pre)| + |stop| + 2, max, b, stop, params, uploads)
    decreases |pre|
  {
    hide TakeLine, ParseParts, NoEol;
    var all := Lines(pre) + (stop + CRLF + rest);
    if pre == [] {
      assert all == stop + CRLF + rest;
      TakesPlainLine(stop, rest, n, max);
      OuterUnfold(Plain(Open(all)), n, max, b, line, params, uploads, stop, n + |stop| + 2, Plain(Open(rest)));
      return;
    }
    var more := Lines(pre[1..]) + (stop + CRLF + rest);
    LinesCons(pre, stop + CRLF + rest);
    TakesPlainLine(pre[0], more, n, max);
    OuterUnfold(Plain(Open(all)), n, max, b, line, params, uploads, pre[0], n + |pre[0]| + 2, Plain(Open(more)));
    PreamblePassed(pre[0], pre[1..], stop, rest, b, n + |pre[0]| + 2, max, params, uploads);
  }

  lemma PreambleOfForm(pre: seq<string>, stop: string, rest: string, b: string, max: nat)
    requires Preamble(pre, b) && NoEol(stop) && max < SIZE_T && |Lines(pre)| + |stop| + 2 <= Cap(max)
    ensures ParseForm(Plain(Open(Lines(pre) + (stop + CRLF + rest))), max, b)
            == ParseParts(Plain(Open(rest)), |Lines(pre)| + |stop| + 2, max, b, stop, map[], [])
  {
    hide TakeLine, ParseParts, NoEol;
    var all := Lines(pre) + (stop + CRLF + rest);
    if pre == [] {
      assert all == stop + CRLF + rest;
      TakesPlainLine(stop, rest, 0, max);
      return;
    }
    var more := Lines(pre[1..]) + (stop + CRLF + rest);
    LinesCons(pre, stop + CRLF + rest);
    TakesPlainLine(pre[0], more, 0, max);
    PreamblePassed(pre[0], pre[1..], stop, rest, b, |pre[0]| + 2, max, map[], []);
  }

  /** Any form, whatever lines stand in front of it and whatever header lines its parts have: from a
      plain body it gives the fields and the uploads that the lines mean, if and only if its boundary
      can be found or it has no file. */
  lemma AnyFormReadsBack(pre: seq<string>, parts: seq<AnyPart>, b: string, tail: string, max: nat)
    requires Preamble(pre, b) && AllGood(parts, b) && NoEol(b) && max < SIZE_T
    requires |Lines(pre)| + |FormOf(parts, b, tail)| <= Cap(max) + |tail|
    ensures Yields(ParseForm(Plain(Open(Lines(pre) + FormOf(parts, b, tail))), max, b),
                   FieldsOf(parts, b, map[]), FilesOf(parts, b))
            <==> Ascii(b) || NoFiles(parts, b)
  {
    hide TakeLine, ParseParts, ParseForm, FormOf, FieldsOf, FilesOf, Ascii, Behind, NoFiles, AllGood, Preamble;
    var line, rest := Ahead(parts, b), Behind(parts, b, tail, false);
    var n := |Lines(pre)| + |line| + 2;
    FormBehindText(parts, b, tail);
    assert NoEol(line) by { NoEolConcat(b, "--"); }
    BehindLong(parts, b, tail, false);
    PreambleOfForm(pre, line, rest, b, max);
    if Ascii(b) || NoFiles(parts, b) {
      AnyPartsRead(parts, b, tail, false, n, max, map[], []);
      assert [] + FilesOf(parts, b) == FilesOf(parts, b);
    } else {
      SomeFile(parts, b);
      if ParseParts(Plain(Open(rest)), n, max, b, line, map[], []).Ok? {
        HighBoundary(Plain(Open(rest)), n, max, b, line, map[], []);
      }
    }
  }

  lemma {:induction false} SomeFile(parts: seq<AnyPart>, b: string)
    requires AllGood(parts, b) && !NoFiles(parts, b)
    ensures FilesOf(parts, b) != []
  {
    hide LastFilename, LastName, LastTold, RecordedSize;
    if !IsFile(parts[0]) {
      var i :| 0 <= i < |parts| && IsFile(parts[i]);
      assert parts[1..][i - 1] == parts[i];
      SomeFile(parts[1..], b);
    }
  }
}
