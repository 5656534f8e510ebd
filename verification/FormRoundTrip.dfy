/** Writing a form and parsing it back. */
module FormRoundTrip {
  import opened Wrappers
  import opened Streams
  import opened Numbers
  import opened UrlCodec
  import opened HeaderText
  import opened Multipart
  import opened Boundary
  import opened MultipartBounds
  import opened ChunkedForms

  /** A text part with the lines of its value, or a file part. */
  datatype Part =
    | Text(name: string, lines: seq<string>)
    | File(name: string, filename: string, mimetype: string, content: string)

  /** How the two header names are spelled; the parser ignores letter case. */
  datatype Spelling = Spelling(disposition: string, contentType: string)

  predicate GoodSpelling(sp: Spelling) {
    && Lower(sp.disposition) == "content-disposition" && Lower(sp.contentType) == "content-type"
    && FieldName(sp.disposition) && FieldName(sp.contentType)
  }

  /** A name that survives the option parser unchanged. */
  predicate SafeName(s: string) { NoEol(s) && Lacks(s, ';') && Lacks(s, '%') }

  predicate GoodPart(part: Part, b: string) {
    SafeName(part.name) &&
    match part
    case Text(_, lines) =>
      forall i :: 0 <= i < |lines| ==> NoEol(lines[i]) && lines[i] != b && lines[i] != b + "--"
    case File(_, filename, mimetype, content) =>
      filename != "" && SafeName(filename) && NoEol(mimetype) && Trimmed(mimetype) && !Contains(CRLF + b, content)
  }

  /** A boundary that the parser can find behind the files among the parts. */
  predicate Findable(parts: seq<Part>, b: string) {
    Ascii(b) || forall i :: 0 <= i < |parts| ==> parts[i].Text?
  }

  predicate GoodParts(parts: seq<Part>, b: string) {
    forall i :: 0 <= i < |parts| ==> GoodPart(parts[i], b)
  }

  // ------------------------------------------------------------ writing

  function NameOption(name: string): string { "name=\"" + name + "\"" }

  function Options(part: Part): string {
    match part
    case Text(name, _) => "form-data; " + NameOption(name)
    case File(name, filename, _, _) => "form-data; " + NameOption(name) + "; file" + NameOption(filename)
  }

  function DispositionLine(part: Part, sp: Spelling): string { sp.disposition + ": " + Options(part) }

  function TypeLine(mimetype: string, sp: Spelling): string { sp.contentType + ": " + mimetype }

  function Lines(ls: seq<string>): string {
    if ls == [] then "" else ls[0] + CRLF + Lines(ls[1..])
  }

  /** The form: for every part the boundary line, its headers, an empty line and its body. */
  function FormBytes(parts: seq<Part>, b: string, sp: Spelling, tail: string): string {
    if parts == [] then b + "--" + CRLF + tail
    else
      b + CRLF + PartBytes(parts[0], sp, FormBytes(parts[1..], b, sp, tail))
  }

  function PartBytes(part: Part, sp: Spelling, rest: string): string {
    DispositionLine(part, sp) + CRLF +
    match part
    case Text(_, lines) => CRLF + (Lines(lines) + rest)
    case File(_, _, mimetype, content) => TypeLine(mimetype, sp) + CRLF + (CRLF + (content + (CRLF + rest)))
  }

  // ------------------------------------------------------------ what comes back

  function Joined(ls: seq<string>): string {
    if ls == [] then "" else ls[0] + Joined(ls[1..])
  }

  function ParamsOf(parts: seq<Part>, q: map<string, string>): map<string, string> {
    if parts == [] then q
    else match parts[0]
      case Text(name, lines) => ParamsOf(parts[1..], q[name := Joined(lines)])
      case File(_, _, _, _) => ParamsOf(parts[1..], q)
  }

  ghost function RecordedSize(content: string, b: string): nat {
    |content| + Restarts(CRLF + b, content + CRLF + b, 0, |content| + 1)
  }

  ghost function UploadsOf(parts: seq<Part>, b: string): seq<Upload> {
    if parts == [] then []
    else match parts[0]
      case Text(_, _) => UploadsOf(parts[1..], b)
      case File(name, filename, mimetype, content) =>
        [Upload(name, filename, mimetype, RecordedSize(content, b), content)] + UploadsOf(parts[1..], b)
  }

  /** What is left unread: after a closing file part the final line end is still there. */
  function Left(parts: seq<Part>, tail: string): string {
    if parts != [] && parts[|parts| - 1].File? then CRLF + tail else tail
  }

  // ------------------------------------------------------------ header lines

  /** No upper-case letter and no byte the option parser treats specially. */
  predicate PlainKey(s: string) {
    forall k :: 0 <= k < |s| ==> 'a' <= s[k] <= 'z' || s[k] == '-'
  }

  lemma PlainKeyFacts(s: string)
    requires PlainKey(s)
    ensures Lower(s) == s && Lacks(s, '%') && Lacks(s, '=') && Lacks(s, ';') && Trimmed(s)
  {
    LowerKeeps(s);
  }

  lemma KeysArePlain()
    ensures PlainKey("form-data") && PlainKey("name") && PlainKey("filename")
  {
  }

  /** The quoted option ` key="v"` decodes to the key and the quoted value. */
  lemma QuotedOption(key: string, v: string)
    requires PlainKey(key) && Lacks(v, '%')
    ensures DecodeOption(" " + key + "=\"" + v + "\"", true) == Some((key, Some("\"" + v + "\"")))
  {
    var left, right := " " + key, "\"" + v + "\"";
    var s := left + ['='] + right;
    assert s == " " + key + "=\"" + v + "\"";
    PlainKeyFacts(key);
    SplitAt(left, '=', right);
    DecodeWithoutPercent(left, true);
    DecodeWithoutPercent(right, true);
    TrimKeeps(key);
    TrimKeeps(right);
    assert s[..|left|] == left && s[|left| + 1..] == right;
  }

  lemma FormDataOption()
    ensures DecodeOption("form-data", true) == Some(("form-data", None))
  {
    KeysArePlain();
    BareOption("form-data");
  }

  lemma BareOption(key: string)
    requires PlainKey(key)
    ensures DecodeOption(key, true) == Some((key, None))
  {
    hide PlainKey, Decode, Trim, Lower;
    PlainKeyFacts(key);
    FindIs('=', key, |key|);
    assert key[..|key|] == key;
    DecodeWithoutPercent(key, true);
    TrimKeeps(key);
  }

  function Quoted(key: string, v: string): string { " " + key + "=\"" + v + "\"" }

  lemma QuotedLacksSemicolon(key: string, v: string)
    requires PlainKey(key) && Lacks(v, ';')
    ensures Lacks(Quoted(key, v), ';') && Quoted(key, v) != ""
  {
    PlainKeyFacts(key);
  }

  lemma OptionsAsList(part: Part)
    ensures part.Text? ==> Options(part) == "form-data" + [';'] + Quoted("name", part.name)
    ensures part.File? ==>
              Options(part)
              == "form-data" + [';'] + (Quoted("name", part.name) + [';'] + Quoted("filename", part.filename))
  {
    hide NameOption, Quoted;
    var head, o := "form-data" + [';'], NameOption(part.name);
    var q := " " + o;
    QuotedName(part.name);
    assert "form-data; " == head + " ";
    Assoc(head, " ", o);
    if part.File? {
      var f := NameOption(part.filename);
      QuotedFilename(part.filename);
      assert "; file" == [';'] + " file";
      Assoc(head + q, [';'], " file");
      Assoc((head + q) + [';'], " file", f);
      Assoc(head, q, [';']);
      Assoc(head, q + [';'], " file" + f);
    }
  }

  lemma QuotedName(v: string)
    ensures Quoted("name", v) == " " + NameOption(v)
  {
    assert " " + "name" + "=\"" == " " + "name=\"";
    Assoc(" ", "name=\"", v);
    Assoc(" ", "name=\"" + v, "\"");
  }

  lemma QuotedFilename(v: string)
    ensures Quoted("filename", v) == " file" + NameOption(v)
  {
    assert " " + "filename" + "=\"" == " file" + "name=\"";
    Assoc(" file", "name=\"", v);
    Assoc(" file", "name=\"" + v, "\"");
  }

  lemma ParamsOfText(name: string)
    requires SafeName(name)
    ensures Params("form-data" + [';'] + Quoted("name", name), ';') == ["form-data", Quoted("name", name)]
  {
    hide Pieces, Quoted;
    KeysArePlain();
    PlainKeyFacts("form-data");
    var o := Quoted("name", name);
    QuotedLacksSemicolon("name", name);
    PiecesOfFirst("form-data", o, ';');
    PiecesOfFirst(o, "", ';');
    assert Pieces("form-data" + [';'] + o, ';') == ["form-data", o];
  }

  lemma ParamsOfFile(name: string, filename: string)
    requires SafeName(name) && SafeName(filename)
    ensures Params("form-data" + [';'] + (Quoted("name", name) + [';'] + Quoted("filename", filename)), ';')
            == ["form-data", Quoted("name", name), Quoted("filename", filename)]
  {
    hide Pieces, Quoted;
    KeysArePlain();
    PlainKeyFacts("form-data");
    var o, f := Quoted("name", name), Quoted("filename", filename);
    QuotedLacksSemicolon("name", name);
    QuotedLacksSemicolon("filename", filename);
    PiecesOfFirst("form-data", o + [';'] + f, ';');
    PiecesOfFirst(o, f, ';');
    PiecesOfFirst(f, "", ';');
    assert Pieces("form-data" + [';'] + (o + [';'] + f), ';') == ["form-data", o, f];
  }

  lemma FoldCons(x: string, xs: seq<string>, value: string, q: map<string, string>)
    requires DecodeOption(x, true).Some?
    ensures var (name, own) := DecodeOption(x, true).value;
            var v := if own.Some? then own.value else Trim(value);
            FoldOptions([x] + xs, true, value, q) == FoldOptions(xs, true, v, q[name := v])
  {
    assert ([x] + xs)[1..] == xs;
  }

  /** After the first two options of any disposition. */
  lemma FoldFormData(name: string, more: seq<string>)
    requires SafeName(name)
    ensures var v := "\"" + name + "\"";
            FoldOptions(["form-data", Quoted("name", name)] + more, true, "", map[])
            == FoldOptions(more, true, v, map["form-data" := ""]["name" := v])
  {
    hide DecodeOption, FoldOptions;
    KeysArePlain();
    FormDataOption();
    QuotedOption("name", name);
    TrimKeeps("");
    var o, q := Quoted("name", name), map["form-data" := ""];
    assert ["form-data", o] + more == ["form-data"] + ([o] + more);
    FoldCons("form-data", [o] + more, "", map[]);
    FoldCons(o, more, "", q);
  }

  /** What the option parser makes of a disposition: the quoted name and, for a file, file name. */
  lemma DispositionOptions(part: Part)
    requires SafeName(part.name) && (part.File? ==> SafeName(part.filename))
    ensures var v := "\"" + part.name + "\"";
            var q := map["form-data" := ""]["name" := v];
            HeaderOptions(Options(part), true, ';')
            == Some(if part.Text? then q else q["filename" := "\"" + part.filename + "\""])
  {
    OptionsAsList(part);
    var v := "\"" + part.name + "\"";
    var o := Quoted("name", part.name);
    if part.Text? {
      ParamsOfText(part.name);
      FoldFormData(part.name, []);
      assert ["form-data", o] + [] == ["form-data", o];
    } else {
      var f := Quoted("filename", part.filename);
      ParamsOfFile(part.name, part.filename);
      FoldFormData(part.name, [f]);
      assert ["form-data", o] + [f] == ["form-data", o, f];
      KeysArePlain();
      QuotedOption("filename", part.filename);
      FoldCons(f, [], v, map["form-data" := ""]["name" := v]);
      assert [f] + [] == [f];
    }
  }

  lemma UnquoteQuoted(v: string)
    ensures Unquote("\"" + v + "\"") == v
  {
    var s := "\"" + v + "\"";
    assert s[1..|s| - 1] == v;
  }

  /** The head a part's header lines give. */
  function HeadOf(part: Part): PartHead {
    match part
    case Text(name, _) => PartHead(name, "", "", "")
    case File(name, filename, mimetype, _) => PartHead(name, filename, mimetype, "")
  }

  lemma DispositionField(part: Part, sp: Spelling, b: string)
    requires GoodPart(part, b) && GoodSpelling(sp)
    ensures HeaderField(DispositionLine(part, sp), NoHead) == Some(HeadOf(part).(mimetype := ""))
  {
    OptionsAsList(part);
    var o := Options(part);
    assert o[0] == 'f' && o[|o| - 1] == '"';
    FieldLine(sp.disposition, o);
    DispositionOptions(part);
    UnquoteQuoted(part.name);
    if part.File? {
      UnquoteQuoted(part.filename);
    }
  }

  lemma TypeField(mimetype: string, sp: Spelling, h: PartHead)
    requires NoEol(mimetype) && Trimmed(mimetype) && GoodSpelling(sp)
    ensures HeaderField(TypeLine(mimetype, sp), h) == Some(h.(mimetype := mimetype))
  {
    FieldLine(sp.contentType, mimetype);
    assert "content-type"[8] == 't' && "content-disposition"[8] == 'd';
  }

  // ------------------------------------------------------------ reading the lines back

  lemma TakesPlainLine(text: string, rest: string, n: nat, max: nat)
    requires NoEol(text) && max < SIZE_T && n + |text| + 2 <= Cap(max)
    ensures TakeLine(Plain(Open(text + CRLF + rest)), n, max) == Ok((text, n + |text| + 2, Plain(Open(rest))))
  {
    ReadsLine(text, rest, (max - n) % SIZE_T);
  }

  lemma NoEolConcat(a: string, b: string)
    requires NoEol(a) && NoEol(b)
    ensures NoEol(a + b)
  {
  }

  lemma LiteralsNoEol()
    ensures NoEol("form-data; ") && NoEol("name=\"") && NoEol("\"") && NoEol("; file") && NoEol(": ")
  {
  }

  lemma OptionsNoEol(part: Part)
    requires SafeName(part.name) && (part.File? ==> SafeName(part.filename))
    ensures NoEol(Options(part))
  {
    LiteralsNoEol();
    NameOptionNoEol(part.name);
    NoEolConcat("form-data; ", NameOption(part.name));
    if part.File? {
      NameOptionNoEol(part.filename);
      NoEolConcat("form-data; " + NameOption(part.name), "; file");
      NoEolConcat("form-data; " + NameOption(part.name) + "; file", NameOption(part.filename));
    }
  }

  lemma NameOptionNoEol(name: string)
    requires NoEol(name)
    ensures NoEol(NameOption(name))
  {
    LiteralsNoEol();
    NoEolConcat("name=\"", name);
    NoEolConcat("name=\"" + name, "\"");
  }

  lemma FieldLineNoEol(field: string, value: string)
    requires NoEol(field) && NoEol(value)
    ensures NoEol(field + ": " + value)
  {
    LiteralsNoEol();
    NoEolConcat(field, ": ");
    NoEolConcat(field + ": ", value);
  }

  // ------------------------------------------------------------ one part

  lemma HeaderStep(line: string, h: PartHead, h': PartHead, next: string, rest: string, n: nat, max: nat)
    requires line != "" && HeaderField(line, h) == Some(h')
    requires NoEol(next) && max < SIZE_T && n + |next| + 2 <= Cap(max)
    ensures PartHeaders(Plain(Open(next + CRLF + rest)), n, max, line, h)
            == PartHeaders(Plain(Open(rest)), n + |next| + 2, max, next, h')
  {
    hide ReadLine, HeaderField;
    TakesPlainLine(next, rest, n, max);
    PartHeadersUnfold(Plain(Open(next + CRLF + rest)), n, max, line, h, h', next, n + |next| + 2, Plain(Open(rest)));
  }

  lemma HeadersEnd(src: Source, n: nat, max: nat, h: PartHead)
    ensures PartHeaders(src, n, max, "", h) == Ok((h, n, src))
  {
  }

  lemma DispositionReadable(part: Part, sp: Spelling, b: string)
    requires GoodPart(part, b) && GoodSpelling(sp)
    ensures var d := DispositionLine(part, sp);
            d != "" && NoEol(d) && HeaderField(d, NoHead) == Some(HeadOf(part).(mimetype := ""))
  {
    OptionsNoEol(part);
    FieldLineNoEol(sp.disposition, Options(part));
    DispositionField(part, sp, b);
  }

  lemma TypeReadable(part: Part, sp: Spelling, h: PartHead, b: string)
    requires part.File? && GoodPart(part, b) && GoodSpelling(sp)
    ensures var t := TypeLine(part.mimetype, sp);
            t != "" && NoEol(t) && HeaderField(t, h) == Some(h.(mimetype := part.mimetype))
  {
    FieldLineNoEol(sp.contentType, part.mimetype);
    TypeField(part.mimetype, sp, h);
  }

  /** Reading the headers of a part, from the line after its boundary. */
  lemma HeadersRead(part: Part, sp: Spelling, b: string, body: string, n: nat, max: nat)
      returns (line: string, n1: nat, s1: Source, n': nat)
    requires GoodPart(part, b) && GoodSpelling(sp) && max < SIZE_T
    requires n + |HeaderBytes(part, sp, body)| - |body| <= Cap(max)
    ensures n' == n + |HeaderBytes(part, sp, body)| - |body|
    ensures TakeLine(Plain(Open(HeaderBytes(part, sp, body))), n, max) == Ok((line, n1, s1))
    ensures PartHeaders(s1, n1, max, line, NoHead) == Ok((HeadOf(part), n', Plain(Open(body))))
  {
    hide ReadLine, HeaderField, TakeLine, PartHeaders, Options, GoodSpelling;
    var d := DispositionLine(part, sp);
    DispositionReadable(part, sp, b);
    assert "" + CRLF + body == CRLF + body;
    line, n1 := d, n + |d| + 2;
    if part.Text? {
      s1 := Plain(Open(CRLF + body));
      n' := n1 + 2;
      TakesPlainLine(d, CRLF + body, n, max);
      HeaderStep(d, NoHead, HeadOf(part), "", body, n1, max);
      HeadersEnd(Plain(Open(body)), n', max, HeadOf(part));
    } else {
      var t := TypeLine(part.mimetype, sp);
      var h := HeadOf(part).(mimetype := "");
      TypeReadable(part, sp, h, b);
      s1 := Plain(Open(t + CRLF + (CRLF + body)));
      n' := n1 + |t| + 4;
      TakesPlainLine(d, t + CRLF + (CRLF + body), n, max);
      HeaderStep(d, NoHead, h, t, CRLF + body, n1, max);
      HeaderStep(t, h, HeadOf(part), "", body, n1 + |t| + 2, max);
      HeadersEnd(Plain(Open(body)), n', max, HeadOf(part));
    }
  }

  function HeaderBytes(part: Part, sp: Spelling, body: string): string {
    DispositionLine(part, sp) + CRLF +
    (if part.Text? then CRLF + body else TypeLine(part.mimetype, sp) + CRLF + (CRLF + body))
  }

  lemma PartBytesSplit(part: Part, sp: Spelling, rest: string)
    ensures PartBytes(part, sp, rest)
            == HeaderBytes(part, sp, if part.Text? then Lines(part.lines) + rest else part.content + (CRLF + rest))
  {
  }

  lemma LinesCons(lines: seq<string>, rest: string)
    requires lines != []
    ensures Lines(lines) + rest == lines[0] + CRLF + (Lines(lines[1..]) + rest)
    ensures |Lines(lines)| == |lines[0]| + 2 + |Lines(lines[1..])|
  {
  }

  /** From line `line` the text loop reads the lines still to come and stops at `stop`. */
  lemma {:induction false} TextLinesRead(line: string, lines: seq<string>, b: string, stop: string, rest: string,
                                         value: string, n: nat, max: nat)
    requires line != b && line != b + "--"
    requires forall i :: 0 <= i < |lines| ==> NoEol(lines[i]) && lines[i] != b && lines[i] != b + "--"
    requires (stop == b || stop == b + "--") && NoEol(stop) && max < SIZE_T
    requires n + |Lines(lines)| + |stop| + 2 <= Cap(max)
    ensures TextLines(Plain(Open(Lines(lines) + (stop + CRLF + rest))), n, max, b, line, value)
            == Ok((value + line + Joined(lines), stop, n + |Lines(lines)| + |stop| + 2, Plain(Open(rest))))
    decreases |lines|
  {
    hide ReadLine, TakeLine, TextLines;
    var all := Lines(lines) + (stop + CRLF + rest);
    if lines == [] {
      assert all == stop + CRLF + rest;
      TakesPlainLine(stop, rest, n, max);
      TextLinesUnfold(Plain(Open(all)), n, max, b, line, value, stop, n + |stop| + 2, Plain(Open(rest)));
      TextLinesEnd(Plain(Open(rest)), n + |stop| + 2, max, b, stop, value + line);
      assert value + line + Joined(lines) == value + line;
    } else {
      var more := Lines(lines[1..]) + (stop + CRLF + rest);
      LinesCons(lines, stop + CRLF + rest);
      TakesPlainLine(lines[0], more, n, max);
      TextLinesUnfold(Plain(Open(all)), n, max, b, line, value, lines[0], n + |lines[0]| + 2, Plain(Open(more)));
      TextLinesRead(lines[0], lines[1..], b, stop, rest, value + line, n + |lines[0]| + 2, max);
      assert (value + line) + lines[0] + Joined(lines[1..]) == value + line + Joined(lines);
    }
  }

  /** A text part: the lines of its value are joined, up to the boundary line `stop`. */
  lemma TextRead(lines: seq<string>, b: string, stop: string, rest: string, n: nat, max: nat)
    requires forall i :: 0 <= i < |lines| ==> NoEol(lines[i]) && lines[i] != b && lines[i] != b + "--"
    requires (stop == b || stop == b + "--") && NoEol(stop) && max < SIZE_T
    requires n + |Lines(lines)| + |stop| + 2 <= Cap(max)
    ensures TextPart(Plain(Open(Lines(lines) + (stop + CRLF + rest))), n, max, b)
            == Ok((Joined(lines), stop, n + |Lines(lines)| + |stop| + 2, Plain(Open(rest))))
  {
    hide ReadLine, TakeLine, TextLines;
    var all := Lines(lines) + (stop + CRLF + rest);
    if lines == [] {
      assert all == stop + CRLF + rest;
      TakesPlainLine(stop, rest, n, max);
      TextLinesEnd(Plain(Open(rest)), n + |stop| + 2, max, b, stop, "");
    } else {
      var more := Lines(lines[1..]) + (stop + CRLF + rest);
      LinesCons(lines, stop + CRLF + rest);
      TakesPlainLine(lines[0], more, n, max);
      TextLinesRead(lines[0], lines[1..], b, stop, rest, "", n + |lines[0]| + 2, max);
      assert "" + lines[0] + Joined(lines[1..]) == Joined(lines);
    }
  }

  lemma {:induction false} RestartsOfPrefix(p: string, s: string, t: string, lo: nat, hi: nat)
    requires hi <= |s|
    ensures Restarts(p, s + t, lo, hi) == Restarts(p, s, lo, hi)
    decreases hi - lo
  {
    if lo < hi {
      RestartOfPrefix(p, s, t, lo);
      RestartsOfPrefix(p, s, t, lo + 1, hi);
    }
  }

  lemma RestartOfPrefix(p: string, s: string, t: string, j: nat)
    requires j < |s|
    ensures IsRestart(p, s + t, j) <==> IsRestart(p, s, j)
  {
    forall c: nat | c <= j ensures PartialBefore(p, s + t, j, c) <==> PartialBefore(p, s, j, c) {
      assert (s + t)[j - c..j] == s[j - c..j];
    }
  }

  /** A file part: its content byte for byte, the recorded size, and the line its two end bytes make. */
  lemma ContentRead(content: string, b: string, end: string, rest: string, n: nat, max: nat, h: PartHead)
    requires NoEol(b) && Ascii(b) && !Contains(CRLF + b, content) && (end == CRLF || end == "--")
    requires max == 0 || n + |content| + 2 + |b| + 1 <= max
    ensures FilePart(Plain(Open(content + (CRLF + b) + (end + rest))), n, max, b, h)
            == Ok((Upload(h.fieldname, h.filename, h.mimetype, RecordedSize(content, b), content),
                   if end == "--" then b + "--" else b, n + |content| + |b| + 3, Plain(Open(rest))))
  {
    var p := CRLF + b;
    assert Ascii(p);
    FilePartCopied(content, end + rest, n, max, p);
    assert content + CRLF + b == content + p;
    RestartsOfPrefix(p, content + p, end + rest, 0, |content| + 1);
    AfterFileRead(end, rest, n + |content| + |p|, max, b);
  }

  lemma FileRead(part: Part, b: string, end: string, rest: string, n: nat, max: nat)
    requires part.File? && GoodPart(part, b) && NoEol(b) && Ascii(b) && (end == CRLF || end == "--")
    requires max == 0 || n + |part.content| + 2 + |b| + 1 <= max
    ensures var size := RecordedSize(part.content, b);
            FilePart(Plain(Open(part.content + (CRLF + b) + (end + rest))), n, max, b, HeadOf(part))
            == Ok((Upload(part.name, part.filename, part.mimetype, size, part.content),
                   if end == "--" then b + "--" else b, n + |part.content| + |b| + 3, Plain(Open(rest))))
  {
    hide FilePart, RecordedSize, Contains, Ascii;
    ContentRead(part.content, b, end, rest, n, max, HeadOf(part));
  }

  lemma AfterFileRead(end: string, rest: string, n: nat, max: nat, b: string)
    requires (end == CRLF || end == "--") && !Over(n + 1, max)
    ensures AfterFile(Plain(Open(end + rest)), n, max, b)
            == Ok((if end == "--" then b + "--" else b, n + 1, Plain(Open(rest))))
  {
    assert (end + rest)[1..] == end[1..] + rest;
    assert (end + rest)[1..][1..] == rest;
  }

  // ------------------------------------------------------------ the whole form

  /** The boundary line in front of `parts`, and the stream after it. */
  function LineOfParts(parts: seq<Part>, b: string): string { if parts == [] then b + "--" else b }

  function AfterLine(parts: seq<Part>, b: string, sp: Spelling, tail: string, afterFile: bool): string {
    if parts == [] then (if afterFile then CRLF + tail else tail)
    else PartBytes(parts[0], sp, FormBytes(parts[1..], b, sp, tail))
  }

  lemma FormAfterText(parts: seq<Part>, b: string, sp: Spelling, tail: string)
    ensures FormBytes(parts, b, sp, tail) == LineOfParts(parts, b) + CRLF + AfterLine(parts, b, sp, tail, false)
  {
  }

  lemma FormAfterFile(parts: seq<Part>, b: string, sp: Spelling, tail: string)
    ensures CRLF + FormBytes(parts, b, sp, tail)
            == (CRLF + b) + ((if parts == [] then "--" else CRLF) + AfterLine(parts, b, sp, tail, true))
  {
    hide PartBytes;
    if parts == [] {
      Assoc(b + "--", CRLF, tail);
      Assoc(b, "--", CRLF + tail);
      Assoc(CRLF, b, "--" + (CRLF + tail));
    } else {
      var bytes := PartBytes(parts[0], sp, FormBytes(parts[1..], b, sp, tail));
      Assoc(b, CRLF, bytes);
      Assoc(CRLF, b, CRLF + bytes);
    }
  }

  function LeftAfter(parts: seq<Part>, tail: string, afterFile: bool): string {
    if parts == [] then (if afterFile then CRLF + tail else tail) else Left(parts, tail)
  }

  /** A text part and its boundary line are one turn of the outer loop. */
  lemma TextTurn(part: Part, rest: seq<Part>, b: string, sp: Spelling, tail: string, n: nat, max: nat,
                 params: map<string, string>, uploads: seq<Upload>) returns (n3: nat)
    requires part.Text? && GoodPart(part, b) && GoodSpelling(sp) && NoEol(b) && max < SIZE_T
    requires var s := PartBytes(part, sp, FormBytes(rest, b, sp, tail)); n + |s| <= Cap(max) + |tail|
    ensures n3 + |AfterLine(rest, b, sp, tail, false)| <= Cap(max) + |tail|
    ensures var s := PartBytes(part, sp, FormBytes(rest, b, sp, tail));
            ParseParts(Plain(Open(s)), n, max, b, b, params, uploads)
            == ParseParts(Plain(Open(AfterLine(rest, b, sp, tail, false))), n3, max, b, LineOfParts(rest, b),
                          params[part.name := Joined(part.lines)], uploads)
  {
    hide TakeLine, PartHeaders, TextPart, ParseParts, GoodSpelling, FormBytes, AfterLine, HeaderBytes, PartBytes;
    var stop, next := LineOfParts(rest, b), AfterLine(rest, b, sp, tail, false);
    var form := FormBytes(rest, b, sp, tail);
    var s := PartBytes(part, sp, form);
    FormAfterText(rest, b, sp, tail);
    PartBytesSplit(part, sp, form);
    TailLength(rest, b, sp, tail, false);
    var body := Lines(part.lines) + (stop + CRLF + next);
    assert Lines(part.lines) + form == body;
    assert NoEol(stop) by { NoEolConcat(b, "--"); }
    var line1, n1, s1, n2 := HeadersRead(part, sp, b, body, n, max);
    TextRead(part.lines, b, stop, next, n2, max);
    n3 := n2 + |Lines(part.lines)| + |stop| + 2;
    TextPartUnfold(Plain(Open(s)), n, max, b, params, uploads, line1, n1, s1, HeadOf(part), n2, Plain(Open(body)),
                   Joined(part.lines), stop, n3, Plain(Open(next)));
  }

  lemma TailLength(parts: seq<Part>, b: string, sp: Spelling, tail: string, afterFile: bool)
    ensures |AfterLine(parts, b, sp, tail, afterFile)| >= |tail|
  {
    FormLength(if parts == [] then [] else parts[1..], b, sp, tail);
  }

  lemma {:induction false} FormLength(parts: seq<Part>, b: string, sp: Spelling, tail: string)
    ensures |FormBytes(parts, b, sp, tail)| >= |tail|
  {
    if parts != [] {
      FormLength(parts[1..], b, sp, tail);
    }
  }

  /** A file part and the two bytes after its boundary are one turn of the outer loop. */
  lemma FileTurn(part: Part, rest: seq<Part>, b: string, sp: Spelling, tail: string, n: nat, max: nat,
                 params: map<string, string>, uploads: seq<Upload>) returns (n3: nat)
    requires part.File? && GoodPart(part, b) && GoodSpelling(sp) && NoEol(b) && Ascii(b) && max < SIZE_T
    requires var s := PartBytes(part, sp, FormBytes(rest, b, sp, tail)); n + |s| <= Cap(max) + |tail|
    ensures n3 + |AfterLine(rest, b, sp, tail, true)| <= Cap(max) + |tail|
    ensures var s := PartBytes(part, sp, FormBytes(rest, b, sp, tail));
            var upload := Upload(part.name, part.filename, part.mimetype, RecordedSize(part.content, b), part.content);
            ParseParts(Plain(Open(s)), n, max, b, b, params, uploads)
            == ParseParts(Plain(Open(AfterLine(rest, b, sp, tail, true))), n3, max, b, LineOfParts(rest, b),
                          params, uploads + [upload])
  {
    hide TakeLine, PartHeaders, FilePart, ParseParts, GoodSpelling, FormBytes, AfterLine, HeaderBytes, PartBytes,
         RecordedSize, Ascii;
    var next := AfterLine(rest, b, sp, tail, true);
    var end := if rest == [] then "--" else CRLF;
    var form := FormBytes(rest, b, sp, tail);
    var s := PartBytes(part, sp, form);
    FormAfterFile(rest, b, sp, tail);
    PartBytesSplit(part, sp, form);
    TailLength(rest, b, sp, tail, true);
    var body := part.content + (CRLF + b) + (end + next);
    assert part.content + (CRLF + form) == body;
    var line1, n1, s1, n2 := HeadersRead(part, sp, b, body, n, max);
    FileRead(part, b, end, next, n2, max);
    n3 := n2 + |part.content| + |b| + 3;
    var upload := Upload(part.name, part.filename, part.mimetype, RecordedSize(part.content, b), part.content);
    FilePartUnfold(Plain(Open(s)), n, max, b, params, uploads, line1, n1, s1, HeadOf(part), n2, Plain(Open(body)),
                   upload, LineOfParts(rest, b), n3, Plain(Open(next)));
  }

  lemma NextPart(parts: seq<Part>, b: string, sp: Spelling, tail: string, afterFile: bool)
    requires parts != []
    ensures AfterLine(parts, b, sp, tail, afterFile) == PartBytes(parts[0], sp, FormBytes(parts[1..], b, sp, tail))
    ensures LineOfParts(parts, b) == b
  {
  }

  lemma NoneRead(b: string, sp: Spelling, tail: string, afterFile: bool, n: nat, max: nat,
                 params: map<string, string>, uploads: seq<Upload>)
    ensures ParseParts(Plain(Open(AfterLine([], b, sp, tail, afterFile))), n, max, b, LineOfParts([], b), params, uploads)
            == Ok(Form(params, uploads, n, Plain(Open(LeftAfter([], tail, afterFile)))))
    ensures ParamsOf([], params) == params && uploads + UploadsOf([], b) == uploads
  {
  }

  lemma {:induction false} PartsRead(parts: seq<Part>, b: string, sp: Spelling, tail: string, afterFile: bool,
                                     n: nat, max: nat, params: map<string, string>, uploads: seq<Upload>)
    requires GoodParts(parts, b) && GoodSpelling(sp) && NoEol(b) && Findable(parts, b) && max < SIZE_T
    requires n + |AfterLine(parts, b, sp, tail, afterFile)| <= Cap(max) + |tail|
    ensures var r := ParseParts(Plain(Open(AfterLine(parts, b, sp, tail, afterFile))), n, max, b,
                                LineOfParts(parts, b), params, uploads);
            && r.Ok? && r.value.params == ParamsOf(parts, params) && r.value.uploads == uploads + UploadsOf(parts, b)
            && r.value.src == Plain(Open(LeftAfter(parts, tail, afterFile)))
    decreases |parts|
  {
    hide TakeLine, PartHeaders, TextPart, FilePart, GoodSpelling, GoodPart, FormBytes, HeaderBytes, PartBytes,
         RecordedSize, Ascii, ParseParts, AfterLine;
    if parts == [] {
      NoneRead(b, sp, tail, afterFile, n, max, params, uploads);
      return;
    }
    assert AfterLine(parts, b, sp, tail, afterFile) == PartBytes(parts[0], sp, FormBytes(parts[1..], b, sp, tail)) by {
      NextPart(parts, b, sp, tail, afterFile);
    }
    var part, rest := parts[0], parts[1..];
    if part.Text? {
      var n3 := TextTurn(part, rest, b, sp, tail, n, max, params, uploads);
      PartsRead(rest, b, sp, tail, false, n3, max, params[part.name := Joined(part.lines)], uploads);
      return;
    }
    var n3 := FileTurn(part, rest, b, sp, tail, n, max, params, uploads);
    var upload := Upload(part.name, part.filename, part.mimetype, RecordedSize(part.content, b), part.content);
    PartsRead(rest, b, sp, tail, true, n3, max, params, uploads + [upload]);
    assert (uploads + [upload]) + UploadsOf(rest, b) == uploads + UploadsOf(parts, b);
  }

  ghost predicate Yields(r: Result<Form>, params: map<string, string>, uploads: seq<Upload>)
  {
    r.Ok? && r.value.params == params && r.value.uploads == uploads
  }

  /** The result holds the text fields and the files of `parts`, in order. */
  ghost predicate Gives(r: Result<Form>, parts: seq<Part>, b: string)
  {
    Yields(r, ParamsOf(parts, map[]), UploadsOf(parts, b))
  }

  /** The round trip: any list of parts, written as a form that fits the limit, parses back to the
      same text fields and the same files in order, if and only if the boundary has no byte above
      127 or there is no file; what follows the form is left unread. */
  lemma FormReadsBack(parts: seq<Part>, b: string, sp: Spelling, tail: string, max: nat)
    requires GoodParts(parts, b) && GoodSpelling(sp) && NoEol(b) && max < SIZE_T
    requires |FormBytes(parts, b, sp, tail)| <= Cap(max) + |tail|
    ensures var r := ParseForm(Plain(Open(FormBytes(parts, b, sp, tail))), max, b);
            && (Gives(r, parts, b) <==> Findable(parts, b))
            && (Findable(parts, b) ==> r.Ok? && r.value.src == Plain(Open(Left(parts, tail))))
  {
    hide TakeLine, PartHeaders, TextPart, FilePart, GoodSpelling, GoodPart, HeaderBytes, PartBytes, ParseParts,
         FormBytes, ParamsOf, UploadsOf, AfterLine, Ascii;
    var line, rest := LineOfParts(parts, b), AfterLine(parts, b, sp, tail, false);
    FormAfterText(parts, b, sp, tail);
    assert NoEol(line) by { NoEolConcat(b, "--"); }
    TailLength(parts, b, sp, tail, false);
    TakesPlainLine(line, rest, 0, max);
    if Findable(parts, b) {
      PartsRead(parts, b, sp, tail, false, |line| + 2, max, map[], []);
      assert [] + UploadsOf(parts, b) == UploadsOf(parts, b);
    } else {
      SomeUpload(parts, b);
      if ParseParts(Plain(Open(rest)), |line| + 2, max, b, line, map[], []).Ok? {
        HighBoundary(Plain(Open(rest)), |line| + 2, max, b, line, map[], []);
      }
    }
  }

  lemma {:induction false} SomeUpload(parts: seq<Part>, b: string)
    requires exists i :: 0 <= i < |parts| && parts[i].File?
    ensures UploadsOf(parts, b) != []
  {
    if parts[0].Text? {
      var i :| 0 <= i < |parts| && parts[i].File?;
      assert parts[1..][i - 1].File?;
      SomeUpload(parts[1..], b);
    }
  }
}
