/** The multipart/form-data branch of the Connection constructor (section 5.1.1 of RFC 2046,
    section 4.1 of RFC 7578) as functions over a body source, plain or chunked. */
module Multipart {
  import opened Wrappers
  import opened Streams
  import opened Numbers
  import opened UrlCodec
  import opened HeaderText
  import opened Chunks

  datatype Source = Plain(ins: Stream) | Chunked(rd: Reader)

  function Raw(src: Source): nat {
    match src
    case Plain(ins) => |ins.rest|
    case Chunked(rd) => |rd.ins.rest|
  }

  predicate BadSource(src: Source) {
    match src
    case Plain(ins) => ins.Bad()
    case Chunked(rd) => rd.ins.Bad()
  }

  predicate Over(n: nat, max: nat) { max > 0 && n > max }

  // ------------------------------------------------------------ lines and bytes

  /** The next line, counted and checked against the limit. The line limit handed to `safeGetline`
      is computed in an unsigned 64-bit type. */
  function TakeLine(src: Source, n: nat, max: nat): (r: Result<(string, nat, Source)>)
    ensures r.Ok? ==> Raw(r.value.2) < Raw(src) && !BadSource(r.value.2)
  {
    match src
    case Plain(ins) =>
      var line :- ReadLine(ins, (max - n) % SIZE_T);
      if line.after.Bad() then Err(InputFailure)
      else if Over(n + line.n, max) then Err(TooBig)
      else Ok((line.text, n + line.n, Plain(line.after)))
    case Chunked(rd) =>
      var (t, k, rd') :- GetLine(rd, max, "", 0);
      if rd'.ins.Bad() then Err(InputFailure)
      else if Over(n + k, max) then Err(TooBig)
      else
        GetLineShrinks(rd, max, "", 0);
        Ok((t, n + k, Chunked(rd')))
  }

  /** The next byte; None is EOF. */
  function TakeByte(src: Source, max: nat): (r: Result<(Option<char>, Source)>)
    ensures r.Ok? ==> Raw(r.value.1) <= Raw(src)
    ensures r.Ok? && r.value.0.Some? ==> Raw(r.value.1) < Raw(src)
  {
    match src
    case Plain(ins) =>
      if ins.Bad() then Ok((None, Plain(ins.(fail := true))))
      else if ins.rest == "" then Ok((None, Plain(Stream("", true, true))))
      else Ok((Some(ins.rest[0]), Plain(Open(ins.rest[1..]))))
    case Chunked(rd) =>
      GetCShrinks(rd, max);
      var (c, rd') :- GetC(rd, max);
      Ok((c, Chunked(rd')))
  }

  lemma GetCShrinks(rd: Reader, max: nat)
    ensures GetC(rd, max).Ok? ==> |GetC(rd, max).value.1.ins.rest| <= |rd.ins.rest|
  {
  }

  // ------------------------------------------------------------ the streaming boundary match

  /** What copying a file part gives: the bytes written, the recorded size, the count, the source. */
  datatype Copy = Copy(out: string, fsize: nat, n: nat, src: Source)

  /** The value of a pattern byte where `char` is signed, as on x86-64. */
  function Signed(d: char): int { if (d as int) < 128 then d as int else d as int - 256 }

  /** An input byte, a number from 0 on, is compared with a pattern byte: above 127 they never match. */
  predicate Matches(c: char, d: char) { c == d && c as int == Signed(d) }

  predicate Ascii(s: string) { forall i :: 0 <= i < |s| ==> (s[i] as int) < 128 }

  /** One byte of the loop: the new count of matched bytes, the file and its recorded size. */
  function CopyByte(c: char, p: string, cnt: nat, out: string, fsize: nat): (r: (nat, string, nat))
    requires cnt < |p|
    ensures r.0 <= |p|
  {
    if Matches(c, p[cnt]) then (cnt + 1, out, fsize)
    else if cnt > 0 then
      if Matches(c, p[0]) then (1, out + p[..cnt], fsize + cnt + 1) else (0, out + p[..cnt] + [c], fsize + cnt + 1)
    else (0, out + [c], fsize + 1)
  }

  /** The byte loop for pattern `p`, with `cnt` pattern bytes matched and `out` written so far. */
  function CopyFile(src: Source, n: nat, max: nat, p: string, cnt: nat, out: string, fsize: nat): (r: Result<Copy>)
    requires cnt < |p|
    ensures r.Ok? ==> Raw(r.value.src) <= Raw(src)
    decreases Raw(src)
  {
    var (c, src') :- TakeByte(src, max);
    if c == None then Ok(Copy(out, fsize, n, src'))
    else if BadSource(src') then Err(InputFailure)
    else if Over(n + 1, max) then Err(TooBig)
    else
      var (cnt', out', fsize') := CopyByte(c.value, p, cnt, out, fsize);
      if cnt' == |p| then Ok(Copy(out', fsize', n + 1, src'))
      else CopyFile(src', n + 1, max, p, cnt', out', fsize')
  }

  lemma CopyFileUnfold(src: Source, n: nat, max: nat, p: string, cnt: nat, out: string, fsize: nat,
                       c: char, src': Source)
    requires cnt < |p| && TakeByte(src, max) == Ok((Some(c), src')) && !BadSource(src') && !Over(n + 1, max)
    ensures var (cnt', out', fsize') := CopyByte(c, p, cnt, out, fsize);
            CopyFile(src, n, max, p, cnt, out, fsize)
            == if cnt' == |p| then Ok(Copy(out', fsize', n + 1, src'))
               else CopyFile(src', n + 1, max, p, cnt', out', fsize')
  {
    hide TakeByte, BadSource, Over, Raw;
  }

  lemma CopyFileStops(src: Source, n: nat, max: nat, p: string, cnt: nat, out: string, fsize: nat)
    requires cnt < |p|
    ensures match TakeByte(src, max)
            case Err(e) => CopyFile(src, n, max, p, cnt, out, fsize) == Err(e)
            case Ok((c, src')) =>
              if c == None then CopyFile(src, n, max, p, cnt, out, fsize) == Ok(Copy(out, fsize, n, src'))
              else if BadSource(src') then CopyFile(src, n, max, p, cnt, out, fsize) == Err(InputFailure)
              else Raw(src') < Raw(src)
                   && (Over(n + 1, max) ==> CopyFile(src, n, max, p, cnt, out, fsize) == Err(TooBig))
  {
    hide TakeByte, Over;
  }

  /** The two bytes after the boundary: "--" ends the form, anything else starts the next part. The
      second byte is read but not counted. */
  function AfterFile(src: Source, n: nat, max: nat, boundary: string): (r: Result<(string, nat, Source)>)
    ensures r.Ok? ==> Raw(r.value.2) <= Raw(src)
  {
    var (c, s1) :- TakeByte(src, max);
    if BadSource(s1) then Err(InputFailure)
    else if Over(n + 1, max) then Err(TooBig)
    else
      var (_, s2) :- TakeByte(s1, max);
      if BadSource(s2) then Err(InputFailure)
      else Ok((if c == Some('-') then boundary + "--" else boundary, n + 1, s2))
  }

  // ------------------------------------------------------------ part headers

  datatype PartHead = PartHead(fieldname: string, filename: string, mimetype: string, encoding: string)

  const NoHead: PartHead := PartHead("", "", "", "")

  function Unquote(s: string): string {
    if s != "" && s[0] == '"' && s[|s| - 1] == '"' then
      if |s| == 1 then "" else s[1..|s| - 1]
    else s
  }

  function Lookup(q: map<string, string>, k: string): string {
    if k in q then q[k] else ""
  }

  /** One header line of a part; None if decoding its options never returns. */
  function HeaderField(line: string, h: PartHead): Option<PartHead> {
    var name := Lower(Trim(Before(':', line)));
    var value := Trim(After(':', line));
    if name == "content-disposition" then
      var opts := HeaderOptions(value, true, ';');
      if opts.None? then None
      else
        var filename := if "filename" in opts.value then Unquote(opts.value["filename"]) else h.filename;
        Some(h.(fieldname := Unquote(Lookup(opts.value, "name")), filename := filename))
    else if name == "content-type" then Some(h.(mimetype := value))
    else if name == "content-transfer-encoding" then Some(h.(encoding := value))
    else Some(h)
  }

  function PartHeaders(src: Source, n: nat, max: nat, line: string, h: PartHead)
      : (r: Result<(PartHead, nat, Source)>)
    ensures r.Ok? ==> Raw(r.value.2) <= Raw(src)
    decreases Raw(src)
  {
    if line == "" then Ok((h, n, src))
    else
      var h' := HeaderField(line, h);
      if h'.None? then Err(NeverReturns)
      else
        var (next, n', src') :- TakeLine(src, n, max);
        PartHeaders(src', n', max, next, h'.value)
  }

  lemma PartHeadersUnfold(src: Source, n: nat, max: nat, line: string, h: PartHead,
                          h': PartHead, next: string, n': nat, src': Source)
    requires line != "" && HeaderField(line, h) == Some(h') && TakeLine(src, n, max) == Ok((next, n', src'))
    ensures PartHeaders(src, n, max, line, h) == PartHeaders(src', n', max, next, h')
  {
  }

  // ------------------------------------------------------------ the form

  /** The lines of a text value are joined without their line ends. */
  function TextLines(src: Source, n: nat, max: nat, boundary: string, line: string, value: string)
      : (r: Result<(string, string, nat, Source)>)
    ensures r.Ok? ==> Raw(r.value.3) <= Raw(src)
    decreases Raw(src)
  {
    if line == boundary || line == boundary + "--" then Ok((value, line, n, src))
    else
      var (next, n', src') :- TakeLine(src, n, max);
      TextLines(src', n', max, boundary, next, value + line)
  }

  lemma TextLinesUnfold(src: Source, n: nat, max: nat, boundary: string, line: string, value: string,
                        next: string, n': nat, src': Source)
    requires line != boundary && line != boundary + "--" && TakeLine(src, n, max) == Ok((next, n', src'))
    ensures TextLines(src, n, max, boundary, line, value) == TextLines(src', n', max, boundary, next, value + line)
  {
  }

  datatype Upload = Upload(fieldname: string, filename: string, mimetype: string, size: nat, content: string)

  datatype Form = Form(params: map<string, string>, uploads: seq<Upload>, n: nat, src: Source)

  /** A part without a file name: its value, and the boundary line after it. */
  function TextPart(src: Source, n: nat, max: nat, boundary: string): (r: Result<(string, string, nat, Source)>)
    ensures r.Ok? ==> Raw(r.value.3) <= Raw(src)
  {
    var (line, n', src') :- TakeLine(src, n, max);
    TextLines(src', n', max, boundary, line, "")
  }

  /** A part with a file name: the recorded upload, and the boundary line the two bytes after the
      file stand for. */
  function FilePart(src: Source, n: nat, max: nat, boundary: string, h: PartHead)
      : (r: Result<(Upload, string, nat, Source)>)
    ensures r.Ok? ==> Raw(r.value.3) <= Raw(src)
  {
    var copy :- CopyFile(src, n, max, CRLF + boundary, 0, "", 0);
    var (line, n', src') :- AfterFile(copy.src, copy.n, max, boundary);
    Ok((Upload(h.fieldname, h.filename, h.mimetype, copy.fsize, copy.out), line, n', src'))
  }

  /** The outer loop, at line `line`. */
  function ParseParts(src: Source, n: nat, max: nat, boundary: string, line: string,
                      params: map<string, string>, uploads: seq<Upload>): (r: Result<Form>)
    ensures r.Ok? ==> Raw(r.value.src) <= Raw(src)
    decreases Raw(src)
  {
    if line == boundary + "--" then Ok(Form(params, uploads, n, src))
    else
      var (line1, n1, s1) :- TakeLine(src, n, max);
      if line != boundary then ParseParts(s1, n1, max, boundary, line1, params, uploads)
      else
        var (h, n2, s2) :- PartHeaders(s1, n1, max, line1, NoHead);
        if h.filename == "" then
          var (value, line3, n3, s3) :- TextPart(s2, n2, max, boundary);
          ParseParts(s3, n3, max, boundary, line3, params[h.fieldname := value], uploads)
        else
          var (upload, line3, n3, s3) :- FilePart(s2, n2, max, boundary, h);
          ParseParts(s3, n3, max, boundary, line3, params, uploads + [upload])
  }

  lemma TextPartUnfold(src: Source, n: nat, max: nat, b: string, params: map<string, string>, uploads: seq<Upload>,
                       line1: string, n1: nat, s1: Source, h: PartHead, n2: nat, s2: Source,
                       value: string, line3: string, n3: nat, s3: Source)
    requires TakeLine(src, n, max) == Ok((line1, n1, s1))
    requires PartHeaders(s1, n1, max, line1, NoHead) == Ok((h, n2, s2)) && h.filename == ""
    requires TextPart(s2, n2, max, b) == Ok((value, line3, n3, s3))
    ensures ParseParts(src, n, max, b, b, params, uploads)
            == ParseParts(s3, n3, max, b, line3, params[h.fieldname := value], uploads)
  {
  }

  lemma FilePartUnfold(src: Source, n: nat, max: nat, b: string, params: map<string, string>, uploads: seq<Upload>,
                       line1: string, n1: nat, s1: Source, h: PartHead, n2: nat, s2: Source,
                       upload: Upload, line3: string, n3: nat, s3: Source)
    requires TakeLine(src, n, max) == Ok((line1, n1, s1))
    requires PartHeaders(s1, n1, max, line1, NoHead) == Ok((h, n2, s2)) && h.filename != ""
    requires FilePart(s2, n2, max, b, h) == Ok((upload, line3, n3, s3))
    ensures ParseParts(src, n, max, b, b, params, uploads)
            == ParseParts(s3, n3, max, b, line3, params, uploads + [upload])
  {
  }

  function ParseForm(src: Source, max: nat, boundary: string): Result<Form> {
    var (line, n, s1) :- TakeLine(src, 0, max);
    ParseParts(s1, n, max, boundary, line, map[], [])
  }

  // ------------------------------------------------------------ the boundary

  function TrimAll(ps: seq<string>): seq<string> {
    if ps == [] then [] else [Trim(ps[0])] + TrimAll(ps[1..])
  }

  /** `process_header_value`: the trimmed pieces between semicolons. */
  function HeaderValue(value: string): (opts: seq<string>) { TrimAll(Pieces(value, ';')) }

  /** The last option named exactly "boundary" decides; None without one. */
  function BoundaryOf(opts: seq<string>): Option<string>
  {
    if opts == [] then None
    else
      var last := opts[|opts| - 1];
      var p := Find('=', last);
      if last[..p] == "boundary" then Some("--" + (if p < |last| then last[p + 1..] else ""))
      else BoundaryOf(opts[..|opts| - 1])
  }
}
