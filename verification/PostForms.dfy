/** The body of a POST or PUT request, from its content-type line to the parameters: the
    url-encoded branch of the Connection constructor, and the entry of the multipart branch. */
module PostForms {
  import opened Wrappers
  import opened Streams
  import opened Numbers
  import opened UrlCodec
  import opened HeaderText
  import opened HttpHelpers
  import opened Chunks
  import opened ChunkReaders
  import opened Multipart
  import opened FormReaders
  import opened ChunkedForms
  import opened FormRoundTrip
  import opened FormCuts
  import opened RequestHeaders

  /** The buffer goes to a std::string as a C string: it ends at its first NUL byte. */
  function CString(body: string): string { body[..Find('\0', body)] }

  /** Reading the body of an url-encoded form. */
  function UrlencodedBody(chunked: bool, ins: Stream, length: int, max: nat): Result<(string, Stream)>
  {
    if chunked then Chunks.ReadAll(ins, max, "")
    else if length <= 0 then Ok(("", ins))
    else if max > 0 && length > max then Err(TooBig)
    else if length > |ins.rest| then Err(InputFailure)
    else Ok((ins.rest[..length], Open(ins.rest[length..])))
  }

  function UrlencodedForm(chunked: bool, ins: Stream, length: int, max: nat): Result<(map<string, string>, Stream)>
  {
    var (body, after) :- UrlencodedBody(chunked, ins, length, max);
    var params := ParseQuery(CString(body), true);
    if params.None? then Err(NeverReturns) else Ok((params.value, after))
  }

  // ------------------------------------------------------------ properties

  lemma {:induction false} QueryLacksNul(ps: seq<(string, string)>)
    ensures Lacks(Query(ps), '\0')
  {
    hide Encode;
    if ps != [] {
      EncodeLacks(ps[0].0, '\0');
      EncodeLacks(ps[0].1, '\0');
      QueryLacksNul(ps[1..]);
    }
  }

  lemma CStringKeeps(body: string)
    ensures CString(body) == body <==> Lacks(body, '\0')
  {
    FindFirst('\0', body);
    if Lacks(body, '\0') {
      FindIs('\0', body, |body|);
    }
  }

  /** A form sent as encoded pairs arrives as the map they make, plain or in any chunks. A plain
      body is taken exactly; after a chunked one the line end of the last chunk is still unread. */
  lemma UrlencodedReadsBack(ps: seq<(string, string)>, cs: seq<WireChunk>, last: string,
                            tail: string, max: nat)
    requires BytePairs(ps) && GoodChunks(cs) && SizeLine(last, 0) && Payload(cs) == Query(ps)
    requires max == 0 || |Query(ps)| <= max
    ensures UrlencodedForm(false, Open(Query(ps) + tail), |Query(ps)|, max) == Ok((PairMap(ps, map[]), Open(tail)))
    ensures forall length: int ::
              UrlencodedForm(true, Open(Body(cs, last, tail)), length, max)
              == Ok((PairMap(ps, map[]), Open(CRLF + tail)))
  {
    hide ParseQuery, Chunks.ReadAll, GoodChunks, SizeLine, PairMap, Query;
    var q := Query(ps);
    QueryRoundTrip(ps, true);
    QueryLacksNul(ps);
    CStringKeeps(q);
    assert (q + tail)[..|q|] == q && (q + tail)[|q|..] == tail;
    assert q == "" ==> q + tail == tail;
    ReadAllDecodes(cs, last, tail, max, "");
    assert "" + Payload(cs) == q;
  }

  lemma OptionNames(token: string)
    requires Lacks(token, ';') && Trimmed(token)
    ensures Lacks("multipart/form-data", ';') && Trimmed("multipart/form-data")
    ensures Lacks("boundary=" + token, ';') && Lacks(" boundary=" + token, ';') && Trimmed("boundary=" + token)
  {
  }

  /** The boundary is what follows the first '=' of its option. */
  lemma BoundaryFromHeader(token: string)
    requires Lacks(token, ';') && Trimmed(token)
    ensures HeaderValue(ContentType(token)) == ["multipart/form-data", "boundary=" + token]
    ensures BoundaryOf(["boundary=" + token]) == Some("--" + token)
  {
    hide Pieces, Trim, Trimmed, Lacks, BoundaryOf;
    var first, option := "multipart/form-data", "boundary=" + token;
    OptionNames(token);
    assert " " + option == " boundary=" + token;
    assert ContentType(token) == first + [';'] + (" " + option);
    PiecesOfFirst(first, " " + option, ';');
    PiecesOfFirst(" " + option, "", ';');
    Boundary.TrimAllCons(first, [" " + option]);
    Boundary.TrimAllCons(" " + option, []);
    assert [" " + option] + [] == [" " + option];
    TrimKeeps(first);
    TrimKeeps(option);
    BoundaryOfOption(token);
  }

  lemma BoundaryOfOption(token: string)
    ensures BoundaryOf(["boundary=" + token]) == Some("--" + token)
  {
    var option := "boundary=" + token;
    assert option == "boundary" + ['='] + token;
    FindIs('=', option, 8);
    assert option[..8] == "boundary" && option[9..] == token;
  }

  function ContentType(token: string): string { "multipart/form-data; boundary=" + token }

  lemma SomeOption(value: string)
    ensures HeaderValue(value) != []
  {
  }

  /** The multipart branch. The announced length is checked for plain bodies only, and compared as
      an unsigned number: a negative one is too big. */
  function MultipartForm(src: Source, length: int, max: nat, contentType: string): Result<Form>
  {
    SomeOption(contentType);
    var boundary := BoundaryOf(HeaderValue(contentType)[1..]);
    if src.Plain? && max > 0 && length % SIZE_T > max then Err(TooBig)
    else if boundary.None? then Err(BoundaryMissing)
    else ParseForm(src, max, boundary.value)
  }

  /** From the header line to the fields: a form whose delimiter is the announced boundary reads
      back from a plain body if and only if the boundary can be found, and from a chunked one if and
      only if no harmful pair is cut as well. */
  lemma MultipartReadsBack(r: Reader, v: View, parts: seq<Part>, token: string, sp: Spelling,
                           tail: string, max: nat)
    requires NoEol(token) && Lacks(token, ';') && Trimmed(token) && max < SIZE_T && GoodSpelling(sp)
    requires GoodParts(parts, "--" + token)
    requires |FormBytes(parts, "--" + token, sp, tail)| <= Cap(max) + |tail|
    requires Shows(r, v) && Fit(v.chunks, max) && Remaining(v) == FormBytes(parts, "--" + token, sp, tail)
    ensures var b := "--" + token;
            var bytes := FormBytes(parts, b, sp, tail);
            && (Gives(MultipartForm(Plain(Open(bytes)), |bytes| - |tail|, max, ContentType(token)), parts, b)
                <==> Findable(parts, b))
            && var clean := Findable(parts, b) && Harmful(parts, b, sp, tail, false) !! Cuts(v);
               var form := MultipartForm(Chunked(r), 0, max, ContentType(token));
               (clean ==> Gives(form, parts, b)) && (Named(parts) ==> (Gives(form, parts, b) <==> clean))
  {
    hide FormBytes, GoodParts, Shows, ParseForm, MultipartForm, ParamsOf, UploadsOf, NoEol, Fit, GoodSpelling,
         Lacks, Trimmed, ContentType, Remaining, Left, Harmful, Cuts, Findable, Gives, Named;
    var b := "--" + token;
    DashesNoEol(token);
    var bytes := FormBytes(parts, b, sp, tail);
    FormLength(parts, b, sp, tail);
    EntersParser(Plain(Open(bytes)), |bytes| - |tail|, max, token);
    EntersParser(Chunked(r), 0, max, token);
    FormReadsBack(parts, b, sp, tail, max);
    CutFormReadsBack(r, v, parts, b, sp, tail, max);
  }

  // ------------------------------------------------------------ whole requests

  /** What a POST body gives: parameters, a multipart form, or something that is no form. */
  datatype Posted = Params(params: map<string, string>) | Multi(form: Form) | NoForm

  /** The header block decides: chunked or plain body, its length, and the parser. */
  function Request(ins: Stream, max: nat): Result<(Head, Posted)>
  {
    var (h, after) :- ReadHead(ins, NewHead());
    if after.Bad() then Err(InputFailure)
    else
      var posted :- PostedBody(h, after, max);
      Ok((h, posted))
  }

  function PostedBody(h: Head, after: Stream, max: nat): Result<Posted>
  {
    var value := if "content-type" in h.fields then h.fields["content-type"] else "";
    SomeOption(value);
    if HeaderValue(value)[0] == "application/x-www-form-urlencoded" then
      var (params, _) :- UrlencodedForm(h.chunked, after, h.length, max);
      Ok(Params(params))
    else if HeaderValue(value)[0] == "multipart/form-data" then
      var form :- MultipartForm(if h.chunked then Chunked(Reader(after, 0, 0)) else Plain(after), h.length, max, value);
      Ok(Multi(form))
    else Ok(NoForm)
  }

  predicate SaysType(h: Head, value: string) { "content-type" in h.fields && h.fields["content-type"] == value }

  /** The number of bytes of the form without what follows it. */
  ghost function Announced(parts: seq<Part>, b: string, sp: Spelling, tail: string): nat
  {
    FormLength(parts, b, sp, tail);
    |FormBytes(parts, b, sp, tail)| - |tail|
  }

  ghost predicate Answers(r: Result<(Head, Posted)>, h: Head, parts: seq<Part>, b: string)
  {
    r.Ok? && r.value.0 == h && r.value.1.Multi? && Gives(Ok(r.value.1.form), parts, b)
  }

  lemma BodyIsMultipart(h: Head, after: Stream, max: nat, token: string)
    requires SaysType(h, ContentType(token)) && Lacks(token, ';') && Trimmed(token)
    ensures var src := if h.chunked then Chunked(Reader(after, 0, 0)) else Plain(after);
            var form := MultipartForm(src, h.length, max, ContentType(token));
            PostedBody(h, after, max) == if form.Ok? then Ok(Multi(form.value)) else Err(form.error)
  {
    hide MultipartForm, HeaderValue, ContentType, BoundaryOf;
    BoundaryFromHeader(token);
  }

  lemma AnswersBody(ins: Stream, max: nat, h: Head, after: Stream, form: Result<Form>, parts: seq<Part>, b: string)
    requires ReadHead(ins, NewHead()) == Ok((h, after)) && !after.Bad()
    requires PostedBody(h, after, max) == if form.Ok? then Ok(Multi(form.value)) else Err(form.error)
    ensures Answers(Request(ins, max), h, parts, b) <==> Gives(form, parts, b)
  {
    hide ReadHead, PostedBody;
  }

  /** A whole request with a plain body, from its header lines to the fields and files of its form:
      no line says chunked, and the announced length is the length of the form. */
  lemma PlainRequestReadsBack(fs: seq<Field>, h: Head, parts: seq<Part>, token: string,
                              sp: Spelling, tail: string, max: nat)
    requires GoodFields(fs) && Apply(NewHead(), fs) == Ok(h)
    requires forall i :: 0 <= i < |fs| ==> !SaysChunked(fs[i])
    requires NoEol(token) && Lacks(token, ';') && Trimmed(token) && max < SIZE_T && GoodSpelling(sp)
    requires GoodParts(parts, "--" + token)
    requires |FormBytes(parts, "--" + token, sp, tail)| <= Cap(max) + |tail|
    requires SaysType(h, ContentType(token)) && "content-length" in h.fields
             && h.fields["content-length"] == Decimal(Announced(parts, "--" + token, sp, tail))
    ensures var b := "--" + token;
            Answers(Request(Open(HeadBytes(fs, FormBytes(parts, b, sp, tail))), max), h, parts, b) <==> Findable(parts, b)
  {
    hide FormBytes, GoodParts, ParseForm, MultipartForm, NoEol, GoodSpelling, GoodFields, Lacks, Trimmed, ContentType,
         Left, ReadHead, Apply, ScanDecimal, PostedBody, Request, Findable, Gives, Answers, SaysChunked;
    var b := "--" + token;
    var bytes := FormBytes(parts, b, sp, tail);
    DashesNoEol(token);
    FormLength(parts, b, sp, tail);
    HeadReadsBack(fs, bytes, NewHead());
    HeadMeans(NewHead(), fs);
    ScanInvertsDecimal(|bytes| - |tail|, LLONG_MAX);
    BodyIsMultipart(h, Open(bytes), max, token);
    EntersParser(Plain(Open(bytes)), |bytes| - |tail|, max, token);
    FormReadsBack(parts, b, sp, tail, max);
    AnswersBody(Open(HeadBytes(fs, bytes)), max, h, Open(bytes), ParseForm(Plain(Open(bytes)), max, b), parts, b);
  }

  /** The same with a chunked body, when some line says chunked: it answers with the parts if and
      only if the boundary can be found and no chunk ends inside a harmful pair. */
  lemma ChunkedRequestReadsBack(fs: seq<Field>, h: Head, parts: seq<Part>, token: string,
      sp: Spelling, tail: string, max: nat, cs: seq<WireChunk>, last: string, more: string)
    requires GoodFields(fs) && Apply(NewHead(), fs) == Ok(h)
    requires exists i :: 0 <= i < |fs| && SaysChunked(fs[i])
    requires NoEol(token) && Lacks(token, ';') && Trimmed(token) && max < SIZE_T && GoodSpelling(sp)
    requires GoodParts(parts, "--" + token)
    requires |FormBytes(parts, "--" + token, sp, tail)| <= Cap(max) + |tail|
    requires SaysType(h, ContentType(token))
    requires GoodChunks(cs) && SizeLine(last, 0) && Fit(cs, max) && Payload(cs) == FormBytes(parts, "--" + token, sp, tail)
    ensures var b := "--" + token;
            var clean := Findable(parts, b) && Harmful(parts, b, sp, tail, false) !! Cuts(View("", cs, last, more));
            var res := Request(Open(HeadBytes(fs, Body(cs, last, more))), max);
            (clean ==> Answers(res, h, parts, b)) && (Named(parts) ==> (Answers(res, h, parts, b) <==> clean))
  {
    hide FormBytes, GoodParts, ParseForm, MultipartForm, NoEol, GoodSpelling, GoodFields, Lacks, Trimmed, ContentType,
         ReadHead, Apply, PostedBody, Request, Findable, Gives, Answers, SaysChunked, Body, GoodChunks, SizeLine,
         Harmful, Cuts, Payload, Named;
    var b := "--" + token;
    var v, body := View("", cs, last, more), Open(Body(cs, last, more));
    var r := Reader(body, 0, 0);
    DashesNoEol(token);
    HeadReadsBack(fs, body.rest, NewHead());
    HeadMeans(NewHead(), fs);
    BodyIsMultipart(h, body, max, token);
    ChunkedEnters(r, h.length, max, token);
    assert "" + Payload(cs) == Payload(cs);
    CutFormReadsBack(r, v, parts, b, sp, tail, max);
    AnswersBody(Open(HeadBytes(fs, body.rest)), max, h, body, ParseForm(Chunked(r), max, b), parts, b);
  }

  /** The announced length is not looked at when the body is chunked. */
  lemma ChunkedEnters(r: Reader, length: int, max: nat, token: string)
    requires Lacks(token, ';') && Trimmed(token)
    ensures MultipartForm(Chunked(r), length, max, ContentType(token)) == ParseForm(Chunked(r), max, "--" + token)
  {
    hide ParseForm, HeaderValue, BoundaryOf, ContentType;
    BoundaryFromHeader(token);
    assert HeaderValue(ContentType(token))[1..] == ["boundary=" + token];
  }

  lemma EntersParser(src: Source, length: int, max: nat, token: string)
    requires Lacks(token, ';') && Trimmed(token) && (max == 0 || 0 <= length <= max < SIZE_T)
    ensures MultipartForm(src, length, max, ContentType(token)) == ParseForm(src, max, "--" + token)
  {
    hide ParseForm, HeaderValue, BoundaryOf, ContentType;
    BoundaryFromHeader(token);
    assert HeaderValue(ContentType(token))[1..] == ["boundary=" + token];
  }

  lemma DashesNoEol(token: string)
    requires NoEol(token)
    ensures NoEol("--" + token)
  {
  }

  // ------------------------------------------------------------ the code

  method ReadUrlencoded(chunked: bool, ins: InputStream, ckrd: ChunkReader, length: int)
      returns (r: Result<map<string, string>>)
    requires ckrd.ins == ins && !ins.Bad()
    modifies ins
    ensures match UrlencodedForm(chunked, old(ins.Abs()), length, ckrd.postMaxsize)
            case Err(e) => r == Err(e)
            case Ok((params, after)) => r == Ok(params) && ins.Abs() == after
  {
    hide ParseQuery, CString;
    var body := "";
    if chunked {
      body :- ckrd.ReadAll();
    } else if length > 0 {
      if ckrd.postMaxsize > 0 && length > ckrd.postMaxsize {
        return Err(TooBig);
      }
      body := ins.Read(length);
      if ins.fail || ins.eof {
        return Err(InputFailure);
      }
    }
    var text := UntilNul(body);
    var params := ParseQueryString(text, true);
    if params == None {
      return Err(NeverReturns);
    }
    return Ok(params.value);
  }

  method UntilNul(body: string) returns (text: string)
    ensures text == CString(body)
  {
    assert body[0..] == body;
    var nul := FindFrom(body, '\0', 0);
    text := if nul.Some? then body[..nul.value] else body;
  }

  method ReadMultipart(form: FormReader, length: int, contentType: string) returns (r: Result<bool>)
    requires form.Valid() && form.n == 0 && form.postParams == map[] && form.uploads == []
    modifies form, form.ins, form.ckrd
    ensures match MultipartForm(old(form.Src()), length, form.maxPostSize, contentType)
            case Err(e) => r == Err(e)
            case Ok(f) => r == Ok(true) && Form(form.postParams, form.uploads, form.n, form.Src()) == f
  {
    hide HeaderValue, BoundaryOf, ParseForm;
    var opts := ProcessHeaderValue(contentType);
    SomeOption(contentType);
    if !form.chunked && form.maxPostSize > 0 && length % SIZE_T > form.maxPostSize {
      return Err(TooBig);
    }
    var boundary := FindBoundary(opts[1..]);
    if boundary == None {
      return Err(BoundaryMissing);
    }
    r := form.ReadForm(boundary.value);
  }

  // ------------------------------------------------------------ what is refused

  /** A plain url-encoded body is refused when it is announced too long or is too short; one that is
      announced empty leaves no parameters and reads nothing. A chunked one is refused above the limit. */
  lemma UrlencodedRefused(ins: Stream, length: int, max: nat, cs: seq<WireChunk>, last: string, tail: string)
    ensures 0 < max < length ==> UrlencodedForm(false, ins, length, max) == Err(TooBig)
    ensures |ins.rest| < length && (max == 0 || length <= max) ==>
              UrlencodedForm(false, ins, length, max) == Err(InputFailure)
    ensures length <= 0 ==> UrlencodedForm(false, ins, length, max) == Ok((map[], ins))
    ensures GoodChunks(cs) && SizeLine(last, 0) && 0 < max < |Payload(cs)| ==>
              UrlencodedForm(true, Open(Body(cs, last, tail)), length, max) == Err(TooBig)
  {
    hide ParseQuery, ReadAll, GoodChunks, SizeLine, Body, Payload;
    EmptyQuery();
    if GoodChunks(cs) && SizeLine(last, 0) && 0 < max < |Payload(cs)| {
      assert "" + Payload(cs) == Payload(cs);
      ReadAllDecodes(cs, last, tail, max, "");
    }
  }

  lemma EmptyQuery()
    ensures CString("") == "" && ParseQuery("", true) == Some(map[])
  {
  }

  predicate NamesBoundary(option: string) { Before('=', option) == "boundary" }

  /** A plain multipart body is refused when its announced length is above the limit or negative, and
      any without a boundary option. */
  lemma MultipartRefused(src: Source, length: int, max: nat, contentType: string)
    requires max < SIZE_T / 2 && -(SIZE_T as int) / 2 <= length
    ensures src.Plain? && max > 0 && (length < 0 || (length > max && length < SIZE_T)) ==>
              MultipartForm(src, length, max, contentType) == Err(TooBig)
    ensures |HeaderValue(contentType)| > 0
    ensures (src.Chunked? || 0 <= length <= max || (max == 0))
            && (forall i :: 0 < i < |HeaderValue(contentType)| ==> !NamesBoundary(HeaderValue(contentType)[i])) ==>
              MultipartForm(src, length, max, contentType) == Err(BoundaryMissing)
  {
    hide ParseForm, HeaderValue, BoundaryOf, NamesBoundary;
    SomeOption(contentType);
    var opts := HeaderValue(contentType)[1..];
    assert forall i :: 0 <= i < |opts| ==> opts[i] == HeaderValue(contentType)[i + 1];
    if forall i :: 0 < i < |HeaderValue(contentType)| ==> !NamesBoundary(HeaderValue(contentType)[i]) {
      NoBoundaryOption(opts);
    }
  }

  lemma {:induction false} NoBoundaryOption(opts: seq<string>)
    requires forall i :: 0 <= i < |opts| ==> !NamesBoundary(opts[i])
    ensures BoundaryOf(opts) == None
  {
    if opts != [] {
      var last := opts[|opts| - 1];
      assert !NamesBoundary(last);
      NoBoundaryOption(opts[..|opts| - 1]);
    }
  }

  /** Of several boundary options the last one decides. */
  lemma {:induction false} LastBoundary(opts: seq<string>, token: string, later: seq<string>)
    requires forall i :: 0 <= i < |later| ==> !NamesBoundary(later[i])
    ensures BoundaryOf(opts + ["boundary=" + token] + later) == Some("--" + token)
  {
    var all := opts + ["boundary=" + token] + later;
    if later == [] {
      var option := "boundary=" + token;
      assert all[|all| - 1] == option && option == "boundary" + ['='] + token;
      FindIs('=', option, 8);
      assert option[..8] == "boundary" && option[9..] == token;
    } else {
      var n := |later| - 1;
      assert all[|all| - 1] == later[n] && !NamesBoundary(later[n]);
      assert all[..|all| - 1] == opts + ["boundary=" + token] + later[..n];
      LastBoundary(opts, token, later[..n]);
    }
  }

  // ------------------------------------------------------------ the other content types

  const URLENCODED := "application/x-www-form-urlencoded"

  /** The first word of the content type chooses the parser. */
  lemma TypeDecides(h: Head, after: Stream, max: nat)
    ensures var value := if "content-type" in h.fields then h.fields["content-type"] else "";
            && |HeaderValue(value)| > 0
            && var first := HeaderValue(value)[0];
               && (first != URLENCODED && first != "multipart/form-data" ==> PostedBody(h, after, max) == Ok(NoForm))
               && (first == URLENCODED ==>
                     var form := UrlencodedForm(h.chunked, after, h.length, max);
                     PostedBody(h, after, max) == if form.Ok? then Ok(Params(form.value.0)) else Err(form.error))
  {
    hide HeaderValue, UrlencodedForm, MultipartForm;
    SomeOption(if "content-type" in h.fields then h.fields["content-type"] else "");
    TypesDiffer();
  }

  lemma TypesDiffer()
    ensures URLENCODED != "multipart/form-data"
  {
    assert URLENCODED[0] == 'a' && "multipart/form-data"[0] == 'm';
  }

  lemma UrlencodedType()
    ensures HeaderValue(URLENCODED) == [URLENCODED]
  {
    hide Pieces, Trim;
    TypePlain();
    PiecesOfFirst(URLENCODED, "", ';');
    Boundary.TrimAllCons(URLENCODED, []);
    assert [URLENCODED] + [] == [URLENCODED];
    TrimKeeps(URLENCODED);
  }

  lemma TypePlain()
    ensures Lacks(URLENCODED, ';') && Trimmed(URLENCODED)
  {
  }

  /** A whole request with a form of encoded pairs: the map that the pairs make, from a plain body of
      the announced length if no line says chunked, and from the chunks if one does. */
  lemma UrlencodedRequest(fs: seq<Field>, h: Head, ps: seq<(string, string)>, cs: seq<WireChunk>, last: string,
                          tail: string, max: nat)
    requires GoodFields(fs) && Apply(NewHead(), fs) == Ok(h) && SaysType(h, URLENCODED)
    requires BytePairs(ps) && (max == 0 || |Query(ps)| <= max) && |Query(ps)| <= LLONG_MAX
    ensures (forall i :: 0 <= i < |fs| ==> !SaysChunked(fs[i])) && "content-length" in h.fields
            && h.fields["content-length"] == Decimal(|Query(ps)|) ==>
              Request(Open(HeadBytes(fs, Query(ps) + tail)), max) == Ok((h, Params(PairMap(ps, map[]))))
    ensures (exists i :: 0 <= i < |fs| && SaysChunked(fs[i]))
            && GoodChunks(cs) && SizeLine(last, 0) && Payload(cs) == Query(ps) ==>
              Request(Open(HeadBytes(fs, Body(cs, last, tail))), max) == Ok((h, Params(PairMap(ps, map[]))))
  {
    hide ReadHead, Apply, ScanDecimal, HeaderValue, UrlencodedForm, GoodFields, SaysChunked, GoodChunks, SizeLine, Body,
         Payload, Query, PairMap, Decimal, PostedBody, BytePairs;
    HeadMeans(NewHead(), fs);
    UrlencodedType();
    if (forall i :: 0 <= i < |fs| ==> !SaysChunked(fs[i])) && "content-length" in h.fields
       && h.fields["content-length"] == Decimal(|Query(ps)|) {
      HeadReadsBack(fs, Query(ps) + tail, NewHead());
      ScanInvertsDecimal(|Query(ps)|, LLONG_MAX);
      PlainPairs(ps, tail, max);
      TypeDecides(h, Open(Query(ps) + tail), max);
    }
    if (exists i :: 0 <= i < |fs| && SaysChunked(fs[i])) && GoodChunks(cs) && SizeLine(last, 0) && Payload(cs) == Query(ps) {
      HeadReadsBack(fs, Body(cs, last, tail), NewHead());
      UrlencodedReadsBack(ps, cs, last, tail, max);
      TypeDecides(h, Open(Body(cs, last, tail)), max);
    }
  }

  lemma PlainPairs(ps: seq<(string, string)>, tail: string, max: nat)
    requires BytePairs(ps) && (max == 0 || |Query(ps)| <= max)
    ensures UrlencodedForm(false, Open(Query(ps) + tail), |Query(ps)|, max) == Ok((PairMap(ps, map[]), Open(tail)))
  {
    hide ParseQuery, PairMap, Query;
    var q := Query(ps);
    QueryRoundTrip(ps, true);
    QueryLacksNul(ps);
    CStringKeeps(q);
    assert (q + tail)[..|q|] == q && (q + tail)[|q|..] == tail;
    assert q == "" ==> q + tail == tail;
  }

  lemma BareWord(word: string)
    requires Lacks(word, '=')
    ensures Find('=', word) == |word| && word[..|word|] == word
  {
    FindIs('=', word, |word|);
  }

  /** A boundary option without a value gives the bare two dashes. */
  lemma {:induction false} BareBoundary(opts: seq<string>, later: seq<string>)
    requires forall i :: 0 <= i < |later| ==> !NamesBoundary(later[i])
    ensures BoundaryOf(opts + ["boundary"] + later) == Some("--")
  {
    var all := opts + ["boundary"] + later;
    if later == [] {
      assert all[|all| - 1] == "boundary";
      BareWord("boundary");
      assert "--" + "" == "--";
    } else {
      var n := |later| - 1;
      assert all[|all| - 1] == later[n] && !NamesBoundary(later[n]);
      assert all[..|all| - 1] == opts + ["boundary"] + later[..n];
      BareBoundary(opts, later[..n]);
    }
  }
}
