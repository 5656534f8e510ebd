/** What the end of a chunked body means for a file part: `getc` answers EOF once, the upload is
    recorded, and the two bytes after it are read from what follows the body on the connection. */
module BodyEnds {
  import opened Wrappers
  import opened Streams
  import opened Multipart
  import opened Boundary
  import opened Chunks
  import Numbers

  /** Between chunks the position does not matter. */
  predicate SameReader(a: Reader, b: Reader) { a.ins == b.ins && a.size == b.size && (a.pos == b.pos || a.size == 0) }

  lemma GetCSame(a: Reader, b: Reader, max: nat)
    requires SameReader(a, b)
    ensures GetC(a, max).Ok? <==> GetC(b, max).Ok?
    ensures GetC(a, max).Ok? ==>
              GetC(a, max).value.0 == GetC(b, max).value.0 && SameReader(GetC(a, max).value.1, GetC(b, max).value.1)
  {
    hide TakeSize, TakeTextLine, Count;
  }

  /** Two calls of `getc` on what follows the body leave a good stream. */
  predicate TailAccepted(tail: string, max: nat)
  {
    var first := GetC(Reader(Open(tail), 0, 0), max);
    first.Ok? && !first.value.1.ins.Bad() &&
    var second := GetC(first.value.1, max);
    second.Ok? && !second.value.1.ins.Bad()
  }

  function FirstByte(tail: string, max: nat): Option<char>
  {
    var first := GetC(Reader(Open(tail), 0, 0), max);
    if first.Ok? then first.value.0 else None
  }

  lemma AfterBody(r: Reader, tail: string, n: nat, max: nat, b: string)
    requires SameReader(r, Reader(Open(tail), 0, 0))
    ensures var res := AfterFile(Chunked(r), n, max, b);
            && (res.Ok? <==> !Over(n + 1, max) && TailAccepted(tail, max))
            && (res.Ok? ==> res.value.1 == n + 1
                            && res.value.0 == if FirstByte(tail, max) == Some('-') then b + "--" else b)
  {
    hide GetC;
    var s := Reader(Open(tail), 0, 0);
    GetCSame(r, s, max);
    if GetC(r, max).Ok? {
      GetCSame(GetC(r, max).value.1, GetC(s, max).value.1, max);
    }
  }

  /** A pattern that is never completed: all of the payload is copied but a partial match at its
      end, and the reader stands behind the body. */
  lemma {:induction false} RunsOut(r: Reader, v: View, n: nat, max: nat, p: string, cnt: nat, out: string, fsize: nat)
      returns (c: nat)
    requires Shows(r, v) && Fit(v.chunks, max) && cnt < |p| && Unmatched(p, cnt, Remaining(v)) && !Over(n, max)
    ensures var s, res := Remaining(v), CopyFile(Chunked(r), n, max, p, cnt, out, fsize);
            && (res.Ok? <==> !Over(n + |s|, max))
            && (res.Ok? ==>
                  && c < |p| && res.value.out + p[..c] == out + p[..cnt] + s && res.value.n == n + |s|
                  && res.value.src.Chunked? && SameReader(res.value.src.rd, Reader(Open(v.tail), 0, 0)))
    decreases |Remaining(v)|
  {
    hide GetC, CopyFile, Fit, GoodChunks, SizeLine, Body, Unmatched;
    var s := Remaining(v);
    c := cnt;
    GetCDelivers(r, v, max);
    CopyFileStops(Chunked(r), n, max, p, cnt, out, fsize);
    if s == "" {
      return;
    }
    var r' := StillGood(r, v, max);
    if Over(n + 1, max) {
      return;
    }
    UnmatchedStep(p, cnt, s);
    CopyFileUnfold(Chunked(r), n, max, p, cnt, out, fsize, s[0], Chunked(r'));
    var (cnt', out', fsize') := CopyByte(s[0], p, cnt, out, fsize);
    CopyKeeps(s[0], p, cnt, out, fsize);
    NextByte(v);
    c := RunsOut(r', Next(v), n + 1, max, p, cnt', out', fsize');
    Assoc(out + p[..cnt], [s[0]], s[1..]);
    assert [s[0]] + s[1..] == s;
  }

  lemma StillGood(r: Reader, v: View, max: nat) returns (r': Reader)
    requires Shows(r, v) && Fit(v.chunks, max) && Remaining(v) != ""
    ensures TakeByte(Chunked(r), max) == Ok((Some(Remaining(v)[0]), Chunked(r')))
    ensures !r'.ins.Bad() && Shows(r', Next(v)) && Fit(Next(v).chunks, max)
  {
    GetCDelivers(r, v, max);
    r' := GetC(r, max).value.1;
  }

  lemma UnmatchedStep(p: string, cnt: nat, rest: string)
    requires cnt < |p| && rest != "" && Unmatched(p, cnt, rest)
    ensures var cnt' := CopyByte(rest[0], p, cnt, "", 0).0; cnt' < |p| && Unmatched(p, cnt', rest[1..])
  {
  }

  /** The bytes written and the bytes matched are the bytes read. */
  lemma CopyKeeps(c: char, p: string, cnt: nat, out: string, fsize: nat)
    requires cnt < |p|
    ensures var (cnt', out', _) := CopyByte(c, p, cnt, out, fsize);
            && cnt' == CopyByte(c, p, cnt, "", 0).0 && out' + p[..cnt'] == out + p[..cnt] + [c]
  {
    if Matches(c, p[cnt]) {
      assert p[..cnt + 1] == p[..cnt] + [c];
      Assoc(out, p[..cnt], [c]);
    } else if cnt > 0 && Matches(c, p[0]) {
      assert p[..1] == [c];
    } else {
      assert p[..0] == "";
      assert cnt == 0 ==> out + p[..cnt] == out;
    }
  }

  lemma PatternOf(b: string)
    requires NoEol(b)
    ensures UniqueStart(CRLF + b) && (Ascii(CRLF + b) <==> Ascii(b))
  {
    var p := CRLF + b;
    assert forall j :: 0 <= j < |b| ==> p[j + 2] == b[j];
    assert forall j :: 2 <= j < |p| ==> p[j] == b[j - 2];
  }

  lemma FilePartIs(src: Source, n: nat, max: nat, b: string, h: PartHead)
    ensures var copy, res := CopyFile(src, n, max, CRLF + b, 0, "", 0), FilePart(src, n, max, b, h);
            && (copy.Err? ==> res.Err?)
            && (copy.Ok? ==>
                  var after := AfterFile(copy.value.src, copy.value.n, max, b);
                  && (res.Ok? <==> after.Ok?)
                  && (res.Ok? ==> res.value.0.content == copy.value.out && res.value.0.filename == h.filename
                                  && res.value.1 == after.value.0 && res.value.2 == after.value.1))
  {
    hide CopyFile, AfterFile;
  }

  /** A file part whose boundary is not found in a chunked body is accepted if and only if the limit
      holds and what follows the body gives two bytes, or ends, on a good stream. Its content is the
      rest of the payload but a partial match at its end, and the first of the two bytes decides
      whether the form is closed. */
  lemma ChunkedWithoutBoundary(r: Reader, v: View, n: nat, max: nat, b: string, h: PartHead) returns (c: nat)
    requires Shows(r, v) && Fit(v.chunks, max) && !Over(n, max) && NoEol(b)
    requires !Contains(CRLF + b, Remaining(v)) || !Ascii(b)
    ensures var s, res := Remaining(v), FilePart(Chunked(r), n, max, b, h);
            && (res.Ok? <==> !Over(n + |s| + 1, max) && TailAccepted(v.tail, max))
            && (res.Ok? ==>
                  && c < |CRLF + b| && res.value.0.content + (CRLF + b)[..c] == s && res.value.2 == n + |s| + 1
                  && res.value.0.filename == h.filename
                  && res.value.1 == if FirstByte(v.tail, max) == Some('-') then b + "--" else b)
  {
    hide CopyFile, AfterFile, Unmatched, TailAccepted, FirstByte, UniqueStart, Shows, Contains, Ascii, SameReader, Fit,
         FilePart;
    FilePartIs(Chunked(r), n, max, b, h);
    var p, s := CRLF + b, Remaining(v);
    PatternOf(b);
    NeverMatched(p, s);
    c := RunsOut(r, v, n, max, p, 0, "", 0);
    var copy := CopyFile(Chunked(r), n, max, p, 0, "", 0);
    assert "" + p[..0] + s == s;
    if copy.Ok? {
      AfterBody(copy.value.src.rd, v.tail, n + |s|, max, b);
    }
  }

  /** Whatever scans as a chunked body of at least two bytes is such a tail. */
  lemma NextBodyAccepted(v: View, max: nat)
    requires GoodChunks(v.chunks) && SizeLine(v.last, 0) && Fit(v.chunks, max) && v.cur == "" && |Payload(v.chunks)| >= 2
    ensures var tail := Body(v.chunks, v.last, v.tail);
            TailAccepted(tail, max) && FirstByte(tail, max) == Some(Payload(v.chunks)[0])
  {
    hide GetC, GoodChunks, Body, SizeLine, Fit;
    var r := Reader(Open(Body(v.chunks, v.last, v.tail)), 0, 0);
    assert Remaining(v) == Payload(v.chunks);
    GetCDelivers(r, v, max);
    NextByte(v);
    var r1 := GetC(r, max).value.1;
    GetCDelivers(r1, Next(v), max);
    GoodReader(r1, Next(v));
    NextByte(Next(v));
    GoodReader(GetC(r1, max).value.1, Next(Next(v)));
  }

  lemma GoodReader(r: Reader, v: View)
    requires Shows(r, v)
    ensures !r.ins.Bad()
  {
  }

  /** The chunk "x" without a boundary, then "--" as another chunked body: the upload "x" is accepted
      and the form is closed, while the payload alone is refused. */
  lemma TailWitness(h: PartHead)
    ensures var next := Body([WireChunk("2", "--")], "0", "");
            var res := FilePart(Chunked(Reader(Open(Body([WireChunk("1", "x")], "0", next)), 0, 0)), 0, 0, "--b", h);
            res.Ok? && res.value.0.content == "x" && res.value.1 == "--b" + "--"
    ensures FilePart(Plain(Open("x")), 0, 0, "--b", h).Err?
  {
    hide FilePart, Body, SizeLine, TailAccepted, FirstByte;
    SmallSizeLine(0);
    SmallSizeLine(1);
    SmallSizeLine(2);
    assert Numbers.Hex(0) == "0" && Numbers.Hex(1) == "1" && Numbers.Hex(2) == "2";
    var x, two := [WireChunk("1", "x")], [WireChunk("2", "--")];
    var next := Body(two, "0", "");
    var v, r := View("", x, "0", next), Reader(Open(Body(x, "0", next)), 0, 0);
    assert Payload(x) == "x" && Payload(two) == "--" && Remaining(v) == "x";
    NextBodyAccepted(View("", two, "0", ""), 0);
    assert !Contains(CRLF + "--b", "x");
    var c := ChunkedWithoutBoundary(r, v, 0, 0, "--b", h);
    EmptyMatch(FilePart(Chunked(r), 0, 0, "--b", h).value.0.content, "--b", c);
    PlainRefused("x", 0, 0, "--b", h);
  }

  lemma EmptyMatch(content: string, b: string, c: nat)
    requires c < |CRLF + b| && content + (CRLF + b)[..c] == "x"
    ensures content == "x"
  {
    var p := CRLF + b;
    assert forall k :: 0 <= k < c ==> (content + p[..c])[|content| + k] == p[k];
    assert p[0] == '\r';
  }

  lemma PlainRefused(rest: string, n: nat, max: nat, b: string, h: PartHead)
    requires NoEol(b) && (!Contains(CRLF + b, rest) || !Ascii(b))
    ensures FilePart(Plain(Open(rest)), n, max, b, h).Err?
  {
    PatternOf(b);
    NoBoundaryFails(rest, n, max, CRLF + b, b);
  }
}
