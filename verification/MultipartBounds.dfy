/** The byte count of the multipart parser on a plain body: what is counted, what is read. */
module MultipartBounds {
  import opened Streams
  import opened Numbers
  import opened Multipart
  import opened Boundary

  lemma LineCounts(src: Source, n: nat, max: nat)
    requires src.Plain? && TakeLine(src, n, max).Ok?
    ensures var (_, n', src') := TakeLine(src, n, max).value;
            src'.Plain? && n' - n == Raw(src) - Raw(src') > 0 && !Over(n', max)
  {
    LineConservation(src.ins, (max - n) % SIZE_T);
  }

  lemma {:induction false} HeadersCount(src: Source, n: nat, max: nat, line: string, h: PartHead)
    requires src.Plain? && !Over(n, max) && PartHeaders(src, n, max, line, h).Ok?
    ensures var (_, n', src') := PartHeaders(src, n, max, line, h).value;
            && src'.Plain? && n' - n == Raw(src) - Raw(src') && !Over(n', max)
            && (!BadSource(src) ==> !BadSource(src'))
    decreases Raw(src)
  {
    if line != "" {
      LineCounts(src, n, max);
      var (next, n1, s1) := TakeLine(src, n, max).value;
      HeadersCount(s1, n1, max, next, HeaderField(line, h).value);
    }
  }

  lemma {:induction false} TextCounts(src: Source, n: nat, max: nat, boundary: string, line: string, value: string)
    requires src.Plain? && !Over(n, max) && TextLines(src, n, max, boundary, line, value).Ok?
    ensures var (_, _, n', src') := TextLines(src, n, max, boundary, line, value).value;
            src'.Plain? && n' - n == Raw(src) - Raw(src') && !Over(n', max)
    decreases Raw(src)
  {
    if line != boundary && line != boundary + "--" {
      LineCounts(src, n, max);
      var (next, n1, s1) := TakeLine(src, n, max).value;
      TextCounts(s1, n1, max, boundary, next, value + line);
    }
  }

  lemma {:induction false} CopyCounts(src: Source, n: nat, max: nat, p: string, cnt: nat, out: string, fsize: nat)
    requires src.Plain? && !Over(n, max) && cnt < |p| && CopyFile(src, n, max, p, cnt, out, fsize).Ok?
    ensures var copy := CopyFile(src, n, max, p, cnt, out, fsize).value;
            && copy.src.Plain? && !Over(copy.n, max)
            && (BadSource(copy.src) || copy.n - n == Raw(src) - Raw(copy.src))
    decreases Raw(src)
  {
    var (c, s1) := TakeByte(src, max).value;
    if c.Some? {
      CopyFileUnfold(src, n, max, p, cnt, out, fsize, c.value, s1);
      var (cnt', out', fsize') := CopyByte(c.value, p, cnt, out, fsize);
      if cnt' < |p| {
        CopyCounts(s1, n + 1, max, p, cnt', out', fsize');
      }
    }
  }

  /** After a file part two bytes are read and one is counted. */
  lemma AfterFileCounts(src: Source, n: nat, max: nat, boundary: string)
    requires src.Plain? && AfterFile(src, n, max, boundary).Ok?
    ensures var (_, n', src') := AfterFile(src, n, max, boundary).value;
            && !BadSource(src) && src'.Plain? && n' == n + 1 && Raw(src) - Raw(src') == 2 && !Over(n', max)
  {
  }

  lemma TextPartCounts(src: Source, n: nat, max: nat, boundary: string)
    requires src.Plain? && !Over(n, max) && TextPart(src, n, max, boundary).Ok?
    ensures var (_, _, n', src') := TextPart(src, n, max, boundary).value;
            src'.Plain? && n' - n == Raw(src) - Raw(src') && !Over(n', max)
  {
    LineCounts(src, n, max);
    var (line, n1, s1) := TakeLine(src, n, max).value;
    TextCounts(s1, n1, max, boundary, line, "");
  }

  lemma FilePartCounts(src: Source, n: nat, max: nat, boundary: string, h: PartHead)
    requires src.Plain? && !Over(n, max) && FilePart(src, n, max, boundary, h).Ok?
    ensures var (_, _, n', src') := FilePart(src, n, max, boundary, h).value;
            src'.Plain? && n' - n + 1 == Raw(src) - Raw(src') && !Over(n', max)
  {
    CopyCounts(src, n, max, CRLF + boundary, 0, "", 0);
    var copy := CopyFile(src, n, max, CRLF + boundary, 0, "", 0).value;
    AfterFileCounts(copy.src, copy.n, max, boundary);
  }

  lemma {:induction false} PartsCount(src: Source, n: nat, max: nat, boundary: string, line: string,
                                      params: map<string, string>, uploads: seq<Upload>)
    requires src.Plain? && !Over(n, max) && ParseParts(src, n, max, boundary, line, params, uploads).Ok?
    ensures var form := ParseParts(src, n, max, boundary, line, params, uploads).value;
            && form.src.Plain? && !Over(form.n, max) && uploads <= form.uploads
            && Raw(src) - Raw(form.src) == form.n - n + |form.uploads| - |uploads|
    decreases Raw(src)
  {
    if line != boundary + "--" {
      LineCounts(src, n, max);
      var (line1, n1, s1) := TakeLine(src, n, max).value;
      if line != boundary {
        PartsCount(s1, n1, max, boundary, line1, params, uploads);
      } else {
        HeadersCount(s1, n1, max, line1, NoHead);
        var (h, n2, s2) := PartHeaders(s1, n1, max, line1, NoHead).value;
        if h.filename == "" {
          TextPartCounts(s2, n2, max, boundary);
          var (value, line3, n3, s3) := TextPart(s2, n2, max, boundary).value;
          PartsCount(s3, n3, max, boundary, line3, params[h.fieldname := value], uploads);
        } else {
          FilePartCounts(s2, n2, max, boundary, h);
          var (upload, line3, n3, s3) := FilePart(s2, n2, max, boundary, h).value;
          PartsCount(s3, n3, max, boundary, line3, params, uploads + [upload]);
        }
      }
    }
  }

  /** With a boundary byte above 127 no file part can be read from a plain body: a form that parses
      holds no upload. */
  lemma {:induction false} HighBoundary(src: Source, n: nat, max: nat, boundary: string, line: string,
                                        params: map<string, string>, uploads: seq<Upload>)
    requires src.Plain? && !Over(n, max) && !Ascii(boundary)
    requires ParseParts(src, n, max, boundary, line, params, uploads).Ok?
    ensures ParseParts(src, n, max, boundary, line, params, uploads).value.uploads == uploads
    decreases Raw(src)
  {
    if line != boundary + "--" {
      LineCounts(src, n, max);
      var (line1, n1, s1) := TakeLine(src, n, max).value;
      if line != boundary {
        HighBoundary(s1, n1, max, boundary, line1, params, uploads);
      } else {
        HeadersCount(s1, n1, max, line1, NoHead);
        var (h, n2, s2) := PartHeaders(s1, n1, max, line1, NoHead).value;
        if h.filename == "" {
          TextPartCounts(s2, n2, max, boundary);
          var (value, line3, n3, s3) := TextPart(s2, n2, max, boundary).value;
          HighBoundary(s3, n3, max, boundary, line3, params[h.fieldname := value], uploads);
        } else {
          NoFilePart(s2, n2, max, boundary, h);
          assert false;
        }
      }
    }
  }

  lemma NoFilePart(src: Source, n: nat, max: nat, boundary: string, h: PartHead)
    requires src.Plain? && !BadSource(src) && !Ascii(boundary)
    ensures FilePart(src, n, max, boundary, h).Err?
  {
    var k :| 0 <= k < |boundary| && boundary[k] as int >= 128;
    var p := CRLF + boundary;
    assert p[k + 2] == boundary[k];
    HighUnmatched(p, 0, src.ins.rest, k + 2);
    UnmatchedFails(src.ins.rest, n, max, p, 0, "", 0, boundary);
  }

  /** On a plain body: the counter is exactly the bytes read less one per file part, it never ends
      above a positive limit, and so a form reads at most one byte per file part beyond the limit. */
  lemma FormBound(src: Source, max: nat, boundary: string)
    requires src.Plain? && ParseForm(src, max, boundary).Ok?
    ensures var form := ParseForm(src, max, boundary).value;
            && form.src.Plain?
            && Raw(src) - Raw(form.src) == form.n + |form.uploads|
            && (max > 0 ==> form.n <= max && Raw(src) - Raw(form.src) <= max + |form.uploads|)
  {
    LineCounts(src, 0, max);
    var (line, n, s1) := TakeLine(src, 0, max).value;
    PartsCount(s1, n, max, boundary, line, map[], []);
  }
}
