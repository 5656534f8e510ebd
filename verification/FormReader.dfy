/** The multipart branch with its variables: the counter `n`, the current line, the matched count
    and the file size move through the loops of the constructor. Each loop is proved equal to the
    function of module `Multipart` that specifies it. */
module FormReaders {
  import opened Wrappers
  import opened Streams
  import opened Numbers
  import opened UrlCodec
  import opened HeaderText
  import opened Chunks
  import opened ChunkReaders
  import opened HttpHelpers
  import opened Multipart
  import Boundary

  /** `process_header_value`. */
  method ProcessHeaderValue(valstr: string) returns (result: seq<string>)
    ensures result == HeaderValue(valstr)
  {
    result := [];
    var start := 0;
    assert valstr[0..] == valstr;
    while true
      invariant start <= |valstr|
      invariant result + HeaderValue(valstr[start..]) == HeaderValue(valstr)
      decreases |valstr| - start
    {
      var pos := FindFrom(valstr, ';', start);
      ghost var rest := valstr[start..];
      if pos == None {
        var last := TrimCopy(valstr[start..]);
        Boundary.TrimAllCons(rest, []);
        assert [rest] + [] == [rest];
        return result + [last];
      }
      ghost var p := pos.value - start;
      assert rest[..p] == valstr[start..pos.value] && rest[p + 1..] == valstr[pos.value + 1..];
      var piece := TrimCopy(valstr[start..pos.value]);
      Boundary.TrimAllCons(rest[..p], Pieces(rest[p + 1..], ';'));
      result := result + [piece];
      start := pos.value + 1;
    }
  }

  /** The loop over the content-type options that looks for the boundary. */
  method FindBoundary(opts: seq<string>) returns (boundary: Option<string>)
    ensures boundary == BoundaryOf(opts)
  {
    boundary := None;
    var i := 0;
    while i < |opts|
      invariant 0 <= i <= |opts| && boundary == BoundaryOf(opts[..i])
    {
      var name, value := StrSplit(opts[i], '=');
      assert opts[..i + 1][..i] == opts[..i];
      if name == "boundary" {
        boundary := Some("--" + value);
      }
      i := i + 1;
    }
    assert opts[..|opts|] == opts;
  }

  class FormReader {
    const chunked: bool
    const ins: InputStream
    const ckrd: ChunkReader
    const maxPostSize: nat
    var n: nat
    var postParams: map<string, string>
    var uploads: seq<Upload>

    ghost predicate Valid()
    {
      ckrd.ins == ins && ckrd.postMaxsize == maxPostSize
    }

    ghost function Src(): Source
      reads ins, ckrd, ckrd.ins
    {
      if chunked then Chunked(ckrd.Abs()) else Plain(ins.Abs())
    }

    constructor (chunked: bool, ins: InputStream, maxPostSize: nat)
      ensures Valid() && n == 0 && postParams == map[] && uploads == [] && fresh(ckrd)
      ensures this.ins == ins && this.chunked == chunked && this.maxPostSize == maxPostSize
      ensures Src() == if chunked then Chunked(Reader(ins.Abs(), 0, 0)) else Plain(ins.Abs())
    {
      this.chunked, this.ins, this.maxPostSize := chunked, ins, maxPostSize;
      ckrd := new ChunkReader(ins, maxPostSize);
      n, postParams, uploads := 0, map[], [];
    }

    /** One line with the checks every caller makes after it. */
    method NextLine() returns (r: Result<string>)
      requires Valid()
      modifies `n, ins, ckrd
      ensures match TakeLine(old(Src()), old(n), maxPostSize)
              case Err(e) => r == Err(e)
              case Ok((line, n', src)) => r == Ok(line) && n == n' && Src() == src
    {
      var line;
      if chunked {
        line :- ckrd.GetLine();
      } else {
        line :- ins.SafeGetline((maxPostSize - n) % SIZE_T);
      }
      if ins.fail || ins.eof {
        return Err(InputFailure);
      }
      n := n + line.1;
      if maxPostSize > 0 && n > maxPostSize {
        return Err(TooBig);
      }
      return Ok(line.0);
    }

    method NextByte() returns (r: Result<Option<char>>)
      requires Valid()
      modifies ins, ckrd
      ensures match TakeByte(old(Src()), maxPostSize)
              case Err(e) => r == Err(e)
              case Ok((c, src)) => r == Ok(c) && Src() == src
    {
      if chunked {
        r := ckrd.GetC();
      } else {
        var c := ins.Get();
        r := Ok(c);
      }
    }

    /** One header line of a part. */
    method TakeHeader(line: string, h: PartHead) returns (r: Result<PartHead>)
      ensures r == if HeaderField(line, h).Some? then Ok(HeaderField(line, h).value) else Err(NeverReturns)
    {
      hide Trim, Lower, HeaderOptions, Unquote;
      assert line[0..] == line;
      var colon := FindFrom(line, ':', 0);
      var name, value;
      if colon.Some? {
        name, value := line[..colon.value], line[colon.value + 1..];
      } else {
        assert line[..|line|] == line;
        name, value := line, line;
      }
      name := TrimCopy(name);
      name := AsciiToLower(name);
      value := TrimCopy(value);
      if name == "content-disposition" {
        var opts := ParseHeaderOptions(value, true, ';');
        if opts == None {
          return Err(NeverReturns);
        }
        var head := h.(fieldname := Unquote(Lookup(opts.value, "name")));
        if "filename" in opts.value {
          head := head.(filename := Unquote(opts.value["filename"]));
        }
        return Ok(head);
      } else if name == "content-type" {
        return Ok(h.(mimetype := value));
      } else if name == "content-transfer-encoding" {
        return Ok(h.(encoding := value));
      }
      return Ok(h);
    }

    method ReadHeaders(first: string) returns (r: Result<PartHead>)
      requires Valid()
      modifies `n, ins, ckrd
      ensures match PartHeaders(old(Src()), old(n), maxPostSize, first, NoHead)
              case Err(e) => r == Err(e)
              case Ok((h, n', src)) => r == Ok(h) && n == n' && Src() == src
    {
      ghost var all := PartHeaders(Src(), n, maxPostSize, first, NoHead);
      var line, h := first, NoHead;
      while line != ""
        invariant PartHeaders(Src(), n, maxPostSize, line, h) == all
        decreases Raw(Src())
      {
        h :- TakeHeader(line, h);
        line :- NextLine();
      }
      return Ok(h);
    }

    /** The value of a text part; returns it with the boundary line that ended it. */
    method ReadText(boundary: string) returns (r: Result<(string, string)>)
      requires Valid()
      modifies `n, ins, ckrd
      ensures match TextPart(old(Src()), old(n), maxPostSize, boundary)
              case Err(e) => r == Err(e)
              case Ok((value, line, n', src)) => r == Ok((value, line)) && n == n' && Src() == src
    {
      ghost var all := TextPart(Src(), n, maxPostSize, boundary);
      var line :- NextLine();
      var value := "";
      while line != boundary && line != boundary + "--"
        invariant TextLines(Src(), n, maxPostSize, boundary, line, value) == all
        decreases Raw(Src())
      {
        value := value + line;
        line :- NextLine();
      }
      return Ok((value, line));
    }

    /** The pattern bytes of a failed match are written out one by one and counted. */
    method PutMatched(pattern: string, cnt: nat, out: string, fsize: nat) returns (out': string, fsize': nat)
      requires cnt <= |pattern|
      ensures out' == out + pattern[..cnt] && fsize' == fsize + cnt
    {
      out', fsize' := out, fsize;
      for i := 0 to cnt
        invariant out' == out + pattern[..i] && fsize' == fsize + i
      {
        out' := out' + [pattern[i]];
        fsize' := fsize' + 1;
      }
    }

    /** What one byte of a file part does to the match and to the file. */
    method MatchByte(inbyte: char, pattern: string, cnt: nat, out: string, fsize: nat)
        returns (cnt': nat, out': string, fsize': nat)
      requires cnt < |pattern|
      ensures (cnt', out', fsize') == CopyByte(inbyte, pattern, cnt, out, fsize)
    {
      cnt', out', fsize' := cnt, out, fsize;
      if Matches(inbyte, pattern[cnt]) {
        cnt' := cnt + 1;
      } else if cnt > 0 {
        out', fsize' := PutMatched(pattern, cnt, out, fsize);
        cnt' := 0;
        if Matches(inbyte, pattern[cnt']) {
          cnt' := cnt' + 1;
        } else {
          out' := out' + [inbyte];
        }
        fsize' := fsize' + 1;
      } else {
        out' := out' + [inbyte];
        fsize' := fsize' + 1;
      }
    }

    /** The byte loop of a file part. */
    method ReadFile(pattern: string) returns (r: Result<(string, nat)>)
      requires Valid() && pattern != ""
      modifies `n, ins, ckrd
      ensures match CopyFile(old(Src()), old(n), maxPostSize, pattern, 0, "", 0)
              case Err(e) => r == Err(e)
              case Ok(copy) => r == Ok((copy.out, copy.fsize)) && n == copy.n && Src() == copy.src
    {
      hide CopyFile, CopyByte, TakeByte;
      ghost var all := CopyFile(Src(), n, maxPostSize, pattern, 0, "", 0);
      var cnt: nat, fsize: nat, out := 0, 0, "";
      while true
        invariant cnt < |pattern|
        invariant CopyFile(Src(), n, maxPostSize, pattern, cnt, out, fsize) == all
        decreases Raw(Src())
      {
        ghost var src, n0 := Src(), n;
        CopyFileStops(Src(), n, maxPostSize, pattern, cnt, out, fsize);
        var inbyte :- NextByte();
        if inbyte == None {
          return Ok((out, fsize));
        }
        if ins.fail || ins.eof {
          return Err(InputFailure);
        }
        n := n + 1;
        if maxPostSize > 0 && n > maxPostSize {
          return Err(TooBig);
        }
        CopyFileUnfold(src, n0, maxPostSize, pattern, cnt, out, fsize, inbyte.value, Src());
        cnt, out, fsize := MatchByte(inbyte.value, pattern, cnt, out, fsize);
        if cnt == |pattern| {
          return Ok((out, fsize));
        }
      }
    }

    /** The two bytes after a file part and the line they stand for. */
    method ReadFileEnd(boundary: string) returns (r: Result<string>)
      requires Valid()
      modifies `n, ins, ckrd
      ensures match AfterFile(old(Src()), old(n), maxPostSize, boundary)
              case Err(e) => r == Err(e)
              case Ok((line, n', src)) => r == Ok(line) && n == n' && Src() == src
    {
      var inbyte :- NextByte();
      if ins.fail || ins.eof {
        return Err(InputFailure);
      }
      n := n + 1;
      if maxPostSize > 0 && n > maxPostSize {
        return Err(TooBig);
      }
      var _ :- NextByte();
      if ins.fail || ins.eof {
        return Err(InputFailure);
      }
      return Ok(if inbyte == Some('-') then boundary + "--" else boundary);
    }

    /** One part, after its boundary line: its value or its upload is recorded, and the next
        boundary line comes back. */
    method ReadPart(boundary: string) returns (r: Result<string>)
      requires Valid()
      modifies this, ins, ckrd
      ensures var all := ParseParts(old(Src()), old(n), maxPostSize, boundary, boundary, old(postParams), old(uploads));
              match r
              case Err(e) => all == Err(e)
              case Ok(line) =>
                && all == ParseParts(Src(), n, maxPostSize, boundary, line, postParams, uploads)
                && Raw(Src()) < Raw(old(Src()))
    {
      var line :- NextLine();
      var h :- ReadHeaders(line);
      if h.filename == "" {
        var text :- ReadText(boundary);
        postParams := postParams[h.fieldname := text.0];
        return Ok(text.1);
      }
      var file :- ReadFile(CRLF + boundary);
      line :- ReadFileEnd(boundary);
      uploads := uploads + [Upload(h.fieldname, h.filename, h.mimetype, file.1, file.0)];
      return Ok(line);
    }

    /** The whole body. */
    method ReadForm(boundary: string) returns (r: Result<bool>)
      requires Valid() && n == 0 && postParams == map[] && uploads == []
      modifies this, ins, ckrd
      ensures match ParseForm(old(Src()), maxPostSize, boundary)
              case Err(e) => r == Err(e)
              case Ok(form) => r == Ok(true) && Form(postParams, uploads, n, Src()) == form
    {
      ghost var all := ParseForm(Src(), maxPostSize, boundary);
      var line :- NextLine();
      while line != boundary + "--"
        invariant ParseParts(Src(), n, maxPostSize, boundary, line, postParams, uploads) == all
        decreases Raw(Src())
      {
        if line == boundary {
          line :- ReadPart(boundary);
        } else {
          line :- NextLine();
        }
      }
      return Ok(true);
    }
  }
}
