/** `Connection::process_header`: the header block of a request. */
module RequestHeaders {
  import opened Wrappers
  import opened Streams
  import opened Numbers
  import opened HeaderText
  import opened HttpHelpers
  import opened Chunks

  const INT_MAX: int := 0x7FFF_FFFF
  const LLONG_MAX: int := 0x7FFF_FFFF_FFFF_FFFF

  /** What the header lines set, with the values the constructor starts from. */
  datatype Head = Head(
    fields: map<string, string>,
    keepAlive: bool,
    timeout: int,
    cookies: map<string, string>,
    length: int,
    chunked: bool,
    host: string)

  function NewHead(): Head { Head(map[], false, -1, map[], 0, false, "") }

  // ------------------------------------------------------------ decimal numbers

  function DecimalPrefix(s: string, acc: nat): nat
  {
    if s == "" || !IsDigit(s[0]) then acc else DecimalPrefix(s[1..], 10 * acc + (s[0] as int - '0' as int))
  }

  /** `std::stoi` and `std::stoll`: blanks, a sign, digits; what follows is ignored. */
  function ScanDecimal(s: string, max: int): Result<int>
  {
    var t := SkipSpaces(s);
    var neg := t != "" && t[0] == '-';
    var u := if t != "" && (t[0] == '-' || t[0] == '+') then t[1..] else t;
    if u == "" || !IsDigit(u[0]) then Err(NotANumber)
    else
      var m := DecimalPrefix(u, 0);
      if (if neg then m > max + 1 else m > max) then Err(NumberOutOfRange)
      else Ok(if neg then 0 - m else m)
  }

  lemma {:induction false} DecimalPrefixSnoc(s: string, d: char, acc: nat)
    requires IsDigit(d) && forall k :: 0 <= k < |s| ==> IsDigit(s[k])
    ensures DecimalPrefix(s + [d], acc) == 10 * DecimalPrefix(s, acc) + (d as int - '0' as int)
  {
    if s == "" {
      assert (s + [d])[1..] == "";
    } else {
      assert (s + [d])[1..] == s[1..] + [d];
      DecimalPrefixSnoc(s[1..], d, 10 * acc + (s[0] as int - '0' as int));
    }
  }

  lemma {:induction false} DecimalPrefixOfDecimal(n: nat)
    ensures DecimalPrefix(Decimal(n), 0) == n
  {
    if n < 10 {
      assert Decimal(n)[1..] == "";
    } else {
      DecimalPrefixOfDecimal(n / 10);
      DecimalPrefixSnoc(Decimal(n / 10), (n % 10 + '0' as int) as char, 0);
    }
  }

  /** A printed number is scanned back exactly when it fits the type. */
  lemma ScanInvertsDecimal(n: nat, max: int)
    ensures ScanDecimal(Decimal(n), max) == if n <= max then Ok(n) else Err(NumberOutOfRange)
  {
    assert IsDigit(Decimal(n)[0]);
    DecimalPrefixOfDecimal(n);
  }

  // ------------------------------------------------------------ the block

  /** One field, its name in lower case. */
  function ApplyField(h: Head, name: string, value: string): Result<Head>
  {
    var h1 := h.(fields := h.fields[name := value]);
    if name == "connection" then
      var opts := HeaderOptions(value, true, ';');
      if opts.None? then Err(NeverReturns) else Ok(h1.(keepAlive := "close" !in opts.value))
    else if name == "cookie" then
      var opts := HeaderOptions(value, true, ';');
      if opts.None? then Err(NeverReturns) else Ok(h1.(cookies := opts.value))
    else if name == "keep-alive" then
      var opts := HeaderOptions(value, true, ',');
      if opts.None? then Err(NeverReturns)
      else if "timeout" !in opts.value then Ok(h1)
      else
        var seconds :- ScanDecimal(opts.value["timeout"], INT_MAX);
        Ok(h1.(timeout := seconds))
    else if name == "content-length" then
      var length :- ScanDecimal(value, LLONG_MAX);
      Ok(h1.(length := length))
    else if name == "transfer-encoding" then Ok(h1.(chunked := h.chunked || value == "chunked"))
    else if name == "host" then Ok(h1.(host := value))
    else Ok(h1)
  }

  function ApplyLine(h: Head, line: string): Result<Head>
  {
    ApplyField(h, Lower(Trim(Before(':', line))), Trim(After(':', line)))
  }

  /** The loop: up to an empty line, or a line that the input ends in, which is dropped. */
  function ReadHead(ins: Stream, h: Head): Result<(Head, Stream)>
    decreases |ins.rest|
  {
    if ins.Bad() then Ok((h, ins))
    else
      var line :- ReadLine(ins, MAX_HEADERLINE_LEN);
      if line.text == "" || line.after.fail then Ok((h, line.after))
      else
        var h' :- ApplyLine(h, line.text);
        ReadHead(line.after, h')
  }

  // ------------------------------------------------------------ printing and reading back

  type Field = (string, string)

  predicate GoodField(f: Field)
  {
    FieldName(f.0) && NoEol(f.1) && Trimmed(f.1) && |f.0| + 2 + |f.1| < MAX_HEADERLINE_LEN
  }

  predicate GoodFields(fs: seq<Field>) { forall i :: 0 <= i < |fs| ==> GoodField(fs[i]) }

  function FieldText(f: Field): string { f.0 + ": " + f.1 }

  function HeadBytes(fs: seq<Field>, tail: string): string
  {
    if fs == [] then CRLF + tail else FieldText(fs[0]) + CRLF + HeadBytes(fs[1..], tail)
  }

  function Apply(h: Head, fs: seq<Field>): Result<Head>
    decreases |fs|
  {
    if fs == [] then Ok(h)
    else
      var h' :- ApplyField(h, Lower(fs[0].0), fs[0].1);
      Apply(h', fs[1..])
  }

  lemma FieldTextNoEol(f: Field)
    requires GoodField(f)
    ensures NoEol(FieldText(f)) && |FieldText(f)| < MAX_HEADERLINE_LEN
  {
  }

  lemma FieldReadable(f: Field, rest: string)
    requires GoodField(f)
    ensures FieldText(f) != "" && ReadLine(Open(FieldText(f) + CRLF + rest), MAX_HEADERLINE_LEN)
              == Ok(Line(FieldText(f), |FieldText(f)| + 2, Open(rest)))
    ensures forall h :: ApplyLine(h, FieldText(f)) == ApplyField(h, Lower(f.0), f.1)
  {
    hide ReadLine, ApplyField, Lower, Trim, Before, After;
    FieldLine(f.0, f.1);
    FieldTextNoEol(f);
    ReadsLine(FieldText(f), rest, MAX_HEADERLINE_LEN);
  }

  lemma BlankLine(tail: string)
    ensures ReadLine(Open(CRLF + tail), MAX_HEADERLINE_LEN) == Ok(Line("", 2, Open(tail)))
  {
    assert "" + CRLF + tail == CRLF + tail;
    ReadsLine("", tail, MAX_HEADERLINE_LEN);
  }

  /** Every header block that is printed field by field is read as these fields, in order, and the
      body is left untouched. */
  lemma {:induction false} HeadReadsBack(fs: seq<Field>, tail: string, h: Head)
    requires GoodFields(fs)
    ensures ReadHead(Open(HeadBytes(fs, tail)), h)
            == if Apply(h, fs).Ok? then Ok((Apply(h, fs).value, Open(tail))) else Err(Apply(h, fs).error)
    decreases |fs|
  {
    hide ReadLine, ApplyField, ApplyLine, GoodField, FieldText;
    if fs == [] {
      BlankLine(tail);
    } else {
      FieldReadable(fs[0], HeadBytes(fs[1..], tail));
      var step := ApplyField(h, Lower(fs[0].0), fs[0].1);
      if step.Ok? {
        HeadReadsBack(fs[1..], tail, step.value);
      }
    }
  }

  // ------------------------------------------------------------ what the fields mean

  function FieldMap(fs: seq<Field>, q: map<string, string>): map<string, string>
  {
    if fs == [] then q else FieldMap(fs[1..], q[Lower(fs[0].0) := fs[0].1])
  }

  predicate SaysChunked(f: Field) { Lower(f.0) == "transfer-encoding" && f.1 == "chunked" }

  /** The body length is the last content-length, and the host the last host line. */
  ghost predicate Consistent(h: Head)
  {
    && ("content-length" in h.fields ==> ScanDecimal(h.fields["content-length"], LLONG_MAX) == Ok(h.length))
    && ("host" in h.fields ==> h.host == h.fields["host"])
  }

  lemma FieldApplied(h: Head, f: Field)
    requires Consistent(h) && ApplyField(h, Lower(f.0), f.1).Ok?
    ensures var h' := ApplyField(h, Lower(f.0), f.1).value;
            && Consistent(h') && h'.fields == h.fields[Lower(f.0) := f.1]
            && (h'.chunked <==> h.chunked || SaysChunked(f))
  {
    hide ScanDecimal, HeaderOptions, Lower;
    var name := Lower(f.0);
    assert name != "content-length" || name != "host";
  }

  /** After the block: the fields by lower-case name, later lines winning; the body is chunked if
      and only if some transfer-encoding line says exactly so. */
  lemma {:induction false} HeadMeans(h: Head, fs: seq<Field>)
    requires Consistent(h) && Apply(h, fs).Ok?
    ensures var h' := Apply(h, fs).value;
            && Consistent(h') && h'.fields == FieldMap(fs, h.fields)
            && (h'.chunked <==> h.chunked || exists i :: 0 <= i < |fs| && SaysChunked(fs[i]))
    decreases |fs|
  {
    hide ApplyField, Consistent, SaysChunked;
    if fs != [] {
      FieldApplied(h, fs[0]);
      HeadMeans(ApplyField(h, Lower(fs[0].0), fs[0].1).value, fs[1..]);
      assert forall i :: 0 < i < |fs| ==> fs[i] == fs[1..][i - 1];
    }
  }

  // ------------------------------------------------------------ the code

  method ReadDecimal(s: string, max: int) returns (r: Result<int>)
    ensures r == ScanDecimal(s, max)
  {
    var i := 0;
    assert s[0..] == s;
    while i < |s| && IsSpace(s[i])
      invariant i <= |s| && SkipSpaces(s[i..]) == SkipSpaces(s)
    {
      assert s[i..][1..] == s[i + 1..];
      i := i + 1;
    }
    ghost var t := s[i..];
    var neg := i < |s| && s[i] == '-';
    if i < |s| && (s[i] == '-' || s[i] == '+') {
      assert t[1..] == s[i + 1..];
      i := i + 1;
    }
    if i == |s| || !IsDigit(s[i]) {
      return Err(NotANumber);
    }
    var m: nat := 0;
    ghost var u := s[i..];
    while i < |s| && IsDigit(s[i])
      invariant i <= |s| && DecimalPrefix(s[i..], m) == DecimalPrefix(u, 0)
    {
      assert s[i..][1..] == s[i + 1..];
      m := 10 * m + (s[i] as int - '0' as int);
      i := i + 1;
    }
    if if neg then m > max + 1 else m > max {
      return Err(NumberOutOfRange);
    }
    return Ok(if neg then 0 - m else m);
  }

  class Request {
    const ins: InputStream
    var fields: map<string, string>
    var keepAlive: bool
    var timeout: int
    var cookies: map<string, string>
    var length: int
    var chunked: bool
    var host: string

    ghost function Abs(): Head
      reads this
    {
      Head(fields, keepAlive, timeout, cookies, length, chunked, host)
    }

    constructor (ins: InputStream)
      ensures this.ins == ins && Abs() == NewHead()
    {
      this.ins := ins;
      fields, keepAlive, timeout, cookies, length, chunked, host := map[], false, -1, map[], 0, false, "";
    }

    method SetField(name: string, value: string) returns (r: Result<bool>)
      modifies this
      ensures match ApplyField(old(Abs()), name, value)
              case Err(e) => r == Err(e)
              case Ok(h) => r == Ok(true) && Abs() == h
    {
      hide HeaderOptions, ScanDecimal;
      fields := fields[name := value];
      if name == "connection" {
        var opts := ParseHeaderOptions(value, true, ';');
        if opts == None {
          return Err(NeverReturns);
        }
        keepAlive := "close" !in opts.value;
      } else if name == "cookie" {
        var opts := ParseHeaderOptions(value, true, ';');
        if opts == None {
          return Err(NeverReturns);
        }
        cookies := opts.value;
      } else if name == "keep-alive" {
        var opts := ParseHeaderOptions(value, true, ',');
        if opts == None {
          return Err(NeverReturns);
        }
        if "timeout" in opts.value {
          timeout :- ReadDecimal(opts.value["timeout"], INT_MAX);
        }
      } else if name == "content-length" {
        length :- ReadDecimal(value, LLONG_MAX);
      } else if name == "transfer-encoding" {
        if value == "chunked" {
          chunked := true;
        }
      } else if name == "host" {
        host := value;
      }
      return Ok(true);
    }

    method SetLine(line: string) returns (r: Result<bool>)
      modifies this
      ensures match ApplyLine(old(Abs()), line)
              case Err(e) => r == Err(e)
              case Ok(h) => r == Ok(true) && Abs() == h
    {
      hide ApplyField, Trim, Lower;
      assert line[0..] == line && line[..|line|] == line;
      var pos := FindFrom(line, ':', 0);
      var name := if pos.Some? then line[..pos.value] else line;
      var value := if pos.Some? then line[pos.value + 1..] else line;
      name := TrimCopy(name);
      name := AsciiToLower(name);
      value := TrimCopy(value);
      r := SetField(name, value);
    }

    method ProcessHeader() returns (r: Result<bool>)
      modifies this, ins
      ensures match ReadHead(old(ins.Abs()), old(Abs()))
              case Err(e) => r == Err(e)
              case Ok((h, after)) => r == Ok(true) && Abs() == h && ins.Abs() == after
    {
      hide ReadLine, ApplyLine;
      ghost var all := ReadHead(ins.Abs(), Abs());
      var eoh := false;
      while !eoh && !ins.eof && !ins.fail
        invariant if eoh then all == Ok((Abs(), ins.Abs())) else ReadHead(ins.Abs(), Abs()) == all
        decreases !eoh, |ins.rest|
      {
        ghost var before := ins.Abs();
        LineShrinks(before);
        var line :- ins.SafeGetline(MAX_HEADERLINE_LEN);
        if line.0 == "" || ins.fail {
          eoh := true;
        } else {
          var _ :- SetLine(line.0);
        }
      }
      return Ok(true);
    }
  }

  lemma LineShrinks(s: Stream)
    requires !s.Bad()
    ensures var r := ReadLine(s, MAX_HEADERLINE_LEN);
            r.Ok? && !r.value.after.fail ==> |r.value.after.rest| < |s.rest|
  {
  }
}
