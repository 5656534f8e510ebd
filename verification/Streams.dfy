/** Input streams as byte sequences with the two state bits of a C++ istream, and `safeGetline`,
    the line reader every header and body parser of the server is built on. */
module Streams {
  import opened Wrappers

  const CRLF: string := "\r\n"

  /** `rest` is what has not been read yet; `eof` and `fail` are the state bits. */
  datatype Stream = Stream(rest: string, eof: bool, fail: bool)
  {
    predicate Bad() { eof || fail }
  }

  function Open(data: string): Stream { Stream(data, false, false) }

  predicate IsEol(c: char) { c == '\r' || c == '\n' }

  predicate NoEol(s: string) { forall k :: 0 <= k < |s| ==> !IsEol(s[k]) }

  /** Length of the first line of `s`, without its terminator. */
  function LineLength(s: string): (n: nat)
    ensures n <= |s|
    ensures forall k :: 0 <= k < n ==> !IsEol(s[k])
    ensures n < |s| ==> IsEol(s[n])
  {
    if s == "" || IsEol(s[0]) then 0 else 1 + LineLength(s[1..])
  }

  /** Length of the line terminator `s` starts with. */
  function EolLength(s: string): nat {
    if s == "" || !IsEol(s[0]) then 0
    else if s[0] == '\r' && |s| > 1 && s[1] == '\n' then 2
    else 1
  }

  /** What `safeGetline` gives: the text, the number of bytes taken, and the stream after it. */
  datatype Line = Line(text: string, n: nat, after: Stream)

  /** `max` is the line limit, 0 for none. A carriage return that is the last byte makes the
      look-ahead set the eof bit; a line without terminator sets both bits. */
  function ReadLine(s: Stream, max: nat): Result<Line> {
    if s.Bad() then Ok(Line("", 0, s.(fail := true)))
    else
      var i := LineLength(s.rest);
      var e := EolLength(s.rest[i..]);
      if max > 0 && i >= max then Err(LineTooLong)
      else if e == 0 then Ok(Line(s.rest, i, Stream("", true, true)))
      else
        var rest := s.rest[i + e..];
        Ok(Line(s.rest[..i], i + e, Stream(rest, i + 1 == |s.rest| && s.rest[i] == '\r', false)))
  }

  lemma {:induction false} LineLengthIs(s: string, i: nat)
    requires i <= |s| && (forall k :: 0 <= k < i ==> !IsEol(s[k])) && (i < |s| ==> IsEol(s[i]))
    ensures LineLength(s) == i
  {
    if i > 0 {
      LineLengthIs(s[1..], i - 1);
    }
  }

  /** `ReadLine` when the line and what follows it are known. */
  lemma ReadLineIs(text: string, rest: string, max: nat)
    requires NoEol(text) && (rest != "" ==> IsEol(rest[0])) && (max == 0 || |text| < max)
    ensures var e := EolLength(rest);
            ReadLine(Open(text + rest), max) == Ok(Line(text, |text| + e,
              if rest == "" then Stream("", true, true)
              else Stream(rest[e..], |rest| == 1 && rest[0] == '\r', false)))
  {
    var s := text + rest;
    LineLengthIs(s, |text|);
    assert s[|text|..] == rest;
    var e := EolLength(rest);
    assert s[|text| + e..] == rest[e..];
    if rest == "" {
      assert s == text;
    } else {
    }
  }

  lemma {:induction false} LineLengthPast(text: string, rest: string)
    requires NoEol(text)
    ensures LineLength(text + rest) >= |text|
  {
    if text != "" {
      assert (text + rest)[1..] == text[1..] + rest;
      LineLengthPast(text[1..], rest);
    }
  }

  lemma LongLine(text: string, rest: string, max: nat)
    requires NoEol(text) && 0 < max <= |text|
    ensures ReadLine(Open(text + rest), max) == Err(LineTooLong)
  {
    LineLengthPast(text, rest);
  }

  lemma BadLine(s: Stream, max: nat)
    requires s.Bad()
    ensures ReadLine(s, max) == Ok(Line("", 0, s.(fail := true)))
  {
  }

  lemma NoEolNil()
    ensures NoEol("")
  {
  }

  lemma NoEolSnoc(t: string, c: char)
    requires NoEol(t) && !IsEol(c)
    ensures NoEol(t + [c])
  {
  }

  lemma LastLine(text: string, max: nat)
    requires NoEol(text) && (max == 0 || |text| < max)
    ensures ReadLine(Open(text), max) == Ok(Line(text, |text|, Stream("", true, true)))
  {
    assert text + "" == text;
    ReadLineIs(text, "", max);
  }

  lemma EolIn(c: char, rest: string)
    requires IsEol(c)
    ensures var e := EolLength([c] + rest);
            1 <= e <= 1 + |rest| && ([c] + rest)[e..] == rest[e - 1..]
    ensures |[c] + rest| == 1 <==> rest == ""
  {
  }

  class InputStream {
    var rest: string
    var eof: bool
    var fail: bool

    ghost function Abs(): Stream
      reads this
    {
      Stream(rest, eof, fail)
    }

    constructor (data: string)
      ensures Abs() == Open(data)
    {
      rest, eof, fail := data, false, false;
    }

    predicate Bad()
      reads this
    {
      eof || fail
    }

    /** istream::get: the next byte, or None and the state bits at the end. */
    method Get() returns (c: Option<char>)
      modifies this
      ensures if old(Bad()) then c == None && Abs() == old(Abs()).(fail := true)
              else if old(rest) == "" then c == None && Abs() == Stream("", true, true)
              else c == Some(old(rest)[0]) && Abs() == Stream(old(rest)[1..], false, false)
    {
      if eof || fail {
        fail := true;
        return None;
      }
      if rest == "" {
        eof, fail := true, true;
        return None;
      }
      c := Some(rest[0]);
      rest := rest[1..];
    }

    /** istream::peek: looks ahead; at the end it sets the eof bit. */
    method Peek() returns (c: Option<char>)
      modifies this
      ensures if old(Bad()) then c == None && Abs() == old(Abs()).(fail := true)
              else if old(rest) == "" then c == None && Abs() == Stream("", true, false)
              else c == Some(old(rest)[0]) && Abs() == old(Abs())
    {
      if eof || fail {
        fail := true;
        return None;
      }
      if rest == "" {
        eof := true;
        return None;
      }
      c := Some(rest[0]);
    }

    /** streambuf::sbumpc: takes the next byte without touching the state bits. */
    method Bump() returns (c: Option<char>)
      modifies `rest
      ensures if old(rest) == "" then c == None && rest == ""
              else c == Some(old(rest)[0]) && rest == old(rest)[1..]
    {
      c := None;
      if rest != "" {
        c := Some(rest[0]);
        rest := rest[1..];
      }
    }

    /** istream::read: exactly `n` bytes, or both state bits. */
    method Read(n: nat) returns (data: string)
      requires !Bad()
      modifies this
      ensures if n <= |old(rest)| then data == old(rest)[..n] && Abs() == Stream(old(rest)[n..], false, false)
              else data == old(rest) && Abs() == Stream("", true, true)
    {
      if n <= |rest| {
        data, rest := rest[..n], rest[n..];
      } else {
        data, rest, eof, fail := rest, "", true, true;
      }
    }

    /** The line terminator cases of `safeGetline`: `b` was taken, an LF after a CR goes with it. */
    method FinishEol(b: char) returns (e: nat)
      requires IsEol(b) && !Bad()
      modifies this
      ensures e == EolLength([b] + old(rest))
      ensures Abs() == Stream(old(rest)[e - 1..], b == '\r' && old(rest) == "", false)
    {
      e := 1;
      if b == '\r' {
        var next := Peek();
        if next == Some('\n') {
          var _ := Get();
          e := 2;
        }
      }
    }

    /** The loop of `safeGetline`, byte by byte. */
    method SafeGetline(max: nat) returns (r: Result<(string, nat)>)
      modifies this
      ensures match ReadLine(old(Abs()), max)
              case Err(e) => r == Err(e)
              case Ok(line) => r == Ok((line.text, line.n)) && Abs() == line.after
    {
      hide ReadLine, EolLength, LineLength, NoEol;
      NoEolNil();
      ghost var start := Abs();
      if start.Bad() {
        BadLine(start, max);
      }
      var t := "";
      while true
        invariant NoEol(t) && (max > 0 ==> |t| < max || t == "")
        invariant if start.Bad() then Abs() == start && t == "" else start == Open(t + rest) && !eof && !fail
        decreases |rest|
      {
        ghost var tail := rest;
        var c := Get();
        if c == None {
          if !start.Bad() {
            LastLine(t, max);
            assert t + tail == t;
          }
          return Ok((t, |t|));
        }
        assert tail == [c.value] + rest;
        if IsEol(c.value) {
          ReadLineIs(t, tail, max);
          ghost var after := rest;
          var e := FinishEol(c.value);
          EolIn(c.value, after);
          return Ok((t, |t| + e));
        }
        Assoc(t, [c.value], rest);
        NoEolSnoc(t, c.value);
        t := t + [c.value];
        if max > 0 && |t| >= max {
          LongLine(t, rest, max);
          return Err(LineTooLong);
        }
      }
    }
  }

  // ------------------------------------------------------------ facts the parsers use

  /** A line never contains CR or LF, whatever the stream holds. */
  lemma LineHasNoEol(s: Stream, max: nat)
    requires ReadLine(s, max).Ok?
    ensures NoEol(ReadLine(s, max).value.text)
  {
  }

  /** A line written with CRLF is read back as it was, in one call. */
  lemma ReadsLine(text: string, tail: string, max: nat)
    requires NoEol(text) && (max == 0 || |text| < max)
    ensures ReadLine(Open(text + CRLF + tail), max) == Ok(Line(text, |text| + 2, Open(tail)))
  {
    assert text + CRLF + tail == text + (CRLF + tail);
    ReadLineIs(text, CRLF + tail, max);
  }

  /** Conservation: the bytes taken and the bytes left are the bytes there were. */
  lemma LineConservation(s: Stream, max: nat)
    requires ReadLine(s, max).Ok? && !s.Bad()
    ensures var line := ReadLine(s, max).value;
            && line.n + |line.after.rest| == |s.rest|
            && line.text <= s.rest && line.after.rest == s.rest[line.n..]
            && (line.n == 0 ==> line.after.Bad())
  {
  }
}
