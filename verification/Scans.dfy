/** What the scanners of numbers make of a text: the positional value of its digits. Values are
    defined here from the written-out digits, without the scanners. */
module Scans {
  import opened Wrappers
  import opened Streams
  import opened Numbers
  import opened Letters
  import opened RequestHeaders
  import opened Chunks

  function HexSmalls(): string { "0123456789abcdef" }
  function HexCapitals(): string { "0123456789ABCDEF" }

  /** The digit `c` has the value `v`, in either case. */
  predicate Spells(c: char, v: nat) { v < 16 && (c == HexSmalls()[v] || c == HexCapitals()[v]) }

  predicate NoHex(c: char) { c !in HexSmalls() && c !in HexCapitals() }

  lemma SmallsAt(v: nat)
    requires v < 16
    ensures HexSmalls()[v] == if v < 10 then (48 + v) as char else (87 + v) as char
  {
    assert HexSmalls() == seq(16, i requires 0 <= i < 16 => if i < 10 then (48 + i) as char else (87 + i) as char);
  }

  lemma CapitalsAt(v: nat)
    requires v < 16
    ensures HexCapitals()[v] == if v < 10 then (48 + v) as char else (55 + v) as char
  {
    assert HexCapitals() == seq(16, i requires 0 <= i < 16 => if i < 10 then (48 + i) as char else (55 + i) as char);
  }

  lemma SpellsValue(c: char, v: nat)
    ensures Spells(c, v) <==> IsHexDigit(c) && HexValue(c) == v
  {
    hide HexSmalls, HexCapitals;
    if v < 16 {
      SmallsAt(v);
      CapitalsAt(v);
    }
  }

  lemma NoHexIs(c: char)
    ensures NoHex(c) <==> !IsHexDigit(c)
  {
    if IsHexDigit(c) {
      SpellsValue(c, HexValue(c));
    } else if c in HexSmalls() {
      var v :| 0 <= v < 16 && HexSmalls()[v] == c;
      SpellsValue(c, v);
    } else if c in HexCapitals() {
      var v :| 0 <= v < 16 && HexCapitals()[v] == c;
      SpellsValue(c, v);
    }
  }

  /** The positional value of digits. */
  function Value(ds: seq<nat>, base: nat): nat
  {
    if ds == [] then 0 else base * Value(ds[..|ds| - 1], base) + ds[|ds| - 1]
  }

  predicate HexDigits(s: string, ds: seq<nat>) {
    |s| == |ds| > 0 && forall k :: 0 <= k < |s| ==> Spells(s[k], ds[k])
  }

  predicate DecimalDigits(s: string, ds: seq<nat>) {
    |s| == |ds| > 0 && forall k :: 0 <= k < |s| ==> ds[k] < 10 && s[k] == Figures()[ds[k]]
  }

  lemma AllHex(s: string, ds: seq<nat>)
    requires HexDigits(s, ds)
    ensures forall k :: 0 <= k < |s| ==> IsHexDigit(s[k]) && HexValue(s[k]) == ds[k]
  {
    hide Spells;
    forall k | 0 <= k < |s| ensures IsHexDigit(s[k]) && HexValue(s[k]) == ds[k] {
      SpellsValue(s[k], ds[k]);
    }
  }

  lemma {:induction false} HexPrefixIs(s: string, ds: seq<nat>)
    requires |s| == |ds| && forall k :: 0 <= k < |s| ==> IsHexDigit(s[k]) && HexValue(s[k]) == ds[k]
    ensures HexPrefix(s, 0) == Value(ds, 16)
  {
    if s != "" {
      var n := |s| - 1;
      HexPrefixIs(s[..n], ds[..n]);
      HexPrefixSnoc(s[..n], s[n], 0);
      assert s == s[..n] + [s[n]];
    }
  }

  lemma {:induction false} HexPrefixStops(s: string, rest: string, acc: nat)
    requires forall k :: 0 <= k < |s| ==> IsHexDigit(s[k])
    requires rest == "" || !IsHexDigit(rest[0])
    ensures HexPrefix(s + rest, acc) == HexPrefix(s, acc)
  {
    if s == "" {
      assert s + rest == rest;
    } else {
      assert (s + rest)[1..] == s[1..] + rest;
      HexPrefixStops(s[1..], rest, 16 * acc + HexValue(s[0]));
    }
  }

  /** Digits and a rest that does not go on with one: the number, from the first digit on. */
  lemma HexRun(s: string, ds: seq<nat>, rest: string)
    requires HexDigits(s, ds) && (rest == "" || NoHex(rest[0]))
    ensures s != "" && HexPrefix(s + rest, 0) == Value(ds, 16) && IsHexDigit((s + rest)[0])
    ensures forall k :: 0 <= k < |s| ==> IsHexDigit((s + rest)[k])
  {
    hide Spells, NoHex;
    AllHex(s, ds);
    if rest != "" {
      NoHexIs(rest[0]);
    }
    HexPrefixIs(s, ds);
    HexPrefixStops(s, rest, 0);
  }

  lemma {:induction false} SkipsBlanks(a: string, s: string)
    requires Blanks(a) && (s == "" || s[0] !in BlankChars())
    ensures SkipSpaces(a + s) == s
  {
    if a == "" {
      assert a + s == s;
      if s != "" {
        BlankIs(s[0]);
      }
    } else {
      BlankIs(a[0]);
      assert (a + s)[1..] == a[1..] + s;
      SkipsBlanks(a[1..], s);
    }
  }

  predicate Sign(sign: string) { sign == "" || sign == "+" || sign == "-" }

  /** An x after the single digit 0, with a digit behind it, would be a prefix instead. */
  predicate Marked(s: string, rest: string) {
    s == "0" && |rest| > 1 && (rest[0] == 'x' || rest[0] == 'X') && !NoHex(rest[1])
  }

  /** Blanks, a sign, a mark 0x, hexadecimal digits of either case, leading zeros included, and any
      text that does not go on with a digit: scanned as the positional value of the digits. */
  lemma ScanHexIs(blanks: string, sign: string, mark: string, s: string, ds: seq<nat>, rest: string)
    requires Blanks(blanks) && Sign(sign) && (mark == "" || mark == "0x" || mark == "0X")
    requires HexDigits(s, ds) && (rest == "" || NoHex(rest[0])) && (mark == "" ==> !Marked(s, rest))
    ensures ScanHex(blanks + (sign + (mark + (s + rest)))) == Some((sign == "-", Value(ds, 16)))
  {
    hide HexDigits, Blanks, BlankChars, NoHex, IsHexDigit, HexPrefix;
    var t := s + rest;
    HexRun(s, ds, rest);
    NotBlank(t[0]);
    assert (sign + (mark + t))[0] == if sign != "" then sign[0] else if mark != "" then '0' else t[0];
    NotBlank('0');
    SignNotBlank();
    SkipsBlanks(blanks, sign + (mark + t));
    assert sign != "" ==> (sign + (mark + t))[1..] == mark + t;
    assert sign == "" ==> sign + (mark + t) == mark + t;
    DigitNoSign(t[0]);
    DigitNoSign('0');
    if mark == "" {
      assert mark + t == t;
      Unmarked(s, ds, rest);
    } else {
      assert (mark + t)[2..] == t;
    }
  }

  lemma NotBlank(c: char)
    ensures IsHexDigit(c) ==> c !in BlankChars()
    ensures IsHexDigit('0')
  {
  }

  lemma SignNotBlank()
    ensures '+' !in BlankChars() && '-' !in BlankChars()
  {
  }

  lemma DigitNoSign(c: char)
    ensures IsHexDigit(c) ==> c != '+' && c != '-' && c != 'x' && c != 'X'
  {
  }

  lemma Unmarked(s: string, ds: seq<nat>, rest: string)
    requires HexDigits(s, ds) && !Marked(s, rest)
    ensures var t := s + rest;
            !(|t| > 2 && t[0] == '0' && (t[1] == 'x' || t[1] == 'X') && IsHexDigit(t[2]))
  {
    hide NoHex, IsHexDigit, HexSmalls, HexCapitals, Spells;
    AllHex(s, ds);
    var t := s + rest;
    if |s| == 1 && |rest| > 1 {
      NoHexIs(rest[1]);
      assert t[1] == rest[0] && t[2] == rest[1];
    } else if |s| > 1 {
      assert t[1] == s[1];
      DigitNoSign(s[1]);
    }
  }

  /** Without a digit after the blanks and the sign there is no number. */
  lemma ScanHexFails(blanks: string, sign: string, rest: string)
    requires Blanks(blanks) && Sign(sign) && (rest == "" || NoHex(rest[0]))
    requires sign == "" && rest != "" ==> rest[0] !in BlankChars() && rest[0] != '+' && rest[0] != '-'
    ensures var text := blanks + (sign + rest);
            ScanHex(text) == None && StoUL(text) == Err(NotANumber) && StoL(text) == Err(NotANumber)
  {
    hide Blanks, BlankChars, NoHex, IsHexDigit;
    SignNotBlank();
    assert sign + rest != "" ==> (sign + rest)[0] == if sign != "" then sign[0] else rest[0];
    SkipsBlanks(blanks, sign + rest);
    assert sign != "" ==> (sign + rest)[1..] == rest;
    assert sign == "" ==> sign + rest == rest;
    if rest != "" {
      NoHexIs(rest[0]);
    }
  }

  /** What the two types make of it: `stoul` wraps a minus sign around, `stol` keeps it. */
  lemma NumbersOf(blanks: string, sign: string, mark: string, s: string, ds: seq<nat>, rest: string)
    requires Blanks(blanks) && Sign(sign) && (mark == "" || mark == "0x" || mark == "0X")
    requires HexDigits(s, ds) && (rest == "" || NoHex(rest[0])) && (mark == "" ==> !Marked(s, rest))
    ensures var text := blanks + (sign + (mark + (s + rest)));
            var m: int := Value(ds, 16);
            && StoUL(text) == (if m > ULONG_MAX then Err(NumberOutOfRange)
                               else Ok(if sign == "-" && m > 0 then SIZE_T - m else m))
            && StoL(text) == (if sign == "-" then (if m > LONG_MAX + 1 then Err(NumberOutOfRange) else Ok(-m))
                              else if m > LONG_MAX then Err(NumberOutOfRange) else Ok(m))
  {
    hide ScanHex, HexDigits, Marked, NoHex, Blanks;
    ScanHexIs(blanks, sign, mark, s, ds, rest);
  }

  /** The size lines of chunks: every spelling of a size that fits the type. */
  lemma EverySizeLine(s: string, ds: seq<nat>, rest: string)
    requires HexDigits(s, ds) && (rest == "" || NoHex(rest[0])) && !Marked(s, rest)
    requires NoEol(rest) && |s + rest| < MAX_HEADERLINE_LEN && Value(ds, 16) <= LONG_MAX
    ensures SizeLine(s + rest, Value(ds, 16))
  {
    hide ScanHex, HexDigits, Marked, NoHex;
    ScanHexIs("", "", "", s, ds, rest);
    assert "" + ("" + ("" + (s + rest))) == s + rest;
    DigitsNoEol(s, ds);
    assert NoEol(s + rest);
  }

  lemma DigitsNoEol(s: string, ds: seq<nat>)
    requires HexDigits(s, ds)
    ensures NoEol(s)
  {
    AllHex(s, ds);
  }

  /** A body of one chunk of ten bytes. */
  function TenBytes(sizeLine: string): string
  {
    sizeLine + (CRLF + ("0123456789" + (CRLF + ("0" + (CRLF + (CRLF + ""))))))
  }

  /** The size written "A" and "a": all three readers take the ten bytes. */
  lemma CapitalSizeWitness(size: string)
    requires size == "A" || size == "a"
    ensures ReadAll(Open(TenBytes(size)), 0, "") == Ok(("0123456789", Open(CRLF)))
    ensures var r := Reader(Open(TenBytes(size)), 0, 0);
            && GetAll(r, 0).Ok? && GetAll(r, 0).value.0 == "0123456789"
            && GetLine(r, 0, "", 0).Ok? && GetLine(r, 0, "", 0).value.0 == "0123456789"
  {
    hide ReadAll, GetAll, GetLine, SizeLine, Body, Payload, TenBytes;
    var cs := TenGood(size);
    assert "" + "0123456789" == "0123456789" && CRLF + "" == CRLF;
    ReadAllDecodes(cs, "0", "", 0, "");
    var v, r := View("", cs, "0", ""), Reader(Open(Body(cs, "0", "")), 0, 0);
    GetAllDecodes(r, v, 0);
    TenLine(r, v);
  }

  lemma TenGood(size: string) returns (cs: seq<WireChunk>)
    requires size == "A" || size == "a"
    ensures GoodChunks(cs) && SizeLine("0", 0) && Payload(cs) == "0123456789" && Body(cs, "0", "") == TenBytes(size)
  {
    hide SizeLine;
    OneDigitLine(size, 10);
    OneDigitLine("0", 0);
    cs := [WireChunk(size, "0123456789")];
    assert cs[1..] == [] && "0123456789" + "" == "0123456789";
  }

  lemma TenLine(r: Reader, v: View)
    requires Shows(r, v) && Remaining(v) == "0123456789"
    ensures GetLine(r, 0, "", 0).Ok? && GetLine(r, 0, "", 0).value.0 == "0123456789"
  {
    hide GetLine, LineOf, Body, GoodChunks, SizeLine, LineLength, EolLength, Shows, Remaining;
    ShownGood(r, v);
    var _ := GetLineDelivers(r, v, 0, "", 0);
    LineOfPayload(v);
    TenDigits();
  }

  lemma ShownGood(r: Reader, v: View)
    requires Shows(r, v)
    ensures GoodChunks(v.chunks)
  {
  }

  lemma TenDigits()
    ensures LineLength("0123456789") == 10 && "" + "0123456789"[..10] == "0123456789"
  {
    LineLengthIs("0123456789", 10);
  }

  lemma OneDigitLine(s: string, v: nat)
    requires |s| == 1 && Spells(s[0], v)
    ensures SizeLine(s, v)
  {
    assert s + "" == s && Value([v], 16) == v by { assert [v][..0] == []; }
    EverySizeLine(s, [v], "");
  }

  // ------------------------------------------------------------ decimal numbers

  lemma {:induction false} DecimalPrefixIs(s: string, ds: seq<nat>)
    requires |s| == |ds| && forall k :: 0 <= k < |s| ==> IsDigit(s[k]) && s[k] as int - '0' as int == ds[k]
    ensures DecimalPrefix(s, 0) == Value(ds, 10)
  {
    if s != "" {
      var n := |s| - 1;
      DecimalPrefixIs(s[..n], ds[..n]);
      DecimalPrefixSnoc(s[..n], s[n], 0);
      assert s == s[..n] + [s[n]];
    }
  }

  lemma {:induction false} DecimalPrefixStops(s: string, rest: string, acc: nat)
    requires forall k :: 0 <= k < |s| ==> IsDigit(s[k])
    requires rest == "" || !IsDigit(rest[0])
    ensures DecimalPrefix(s + rest, acc) == DecimalPrefix(s, acc)
  {
    if s == "" {
      assert s + rest == rest;
    } else {
      assert (s + rest)[1..] == s[1..] + rest;
      DecimalPrefixStops(s[1..], rest, 10 * acc + (s[0] as int - '0' as int));
    }
  }

  lemma AllDecimal(s: string, ds: seq<nat>)
    requires DecimalDigits(s, ds)
    ensures forall k :: 0 <= k < |s| ==> IsDigit(s[k]) && s[k] as int - '0' as int == ds[k]
  {
    hide Figures;
    FiguresAre();
  }

  lemma DecimalRun(s: string, ds: seq<nat>, rest: string)
    requires DecimalDigits(s, ds) && (rest == "" || rest[0] !in Figures())
    ensures s != "" && DecimalPrefix(s + rest, 0) == Value(ds, 10) && IsDigit((s + rest)[0])
  {
    hide Figures;
    AllDecimal(s, ds);
    if rest != "" {
      FiguresRange(rest[0]);
    }
    DecimalPrefixIs(s, ds);
    DecimalPrefixStops(s, rest, 0);
  }

  /** The same for the signed decimal scanner: the value if it fits the type. */
  lemma ScanDecimalIs(blanks: string, sign: string, s: string, ds: seq<nat>, rest: string, max: int)
    requires Blanks(blanks) && Sign(sign) && DecimalDigits(s, ds) && (rest == "" || rest[0] !in Figures())
    ensures var m: int := Value(ds, 10);
            ScanDecimal(blanks + (sign + (s + rest)), max)
            == if sign == "-" then (if m <= max + 1 then Ok(-m) else Err(NumberOutOfRange))
               else if m <= max then Ok(m) else Err(NumberOutOfRange)
  {
    hide DecimalDigits, Blanks, BlankChars, DecimalPrefix, Figures;
    var t := s + rest;
    DecimalRun(s, ds, rest);
    NotBlank(t[0]);
    DigitNoSign(t[0]);
    assert (sign + t)[0] == if sign != "" then sign[0] else t[0];
    SignNotBlank();
    SkipsBlanks(blanks, sign + t);
    assert sign != "" ==> (sign + t)[1..] == t;
    assert sign == "" ==> sign + t == t;
  }

  lemma ScanDecimalFails(blanks: string, sign: string, rest: string, max: int)
    requires Blanks(blanks) && Sign(sign) && (rest == "" || rest[0] !in Figures())
    requires sign == "" && rest != "" ==> rest[0] !in BlankChars() && rest[0] != '+' && rest[0] != '-'
    ensures ScanDecimal(blanks + (sign + rest), max) == Err(NotANumber)
  {
    hide Blanks, BlankChars, Figures;
    SignNotBlank();
    assert sign + rest != "" ==> (sign + rest)[0] == if sign != "" then sign[0] else rest[0];
    SkipsBlanks(blanks, sign + rest);
    assert sign != "" ==> (sign + rest)[1..] == rest;
    assert sign == "" ==> sign + rest == rest;
    if rest != "" {
      FiguresRange(rest[0]);
    }
  }
}
