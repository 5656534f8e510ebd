/** Number printing and scanning: `std::hex <<`, decimal `<<`, `std::stoul` and `std::stol` in base 16. */
module Numbers {
  import opened Wrappers
  import opened Streams

  const SIZE_T: nat := 0x1_0000_0000_0000_0000
  const ULONG_MAX: nat := 0xFFFF_FFFF_FFFF_FFFF
  const LONG_MAX: nat := 0x7FFF_FFFF_FFFF_FFFF

  predicate IsSpace(c: char) {
    c == ' ' || '\t' <= c <= '\r'
  }

  predicate IsDigit(c: char) { '0' <= c <= '9' }

  predicate IsHexDigit(c: char) { IsDigit(c) || 'a' <= c <= 'f' || 'A' <= c <= 'F' }

  function HexValue(c: char): (v: nat)
    requires IsHexDigit(c)
    ensures v < 16
  {
    if IsDigit(c) then c as int - '0' as int
    else if 'a' <= c then c as int - 'a' as int + 10
    else c as int - 'A' as int + 10
  }

  function LowerHexDigit(v: nat): (c: char)
    requires v < 16
    ensures IsHexDigit(c) && HexValue(c) == v && !('A' <= c <= 'Z')
  {
    if v < 10 then (v + '0' as int) as char else (v - 10 + 'a' as int) as char
  }

  function UpperHexDigit(v: nat): (c: char)
    requires v < 16
    ensures IsHexDigit(c) && HexValue(c) == v && !('a' <= c <= 'z')
  {
    if v < 10 then (v + '0' as int) as char else (v - 10 + 'A' as int) as char
  }

  /** `os << std::hex << n`: lower case, no leading zeros. */
  function Hex(n: nat): (s: string)
    ensures s != "" && forall k :: 0 <= k < |s| ==> IsHexDigit(s[k])
  {
    if n < 16 then [LowerHexDigit(n)] else Hex(n / 16) + [LowerHexDigit(n % 16)]
  }

  /** `os << n`. */
  function Decimal(n: nat): (s: string)
    ensures s != "" && forall k :: 0 <= k < |s| ==> IsDigit(s[k])
  {
    if n < 10 then [(n + '0' as int) as char] else Decimal(n / 10) + [(n % 10 + '0' as int) as char]
  }

  /** The value of the hex digits `s` starts with, continuing from `acc`. */
  function HexPrefix(s: string, acc: nat): nat
  {
    if s == "" || !IsHexDigit(s[0]) then acc else HexPrefix(s[1..], 16 * acc + HexValue(s[0]))
  }

  function SkipSpaces(s: string): string {
    if s != "" && IsSpace(s[0]) then SkipSpaces(s[1..]) else s
  }

  /** strtoul/strtol in base 16: blanks, a sign, an optional 0x, then digits; None without a digit.
      "0x" without a digit after it reads as the number 0. */
  function ScanHex(line: string): Option<(bool, nat)> {
    var s := SkipSpaces(line);
    var neg := s != "" && s[0] == '-';
    var t := if s != "" && (s[0] == '-' || s[0] == '+') then s[1..] else s;
    if t == "" || !IsHexDigit(t[0]) then None
    else if |t| > 2 && t[0] == '0' && (t[1] == 'x' || t[1] == 'X') && IsHexDigit(t[2]) then
      Some((neg, HexPrefix(t[2..], 0)))
    else Some((neg, HexPrefix(t, 0)))
  }

  /** std::stoul(line, nullptr, 16): a minus sign wraps around. */
  function StoUL(line: string): Result<nat> {
    match ScanHex(line)
    case None => Err(NotANumber)
    case Some((neg, m)) =>
      if m > ULONG_MAX then Err(NumberOutOfRange)
      else if neg && m > 0 then Ok(ULONG_MAX + 1 - m)
      else Ok(m)
  }

  /** std::stol(line, nullptr, 16). */
  function StoL(line: string): Result<int> {
    match ScanHex(line)
    case None => Err(NotANumber)
    case Some((neg, m)) =>
      if (if neg then m > LONG_MAX + 1 else m > LONG_MAX) then Err(NumberOutOfRange)
      else
        var v: int := m;
        Ok(if neg then -v else v)
  }

  lemma {:induction false} HexPrefixSnoc(s: string, d: char, acc: nat)
    requires IsHexDigit(d) && forall k :: 0 <= k < |s| ==> IsHexDigit(s[k])
    ensures HexPrefix(s + [d], acc) == 16 * HexPrefix(s, acc) + HexValue(d)
  {
    if s == "" {
      assert (s + [d])[1..] == "";
    } else {
      assert (s + [d])[1..] == s[1..] + [d];
      HexPrefixSnoc(s[1..], d, 16 * acc + HexValue(s[0]));
    }
  }

  lemma {:induction false} HexPrefixOfHex(n: nat)
    ensures HexPrefix(Hex(n), 0) == n
  {
    if n < 16 {
      assert Hex(n)[1..] == "";
    } else {
      HexPrefixOfHex(n / 16);
      HexPrefixSnoc(Hex(n / 16), LowerHexDigit(n % 16), 0);
    }
  }

  /** Scanning inverts printing, for both scanners, up to the width of the type. */
  lemma ScanInvertsPrint(n: nat)
    ensures StoUL(Hex(n)) == if n <= ULONG_MAX then Ok(n) else Err(NumberOutOfRange)
    ensures StoL(Hex(n)) == if n <= LONG_MAX then Ok(n) else Err(NumberOutOfRange)
  {
    var s := Hex(n);
    assert IsHexDigit(s[0]);
    assert |s| > 1 ==> IsHexDigit(s[1]);
    HexPrefixOfHex(n);
  }

  lemma HexHasNoEol(n: nat)
    ensures NoEol(Hex(n))
  {
    var s := Hex(n);
    assert forall k :: 0 <= k < |s| ==> IsHexDigit(s[k]);
  }

  lemma HexFourDigits(n: nat)
    ensures |Hex(n)| <= 4 + |Hex(n / 0x10000)| && (n < 0x10000 ==> |Hex(n)| <= 4)
  {
    var a, b, c := n / 16, n / 256, n / 4096;
    assert b == a / 16 && c == b / 16 && n / 0x10000 == c / 16;
    assert |Hex(n)| <= 1 + |Hex(a)| && |Hex(a)| <= 1 + |Hex(b)| && |Hex(b)| <= 1 + |Hex(c)|;
    assert n < 0x10000 ==> c < 16;
  }

  /** A 64-bit size prints in at most 16 digits. */
  lemma HexLength(n: nat)
    requires n <= ULONG_MAX
    ensures |Hex(n)| <= 16
  {
    var a := n / 0x10000;
    var b := a / 0x10000;
    var c := b / 0x10000;
    HexFourDigits(n);
    HexFourDigits(a);
    HexFourDigits(b);
    HexFourDigits(c);
  }
}
