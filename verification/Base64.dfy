/** lib/LuaServer.cpp: base64 (section 4 of RFC 4648). Bytes are numbers below 256; where the
    source masks and shifts, this takes the quotient and remainder that result. */
module Base64 {
  import opened Wrappers

  type Byte = b: int | 0 <= b < 256

  function Capitals(): string { "ABCDEFGHIJKLMNOPQRSTUVWXYZ" }
  function Smalls(): string { "abcdefghijklmnopqrstuvwxyz" }
  function Others(): string { "0123456789+/" }

  /** `base64_chars`. */
  function Chars(): (s: string)
    ensures |s| == 64
  {
    Capitals() + Smalls() + Others()
  }

  /** `base64_chars.find(c)` stored in an `unsigned char`: for a character that is not there, the
      largest size becomes 255. */
  function FindFrom(c: char, i: nat): (p: Byte)
    requires i <= 64
    ensures (i <= p < 64 && Chars()[p] == c) || p == 255
    decreases 64 - i
  {
    if i == 64 then 255 else if Chars()[i] == c then i else FindFrom(c, i + 1)
  }

  function Code(c: char): Byte { FindFrom(c, 0) }

  /** `is_base64` in the "C" locale. */
  predicate IsBase64(c: char)
  {
    'A' <= c <= 'Z' || 'a' <= c <= 'z' || '0' <= c <= '9' || c == '+' || c == '/'
  }

  // ------------------------------------------------------------ the alphabet

  function Letter(v: nat): char
    requires v < 64
  {
    if v < 26 then (65 + v) as char
    else if v < 52 then (71 + v) as char
    else if v < 62 then (v - 4) as char
    else if v == 62 then '+' else '/'
  }

  lemma LetterAt(v: nat)
    requires v < 64
    ensures Chars()[v] == Letter(v)
  {
    hide Capitals, Smalls, Others;
    CapitalsAre();
    SmallsAre();
    OthersAre();
  }

  lemma CapitalsAre()
    ensures Capitals() == seq(26, i requires 0 <= i < 26 => Letter(i))
  {
  }

  lemma SmallsAre()
    ensures Smalls() == seq(26, i requires 0 <= i < 26 => Letter(26 + i))
  {
  }

  lemma OthersAre()
    ensures Others() == seq(12, i requires 0 <= i < 12 => Letter(52 + i))
  {
  }

  lemma {:induction false} FindLetter(v: nat, i: nat)
    requires i <= v < 64
    ensures FindFrom(Letter(v), i) == v
    decreases v - i
  {
    hide Chars;
    LetterAt(i);
    LetterAt(v);
    if i < v {
      FindLetter(v, i + 1);
    }
  }

  /** The alphabet has no letter twice, and its letters are those that the decoder accepts. */
  lemma CodeOfLetter(v: nat)
    requires v < 64
    ensures Code(Letter(v)) == v && IsBase64(Letter(v))
  {
    FindLetter(v, 0);
  }

  lemma LetterOfCode(c: char)
    requires IsBase64(c)
    ensures Code(c) < 64 && Letter(Code(c)) == c
  {
    var v :=
      if 'A' <= c <= 'Z' then c as int - 65
      else if 'a' <= c <= 'z' then c as int - 71
      else if '0' <= c <= '9' then c as int + 4
      else if c == '+' then 62 else 63;
    assert Letter(v) == c;
    CodeOfLetter(v);
  }

  // ------------------------------------------------------------ specification

  /** Three bytes of four codes, with the wrap-around of `unsigned char`. */
  function Triple(v: seq<Byte>): (t: seq<Byte>)
    requires |v| == 4
    ensures |t| == 3
  {
    [First(v[0], v[1]), Second(v[1], v[2]), Third(v[2], v[3])]
  }

  function First(u: int, v: int): Byte { (u * 4 + v / 16 % 4) % 256 }

  function Second(u: int, v: int): Byte { u % 16 * 16 + v / 4 % 16 }

  function Third(u: int, v: int): Byte { (u % 4 * 64 + v) % 256 }

  /** Four letters of three bytes. */
  function Quad(x: seq<Byte>): (q: string)
    requires |x| == 3
    ensures |q| == 4
  {
    [Letter(x[0] / 4), Letter(Middle(x[0], x[1], 4)), Letter(Middle(x[1], x[2], 16)), Letter(x[2] % 64)]
  }

  /** Six bits across a byte border: the low `64 / (256 / m)` of one byte and the high of the next. */
  function Middle(a: Byte, b: Byte, m: int): (v: nat)
    requires m == 4 || m == 16
    ensures v < 64
  {
    if m == 4 then a % 4 * 16 + b / 16 else a % 16 * 4 + b / 64
  }

  function Codes(s: string): (v: seq<Byte>)
    ensures |v| == |s|
  {
    seq(|s|, i requires 0 <= i < |s| => Code(s[i]))
  }

  lemma OneGroup(s: string)
    requires |s| >= 4
    ensures DecodeLetters(s) == Triple(Codes(s[..4])) + DecodeLetters(s[4..])
  {
  }

  lemma LastGroup(s: string)
    requires |s| < 4
    ensures DecodeLetters(s) == if s == "" then [] else Triple(Codes(s) + Codes(seq(4 - |s|, _ => '\0')))[..|s| - 1]
  {
  }

  function Zeros(n: nat): seq<Byte> { seq(n, _ => 0) }

  /** What the letters before the first other character decode to. */
  function DecodeLetters(s: string): (bytes: seq<Byte>)
  {
    if |s| >= 4 then Triple(Codes(s[..4])) + DecodeLetters(s[4..])
    else if s == "" then []
    else Triple(Codes(s) + Codes(seq(4 - |s|, _ => '\0')))[..|s| - 1]
  }

  /** The letters at the front. */
  function Front(s: string): (k: nat)
    ensures k <= |s| && forall i :: 0 <= i < k ==> IsBase64(s[i])
    ensures k < |s| ==> !IsBase64(s[k])
  {
    if s == "" || !IsBase64(s[0]) then 0 else 1 + Front(s[1..])
  }

  function Decode(s: string): seq<Byte> { DecodeLetters(s[..Front(s)]) }

  function Encode(b: seq<Byte>): string
  {
    if |b| >= 3 then Quad(b[..3]) + Encode(b[3..])
    else if b == [] then ""
    else Quad(b + Zeros(3 - |b|))[..|b| + 1] + seq(3 - |b|, _ => '=')
  }

  // ------------------------------------------------------------ properties

  lemma BitsOfBytes(a: Byte, b: Byte, c: Byte)
    ensures First(a / 4, Middle(a, b, 4)) == a
    ensures Second(Middle(a, b, 4), Middle(b, c, 16)) == b
    ensures Third(Middle(b, c, 16), c % 64) == c
  {
    hide Middle, First, Second, Third;
    FirstOfBits(a, b);
    SecondOfBits(a, b, c);
    ThirdOfBits(b, c);
  }

  lemma FirstOfBits(a: Byte, b: Byte)
    ensures First(a / 4, Middle(a, b, 4)) == a
  {
    var high := b / 16;
    assert Middle(a, b, 4) / 16 == a % 4;
  }

  lemma SecondOfBits(a: Byte, b: Byte, c: Byte)
    ensures Second(Middle(a, b, 4), Middle(b, c, 16)) == b
  {
    assert Middle(a, b, 4) % 16 == b / 16;
    assert Middle(b, c, 16) / 4 == b % 16;
  }

  lemma ThirdOfBits(b: Byte, c: Byte)
    ensures Third(Middle(b, c, 16), c % 64) == c
  {
    assert Middle(b, c, 16) % 4 == c / 64;
  }

  lemma BytesOfBits(u: nat, v: nat, w: nat, z: nat)
    requires u < 64 && v < 64 && w < 64 && z < 64
    ensures First(u, v) / 4 == u && Middle(First(u, v), Second(v, w), 4) == v
    ensures Middle(Second(v, w), Third(w, z), 16) == w && Third(w, z) % 64 == z
  {
    hide First, Second, Third;
    FirstBits(u, v);
    SecondBits(v, w);
    ThirdBits(w, z);
  }

  lemma FirstBits(u: nat, v: nat)
    requires u < 64 && v < 64
    ensures First(u, v) / 4 == u && First(u, v) % 4 == v / 16
  {
    assert v / 16 % 4 == v / 16;
  }

  lemma ThirdBits(w: nat, z: nat)
    requires w < 64 && z < 64
    ensures Third(w, z) / 64 == w % 4 && Third(w, z) % 64 == z
  {
    var low := w % 4;
    assert Third(w, z) == low * 64 + z;
  }

  lemma SecondBits(v: nat, w: nat)
    requires v < 64 && w < 64
    ensures Second(v, w) / 16 == v % 16 && Second(v, w) % 16 == w / 4
  {
  }

  lemma TripleOfQuad(x: seq<Byte>)
    requires |x| == 3
    ensures Triple(Codes(Quad(x))) == x
  {
    hide Letter, Middle, First, Second, Third, Code;
    BitsOfBytes(x[0], x[1], x[2]);
    CodeOfLetter(x[0] / 4);
    CodeOfLetter(Middle(x[0], x[1], 4));
    CodeOfLetter(Middle(x[1], x[2], 16));
    CodeOfLetter(x[2] % 64);
  }

  lemma QuadOfTriple(s: string)
    requires |s| == 4 && forall i :: 0 <= i < 4 ==> IsBase64(s[i])
    ensures Quad(Triple(Codes(s))) == s
  {
    hide Letter, Middle, First, Second, Third, Code, IsBase64;
    LetterOfCode(s[0]);
    LetterOfCode(s[1]);
    LetterOfCode(s[2]);
    LetterOfCode(s[3]);
    BytesOfBits(Code(s[0]), Code(s[1]), Code(s[2]), Code(s[3]));
  }

  /** The 255 that a padded position looks up never reaches an output byte: any codes there give the
      same bytes. */
  lemma PaddingUnused(v: seq<Byte>, w: seq<Byte>, k: nat)
    requires |v| == |w| == 4 && 0 < k <= 4 && v[..k] == w[..k]
    ensures Triple(v)[..k - 1] == Triple(w)[..k - 1]
  {
    assert forall i :: 0 <= i < k ==> v[i] == v[..k][i] == w[i];
  }

  /** Decoding stops at the first character outside the alphabet, whatever follows. */
  lemma {:induction false} FrontStops(s: string, tail: string)
    requires forall i :: 0 <= i < |s| ==> IsBase64(s[i])
    requires tail != "" ==> !IsBase64(tail[0])
    ensures Front(s + tail) == |s| && Decode(s + tail) == DecodeLetters(s)
  {
    hide DecodeLetters, IsBase64;
    if s == "" {
      assert s + tail == tail;
    } else {
      FrontStops(s[1..], tail);
      assert (s + tail)[1..] == s[1..] + tail;
    }
    assert (s + tail)[..|s|] == s;
  }

  /** Letters of the encoding in front of the padding. */
  function EncodeLetters(b: seq<Byte>): (s: string)
    ensures forall i :: 0 <= i < |s| ==> IsBase64(s[i])
  {
    if |b| >= 3 then
      var q := Quad(b[..3]);
      QuadLetters(b[..3]);
      q + EncodeLetters(b[3..])
    else if b == [] then ""
    else
      QuadLetters(b + Zeros(3 - |b|));
      Quad(b + Zeros(3 - |b|))[..|b| + 1]
  }

  lemma QuadLetters(x: seq<Byte>)
    requires |x| == 3
    ensures forall i :: 0 <= i < 4 ==> IsBase64(Quad(x)[i])
  {
  }

  function Padding(n: nat): string { seq((3 - n % 3) % 3, _ => '=') }

  lemma {:induction false} EncodePads(b: seq<Byte>)
    ensures Encode(b) == EncodeLetters(b) + Padding(|b|)
    ensures |Encode(b)| == (|b| + 2) / 3 * 4
  {
    hide Quad, IsBase64;
    if |b| >= 3 {
      EncodePads(b[3..]);
      var q, rest, pad := Quad(b[..3]), EncodeLetters(b[3..]), Padding(|b|);
      assert Padding(|b[3..]|) == pad;
      assert (q + rest) + pad == q + (rest + pad);
    } else if b == [] {
      assert Encode(b) == "" + Padding(0);
    } else {
      assert Padding(|b|) == seq(3 - |b|, _ => '=');
    }
  }

  lemma {:induction false} DecodeEncoded(b: seq<Byte>)
    ensures DecodeLetters(EncodeLetters(b)) == b
  {
    hide Triple, Quad, Codes, IsBase64, DecodeLetters;
    if |b| >= 3 {
      TripleOfQuad(b[..3]);
      var q, rest := Quad(b[..3]), EncodeLetters(b[3..]);
      assert (q + rest)[..4] == q && (q + rest)[4..] == rest;
      OneGroup(q + rest);
      DecodeEncoded(b[3..]);
      assert b[..3] + b[3..] == b;
    } else if b != [] {
      LastBytesDecoded(b);
    } else {
      LastGroup("");
    }
  }

  lemma LastBytesDecoded(b: seq<Byte>)
    requires 0 < |b| < 3
    ensures DecodeLetters(EncodeLetters(b)) == b
  {
    hide Triple, Quad, IsBase64, DecodeLetters, Code;
    var x, k := b + Zeros(3 - |b|), |b| + 1;
    var s := Quad(x)[..k];
    LastGroup(s);
    PaddingUnused(Codes(s) + Codes(seq(4 - k, _ => '\0')), Codes(Quad(x)), k);
    TripleOfQuad(x);
    assert x[..|b|] == b;
  }

  /** `base64_decode(base64_encode(b)) == b` for every byte string: no padding, one '=' and two. */
  lemma RoundTrip(b: seq<Byte>)
    ensures Decode(Encode(b)) == b
  {
    EncodePads(b);
    FrontStops(EncodeLetters(b), Padding(|b|));
    DecodeEncoded(b);
  }

  /** The other direction: a text of whole groups of letters is what its bytes encode to. */
  lemma {:induction false} EncodeDecoded(s: string)
    requires |s| % 4 == 0 && forall i :: 0 <= i < |s| ==> IsBase64(s[i])
    ensures Encode(DecodeLetters(s)) == s && Decode(s) == DecodeLetters(s)
  {
    hide Triple, Quad, Codes, IsBase64;
    FrontStops(s, "");
    assert s + "" == s;
    if s != "" {
      QuadOfTriple(s[..4]);
      EncodeDecoded(s[4..]);
      var t, rest := Triple(Codes(s[..4])), DecodeLetters(s[4..]);
      assert (t + rest)[..3] == t && (t + rest)[3..] == rest;
      assert s[..4] + s[4..] == s;
    }
  }

  // ------------------------------------------------------------ the loops

  /** `char_array_4[i] = base64_chars.find(char_array_4[i])` for the four positions. */
  method LookUp(four: array<Byte>, ghost text: string)
    requires four.Length == |text| == 4 && forall j :: 0 <= j < 4 ==> four[j] as char == text[j]
    modifies four
    ensures four[..] == Codes(text)
  {
    hide Code;
    for i := 0 to 4
      invariant forall j :: 0 <= j < i ==> four[j] == Code(text[j])
      invariant forall j :: i <= j < 4 ==> four[j] as char == text[j]
    {
      four[i] := Code(four[i] as char);
    }
  }

  /** The three output bytes of four codes. */
  method ThreeOfFour(four: array<Byte>, three: array<Byte>)
    requires four.Length == 4 && three.Length == 3 && four != three
    modifies three
    ensures three[..] == Triple(four[..])
  {
    three[0] := First(four[0], four[1]);
    three[1] := Second(four[1], four[2]);
    three[2] := Third(four[2], four[3]);
  }

  /** `base64_decode`: characters are collected four at a time; the rest is padded with zeros. */
  method Base64Decode(encoded: string) returns (ret: seq<Byte>)
    ensures ret == Decode(encoded)
  {
    hide Triple, Code, DecodeLetters, Codes, First, Second, Third;
    ghost var k := Front(encoded);
    ghost var letters := encoded[..k];
    var four, three := new Byte[4](_ => 0), new Byte[3](_ => 0);
    ret := [];
    var i, next := 0, 0;
    while next < |encoded| && encoded[next] != '=' && IsBase64(encoded[next])
      invariant i < 4 && i <= next <= k
      invariant forall j :: 0 <= j < i ==> four[j] as char == letters[next - i + j]
      invariant ret + DecodeLetters(letters[next - i..]) == DecodeLetters(letters)
    {
      four[i] := encoded[next] as int;
      i, next := i + 1, next + 1;
      if i == 4 {
        ghost var group := letters[next - 4..next];
        LookUp(four, group);
        ThreeOfFour(four, three);
        OneGroup(letters[next - 4..]);
        assert letters[next - 4..][..4] == group && letters[next - 4..][4..] == letters[next..];
        Assoc(ret, Triple(Codes(group)), DecodeLetters(letters[next..]));
        ret := ret + three[..];
        i := 0;
      }
    }
    if i != 0 {
      DecodeRest(four, three, i, letters[next - i..]);
      ret := ret + three[..i - 1];
    } else {
      LastGroup("");
      assert letters[next..] == "";
    }
  }

  /** The last group, shorter than four letters, padded with zeros. */
  method DecodeRest(four: array<Byte>, three: array<Byte>, i: nat, ghost last: string)
    requires four.Length == 4 && three.Length == 3 && four != three && 0 < i == |last| < 4
    requires forall m :: 0 <= m < i ==> four[m] as char == last[m]
    modifies four, three
    ensures three[..i - 1] == DecodeLetters(last)
  {
    hide Triple, Code, DecodeLetters, Codes, First, Second, Third;
    LastGroup(last);
    for j := i to 4
      invariant forall m :: 0 <= m < i ==> four[m] as char == last[m]
      invariant forall m :: i <= m < j ==> four[m] == 0
    {
      four[j] := 0;
    }
    ghost var padded := last + seq(4 - i, _ => '\0');
    LookUp(four, padded);
    ThreeOfFour(four, three);
    CodesConcat(last, seq(4 - i, _ => '\0'));
  }

  lemma CodesConcat(s: string, t: string)
    ensures Codes(s + t) == Codes(s) + Codes(t)
  {
    hide Code;
  }

  /** The four letters of three bytes, appended up to `count`. */
  method FourOfThree(three: array<Byte>, count: nat) returns (text: string)
    requires three.Length == 3 && count <= 4
    ensures text == Quad(three[..])[..count]
  {
    hide Letter, Middle;
    var four := new nat[4][three[0] / 4, Middle(three[0], three[1], 4), Middle(three[1], three[2], 16), three[2] % 64];
    ghost var q := Quad(three[..]);
    text := "";
    for j := 0 to count
      invariant text == q[..j] && forall m :: 0 <= m < 4 ==> four[m] < 64 && Letter(four[m]) == q[m]
    {
      LetterAt(four[j]);
      text := text + [Chars()[four[j]]];
    }
  }

  /** `base64_encode`, in the source as a comment beside the decoder. */
  method Base64Encode(bytes: seq<Byte>) returns (ret: string)
    ensures ret == Encode(bytes)
  {
    hide Quad, Encode;
    var three := new Byte[3](_ => 0);
    ret := "";
    var i, next := 0, 0;
    while next < |bytes|
      invariant i < 3 && i <= next <= |bytes|
      invariant forall m :: 0 <= m < i ==> three[m] == bytes[next - i + m]
      invariant ret + Encode(bytes[next - i..]) == Encode(bytes)
    {
      three[i] := bytes[next];
      i, next := i + 1, next + 1;
      if i == 3 {
        var text := FourOfThree(three, 4);
        NextThree(three[..], bytes, next - 3);
        Assoc(ret, text, Encode(bytes[next..]));
        ret := ret + text;
        i := 0;
      }
    }
    FirstOf(three[..], bytes, i);
    LastBytes(bytes[next - i..]);
    if i != 0 {
      var text := EncodeRest(three, i);
      ret := ret + text;
    }
  }

  lemma NextThree(three: seq<Byte>, bytes: seq<Byte>, at: nat)
    requires |three| == 3 && at + 3 <= |bytes| && forall m :: 0 <= m < 3 ==> three[m] == bytes[at + m]
    ensures Encode(bytes[at..]) == Quad(three) + Encode(bytes[at + 3..])
  {
    hide Quad, Encode;
    OneTriple(bytes[at..]);
    assert bytes[at..][..3] == three && bytes[at..][3..] == bytes[at + 3..];
  }

  lemma FirstOf(three: seq<Byte>, bytes: seq<Byte>, count: nat)
    requires count <= |three| && count <= |bytes|
    requires forall m :: 0 <= m < count ==> three[m] == bytes[|bytes| - count + m]
    ensures three[..count] == bytes[|bytes| - count..]
  {
  }

  /** The last group, shorter than three bytes: its letters and the padding. */
  method EncodeRest(three: array<Byte>, count: nat) returns (text: string)
    requires three.Length == 3 && 0 < count < 3
    modifies three
    ensures text == Encode(old(three[..count]))
  {
    hide Quad, Encode;
    ghost var last := three[..count];
    LastBytes(last);
    for j := count to 3
      invariant three[..count] == last && forall m :: count <= m < j ==> three[m] == 0
    {
      three[j] := 0;
    }
    assert three[..] == last + Zeros(3 - count);
    text := FourOfThree(three, count + 1);
    ghost var letters := text;
    var i := count;
    while i < 3
      invariant count <= i <= 3 && text == letters + seq(i - count, _ => '=')
    {
      text := text + "=";
      i := i + 1;
    }
  }

  lemma OneTriple(b: seq<Byte>)
    requires |b| >= 3
    ensures Encode(b) == Quad(b[..3]) + Encode(b[3..])
  {
  }

  lemma LastBytes(b: seq<Byte>)
    requires |b| < 3
    ensures Encode(b) == if b == [] then "" else Quad(b + Zeros(3 - |b|))[..|b| + 1] + seq(3 - |b|, _ => '=')
  {
  }

  // ------------------------------------------------------------ section 4 of RFC 4648, written out

  /** The whole alphabet, one letter by one. */
  function Alphabet(): string { "ABCDEFGHIJKLMNOPQRSTUVWXYZabcdefghijklmnopqrstuvwxyz0123456789+/" }

  lemma AlphabetIs(v: nat)
    requires v < 64
    ensures |Alphabet()| == 64 && Letter(v) == Alphabet()[v] && Code(Alphabet()[v]) == v
  {
    hide Letter, Code, Alphabet, Chars;
    CodeOfLetter(v);
    LetterAt(v);
    AlphabetLetters();
  }

  lemma AlphabetLetters()
    ensures Alphabet() == Chars()
  {
  }

  /** The vectors of section 10, and the last two letters of the alphabet. */
  lemma Vectors()
    ensures Encode([0x66]) == "Zg==" && Encode([0x66, 0x6f]) == "Zm8=" && Encode([0x66, 0x6f, 0x6f]) == "Zm9v"
    ensures Encode([0x66, 0x6f, 0x6f, 0x62, 0x61, 0x72]) == "Zm9vYmFy"
    ensures Encode([0xfb, 0xff, 0xbf]) == "+/+/" && Encode([0xff, 0xef, 0xfe]) == "/+/+"
    ensures Decode("Zm9vYmFy") == [0x66, 0x6f, 0x6f, 0x62, 0x61, 0x72] && Decode("+/+/") == [0xfb, 0xff, 0xbf]
  {
    hide Encode, Decode, Quad;
    LastLetters();
    ShortGroups();
    Foobar();
    RoundTrip([0x66, 0x6f, 0x6f, 0x62, 0x61, 0x72]);
    RoundTrip([0xfb, 0xff, 0xbf]);
  }

  lemma LastLetters()
    ensures Encode([0xfb, 0xff, 0xbf]) == "+/+/" && Encode([0xff, 0xef, 0xfe]) == "/+/+"
  {
    hide Encode;
    WholeGroup([0xfb, 0xff, 0xbf], "+/+/");
    WholeGroup([0xff, 0xef, 0xfe], "/+/+");
  }

  lemma Foobar()
    ensures Encode([0x66, 0x6f, 0x6f]) == "Zm9v" && Encode([0x66, 0x6f, 0x6f, 0x62, 0x61, 0x72]) == "Zm9vYmFy"
  {
    hide Encode;
    var foo: seq<Byte>, bar: seq<Byte> := [0x66, 0x6f, 0x6f], [0x62, 0x61, 0x72];
    WholeGroup(foo, "Zm9v");
    WholeGroup(bar, "YmFy");
    hide Quad;
    OneTriple(foo + bar);
    assert (foo + bar)[..3] == foo && (foo + bar)[3..] == bar;
    assert "Zm9v" + "YmFy" == "Zm9vYmFy" && foo + bar == [0x66, 0x6f, 0x6f, 0x62, 0x61, 0x72];
    OneTriple(foo);
  }

  lemma WholeGroup(x: seq<Byte>, s: string)
    requires |x| == 3 && Quad(x) == s
    ensures Encode(x) == s
  {
    OneTriple(x);
    LastBytes([]);
    assert x[..3] == x && x[3..] == [] && s + "" == s;
  }

  lemma ShortGroups()
    ensures Encode([0x66]) == "Zg==" && Encode([0x66, 0x6f]) == "Zm8="
  {
    var one: seq<Byte>, two: seq<Byte> := [0x66], [0x66, 0x6f];
    LastBytes(one);
    LastBytes(two);
    assert one + Zeros(2) == [0x66, 0, 0] && two + Zeros(1) == [0x66, 0x6f, 0];
    assert Quad([0x66, 0, 0]) == "ZgAA" && Quad([0x66, 0x6f, 0]) == "Zm8A";
    assert "ZgAA"[..2] == "Zg" && "Zm8A"[..3] == "Zm8";
    assert seq(2, _ => '=') == "==" && seq(1, _ => '=') == "=";
  }
}
