/** Trimming, lower-casing and the option lists of header lines (`name=value` after semicolons). */
module HeaderText {
  import opened Wrappers
  import opened Streams
  import opened Numbers
  import opened UrlCodec

  function TrimLeft(s: string): string {
    if s != "" && IsSpace(s[0]) then TrimLeft(s[1..]) else s
  }

  function TrimRight(s: string): string {
    if s != "" && IsSpace(s[|s| - 1]) then TrimRight(s[..|s| - 1]) else s
  }

  function Trim(s: string): string { TrimRight(TrimLeft(s)) }

  function LowerChar(c: char): char {
    if 'A' <= c <= 'Z' then (c as int + 32) as char else c
  }

  function Lower(s: string): (r: string)
    ensures |r| == |s|
  {
    if s == "" then "" else [LowerChar(s[0])] + Lower(s[1..])
  }

  function UpperChar(c: char): char {
    if 'a' <= c <= 'z' then (c as int - 32) as char else c
  }

  function Upper(s: string): (r: string)
    ensures |r| == |s|
  {
    if s == "" then "" else [UpperChar(s[0])] + Upper(s[1..])
  }

  /** The text before the first `c`, and after it: the whole of `s` twice when `c` is missing, as
      `substr(0, npos)` and `substr(npos + 1)` give it. */
  function Before(c: char, s: string): string { s[..Find(c, s)] }

  function After(c: char, s: string): string {
    var p := Find(c, s);
    if p == |s| then s else s[p + 1..]
  }

  /** One option; without '=' it has no value of its own. */
  function DecodeOption(param: string, form: bool): Option<(string, Option<string>)> {
    var p := Find('=', param);
    var name := Decode(param[..p], form);
    if name.None? then None
    else if p == |param| then Some((Lower(Trim(name.value)), None))
    else
      var value := Decode(param[p + 1..], form);
      if value.None? then None else Some((Lower(Trim(name.value)), Some(Trim(value.value))))
  }

  /** The map of the options. `value` is declared outside the loop: an option without '=' gets the
      value of the option before it. */
  function FoldOptions(params: seq<string>, form: bool, value: string, q: map<string, string>)
      : Option<map<string, string>>
  {
    if params == [] then Some(q)
    else
      match DecodeOption(params[0], form)
      case None => None
      case Some((name, own)) =>
        var v := if own.Some? then own.value else Trim(value);
        FoldOptions(params[1..], form, v, q[name := v])
  }

  /** `parse_header_options`; None if decoding one of the options never returns. */
  function HeaderOptions(options: string, form: bool, sep: char): Option<map<string, string>> {
    FoldOptions(Params(options, sep), form, "", map[])
  }

  // ------------------------------------------------------------ facts about plain text

  predicate Trimmed(s: string) {
    s != "" ==> !IsSpace(s[0]) && !IsSpace(s[|s| - 1])
  }

  lemma TrimLeftBlank(s: string)
    requires s == "" || !IsSpace(s[0])
    ensures TrimLeft(s) == s && TrimLeft(" " + s) == s
  {
    assert (" " + s)[1..] == s;
  }

  lemma TrimKeeps(s: string)
    requires Trimmed(s)
    ensures Trim(s) == s && Trim(" " + s) == s
  {
    TrimLeftBlank(s);
  }

  lemma {:induction false} TrimLeftStart(s: string)
    ensures TrimLeft(s) == "" || !IsSpace(TrimLeft(s)[0])
    ensures TrimLeft(s) != "" ==> TrimLeft(s)[|TrimLeft(s)| - 1] == s[|s| - 1]
  {
    if s != "" && IsSpace(s[0]) {
      TrimLeftStart(s[1..]);
    }
  }

  lemma {:induction false} TrimRightEnds(s: string)
    requires s == "" || !IsSpace(s[0])
    ensures Trimmed(TrimRight(s))
  {
    if s != "" && IsSpace(s[|s| - 1]) {
      TrimRightEnds(s[..|s| - 1]);
    }
  }

  /** The result of trimming is trimmed, so trimming twice changes nothing. */
  lemma TrimIdempotent(s: string)
    ensures Trimmed(Trim(s)) && Trim(Trim(s)) == Trim(s)
  {
    TrimLeftStart(s);
    TrimRightEnds(TrimLeft(s));
    TrimKeeps(Trim(s));
  }

  lemma {:induction false} LowerKeeps(s: string)
    requires forall k :: 0 <= k < |s| ==> !('A' <= s[k] <= 'Z')
    ensures Lower(s) == s
  {
    if s != "" {
      LowerKeeps(s[1..]);
    }
  }

  lemma {:induction false} LowerConcat(a: string, b: string)
    ensures Lower(a + b) == Lower(a) + Lower(b)
  {
    if a == "" {
      assert a + b == b;
    } else {
      assert (a + b)[1..] == a[1..] + b;
      LowerConcat(a[1..], b);
    }
  }

  lemma DecodeWithoutPercent(s: string, form: bool)
    requires Lacks(s, '%')
    ensures Decode(s, form) == Some(s)
  {
    FindIs('%', s, |s|);
  }

  lemma SplitAt(a: string, c: char, b: string)
    requires Lacks(a, c)
    ensures Find(c, a + [c] + b) == |a|
    ensures Before(c, a + [c] + b) == a && After(c, a + [c] + b) == b
  {
    var s := a + [c] + b;
    FindIs(c, s, |a|);
  }

  /** Without the separator both halves are the whole text. */
  lemma NoSeparator(s: string, c: char)
    requires Lacks(s, c)
    ensures Before(c, s) == s && After(c, s) == s
  {
    FindIs(c, s, |s|);
    assert s[..|s|] == s;
  }

  /** A header name: not empty, on one line, without a colon or blanks around it. */
  predicate FieldName(s: string) { s != "" && NoEol(s) && Lacks(s, ':') && Trimmed(s) }

  lemma FieldLine(field: string, value: string)
    requires FieldName(field) && Trimmed(value)
    ensures Lower(Trim(Before(':', field + ": " + value))) == Lower(field)
    ensures Trim(After(':', field + ": " + value)) == value
  {
    assert field + ": " + value == field + [':'] + (" " + value);
    SplitAt(field, ':', " " + value);
    TrimKeeps(field);
    TrimKeeps(value);
  }
}
