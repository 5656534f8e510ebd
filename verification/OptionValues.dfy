/** `parse_header_options` declares its value outside the loop: when an option without '=' gets a
    value it never had. */
module OptionValues {
  import opened Wrappers
  import opened UrlCodec
  import opened HeaderText
  import opened Letters

  /** A decoded option: its name and, with '=', its own value. */
  type Opt = (string, Option<string>)

  predicate Decodable(params: seq<string>, form: bool)
  {
    forall i :: 0 <= i < |params| ==> DecodeOption(params[i], form).Some?
  }

  function DecodeAll(params: seq<string>, form: bool): (opts: seq<Opt>)
    requires Decodable(params, form)
    ensures |opts| == |params|
  {
    seq(|params|, i requires 0 <= i < |params| => DecodeOption(params[i], form).value)
  }

  /** The options as they are meant: without '=' the value is empty. */
  function Own(opts: seq<Opt>): (ps: seq<(string, string)>)
    ensures |ps| == |opts|
  {
    seq(|opts|, i requires 0 <= i < |opts| => (opts[i].0, if opts[i].1.Some? then opts[i].1.value else ""))
  }

  /** The value of the last option with '=' before position `i`. */
  function ValueBefore(opts: seq<Opt>, i: nat): string
    requires i <= |opts|
  {
    if i == 0 then "" else if opts[i - 1].1.Some? then opts[i - 1].1.value else ValueBefore(opts, i - 1)
  }

  /** The options as the loop stores them. */
  function Stored(opts: seq<Opt>): (ps: seq<(string, string)>)
    ensures |ps| == |opts|
  {
    seq(|opts|, i requires 0 <= i < |opts| =>
      (opts[i].0, if opts[i].1.Some? then opts[i].1.value else ValueBefore(opts, i)))
  }

  /** No later option has the same name. */
  predicate Stays(opts: seq<Opt>, i: nat)
    requires i < |opts|
  {
    forall j :: i < j < |opts| ==> opts[j].0 != opts[i].0
  }

  // ------------------------------------------------------------ the loop

  lemma OwnValueTrimmed(param: string, form: bool)
    requires DecodeOption(param, form).Some? && DecodeOption(param, form).value.1.Some?
    ensures Trimmed(DecodeOption(param, form).value.1.value)
  {
    var value := Decode(param[Find('=', param) + 1..], form);
    TrimIdempotent(value.value);
  }

  /** The loop from position `i` on stores the pairs from there on. */
  lemma {:induction false} FoldStores(params: seq<string>, form: bool, i: nat, q: map<string, string>)
    requires Decodable(params, form) && i <= |params| && Trimmed(ValueBefore(DecodeAll(params, form), i))
    ensures var opts := DecodeAll(params, form);
            FoldOptions(params[i..], form, ValueBefore(opts, i), q) == Some(PairMap(Stored(opts)[i..], q))
    decreases |params| - i
  {
    hide DecodeOption, Trimmed, Trim;
    if i < |params| {
      var opts := DecodeAll(params, form);
      assert params[i..][0] == params[i] && params[i..][1..] == params[i + 1..];
      assert Stored(opts)[i..][1..] == Stored(opts)[i + 1..];
      TrimKeeps(ValueBefore(opts, i));
      if opts[i].1.Some? {
        OwnValueTrimmed(params[i], form);
      }
      FoldStores(params, form, i + 1, q[Stored(opts)[i].0 := Stored(opts)[i].1]);
    }
  }

  /** The options come out as they are meant if and only if no option without '=' that stays in the
      map has an option with a non-blank value as the last one with '=' before it. */
  lemma OptionsExactly(options: string, form: bool, sep: char)
    requires Decodable(Params(options, sep), form)
    ensures var opts := DecodeAll(Params(options, sep), form);
            && HeaderOptions(options, form, sep) == Some(PairMap(Stored(opts), map[]))
            && (HeaderOptions(options, form, sep) == Some(PairMap(Own(opts), map[])) <==>
                forall i :: 0 <= i < |opts| && opts[i].1.None? && Stays(opts, i) ==> ValueBefore(opts, i) == "")
  {
    hide DecodeOption, Params;
    var params := Params(options, sep);
    var opts := DecodeAll(params, form);
    assert params[0..] == params && Stored(opts)[0..] == Stored(opts);
    FoldStores(params, form, 0, map[]);
    SameMapExactly(Stored(opts), Own(opts));
    forall i | 0 <= i < |opts| ensures LastOfName(Stored(opts), i) <==> Stays(opts, i) {
      assert forall j :: 0 <= j < |opts| ==> Stored(opts)[j].0 == opts[j].0;
    }
  }

  /** In "a=1;b" the option b gets the value 1. */
  lemma LeakWitness()
    ensures HeaderOptions("a=1;b", true, ';') == Some(map["a" := "1", "b" := "1"])
  {
    var o := "a=1;b";
    assert o == "a=1" + [';'] + "b";
    PiecesOfFirst("a=1", "b", ';');
    PiecesOfFirst("b", "", ';');
    assert Params(o, ';') == ["a=1", "b"];
    OptionA();
    OptionB();
    hide DecodeOption, Params;
    TrimKeeps("1");
    var none: seq<string>, q := [], map["a" := "1"];
    assert ["a=1", "b"][1..] == ["b"] && ["b"][1..] == none;
    assert FoldOptions(none, true, "1", q["b" := "1"]) == Some(q["b" := "1"]);
    assert FoldOptions(["b"], true, "1", q) == Some(q["b" := "1"]);
    assert FoldOptions(["a=1", "b"], true, "", map[]) == FoldOptions(["b"], true, "1", q);
  }

  lemma OptionA()
    ensures DecodeOption("a=1", true) == Some(("a", Some("1")))
  {
    hide Decode, Trim, Lower;
    assert "a=1" == "a" + ['='] + "1";
    SplitAt("a", '=', "1");
    DecodeWithoutPercent("a", true);
    DecodeWithoutPercent("1", true);
    TrimKeeps("a");
    TrimKeeps("1");
    LowerKeeps("a");
    assert "a=1"[..1] == "a" && "a=1"[2..] == "1";
  }

  lemma OptionB()
    ensures DecodeOption("b", true) == Some(("b", None))
  {
    hide Decode, Trim, Lower;
    FindIs('=', "b", 1);
    DecodeWithoutPercent("b", true);
    TrimKeeps("b");
    LowerKeeps("b");
    assert "b"[..1] == "b";
  }

  // ------------------------------------------------------------ one option, and the list

  predicate Solid(s: string) { s != "" ==> s[0] !in BlankChars() && s[|s| - 1] !in BlankChars() }

  /** Blanks around the name and the value do not count, and the name is taken in lower case. */
  lemma OptionMeans(a: string, name: string, b: string, c: string, value: string, d: string, form: bool)
    requires Blanks(a) && Blanks(b) && Blanks(c) && Blanks(d) && Solid(name) && Solid(value)
    requires Lacks(a + name + b, '%') && Lacks(a + name + b, '=') && Lacks(c + value + d, '%')
    ensures DecodeOption(a + name + b + ['='] + (c + value + d), form) == Some((Lower(name), Some(value)))
    ensures DecodeOption(a + name + b, form) == Some((Lower(name), None))
  {
    hide Decode, Trim, Lower, Blanks, BlankChars, Lacks, Find, Solid;
    var left, right := a + name + b, c + value + d;
    var s := left + ['='] + right;
    TrimSolid(a, name, b);
    TrimSolid(c, value, d);
    DecodeWithoutPercent(left, form);
    DecodeWithoutPercent(right, form);
    SplitAt(left, '=', right);
    NoEquals(left);
    assert s[..|left|] == left && s[|left| + 1..] == right && left[..|left|] == left;
  }

  lemma TrimSolid(a: string, s: string, b: string)
    requires Blanks(a) && Blanks(b) && Solid(s)
    ensures Trim(a + s + b) == s
  {
    TrimTakes(a, s, b);
  }

  lemma NoEquals(s: string)
    requires Lacks(s, '=')
    ensures Find('=', s) == |s|
  {
    FindIs('=', s, |s|);
  }

  function JoinedBy(ps: seq<string>, sep: char): string
    requires ps != []
  {
    if |ps| == 1 then ps[0] else ps[0] + [sep] + JoinedBy(ps[1..], sep)
  }

  lemma {:induction false} PiecesJoined(ps: seq<string>, sep: char)
    requires ps != [] && forall i :: 0 <= i < |ps| ==> Lacks(ps[i], sep)
    ensures Pieces(JoinedBy(ps, sep), sep) == ps
  {
    hide Pieces, Lacks;
    if |ps| == 1 {
      PiecesOfFirst(ps[0], "", sep);
    } else {
      assert forall i :: 0 <= i < |ps| - 1 ==> ps[1..][i] == ps[i + 1];
      PiecesJoined(ps[1..], sep);
      PiecesOfFirst(ps[0], JoinedBy(ps[1..], sep), sep);
    }
  }

  /** The list of a text joined by separators: an empty text in front of the first and behind the
      last separator does not count, all others do. */
  lemma ParamsJoined(ps: seq<string>, sep: char)
    requires |ps| > 1 && forall i :: 0 <= i < |ps| ==> Lacks(ps[i], sep)
    ensures var last := |ps| - 1;
            Params(JoinedBy(ps, sep), sep)
            == (if ps[0] == "" then [] else [ps[0]]) + ps[1..last] + (if ps[last] == "" then [] else [ps[last]])
  {
    hide Pieces, Lacks;
    PiecesJoined(ps, sep);
    var last := |ps| - 1;
    assert ps == [ps[0]] + ps[1..last] + [ps[last]];
    assert ps[1..] == ps[1..last] + [ps[last]] && ps[..last] == [ps[0]] + ps[1..last];
    assert last > 0 ==> ps[1..][..last - 1] == ps[1..last];
  }
}
