/** What `urldecode` does with the '+' of form-encoded text: it converts up to the last triplet only. */
module PlusSigns {
  import opened Wrappers
  import opened UrlCodec

  // ------------------------------------------------------------ '+' after the last triplet

  /** Form decoding as the media type application/x-www-form-urlencoded means it: every '+' outside
      a triplet is a space. */
  function FullDecode(s: string): Option<string>
    decreases |s|
  {
    var p := Find('%', s);
    if p == |s| then Some(PlusToSpace(s, true))
    else if p + 2 >= |s| then None
    else
      var tail := FullDecode(s[p + 3..]);
      if tail.None? then None else Some(TripletText(s, p, true) + tail.value)
  }

  /** The text after the last triplet that the scan meets. */
  function LastText(s: string): string
    decreases |s|
  {
    var p := Find('%', s);
    if p + 2 >= |s| then s else LastText(s[p + 3..])
  }

  lemma {:induction false} PlusFree(s: string)
    ensures PlusToSpace(s, true) == s <==> Lacks(s, '+')
  {
    if s != "" {
      PlusFree(s[1..]);
      assert s == [s[0]] + s[1..];
      assert Lacks(s, '+') <==> s[0] != '+' && Lacks(s[1..], '+') by {
        assert forall k :: 0 < k < |s| ==> s[k] == s[1..][k - 1];
        assert forall k :: 0 <= k < |s[1..]| ==> s[1..][k] == s[k + 1];
      }
    }
  }

  /** The code converts every '+' exactly when none is left after the last triplet. */
  lemma {:induction false} DecodeIsFullExactly(s: string)
    requires !Dangles(s)
    ensures FullDecode(s).Some? && Decode(s, true).Some?
    ensures Decode(s, true) == FullDecode(s) <==> Lacks(LastText(s), '+')
    decreases |s|
  {
    hide TripletText, PlusToSpace, Lacks, Find;
    var p := Find('%', s);
    if p == |s| {
      PlusFree(s);
    } else {
      DecodeIsFullExactly(s[p + 3..]);
      var a, b, c := TripletText(s, p, true), Decode(s[p + 3..], true).value, FullDecode(s[p + 3..]).value;
      assert (a + b)[|a|..] == b && (a + c)[|a|..] == c;
    }
  }

  /** Without a triplet nothing is converted: "a+b" stays "a+b", where the media type means "a b". */
  lemma PlusWitness()
    ensures Decode("a+b", true) == Some("a+b") && FullDecode("a+b") == Some("a b")
    ensures ParseQuery("k=a+b", true) == Some(map["k" := "a+b"])
  {
    FindIs('%', "a+b", 3);
    assert PlusToSpace("a+b", true) == "a b";
    FindIs('%', "k", 1);
    FindIs('=', "k=a+b", 1);
    assert "k=a+b"[..1] == "k" && "k=a+b"[2..] == "a+b";
    FindIs('&', "k=a+b", 5);
    assert Params("k=a+b", '&') == ["k=a+b"];
    assert ["k=a+b"][1..] == [];
  }

  /** The name and the value text of a parameter. */
  function NameText(param: string): string { param[..Find('=', param)] }

  function ValueText(param: string): string {
    var p := Find('=', param);
    if p < |param| then param[p + 1..] else ""
  }

  predicate ParamDangles(param: string) { Dangles(NameText(param)) || Dangles(ValueText(param)) }

  /** The name-value pairs of a query before they are put into the map, with either decoding. */
  function DecodedPairs(params: seq<string>): (ps: seq<(string, string)>)
    requires forall i :: 0 <= i < |params| ==> !ParamDangles(params[i])
    ensures |ps| == |params|
  {
    if params == [] then []
    else
      assert !ParamDangles(params[0]);
      DecodeFailsExactly(NameText(params[0]), true);
      DecodeFailsExactly(ValueText(params[0]), true);
      [(Decode(NameText(params[0]), true).value, Decode(ValueText(params[0]), true).value)] + DecodedPairs(params[1..])
  }

  function FullPairs(params: seq<string>): (ps: seq<(string, string)>)
    requires forall i :: 0 <= i < |params| ==> !ParamDangles(params[i])
    ensures |ps| == |params|
  {
    if params == [] then []
    else
      assert !ParamDangles(params[0]);
      DecodeIsFullExactly(NameText(params[0]));
      DecodeIsFullExactly(ValueText(params[0]));
      [(FullDecode(NameText(params[0])).value, FullDecode(ValueText(params[0])).value)] + FullPairs(params[1..])
  }

  predicate NoLatePlus(param: string)
  {
    Lacks(LastText(NameText(param)), '+') && Lacks(LastText(ValueText(param)), '+')
  }

  lemma {:induction false} FoldIsPairs(params: seq<string>, q: map<string, string>)
    requires forall i :: 0 <= i < |params| ==> !ParamDangles(params[i])
    ensures FoldParams(params, true, q) == Some(PairMap(DecodedPairs(params), q))
    decreases |params|
  {
    hide Decode, Dangles;
    if params != [] {
      var x := params[0];
      DecodeFailsExactly(NameText(x), true);
      DecodeFailsExactly(ValueText(x), true);
      assert Decode("", true) == Some("") by { EmptyDecodes(); }
      var p := (Decode(NameText(x), true).value, Decode(ValueText(x), true).value);
      assert DecodeParam(x, true) == Some(p);
      FoldIsPairs(params[1..], q[p.0 := p.1]);
      assert ([p] + DecodedPairs(params[1..]))[1..] == DecodedPairs(params[1..]);
    }
  }

  lemma EmptyDecodes()
    ensures Decode("", true) == Some("")
  {
  }

  lemma {:induction false} PairsAreFullExactly(params: seq<string>)
    requires forall i :: 0 <= i < |params| ==> !ParamDangles(params[i])
    ensures DecodedPairs(params) == FullPairs(params) <==> forall i :: 0 <= i < |params| ==> NoLatePlus(params[i])
    decreases |params|
  {
    hide Decode, FullDecode, LastText, Lacks, Dangles;
    if params != [] {
      assert !ParamDangles(params[0]);
      DecodeIsFullExactly(NameText(params[0]));
      DecodeIsFullExactly(ValueText(params[0]));
      PairsAreFullExactly(params[1..]);
      var a, b := DecodedPairs(params), FullPairs(params);
      assert a == [a[0]] + DecodedPairs(params[1..]) && b == [b[0]] + FullPairs(params[1..]);
      assert a[1..] == DecodedPairs(params[1..]) && b[1..] == FullPairs(params[1..]);
      assert forall i :: 0 < i < |params| ==> params[i] == params[1..][i - 1];
      assert forall i :: 0 <= i < |params[1..]| ==> params[1..][i] == params[i + 1];
    }
  }

  /** A form-encoded query is read pair by pair as its media type means it if and only if no name
      and no value has a '+' after its last triplet. */
  lemma QueryPlusExactly(query: string)
    requires forall i :: 0 <= i < |Params(query, '&')| ==> !ParamDangles(Params(query, '&')[i])
    ensures var params := Params(query, '&');
            && ParseQuery(query, true) == Some(PairMap(DecodedPairs(params), map[]))
            && (DecodedPairs(params) == FullPairs(params) <==> forall i :: 0 <= i < |params| ==> NoLatePlus(params[i]))
  {
    hide Params, Decode, FullDecode;
    FoldIsPairs(Params(query, '&'), map[]);
    PairsAreFullExactly(Params(query, '&'));
  }

  lemma {:induction false} PairsAt(params: seq<string>, i: nat)
    requires i < |params| && forall j :: 0 <= j < |params| ==> !ParamDangles(params[j])
    ensures Decode(NameText(params[i]), true) == Some(DecodedPairs(params)[i].0)
    ensures Decode(ValueText(params[i]), true) == Some(DecodedPairs(params)[i].1)
    ensures FullDecode(NameText(params[i])) == Some(FullPairs(params)[i].0)
    ensures FullDecode(ValueText(params[i])) == Some(FullPairs(params)[i].1)
  {
    hide Decode, FullDecode, Dangles, LastText, NameText, ValueText;
    assert !ParamDangles(params[0]);
    DecodeFailsExactly(NameText(params[0]), true);
    DecodeFailsExactly(ValueText(params[0]), true);
    DecodeIsFullExactly(NameText(params[0]));
    DecodeIsFullExactly(ValueText(params[0]));
    if i > 0 {
      PairsAt(params[1..], i - 1);
    }
  }

  /** The same for the map, when no name has such a '+': exactly the values that stay in the map
      decide. */
  lemma QueryMapExactly(query: string)
    requires forall i :: 0 <= i < |Params(query, '&')| ==> !ParamDangles(Params(query, '&')[i])
    requires forall i :: 0 <= i < |Params(query, '&')| ==> Lacks(LastText(NameText(Params(query, '&')[i])), '+')
    ensures var params := Params(query, '&');
            ParseQuery(query, true) == Some(PairMap(FullPairs(params), map[])) <==>
            forall i :: 0 <= i < |params| && LastOfName(FullPairs(params), i) ==>
              Lacks(LastText(ValueText(params[i])), '+')
  {
    hide Params, Decode, FullDecode, LastText, Lacks, Dangles, ParamDangles, NameText, ValueText;
    var params := Params(query, '&');
    QueryPlusExactly(query);
    var a, b := DecodedPairs(params), FullPairs(params);
    forall i | 0 <= i < |params|
      ensures a[i].0 == b[i].0 && (a[i].1 == b[i].1 <==> Lacks(LastText(ValueText(params[i])), '+'))
    {
      PairsAt(params, i);
      WholeParam(params[i]);
    }
    SameMapExactly(a, b);
    assert forall i :: 0 <= i < |params| ==> (LastOfName(a, i) <==> LastOfName(b, i));
  }

  lemma WholeParam(param: string)
    requires !ParamDangles(param)
    ensures Decode(NameText(param), true) == FullDecode(NameText(param)) <==> Lacks(LastText(NameText(param)), '+')
    ensures Decode(ValueText(param), true) == FullDecode(ValueText(param)) <==> Lacks(LastText(ValueText(param)), '+')
  {
    DecodeIsFullExactly(NameText(param));
    DecodeIsFullExactly(ValueText(param));
  }

  // ------------------------------------------------------------ what a browser sends

  /** Text as the form media type serializes it: a space becomes '+', and every other byte a triplet
      that is not a letter, a digit, '*', '-', '.' or '_'. */
  function FormEncode(s: string): string
  {
    if s == "" then "" else FormByte(s[0]) + FormEncode(s[1..])
  }

  predicate Kept(c: char) { IsAlnum(c) || c == '*' || c == '-' || c == '.' || c == '_' }

  function FormByte(c: char): string { if c == ' ' then "+" else if Kept(c) then [c] else Escape(c) }

  predicate Plain(c: char) { c == ' ' || Kept(c) }

  predicate AllPlain(s: string) { s == "" || (Plain(s[0]) && AllPlain(s[1..])) }

  /** A space with no byte after it that is sent as a triplet. */
  predicate LateSpace(s: string)
  {
    s != "" && ((s[0] == ' ' && AllPlain(s[1..])) || LateSpace(s[1..]))
  }

  lemma FullUnfolds(s: string, p: nat, tail: string)
    requires p == Find('%', s) && p + 2 < |s| && tail == s[p + 3..]
    ensures FullDecode(s) == if FullDecode(tail).None? then None
                             else Some(TripletText(s, p, true) + FullDecode(tail).value)
    ensures LastText(s) == LastText(tail)
  {
  }

  lemma FindGrows(c: char, t: string)
    requires c != '%'
    ensures Find('%', [c] + t) == Find('%', t) + 1
  {
    assert ([c] + t)[1..] == t;
  }

  lemma FullEnds(s: string)
    ensures Find('%', s) == |s| ==> FullDecode(s) == Some(PlusToSpace(s, true)) && LastText(s) == s
    ensures FullDecode(s).Some? && Find('%', s) < |s| ==> Find('%', s) + 2 < |s|
  {
  }

  lemma FullPlain(c: char, t: string)
    requires c != '%' && FullDecode(t).Some?
    ensures FullDecode([c] + t) == Some(PlusToSpace([c], true) + FullDecode(t).value)
    ensures LastText([c] + t) == if Find('%', t) == |t| then [c] + t else LastText(t)
  {
    hide FullDecode, LastText, TripletText, PlusToSpace, Find;
    FindGrows(c, t);
    FullEnds(t);
    if Find('%', t) == |t| {
      FullEnds([c] + t);
      PlusConcat([c], t, true);
    } else {
      PlainInFront(c, t, Find('%', t));
    }
  }

  lemma PlainInFront(c: char, t: string, p: nat)
    requires FullDecode(t).Some? && p == Find('%', t) && p + 2 < |t| && p + 1 == Find('%', [c] + t)
    ensures FullDecode([c] + t) == Some(PlusToSpace([c], true) + FullDecode(t).value)
    ensures LastText([c] + t) == LastText(t)
  {
    hide FullDecode, LastText, TripletText, PlusToSpace, Find;
    var tail := t[p + 3..];
    SameTail(c, t, p + 3);
    FullUnfolds(t, p, tail);
    FullUnfolds([c] + t, p + 1, tail);
    TripletGrows(c, t, p);
    Assoc(PlusToSpace([c], true), TripletText(t, p, true), FullDecode(tail).value);
  }

  lemma SameTail(c: char, t: string, k: nat)
    requires k <= |t|
    ensures ([c] + t)[k + 1..] == t[k..] && |[c] + t| == |t| + 1
  {
  }

  lemma TripletGrows(c: char, t: string, p: nat)
    requires p + 2 < |t|
    ensures TripletText([c] + t, p + 1, true) == PlusToSpace([c], true) + TripletText(t, p, true)
  {
    var s := [c] + t;
    assert s[..p + 1] == [c] + t[..p] && s[..p + 4] == [c] + t[..p + 3];
    PlusConcat([c], t[..p], true);
    PlusConcat([c], t[..p + 3], true);
  }

  lemma FullEscape(c: char, t: string)
    requires c as int < 256 && FullDecode(t).Some?
    ensures FullDecode(Escape(c) + t) == Some([c] + FullDecode(t).value) && LastText(Escape(c) + t) == LastText(t)
    ensures Find('%', Escape(c) + t) == 0
  {
    var s := Escape(c) + t;
    assert s[..0] == "" && s[3..] == t;
    assert IsTriplet(s, 0) && TripletByte(s, 0) == c;
    assert "" + [c] == [c];
  }

  lemma FullFailsExactly(s: string)
    ensures FullDecode(s).None? <==> Dangles(s)
    decreases |s|
  {
    var p := Find('%', s);
    if p + 2 < |s| {
      FullFailsExactly(s[p + 3..]);
    }
  }

  lemma {:induction false} FormText(s: string)
    requires IsBytes(s)
    ensures FullDecode(FormEncode(s)) == Some(s)
    ensures Find('%', FormEncode(s)) == |FormEncode(s)| <==> AllPlain(s)
    ensures Lacks(LastText(FormEncode(s)), '+') <==> !LateSpace(s)
  {
    hide FullDecode, LastText, Find, Lacks, PlusToSpace, Escape, Kept, Plain, FormByte;
    if s == "" {
      EmptyText();
      return;
    }
    var c, e := s[0], FormEncode(s[1..]);
    FormText(s[1..]);
    assert s == [c] + s[1..];
    if Plain(c) {
      PlainByte(c, e);
    } else {
      EscapedByte(c, e);
    }
    FormByteText(c);
  }

  lemma FormByteText(c: char)
    ensures c == ' ' ==> Plain(c)
  {
  }

  lemma EmptyText()
    ensures FullDecode("") == Some("") && Find('%', "") == 0 && Lacks(LastText(""), '+')
  {
  }

  /** One byte that is sent as one byte. */
  lemma PlainByte(c: char, e: string)
    requires Plain(c) && FullDecode(e).Some?
    ensures FullDecode(FormByte(c) + e) == Some([c] + FullDecode(e).value)
    ensures Find('%', FormByte(c) + e) == |FormByte(c) + e| <==> Find('%', e) == |e|
    ensures Lacks(LastText(FormByte(c) + e), '+') <==> Lacks(LastText(e), '+') && (Find('%', e) == |e| ==> c != ' ')
  {
    hide FullDecode;
    var d := FormByte(c)[0];
    FullPlain(d, e);
    assert FormByte(c) == [d] && PlusToSpace([d], true) == [c];
    FindFirst('%', e);
    FindIs('%', [d] + e, 1 + Find('%', e));
    LacksCons(d, e);
  }

  /** One byte that is sent as a triplet. */
  lemma EscapedByte(c: char, e: string)
    requires !Plain(c) && c as int < 256 && FullDecode(e).Some?
    ensures FullDecode(FormByte(c) + e) == Some([c] + FullDecode(e).value)
    ensures Find('%', FormByte(c) + e) == 0 < |FormByte(c) + e|
    ensures LastText(FormByte(c) + e) == LastText(e)
  {
    FullEscape(c, e);
  }

  lemma LacksCons(c: char, t: string)
    ensures Lacks([c] + t, '+') <==> c != '+' && Lacks(t, '+')
  {
    assert forall k :: 0 <= k < |t| ==> t[k] == ([c] + t)[k + 1];
    assert ([c] + t)[0] == c;
  }

  /** A text that a form sends arrives unchanged if and only if every space in it is followed by a
      byte that is sent as a triplet. */
  lemma FormFieldExactly(s: string)
    requires IsBytes(s)
    ensures Decode(FormEncode(s), true) == Some(s) <==> !LateSpace(s)
  {
    FormText(s);
    FullFailsExactly(FormEncode(s));
    DecodeIsFullExactly(FormEncode(s));
  }
}
