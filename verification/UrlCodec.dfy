/** Percent-encoding (section 2.1 of RFC 3986), query strings and header options, as functions. */
module UrlCodec {
  import opened Wrappers
  import opened Numbers

  predicate IsAlnum(c: char) { IsDigit(c) || 'a' <= c <= 'z' || 'A' <= c <= 'Z' }

  predicate Unreserved(c: char) { IsAlnum(c) || c == '-' || c == '_' || c == '.' || c == '~' }

  /** Every char of a std::string is one byte. */
  predicate IsBytes(s: string) { forall k :: 0 <= k < |s| ==> s[k] as int < 256 }

  function ToByte(v: nat): char
    requires v < 256
  {
    v as char
  }

  /** Index of the first `c` in `s`, or |s|: std::string::find with npos as the length. */
  function Find(c: char, s: string): (p: nat)
    ensures p <= |s|
  {
    if s == "" || s[0] == c then 0 else 1 + Find(c, s[1..])
  }

  lemma {:induction false} FindFirst(c: char, s: string)
    ensures var p := Find(c, s);
            (p < |s| ==> s[p] == c) && (forall k :: 0 <= k < p ==> s[k] != c)
  {
    if s != "" && s[0] != c {
      FindFirst(c, s[1..]);
      assert forall k :: 0 < k < |s| ==> s[k] == s[1..][k - 1];
    }
  }

  lemma {:induction false} FindIs(c: char, s: string, p: nat)
    requires p <= |s| && (p < |s| ==> s[p] == c) && (forall k :: 0 <= k < p ==> s[k] != c)
    ensures Find(c, s) == p
  {
    if p > 0 {
      FindIs(c, s[1..], p - 1);
    }
  }

  // ------------------------------------------------------------ encoding and decoding

  function Escape(c: char): string {
    ['%', UpperHexDigit(c as int % 256 / 16), UpperHexDigit(c as int % 16)]
  }

  function Encode(s: string): string {
    if s == "" then ""
    else (if Unreserved(s[0]) then [s[0]] else Escape(s[0])) + Encode(s[1..])
  }

  /** The conversion of '+' in form-encoded text. */
  function PlusToSpace(s: string, form: bool): (r: string)
    ensures |r| == |s|
  {
    if s == "" then "" else [if form && s[0] == '+' then ' ' else s[0]] + PlusToSpace(s[1..], form)
  }

  predicate IsTriplet(s: string, p: nat) {
    p + 2 < |s| && s[p] == '%' && IsHexDigit(s[p + 1]) && IsHexDigit(s[p + 2])
  }

  function TripletByte(s: string, p: nat): char
    requires IsTriplet(s, p)
  {
    ToByte(16 * HexValue(s[p + 1]) + HexValue(s[p + 2]))
  }

  /** What the first triplet of `s`, at `p`, adds to the output together with the text before it. */
  function TripletText(s: string, p: nat, form: bool): string
    requires p + 2 < |s|
  {
    if IsTriplet(s, p) then PlusToSpace(s[..p], form) + [TripletByte(s, p)] else PlusToSpace(s[..p + 3], form)
  }

  /** Triplet decoding, left to right: '+' is converted up to the last '%' only, an invalid
      triplet is copied. None: a '%' with fewer than two bytes after it is reached. */
  function Decode(s: string, form: bool): Option<string>
    decreases |s|
  {
    var p := Find('%', s);
    if p == |s| then Some(s)
    else if p + 2 >= |s| then None
    else
      var tail := Decode(s[p + 3..], form);
      if tail.None? then None else Some(TripletText(s, p, form) + tail.value)
  }

  /** Decoding never makes the text longer. */
  lemma {:induction false} DecodeShrinks(s: string, form: bool)
    requires Decode(s, form).Some?
    ensures |Decode(s, form).value| <= |s|
    decreases |s|
  {
    hide Find, PlusToSpace;
    var p := Find('%', s);
    if p < |s| {
      DecodeShrinks(s[p + 3..], form);
    }
  }

  // ------------------------------------------------------------ the loop, and when it ends

  datatype LoopState = LoopState(start: nat, out: string)

  predicate Continues(s: string, st: LoopState) {
    st.start <= |s| && Find('%', s[st.start..]) < |s| - st.start
  }

  /** One turn of the decoding loop. With fewer than two bytes after the '%' nothing changes. */
  function Turn(s: string, form: bool, st: LoopState): LoopState
    requires Continues(s, st)
  {
    var rest := s[st.start..];
    var p := Find('%', rest);
    if p + 2 < |rest| then LoopState(st.start + p + 3, st.out + TripletText(rest, p, form)) else st
  }

  /** The state after at most `n` turns. */
  function Turns(s: string, form: bool, st: LoopState, n: nat): LoopState
    decreases n
  {
    if n == 0 || !Continues(s, st) then st else Turns(s, form, Turn(s, form, st), n - 1)
  }

  /** A caller can test this before the call: scanning triplets from the left, some '%' has fewer
      than two bytes after it. */
  predicate Dangles(s: string)
    decreases |s|
  {
    var p := Find('%', s);
    p < |s| && (p + 2 >= |s| || Dangles(s[p + 3..]))
  }

  lemma {:induction false} DecodeFailsExactly(s: string, form: bool)
    ensures Decode(s, form).None? <==> Dangles(s)
    decreases |s|
  {
    var p := Find('%', s);
    if p + 2 < |s| {
      DecodeFailsExactly(s[p + 3..], form);
    }
  }

  /** A lone '%' already keeps the loop from ending. */
  lemma DanglesWitness()
    ensures Dangles("%") && Decode("%", true).None? && Decode("%", false).None?
  {
  }

  lemma DecodeUnfolds(s: string, form: bool, tail: string)
    requires var p := Find('%', s); p + 2 < |s| && tail == s[p + 3..]
    ensures Decode(s, form) == if Decode(tail, form).None? then None
                               else Some(TripletText(s, Find('%', s), form) + Decode(tail, form).value)
  {
    hide TripletText, Find;
  }

  /** A turn moves on by one triplet and keeps the text still to come. */
  lemma TurnDecodes(s: string, form: bool, st: LoopState)
    requires Continues(s, st) && !Dangles(s[st.start..])
    ensures var st' := Turn(s, form, st);
            st.start < st'.start <= |s| && !Dangles(s[st'.start..])
    ensures Decode(s[st.start..], form).Some? && Decode(s[Turn(s, form, st).start..], form).Some?
    ensures var st' := Turn(s, form, st);
            st'.out + Decode(s[st'.start..], form).value == st.out + Decode(s[st.start..], form).value
  {
    hide TripletText, Decode, IsTriplet, PlusToSpace;
    var rest, st' := s[st.start..], Turn(s, form, st);
    var p := Find('%', rest);
    assert s[st'.start..] == rest[p + 3..];
    DecodeFailsExactly(rest, form);
    DecodeUnfolds(rest, form, s[st'.start..]);
    Assoc(st.out, TripletText(rest, p, form), Decode(s[st'.start..], form).value);
  }

  /** From this state the loop still produces the decoded text. */
  ghost predicate OnTrack(s: string, form: bool, st: LoopState) {
    && st.start <= |s|
    && (Decode(s[st.start..], form).Some? <==> Decode(s, form).Some?)
    && (Decode(s, form).Some? ==> st.out + Decode(s[st.start..], form).value == Decode(s, form).value)
  }

  lemma StartsOnTrack(s: string, form: bool)
    ensures OnTrack(s, form, LoopState(0, ""))
  {
    assert s[0..] == s;
    if Decode(s, form).Some? {
      assert "" + Decode(s, form).value == Decode(s, form).value;
    }
  }

  lemma TurnOnTrack(s: string, form: bool, st: LoopState)
    requires OnTrack(s, form, st) && Continues(s, st)
    ensures OnTrack(s, form, Turn(s, form, st))
  {
    hide TripletText, Decode, IsTriplet, PlusToSpace;
    var rest, st' := s[st.start..], Turn(s, form, st);
    var p := Find('%', rest);
    if p + 2 < |rest| {
      assert s[st'.start..] == rest[p + 3..];
      DecodeUnfolds(rest, form, s[st'.start..]);
      if Decode(s, form).Some? {
        Assoc(st.out, TripletText(rest, p, form), Decode(s[st'.start..], form).value);
      }
    }
  }

  lemma StuckIsDangling(s: string, form: bool, st: LoopState)
    requires OnTrack(s, form, st) && Continues(s, st) && Turn(s, form, st) == st
    ensures Decode(s, form).None?
  {
  }

  lemma DecodeRest(s: string, form: bool)
    requires Find('%', s) == |s|
    ensures Decode(s, form) == Some(s)
  {
  }

  lemma {:induction false} TurnsEnd(s: string, form: bool, st: LoopState, n: nat)
    requires st.start <= |s| && !Dangles(s[st.start..]) && n >= |s| - st.start
    ensures !Continues(s, Turns(s, form, st, n)) && Turns(s, form, st, n).start <= |s|
    ensures Decode(s[st.start..], form).Some?
    ensures var last := Turns(s, form, st, n);
            last.out + s[last.start..] == st.out + Decode(s[st.start..], form).value
    decreases n
  {
    hide Decode, Turn, Dangles, Find;
    if !Continues(s, st) {
      DecodeRest(s[st.start..], form);
    } else if n > 0 {
      TurnDecodes(s, form, st);
      assert Turns(s, form, st, n) == Turns(s, form, Turn(s, form, st), n - 1);
      TurnsEnd(s, form, Turn(s, form, st), n - 1);
    }
  }

  lemma {:induction false} TurnsStuck(s: string, form: bool, st: LoopState, n: nat)
    requires st.start <= |s| && Dangles(s[st.start..])
    ensures Continues(s, Turns(s, form, st, n))
    decreases n
  {
    if n > 0 {
      var rest := s[st.start..];
      var p := Find('%', rest);
      var st' := Turn(s, form, st);
      if p + 2 < |rest| {
        assert rest[p + 3..] == s[st'.start..];
      }
      TurnsStuck(s, form, st', n - 1);
    }
  }

  /** The loop ends if and only if no '%' dangles, and then it has computed `Decode`. */
  lemma LoopEndsExactly(s: string, form: bool)
    ensures (exists n: nat :: !Continues(s, Turns(s, form, LoopState(0, ""), n))) <==> !Dangles(s)
    ensures !Dangles(s) ==>
              var last := Turns(s, form, LoopState(0, ""), |s|);
              last.start <= |s| && Decode(s, form) == Some(last.out + s[last.start..])
  {
    assert s[0..] == s;
    if Dangles(s) {
      forall n: nat ensures Continues(s, Turns(s, form, LoopState(0, ""), n)) {
        TurnsStuck(s, form, LoopState(0, ""), n);
      }
    } else {
      TurnsEnd(s, form, LoopState(0, ""), |s|);
      assert !Continues(s, Turns(s, form, LoopState(0, ""), |s|));
      var d := Decode(s, form).value;
      assert "" + d == d;
    }
  }

  /** In particular it ends when no '%' stands in one of the last two positions. */
  lemma {:induction false} NoLatePercent(s: string)
    requires forall k :: 0 <= k < |s| && k + 2 >= |s| ==> s[k] != '%'
    ensures !Dangles(s)
    decreases |s|
  {
    FindFirst('%', s);
    var p := Find('%', s);
    if p + 2 < |s| {
      var rest := s[p + 3..];
      assert forall k :: 0 <= k < |rest| ==> rest[k] == s[p + 3 + k];
      NoLatePercent(rest);
    }
  }

  // ------------------------------------------------------------ round trip

  lemma TripletTextCons(c: char, t: string, p: nat, form: bool)
    requires c != '+' && p + 2 < |t|
    ensures TripletText([c] + t, p + 1, form) == [c] + TripletText(t, p, form)
  {
    var s := [c] + t;
    assert s[..p + 1] == [c] + t[..p] && s[..p + 4] == [c] + t[..p + 3];
    assert PlusToSpace([c], form) == [c];
    PlusConcat([c], t[..p], form);
    PlusConcat([c], t[..p + 3], form);
  }

  lemma DecodePlain(c: char, t: string, form: bool)
    requires c != '%' && c != '+' && Decode(t, form).Some?
    ensures Decode([c] + t, form) == Some([c] + Decode(t, form).value)
  {
    var s := [c] + t;
    var p := Find('%', t);
    FindFirst('%', t);
    FindIs('%', s, p + 1);
    if p < |t| {
      var tail := t[p + 3..];
      assert s[p + 4..] == tail;
      TripletTextCons(c, t, p, form);
      DecodeUnfolds(t, form, tail);
      DecodeUnfolds(s, form, tail);
      Assoc([c], TripletText(t, p, form), Decode(tail, form).value);
    }
  }

  lemma {:induction false} PlusConcat(a: string, b: string, form: bool)
    ensures PlusToSpace(a + b, form) == PlusToSpace(a, form) + PlusToSpace(b, form)
  {
    if a == "" {
      assert a + b == b;
    } else {
      assert (a + b)[1..] == a[1..] + b;
      PlusConcat(a[1..], b, form);
    }
  }

  lemma DecodeEscape(c: char, t: string, form: bool)
    requires c as int < 256 && Decode(t, form).Some?
    ensures Decode(Escape(c) + t, form) == Some([c] + Decode(t, form).value)
  {
    var s := Escape(c) + t;
    hide Decode, Escape, TripletText;
    EscapeText(c, t, form);
    FindIs('%', s, 0);
    DecodeUnfolds(s, form, t);
  }

  lemma EscapeText(c: char, t: string, form: bool)
    requires c as int < 256
    ensures var s := Escape(c) + t; |s| == 3 + |t| && s[0] == '%' && s[3..] == t && TripletText(s, 0, form) == [c]
  {
    var s := Escape(c) + t;
    assert s[..0] == "" && s[3..] == t;
    assert IsTriplet(s, 0) && TripletByte(s, 0) == c;
    assert "" + [c] == [c];
  }

  /** Decoding inverts encoding for every byte string, whether or not '+' is converted. */
  lemma {:induction false} DecodeInvertsEncode(s: string, form: bool)
    requires IsBytes(s)
    ensures Decode(Encode(s), form) == Some(s)
  {
    if s != "" {
      DecodeInvertsEncode(s[1..], form);
      if Unreserved(s[0]) {
        DecodePlain(s[0], Encode(s[1..]), form);
      } else {
        DecodeEscape(s[0], Encode(s[1..]), form);
      }
      assert s == [s[0]] + s[1..];
    }
  }

  predicate Lacks(s: string, c: char) { forall k :: 0 <= k < |s| ==> s[k] != c }

  lemma {:induction false} EncodeLacks(s: string, c: char)
    requires !Unreserved(c) && c != '%'
    ensures Lacks(Encode(s), c)
  {
    if s != "" {
      EncodeLacks(s[1..], c);
      var v := UpperHexDigit(s[0] as int % 256 / 16);
      var w := UpperHexDigit(s[0] as int % 16);
      assert Unreserved(v) && Unreserved(w);
    }
  }

  // ------------------------------------------------------------ splitting and query strings

  /** The pieces of `s` between separators. */
  function Pieces(s: string, sep: char): (ps: seq<string>)
    ensures ps != []
    decreases |s|
  {
    var p := Find(sep, s);
    if p == |s| then [s] else [s[..p]] + Pieces(s[p + 1..], sep)
  }

  function DropEmptyLast(ps: seq<string>): seq<string>
    requires ps != []
  {
    if ps[|ps| - 1] == "" then ps[..|ps| - 1] else ps
  }

  /** The parameter list: a separator that is the first char is skipped, an empty rest dropped. */
  function Params(s: string, sep: char): seq<string> {
    var ps := Pieces(s, sep);
    DropEmptyLast(if ps[0] == "" && |ps| > 1 then ps[1..] else ps)
  }

  /** One `name=value` parameter, decoded. */
  function DecodeParam(param: string, form: bool): Option<(string, string)> {
    var p := Find('=', param);
    var name := Decode(param[..p], form);
    var value := if p < |param| then Decode(param[p + 1..], form) else Some("");
    if name.Some? && value.Some? then Some((name.value, value.value)) else None
  }

  /** The map after the parameters, in order; None if decoding one of them never returns. */
  function FoldParams(params: seq<string>, form: bool, q: map<string, string>): Option<map<string, string>> {
    if params == [] then Some(q)
    else
      match DecodeParam(params[0], form)
      case None => None
      case Some((name, value)) => FoldParams(params[1..], form, q[name := value])
  }

  /** `parse_query_string`. */
  function ParseQuery(query: string, form: bool): Option<map<string, string>> {
    FoldParams(Params(query, '&'), form, map[])
  }

  // ------------------------------------------------------------ printing a query and reading it back

  function EncodePair(p: (string, string)): string { Encode(p.0) + "=" + Encode(p.1) }

  /** `name=value` pairs joined by '&'. */
  function Query(ps: seq<(string, string)>): string {
    if ps == [] then "" else if |ps| == 1 then EncodePair(ps[0]) else EncodePair(ps[0]) + "&" + Query(ps[1..])
  }

  function PairMap(ps: seq<(string, string)>, q: map<string, string>): map<string, string> {
    if ps == [] then q else PairMap(ps[1..], q[ps[0].0 := ps[0].1])
  }

  predicate BytePairs(ps: seq<(string, string)>) {
    forall i :: 0 <= i < |ps| ==> IsBytes(ps[i].0) && IsBytes(ps[i].1)
  }

  lemma PiecesOfFirst(a: string, rest: string, sep: char)
    requires Lacks(a, sep)
    ensures Pieces(a, sep) == [a]
    ensures Pieces(a + [sep] + rest, sep) == [a] + Pieces(rest, sep)
  {
    FindIs(sep, a, |a|);
    var s := a + [sep] + rest;
    FindIs(sep, s, |a|);
    assert s[..|a|] == a && s[|a| + 1..] == rest;
  }

  lemma EncodedPair(p: (string, string), form: bool)
    requires IsBytes(p.0) && IsBytes(p.1)
    ensures Lacks(EncodePair(p), '&') && EncodePair(p) != ""
    ensures DecodeParam(EncodePair(p), form) == Some(p)
  {
    hide Encode, Decode, Find;
    var s := EncodePair(p);
    EncodeLacks(p.0, '&');
    EncodeLacks(p.1, '&');
    EncodeLacks(p.0, '=');
    FindIs('=', s, |Encode(p.0)|);
    assert s[..|Encode(p.0)|] == Encode(p.0) && s[|Encode(p.0)| + 1..] == Encode(p.1);
    DecodeInvertsEncode(p.0, form);
    DecodeInvertsEncode(p.1, form);
  }

  function EncodedPairs(ps: seq<(string, string)>): (es: seq<string>)
    ensures |es| == |ps|
  {
    if ps == [] then [] else [EncodePair(ps[0])] + EncodedPairs(ps[1..])
  }

  lemma {:induction false} PiecesOfQuery(ps: seq<(string, string)>)
    requires BytePairs(ps) && ps != []
    ensures Pieces(Query(ps), '&') == EncodedPairs(ps)
    ensures forall i :: 0 <= i < |ps| ==> EncodedPairs(ps)[i] != ""
  {
    EncodedPair(ps[0], false);
    PiecesOfFirst(EncodePair(ps[0]), Query(ps[1..]), '&');
    if |ps| > 1 {
      PiecesOfQuery(ps[1..]);
    } else {
      assert EncodedPairs(ps) == [EncodePair(ps[0])];
    }
  }

  lemma {:induction false} FoldEncodedPairs(ps: seq<(string, string)>, form: bool, q: map<string, string>)
    requires BytePairs(ps)
    ensures FoldParams(EncodedPairs(ps), form, q) == Some(PairMap(ps, q))
  {
    if ps != [] {
      EncodedPair(ps[0], form);
      assert EncodedPairs(ps)[1..] == EncodedPairs(ps[1..]);
      FoldEncodedPairs(ps[1..], form, q[ps[0].0 := ps[0].1]);
    }
  }

  /** Parsing the printed pairs gives the map they make, later pairs winning. */
  lemma QueryRoundTrip(ps: seq<(string, string)>, form: bool)
    requires BytePairs(ps)
    ensures ParseQuery(Query(ps), form) == Some(PairMap(ps, map[]))
  {
    if ps == [] {
      assert Pieces("", '&') == [""];
    } else {
      PiecesOfQuery(ps);
      FoldEncodedPairs(ps, form, map[]);
    }
  }

  lemma {:induction false} PairMapIs(ps: seq<(string, string)>, q: map<string, string>, m: map<string, string>)
    requires forall i :: 0 <= i < |ps| ==> ps[i].0 in m && m[ps[i].0] == ps[i].1
    requires forall k :: k in q ==> k in m && m[k] == q[k]
    requires forall k :: k in m ==> k in q || exists i :: 0 <= i < |ps| && ps[i].0 == k
    ensures PairMap(ps, q) == m
  {
    if ps != [] {
      var q' := q[ps[0].0 := ps[0].1];
      forall k | k in m ensures k in q' || exists i :: 0 <= i < |ps[1..]| && ps[1..][i].0 == k {
        if k !in q' {
          var i :| 0 <= i < |ps| && ps[i].0 == k;
          assert ps[1..][i - 1].0 == k;
        }
      }
      PairMapIs(ps[1..], q', m);
    }
  }

  /** Every finite map is recovered from its encoded pairs, in whatever order they are listed. */
  lemma MapRecovered(m: map<string, string>, ps: seq<(string, string)>, form: bool)
    requires BytePairs(ps)
    requires forall i :: 0 <= i < |ps| ==> ps[i].0 in m && m[ps[i].0] == ps[i].1
    requires forall k :: k in m ==> exists i :: 0 <= i < |ps| && ps[i].0 == k
    ensures ParseQuery(Query(ps), form) == Some(m)
  {
    QueryRoundTrip(ps, form);
    PairMapIs(ps, map[], m);
  }

  // ------------------------------------------------------------ maps of pairs

  predicate LastOfName(ps: seq<(string, string)>, i: nat)
    requires i < |ps|
  {
    forall j :: i < j < |ps| ==> ps[j].0 != ps[i].0
  }

  lemma {:induction false} NotNamed(ps: seq<(string, string)>, q: map<string, string>, k: string)
    requires forall i :: 0 <= i < |ps| ==> ps[i].0 != k
    ensures (k in PairMap(ps, q) <==> k in q) && (k in q ==> PairMap(ps, q)[k] == q[k])
    decreases |ps|
  {
    if ps != [] {
      NotNamed(ps[1..], q[ps[0].0 := ps[0].1], k);
    }
  }

  lemma {:induction false} LastDecides(ps: seq<(string, string)>, q: map<string, string>, i: nat)
    requires i < |ps| && LastOfName(ps, i)
    ensures ps[i].0 in PairMap(ps, q) && PairMap(ps, q)[ps[i].0] == ps[i].1
    decreases |ps|
  {
    var q' := q[ps[0].0 := ps[0].1];
    if i == 0 {
      NotNamed(ps[1..], q', ps[0].0);
    } else {
      LastDecides(ps[1..], q', i - 1);
    }
  }

  lemma {:induction false} LastExists(ps: seq<(string, string)>, k: string) returns (i: nat)
    requires exists j :: 0 <= j < |ps| && ps[j].0 == k
    ensures i < |ps| && ps[i].0 == k && LastOfName(ps, i)
    decreases |ps|
  {
    var rest := ps[1..];
    if exists j :: 0 <= j < |rest| && rest[j].0 == k {
      var m := LastExists(rest, k);
      i := m + 1;
      assert forall j :: i < j < |ps| ==> ps[j] == rest[j - 1];
    } else {
      i := 0;
      forall j | 0 < j < |ps| ensures ps[j].0 != k {
        assert rest[j - 1] == ps[j];
      }
    }
  }

  /** Two lists with the same names make the same map exactly when they agree wherever a name
      occurs last. */
  lemma SameMapExactly(ps: seq<(string, string)>, qs: seq<(string, string)>)
    requires |ps| == |qs| && forall i :: 0 <= i < |ps| ==> ps[i].0 == qs[i].0
    ensures PairMap(ps, map[]) == PairMap(qs, map[]) <==>
            forall i :: 0 <= i < |ps| && LastOfName(ps, i) ==> ps[i].1 == qs[i].1
  {
    var a, b := PairMap(ps, map[]), PairMap(qs, map[]);
    forall i | 0 <= i < |ps| && LastOfName(ps, i)
      ensures ps[i].0 in a && a[ps[i].0] == ps[i].1 && ps[i].0 in b && b[ps[i].0] == qs[i].1
    {
      LastDecides(ps, map[], i);
      LastDecides(qs, map[], i);
    }
    if forall i :: 0 <= i < |ps| && LastOfName(ps, i) ==> ps[i].1 == qs[i].1 {
      forall k: string ensures (k in a <==> k in b) && (k in a ==> a[k] == b[k]) {
        if exists j :: 0 <= j < |ps| && ps[j].0 == k {
          var i := LastExists(ps, k);
        } else {
          NotNamed(ps, map[], k);
          NotNamed(qs, map[], k);
        }
      }
    }
  }
}
