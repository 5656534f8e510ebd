/** Routes of Lua handlers as configuration text: lib/LuaServer.cpp prints and parses one route,
    lib/ConfValue.h stores a list of them, lib/Global.h splits the text. */
module Routes {
  import opened Wrappers
  import opened UrlCodec
  import opened HeaderText
  import opened Letters
  import opened HttpHelpers

  datatype HttpMethod = OPTIONS | GET | HEAD | POST | PUT | DELETE | TRACE | CONNECT | OTHER

  datatype RouteInfo = RouteInfo(verb: HttpMethod, route: string, script: string)

  /** `method_as_string`: the map has no entry for TRACE, and the lookup throws. */
  function VerbText(verb: HttpMethod): Option<string>
  {
    match verb
    case OPTIONS => Some("OPTIONS")
    case GET => Some("GET")
    case HEAD => Some("HEAD")
    case POST => Some("POST")
    case PUT => Some("PUT")
    case DELETE => Some("DELETE")
    case TRACE => None
    case CONNECT => Some("CONNECT")
    case OTHER => Some("OTHER")
  }

  /** The verb that the constructor recognises, in any case of letters. */
  function VerbOf(text: string): Option<HttpMethod> { KnownVerb(Upper(text)) }

  function KnownVerb(t: string): Option<HttpMethod>
  {
    if t == "GET" then Some(GET)
    else if t == "PUT" then Some(PUT)
    else if t == "POST" then Some(POST)
    else if t == "DELETE" then Some(DELETE)
    else if t == "OPTIONS" then Some(OPTIONS)
    else if t == "CONNECT" then Some(CONNECT)
    else if t == "HEAD" then Some(HEAD)
    else if t == "OTHER" then Some(OTHER)
    else None
  }

  /** `split`: getline never yields an empty last piece. */
  function Split(s: string, delim: char): seq<string> { DropEmptyLast(Pieces(s, delim)) }

  const NONE := RouteInfo(OTHER, "", "")

  /** The constructor: text with fewer than three pieces or an unknown verb gives the empty route;
      pieces after the third are ignored. */
  function Parse(text: string): RouteInfo { OfPieces(Split(text, ':')) }

  function OfPieces(rinfo: seq<string>): RouteInfo
  {
    if |rinfo| < 3 || VerbOf(rinfo[0]).None? then NONE
    else RouteInfo(VerbOf(rinfo[0]).value, rinfo[1], rinfo[2])
  }

  /** `to_string`. */
  function Print(r: RouteInfo): string
    requires r.verb != TRACE
  {
    VerbText(r.verb).value + ":" + r.route + ":" + r.script
  }

  predicate Printable(rs: seq<RouteInfo>) { forall i :: 0 <= i < |rs| ==> rs[i].verb != TRACE }

  function PrintAll(rs: seq<RouteInfo>): (ts: seq<string>)
    requires Printable(rs)
    ensures |ts| == |rs|
  {
    seq(|rs|, i requires 0 <= i < |rs| => Print(rs[i]))
  }

  function ParseAll(ts: seq<string>): (rs: seq<RouteInfo>)
    ensures |rs| == |ts|
  {
    seq(|ts|, i requires 0 <= i < |ts| => Parse(ts[i]))
  }

  /** `get_luaroutes`: one stored text is taken for a list joined by ';' unless it starts with one,
      since `find` answers "not found" with a number that counts as true. */
  function Texts(stored: seq<string>): seq<string>
  {
    if |stored| == 1 && !(stored[0] != "" && stored[0][0] == ';') then Split(stored[0], ';') else stored
  }

  function ReadBack(stored: seq<string>): seq<RouteInfo> { ParseAll(Texts(stored)) }

  /** Several routes in one text, as an environment variable holds them. */
  function Join(ts: seq<string>): string
  {
    if ts == [] then "" else if |ts| == 1 then ts[0] else ts[0] + ";" + Join(ts[1..])
  }

  // ------------------------------------------------------------ one route

  /** The routes that survive printing and parsing. */
  predicate Storable(r: RouteInfo)
  {
    Lacks(r.route, ':') && Lacks(r.script, ':') && (r.script != "" || r == NONE)
  }

  predicate NoSemicolon(r: RouteInfo) { Lacks(r.route, ';') && Lacks(r.script, ';') }

  lemma {:induction false} UpperFixed(s: string)
    requires forall i :: 0 <= i < |s| ==> 'A' <= s[i] <= 'Z'
    ensures Upper(s) == s
  {
    if s != "" {
      UpperFixed(s[1..]);
      assert s == [s[0]] + s[1..];
    }
  }

  lemma VerbReadBack(verb: HttpMethod)
    requires verb != TRACE
    ensures VerbText(verb).Some?
    ensures var t := VerbText(verb).value;
            VerbOf(t) == Some(verb) && Lacks(t, ':') && Lacks(t, ';') && t != ""
  {
    hide Upper;
    VerbLetters(verb);
    UpperFixed(VerbText(verb).value);
    VerbKnown(verb);
  }

  lemma VerbLetters(verb: HttpMethod)
    requires verb != TRACE
    ensures var t := VerbText(verb).value; t != "" && forall i :: 0 <= i < |t| ==> 'A' <= t[i] <= 'Z'
  {
  }

  lemma VerbKnown(verb: HttpMethod)
    requires verb != TRACE
    ensures KnownVerb(VerbText(verb).value) == Some(verb)
  {
    var t := VerbText(verb).value;
    if |t| == 3 {
      assert t[0] == 'G' || t[0] == 'P';
    } else if |t| == 4 {
      assert t[0] == 'P' || t[0] == 'H';
    } else if |t| == 7 {
      assert t[0] == 'O' || t[0] == 'C';
    }
  }

  /** The verb of every text, in any case of letters: these eight, and none for any other. */
  lemma VerbTable(text: string)
    ensures VerbOf(text) == Some(GET) <==> SameButCase(text, "GET")
    ensures VerbOf(text) == Some(PUT) <==> SameButCase(text, "PUT")
    ensures VerbOf(text) == Some(POST) <==> SameButCase(text, "POST")
    ensures VerbOf(text) == Some(DELETE) <==> SameButCase(text, "DELETE")
    ensures VerbOf(text) == Some(OPTIONS) <==> SameButCase(text, "OPTIONS")
    ensures VerbOf(text) == Some(CONNECT) <==> SameButCase(text, "CONNECT")
    ensures VerbOf(text) == Some(HEAD) <==> SameButCase(text, "HEAD")
    ensures VerbOf(text) == Some(OTHER) <==> SameButCase(text, "OTHER")
    ensures VerbOf(text) != Some(TRACE)
  {
    hide Upper, SameButCase;
    InCapitals("GET", text);
    InCapitals("PUT", text);
    InCapitals("POST", text);
    InCapitals("DELETE", text);
    InCapitals("OPTIONS", text);
    InCapitals("CONNECT", text);
    InCapitals("HEAD", text);
    InCapitals("OTHER", text);
    hide VerbOf;
    VerbChoice(text);
  }

  lemma InCapitals(verb: string, text: string)
    requires forall i :: 0 <= i < |verb| ==> 'A' <= verb[i] <= 'Z'
    ensures Upper(text) == verb <==> SameButCase(text, verb)
  {
    hide Upper, SameButCase;
    UpperFixed(verb);
    CaseInsensitive(text, verb);
  }

  lemma VerbChoice(text: string)
    ensures VerbOf(text) == Some(GET) <==> Upper(text) == "GET"
    ensures VerbOf(text) == Some(PUT) <==> Upper(text) == "PUT"
    ensures VerbOf(text) == Some(POST) <==> Upper(text) == "POST"
    ensures VerbOf(text) == Some(DELETE) <==> Upper(text) == "DELETE"
    ensures VerbOf(text) == Some(OPTIONS) <==> Upper(text) == "OPTIONS"
    ensures VerbOf(text) == Some(CONNECT) <==> Upper(text) == "CONNECT"
    ensures VerbOf(text) == Some(HEAD) <==> Upper(text) == "HEAD"
    ensures VerbOf(text) == Some(OTHER) <==> Upper(text) == "OTHER"
    ensures VerbOf(text) != Some(TRACE)
  {
    hide Upper;
    VerbKnown(GET);
    VerbKnown(PUT);
    VerbKnown(POST);
    VerbKnown(DELETE);
    VerbKnown(OPTIONS);
    VerbKnown(CONNECT);
    VerbKnown(HEAD);
    VerbKnown(OTHER);
  }

  /** And the text of every verb. */
  lemma TextTable()
    ensures VerbText(GET) == Some("GET") && VerbText(PUT) == Some("PUT") && VerbText(POST) == Some("POST")
    ensures VerbText(DELETE) == Some("DELETE") && VerbText(OPTIONS) == Some("OPTIONS")
    ensures VerbText(CONNECT) == Some("CONNECT") && VerbText(HEAD) == Some("HEAD") && VerbText(OTHER) == Some("OTHER")
    ensures VerbText(TRACE) == None
  {
  }

  /** No known verb, or fewer than three pieces: the empty route. */
  lemma NoRoute(text: string)
    ensures |Split(text, ':')| < 3 || VerbOf(Split(text, ':')[0]) == None ==> Parse(text) == RouteInfo(OTHER, "", "")
  {
    hide Split, VerbOf;
  }

  /** A single stored text that begins with a semicolon is taken for one route. */
  lemma LeadingSemicolon(rest: string)
    ensures ReadBack([";" + rest]) == [Parse(";" + rest)]
  {
    hide Parse;
    assert Texts([";" + rest]) == [";" + rest];
  }

  lemma SplitFirst(a: string, rest: string, delim: char)
    requires Lacks(a, delim)
    ensures Split(a, delim) == if a == "" then [] else [a]
    ensures Split(a + [delim] + rest, delim) == [a] + Split(rest, delim)
  {
    PiecesOfFirst(a, rest, delim);
    var ps := Pieces(rest, delim);
    assert ([a] + ps)[..|ps|] == [a] + ps[..|ps| - 1];
  }

  /** Text that has the delimiter, cut at the first. */
  lemma CutAtFirst(s: string, delim: char) returns (a: string, rest: string)
    requires !Lacks(s, delim)
    ensures s == a + [delim] + rest && Lacks(a, delim)
  {
    FindFirst(delim, s);
    var p := Find(delim, s);
    a, rest := s[..p], s[p + 1..];
  }

  lemma SplitPrinted(r: RouteInfo)
    requires r.verb != TRACE
    ensures Split(Print(r), ':') == [VerbText(r.verb).value] + Split(r.route + ":" + r.script, ':')
  {
    var t := VerbText(r.verb).value;
    VerbReadBack(r.verb);
    SplitFirst(t, r.route + ":" + r.script, ':');
    assert t + ":" + r.route + ":" + r.script == t + ":" + (r.route + ":" + r.script);
  }

  /** A route survives exactly when no field has a colon and the script is not empty. */
  lemma ParseInvertsPrint(r: RouteInfo)
    requires r.verb != TRACE
    ensures Parse(Print(r)) == r <==> Storable(r)
  {
    hide Print, Split, VerbOf, VerbText;
    SplitPrinted(r);
    VerbReadBack(r.verb);
    if !Lacks(r.route, ':') {
      var a, b := CutAtFirst(r.route, ':');
      SplitFirst(a, b + ":" + r.script, ':');
      assert a + ":" + b + ":" + r.script == a + ":" + (b + ":" + r.script);
    } else {
      SplitFirst(r.route, r.script, ':');
      if !Lacks(r.script, ':') {
        var a, b := CutAtFirst(r.script, ':');
        SplitFirst(a, b, ':');
      } else {
        SplitFirst(r.script, "", ':');
      }
    }
  }

  /** A colon in the route: what follows it is taken for the script. */
  lemma ColonCuts(verb: HttpMethod, a: string, b: string, script: string)
    requires verb != TRACE && Lacks(a, ':') && Lacks(b, ':')
    ensures Parse(Print(RouteInfo(verb, a + ":" + b, script))) == RouteInfo(verb, a, b)
  {
    hide Split, VerbOf, VerbText, Print;
    var r := RouteInfo(verb, a + ":" + b, script);
    SplitPrinted(r);
    VerbReadBack(verb);
    assert r.route + ":" + script == a + ":" + (b + ":" + script);
    SplitFirst(a, b + ":" + script, ':');
    SplitFirst(b, script, ':');
  }

  lemma ColonWitness()
    ensures Parse(Print(RouteInfo(GET, "/a:b", "s"))) == RouteInfo(GET, "/a", "b")
  {
    ColonCuts(GET, "/a", "b", "s");
    assert "/a:b" == "/a" + ":" + "b";
  }

  // ------------------------------------------------------------ lists of routes

  /** One stored route with a semicolon is read as two texts, and neither is a route. */
  lemma SemicolonWitness()
    ensures ReadBack(PrintAll([RouteInfo(GET, "/a;b", "s")])) == [NONE, NONE]
  {
    hide Split;
    var text := "GET:/a;b:s";
    var r := RouteInfo(GET, "/a;b", "s");
    assert Print(r) == "GET" + ":" + "/a;b" + ":" + "s" == text;
    assert PrintAll([r]) == [text];
    assert text == "GET:/a" + ";" + "b:s" && "GET:/a" == "GET" + ":" + "/a" && "b:s" == "b" + ":" + "s";
    SplitFirst("GET:/a", "b:s", ';');
    SplitFirst("b:s", "", ';');
    SplitFirst("GET", "/a", ':');
    SplitFirst("/a", "", ':');
    SplitFirst("b", "s", ':');
    SplitFirst("s", "", ':');
  }

  lemma {:induction false} PiecesLack(s: string, delim: char, c: char)
    requires Lacks(s, c) || c == delim
    ensures forall i :: 0 <= i < |Pieces(s, delim)| ==> Lacks(Pieces(s, delim)[i], c)
    decreases |s|
  {
    FindFirst(delim, s);
    var p := Find(delim, s);
    if p < |s| {
      PiecesLack(s[p + 1..], delim, c);
    }
  }

  lemma ParseLacksSemicolon(text: string)
    requires Lacks(text, ';')
    ensures NoSemicolon(Parse(text))
  {
    PiecesLack(text, ':', ';');
  }

  lemma SplitLacks(s: string, delim: char)
    ensures forall i :: 0 <= i < |Split(s, delim)| ==> Lacks(Split(s, delim)[i], delim)
  {
    PiecesLack(s, delim, delim);
  }

  lemma {:induction false} SplitJoined(ts: seq<string>)
    requires forall i :: 0 <= i < |ts| ==> ts[i] != "" && Lacks(ts[i], ';')
    ensures Split(Join(ts), ';') == ts
  {
    hide Split;
    if ts == [] {
      SplitFirst("", "", ';');
    } else if |ts| == 1 {
      SplitFirst(ts[0], "", ';');
    } else {
      SplitFirst(ts[0], Join(ts[1..]), ';');
      SplitJoined(ts[1..]);
    }
  }

  lemma PrintedText(r: RouteInfo)
    requires r.verb != TRACE
    ensures Print(r) != "" && Print(r)[0] != ';'
    ensures NoSemicolon(r) ==> Lacks(Print(r), ';')
  {
    hide VerbText, VerbOf;
    VerbReadBack(r.verb);
    assert Print(r)[0] == VerbText(r.verb).value[0];
  }

  /** A list printed into one text joined by ';' is read back exactly when every route is storable
      and no field has a semicolon. */
  lemma JoinedRoundTrip(rs: seq<RouteInfo>)
    requires Printable(rs)
    ensures ReadBack([Join(PrintAll(rs))]) == rs <==>
            forall i :: 0 <= i < |rs| ==> Storable(rs[i]) && NoSemicolon(rs[i])
  {
    hide Parse, Print, Split, Storable, NoSemicolon;
    var ts := PrintAll(rs);
    var text := Join(ts);
    forall i | 0 <= i < |rs|
      ensures ts[i] == Print(rs[i]) && ts[i] != "" && ts[i][0] != ';' && (NoSemicolon(rs[i]) ==> Lacks(ts[i], ';'))
      ensures Parse(ts[i]) == rs[i] <==> Storable(rs[i])
    {
      PrintedText(rs[i]);
      ParseInvertsPrint(rs[i]);
    }
    var pieces := Split(text, ';');
    assert Texts([text]) == pieces;
    SplitLacks(text, ';');
    if ReadBack([text]) == rs {
      forall i | 0 <= i < |rs| ensures NoSemicolon(rs[i]) {
        assert rs[i] == Parse(pieces[i]);
        ParseLacksSemicolon(pieces[i]);
      }
    }
    if forall i :: 0 <= i < |rs| ==> NoSemicolon(rs[i]) {
      SplitJoined(ts);
      assert forall i :: 0 <= i < |rs| ==> ReadBack([text])[i] == Parse(ts[i]);
    }
  }

  /** Storing a list and reading it back gives the same list exactly when every route is storable
      and, if there is only one, it has no semicolon. */
  lemma ListRoundTrip(rs: seq<RouteInfo>)
    requires Printable(rs)
    ensures ReadBack(PrintAll(rs)) == rs <==>
            (forall i :: 0 <= i < |rs| ==> Storable(rs[i])) && (|rs| == 1 ==> NoSemicolon(rs[0]))
  {
    hide Parse, Print, Split, Storable, NoSemicolon;
    var ts := PrintAll(rs);
    if |rs| == 1 {
      assert ts == [Join(ts)];
      JoinedRoundTrip(rs);
    } else {
      forall i | 0 <= i < |rs|
        ensures Parse(ts[i]) == rs[i] <==> Storable(rs[i])
      {
        ParseInvertsPrint(rs[i]);
      }
      assert forall i :: 0 <= i < |rs| ==> ReadBack(ts)[i] == Parse(ts[i]);
    }
  }

  // ------------------------------------------------------------ the loops

  /** `split`: getline until the stream is used up. */
  method SplitAtDelim(str: string, delim: char) returns (seglist: seq<string>)
    ensures seglist == Split(str, delim)
  {
    hide Split;
    seglist := [];
    var pos := 0;
    assert str[0..] == str;
    while pos < |str|
      invariant pos <= |str| && seglist + Split(str[pos..], delim) == Split(str, delim)
    {
      var end := FindFrom(str, delim, pos);
      ghost var rest := str[pos..];
      FindFirst(delim, rest);
      if end == None {
        SplitFirst(rest, "", delim);
        return seglist + [str[pos..]];
      }
      ghost var p := end.value - pos;
      SplitFirst(rest[..p], rest[p + 1..], delim);
      assert rest == rest[..p] + [delim] + rest[p + 1..];
      assert rest[..p] == str[pos..end.value] && rest[p + 1..] == str[end.value + 1..];
      seglist := seglist + [str[pos..end.value]];
      pos := end.value + 1;
    }
    SplitFirst("", "", delim);
    assert str[pos..] == "";
  }

  /** The constructor from text. */
  method ReadRoute(text: string) returns (r: RouteInfo)
    ensures r == Parse(text)
    ensures r.verb != TRACE
  {
    var rinfo := SplitAtDelim(text, ':');
    r := NONE;
    if |rinfo| < 3 {
      return;
    }
    var verb := VerbOf(rinfo[0]);
    if verb == None {
      return;
    }
    r := RouteInfo(verb.value, rinfo[1], rinfo[2]);
  }

  lemma WholeText(text: string)
    ensures text[0..] == text && (Find(';', text) == 0 && text != "" <==> text != "" && text[0] == ';')
  {
  }

  /** The loop of `get_luaroutes` over the texts. */
  method ReadRoutes(texts: seq<string>) returns (list: seq<RouteInfo>)
    ensures list == ParseAll(texts)
  {
    hide Parse;
    list := [];
    for i := 0 to |texts|
      invariant |list| == i && forall k :: 0 <= k < i ==> list[k] == Parse(texts[k])
    {
      var r := ReadRoute(texts[i]);
      list := list + [r];
    }
  }

  /** The fields of `ConfValue` that hold routes. */
  class ConfValue {
    var routes: seq<string>
    var holdsRoutes: bool

    constructor ()
      ensures routes == [] && !holdsRoutes
    {
      routes, holdsRoutes := [], false;
    }

    /** `set_value`. A TRACE route throws: the routes before it are stored by then, and the type of
        the value stays what it was. */
    method SetRoutes(rs: seq<RouteInfo>) returns (ok: bool)
      modifies this
      ensures ok <==> Printable(rs)
      ensures ok ==> holdsRoutes && routes == PrintAll(rs)
      ensures !ok ==> holdsRoutes == old(holdsRoutes) && |routes| < |rs| && rs[|routes|].verb == TRACE
      ensures !ok ==> Printable(rs[..|routes|]) && routes == PrintAll(rs[..|routes|])
    {
      routes := [];
      for i := 0 to |rs|
        invariant Printable(rs[..i]) && routes == PrintAll(rs[..i]) && holdsRoutes == old(holdsRoutes)
      {
        var verb := VerbText(rs[i].verb);
        if verb == None {
          return false;
        }
        assert rs[..i + 1] == rs[..i] + [rs[i]];
        routes := routes + [verb.value + ":" + rs[i].route + ":" + rs[i].script];
      }
      assert rs[..|rs|] == rs;
      holdsRoutes := true;
      ok := true;
    }

    /** `get_luaroutes`. */
    method GetRoutes() returns (rs: Option<seq<RouteInfo>>)
      ensures rs == if holdsRoutes then Some(ReadBack(routes)) else None
    {
      hide Texts, ParseAll;
      if !holdsRoutes {
        return None;
      }
      var texts := ChooseTexts();
      var list := ReadRoutes(texts);
      rs := Some(list);
    }

    /** A single stored text is taken for a list unless it starts with a semicolon. */
    method ChooseTexts() returns (texts: seq<string>)
      ensures texts == Texts(routes)
    {
      hide Split;
      if |routes| != 1 {
        return routes;
      }
      var text := routes[0];
      var p := FindFrom(text, ';', 0);
      WholeText(text);
      if p == Some(0) {
        return routes;
      }
      texts := SplitAtDelim(text, ';');
    }
  }
}
