/** The helper functions of HttpHelpers.cpp as the loops they are, each proved equal to the
    function that specifies it. */
module HttpHelpers {
  import opened Wrappers
  import opened Numbers
  import opened UrlCodec
  import opened HeaderText

  /** std::string::find(c, start). */
  method FindFrom(s: string, c: char, start: nat) returns (pos: Option<nat>)
    requires start <= |s|
    ensures var p := Find(c, s[start..]);
            pos == if p == |s| - start then None else Some(start + p)
  {
    var i := start;
    while i < |s| && s[i] != c
      invariant start <= i <= |s|
      invariant forall k :: start <= k < i ==> s[k] != c
    {
      i := i + 1;
    }
    FindIs(c, s[start..], i - start);
    return if i == |s| then None else Some(i);
  }

  method StrSplit(s: string, c: char) returns (first: string, second: string)
    ensures first == Before(c, s)
    ensures second == if Find(c, s) == |s| then "" else After(c, s)
    ensures c in s ==> s == first + [c] + second && c !in first
    ensures c !in s ==> first == s && second == ""
  {
    FindFirst(c, s);
    assert s[0..] == s;
    var pos := FindFrom(s, c, 0);
    match pos {
      case Some(p) => first, second := s[..p], s[p + 1..];
      case None => first, second := s, "";
    }
  }

  method ConvertPlus(s: string, form: bool) returns (r: string)
    ensures r == PlusToSpace(s, form)
  {
    if !form {
      PlusUntouched(s);
      return s;
    }
    r := "";
    var i := 0;
    while i < |s|
      invariant 0 <= i <= |s| && r + PlusToSpace(s[i..], form) == PlusToSpace(s, form)
    {
      assert s[i..][1..] == s[i + 1..];
      r := r + [if s[i] == '+' then ' ' else s[i]];
      i := i + 1;
    }
  }

  lemma {:induction false} PlusUntouched(s: string)
    ensures PlusToSpace(s, false) == s
  {
    if s != "" {
      PlusUntouched(s[1..]);
    }
  }

  /** The body of the decoding loop for the '%' at `pos`: the text since `start`, converted. */
  method DecodeTriplet(src: string, start: nat, pos: nat, form: bool) returns (text: string)
    requires start <= pos && pos + 2 < |src| && src[pos] == '%'
    ensures text == TripletText(src[start..], pos - start, form)
  {
    ghost var rest, p := src[start..], pos - start;
    if IsHexDigit(src[pos + 1]) && IsHexDigit(src[pos + 2]) {
      assert src[start..pos] == rest[..p];
      text := ConvertPlus(src[start..pos], form);
      text := text + [ToByte(16 * HexValue(src[pos + 1]) + HexValue(src[pos + 2]))];
    } else {
      assert src[start..pos + 3] == rest[..p + 3];
      text := ConvertPlus(src[start..pos + 3], form);
    }
  }

  /** `urldecode`. None stands for the call that never returns: the loop has come to a state that
      its own body leaves unchanged. */
  method UrlDecode(src: string, form: bool) returns (r: Option<string>)
    ensures r == Decode(src, form)
    ensures r.None? <==> Dangles(src)
  {
    DecodeFailsExactly(src, form);
    StartsOnTrack(src, form);
    hide Dangles, TripletText, IsTriplet;
    var out := "";
    var start := 0;
    while true
      invariant OnTrack(src, form, LoopState(start, out))
      decreases |src| - start
    {
      FindFirst('%', src[start..]);
      var found := FindFrom(src, '%', start);
      if found == None {
        return Some(out + src[start..]);
      }
      var pos := found.value;
      ghost var next := Turn(src, form, LoopState(start, out));
      TurnOnTrack(src, form, LoopState(start, out));
      if pos + 2 >= |src| {
        StuckIsDangling(src, form, LoopState(start, out));
        return None;
      }
      var text := DecodeTriplet(src, start, pos, form);
      out := out + text;
      start := pos + 3;
      assert next.start == start && next.out == out;
      assert next == LoopState(start, out);
    }
  }

  method UrlEncode(value: string) returns (r: string)
    ensures r == Encode(value)
  {
    r := "";
    var i := 0;
    while i < |value|
      invariant 0 <= i <= |value| && r + Encode(value[i..]) == Encode(value)
    {
      var c := value[i];
      assert value[i..][1..] == value[i + 1..];
      r := r + (if Unreserved(c) then [c] else Escape(c));
      i := i + 1;
    }
  }

  /** The parameters found so far and what is still to be split. */
  ghost predicate Splitting(s: string, sep: char, params: seq<string>, pos: nat) {
    pos <= |s| &&
    if pos == 0 then params == []
    else params + DropEmptyLast(Pieces(s[pos..], sep)) == Params(s, sep)
  }

  lemma PiecesStep(s: string, sep: char, pos: nat, p: nat)
    requires pos <= |s| && p == Find(sep, s[pos..]) < |s| - pos
    ensures Pieces(s[pos..], sep) == [s[pos..pos + p]] + Pieces(s[pos + p + 1..], sep)
  {
    assert s[pos..][p + 1..] == s[pos + p + 1..] && s[pos..][..p] == s[pos..pos + p];
  }

  lemma SplitStart(s: string, sep: char, p: nat)
    requires p == Find(sep, s) < |s|
    ensures Splitting(s, sep, if p == 0 then [] else [s[..p]], p + 1)
  {
    hide Pieces, DropEmptyLast, Find;
    assert s[0..] == s && s[0..p] == s[..p];
    PiecesStep(s, sep, 0, p);
    var more := Pieces(s[p + 1..], sep);
    DropEmptyLastCons(s[..p], more);
    assert ([s[..p]] + more)[1..] == more;
    assert [] + DropEmptyLast(more) == DropEmptyLast(more);
  }

  lemma DropEmptyLastCons(x: string, ps: seq<string>)
    requires ps != []
    ensures DropEmptyLast([x] + ps) == [x] + DropEmptyLast(ps)
  {
  }

  lemma SplitStep(s: string, sep: char, params: seq<string>, pos: nat, p: nat)
    requires pos > 0 && Splitting(s, sep, params, pos) && p == Find(sep, s[pos..]) < |s| - pos
    ensures Splitting(s, sep, params + [s[pos..pos + p]], pos + p + 1)
  {
    hide Pieces, DropEmptyLast, Params, Find;
    var x, more := s[pos..pos + p], Pieces(s[pos + p + 1..], sep);
    PiecesStep(s, sep, pos, p);
    DropEmptyLastCons(x, more);
    Assoc(params, [x], DropEmptyLast(more));
  }

  /** The splitting loop shared by `parse_query_string` and `parse_header_options`. */
  method SplitParams(s: string, sep: char) returns (params: seq<string>)
    ensures params == Params(s, sep)
  {
    params := [];
    var pos, oldPos := 0, 0;
    while true
      invariant pos == oldPos && Splitting(s, sep, params, pos)
      decreases |s| - pos
    {
      var found := FindFrom(s, sep, pos);
      if found == None {
        break;
      }
      if pos == 0 {
        assert s[0..] == s;
        SplitStart(s, sep, found.value);
      } else {
        SplitStep(s, sep, params, pos, found.value - pos);
      }
      pos := found.value + 1;
      if pos == 1 {
        oldPos := pos;
        continue;
      }
      assert oldPos == 0 ==> params + [s[oldPos..pos - 1]] == [s[..pos - 1]];
      params := params + [s[oldPos..pos - 1]];
      oldPos := pos;
    }
    assert s[0..] == s;
    if oldPos != |s| {
      params := params + [s[oldPos..]];
    }
  }

  method DecodeOneParam(param: string, form: bool) returns (r: Option<(string, string)>)
    ensures r == DecodeParam(param, form)
  {
    hide Decode, Trim, Lower;
    assert param[0..] == param && param[..|param|] == param;
    var pos := FindFrom(param, '=', 0);
    var name := UrlDecode(if pos.Some? then param[..pos.value] else param, form);
    var value := Some("");
    if pos.Some? {
      value := UrlDecode(param[pos.value + 1..], form);
    }
    return if name.Some? && value.Some? then Some((name.value, value.value)) else None;
  }

  method ParseQueryString(query: string, form: bool) returns (q: Option<map<string, string>>)
    ensures q == ParseQuery(query, form)
  {
    var params := SplitParams(query, '&');
    var result: map<string, string> := map[];
    var i := 0;
    while i < |params|
      invariant 0 <= i <= |params|
      invariant FoldParams(params[i..], form, result) == ParseQuery(query, form)
    {
      assert params[i..][1..] == params[i + 1..];
      var pair := DecodeOneParam(params[i], form);
      if pair == None {
        return None;
      }
      result := result[pair.value.0 := pair.value.1];
      i := i + 1;
    }
    return Some(result);
  }

  method TrimCopy(s: string) returns (r: string)
    ensures r == Trim(s)
  {
    var i := 0;
    assert s[0..] == s;
    while i < |s| && IsSpace(s[i])
      invariant 0 <= i <= |s| && TrimLeft(s[i..]) == TrimLeft(s)
    {
      assert s[i..][1..] == s[i + 1..];
      i := i + 1;
    }
    r := s[i..];
    var j := |r|;
    ghost var left := r;
    assert left[..j] == left;
    while j > 0 && IsSpace(r[j - 1])
      invariant 0 <= j <= |r| && TrimRight(r[..j]) == TrimRight(left)
    {
      assert r[..j][..j - 1] == r[..j - 1];
      j := j - 1;
    }
    r := r[..j];
  }

  method AsciiToLower(s: string) returns (r: string)
    ensures r == Lower(s)
  {
    r := "";
    var i := 0;
    while i < |s|
      invariant 0 <= i <= |s| && r + Lower(s[i..]) == Lower(s)
    {
      assert s[i..][1..] == s[i + 1..];
      r := r + [LowerChar(s[i])];
      i := i + 1;
    }
  }

  /** One turn of the option loop: the name and, with '=', the new value. */
  method DecodeOneOption(param: string, form: bool) returns (r: Option<(string, Option<string>)>)
    ensures r == DecodeOption(param, form)
  {
    hide Decode, Trim, Lower;
    assert param[0..] == param && param[..|param|] == param;
    var pos := FindFrom(param, '=', 0);
    var name := UrlDecode(if pos.Some? then param[..pos.value] else param, form);
    if name == None {
      return None;
    }
    var own := None;
    if pos.Some? {
      var value := UrlDecode(param[pos.value + 1..], form);
      if value == None {
        return None;
      }
      var trimmedValue := TrimCopy(value.value);
      own := Some(trimmedValue);
    }
    var trimmed := TrimCopy(name.value);
    trimmed := AsciiToLower(trimmed);
    return Some((trimmed, own));
  }

  method ParseHeaderOptions(options: string, form: bool, sep: char) returns (q: Option<map<string, string>>)
    ensures q == HeaderOptions(options, form, sep)
  {
    hide FoldOptions, DecodeOption, Params;
    var params := SplitParams(options, sep);
    var result: map<string, string> := map[];
    var value := "";
    var i := 0;
    assert params[0..] == params;
    while i < |params|
      invariant 0 <= i <= |params|
      invariant FoldOptions(params[i..], form, value, result) == HeaderOptions(options, form, sep)
    {
      OptionStep(params, i, form, value, result);
      var option := DecodeOneOption(params[i], form);
      if option == None {
        return None;
      }
      if option.value.1.Some? {
        value := option.value.1.value;
      } else {
        value := TrimCopy(value);
      }
      result := result[option.value.0 := value];
      i := i + 1;
    }
    OptionsEnd(params, form, value, result);
    return Some(result);
  }

  lemma OptionStep(params: seq<string>, i: nat, form: bool, value: string, q: map<string, string>)
    requires i < |params|
    ensures FoldOptions(params[i..], form, value, q) ==
            match DecodeOption(params[i], form)
            case None => None
            case Some((name, own)) =>
              var v := if own.Some? then own.value else Trim(value);
              FoldOptions(params[i + 1..], form, v, q[name := v])
  {
    hide DecodeOption, Trim;
    assert params[i..][1..] == params[i + 1..];
  }

  lemma OptionsEnd(params: seq<string>, form: bool, value: string, q: map<string, string>)
    ensures FoldOptions(params[|params|..], form, value, q) == Some(q)
  {
  }
}
