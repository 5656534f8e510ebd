/** Percent-encoding (section 2.1 of RFC 3986) against the written-out digits and letters. */
module Triplets {
  import opened Wrappers
  import opened Numbers
  import opened UrlCodec
  import opened HeaderText
  import opened Letters
  import opened Scans

  // ------------------------------------------------------------ decoding

  lemma {:induction false} PlusAt(s: string, form: bool, k: nat)
    requires k < |s|
    ensures PlusToSpace(s, form)[k] == if form && s[k] == '+' then ' ' else s[k]
  {
    if k > 0 {
      PlusAt(s[1..], form, k - 1);
    }
  }

  lemma TripletSplit(u: string, a: char, b: char, t: string)
    requires Lacks(u, '%')
    ensures var s := u + (['%', a, b] + t);
            && Find('%', s) == |u| && |u| + 2 < |s| && s[|u|] == '%' && s[|u| + 1] == a && s[|u| + 2] == b
            && s[..|u|] == u && s[..|u| + 3] == u + ['%', a, b] && s[|u| + 3..] == t
  {
    var s := u + (['%', a, b] + t);
    FindIs('%', s, |u|);
  }

  /** A triplet in any spelling of its two digits, behind text without a '%': it gives the byte that
      its digits stand for, and decoding goes on behind it. */
  lemma TripletDecodes(u: string, a: char, v: nat, b: char, w: nat, t: string, form: bool)
    requires Lacks(u, '%') && Spells(a, v) && Spells(b, w)
    ensures Decode(u + (['%', a, b] + t), form)
            == if Decode(t, form).None? then None
               else Some(PlusToSpace(u, form) + [(16 * v + w) as char] + Decode(t, form).value)
  {
    hide Decode, Spells, PlusToSpace, Find, Lacks;
    var s := u + (['%', a, b] + t);
    SpellsValue(a, v);
    SpellsValue(b, w);
    TripletSplit(u, a, b, t);
    DecodeUnfolds(s, form, t);
    assert IsTriplet(s, |u|) && TripletByte(s, |u|) == (16 * v + w) as char;
  }

  /** A '%' with something else among the two bytes behind it is copied with them; they are no
      start of another triplet. */
  lemma NoTripletCopied(u: string, a: char, b: char, t: string, form: bool)
    requires Lacks(u, '%') && (NoHex(a) || NoHex(b))
    ensures Decode(u + (['%', a, b] + t), form)
            == if Decode(t, form).None? then None
               else Some(PlusToSpace(u + ['%', a, b], form) + Decode(t, form).value)
  {
    hide Decode, NoHex, PlusToSpace, Find, Lacks;
    var s := u + (['%', a, b] + t);
    NoHexIs(a);
    NoHexIs(b);
    TripletSplit(u, a, b, t);
    DecodeUnfolds(s, form, t);
    assert !IsTriplet(s, |u|);
  }

  /** Text without a '%' is left as it is, '+' included. */
  lemma NoPercentKept(u: string, form: bool)
    requires Lacks(u, '%')
    ensures Decode(u, form) == Some(u)
  {
    DecodeWithoutPercent(u, form);
  }

  /** "%2f" and "%2F" are both the slash. */
  lemma SlashWitness(form: bool)
    ensures Decode("%2f", form) == Decode("%2F", form) == Some("/")
  {
    hide Decode, Spells;
    SlashDigits();
    NoPercentKept("", form);
    TripletDecodes("", '2', 2, 'f', 15, "", form);
    TripletDecodes("", '2', 2, 'F', 15, "", form);
    assert "" + (['%', '2', 'f'] + "") == "%2f" && "" + (['%', '2', 'F'] + "") == "%2F";
    assert PlusToSpace("", form) + [(16 * 2 + 15) as char] + "" == "/";
  }

  lemma SlashDigits()
    ensures Spells('2', 2) && Spells('f', 15) && Spells('F', 15)
  {
  }

  // ------------------------------------------------------------ encoding

  /** The unreserved characters of section 2.3 of RFC 3986. */
  predicate Free(c: char) { c in Capitals() || c in Smalls() || c in Figures() || c in ['-', '.', '_', '~'] }

  lemma FreeIs(c: char)
    ensures Free(c) <==> Unreserved(c)
  {
    hide Capitals, Smalls, Figures;
    CapitalsRange(c);
    SmallsRange(c);
    FiguresRange(c);
  }

  lemma UpperDigit(v: nat)
    requires v < 16
    ensures UpperHexDigit(v) == HexCapitals()[v]
  {
    hide HexCapitals;
    CapitalsAt(v);
  }

  /** One byte: itself when it is unreserved, and otherwise '%' and its two capital digits. */
  lemma EncodeByte(c: char)
    requires c as int < 256
    ensures Encode([c]) == if Free(c) then [c]
                           else ['%', HexCapitals()[c as int / 16], HexCapitals()[c as int % 16]]
  {
    hide Free, HexCapitals, Unreserved, UpperHexDigit, Encode, Escape;
    FreeIs(c);
    EscapeIs(c);
    UpperDigit(c as int / 16);
    UpperDigit(c as int % 16);
    EncodeOne(c);
  }

  lemma EscapeIs(c: char)
    requires c as int < 256
    ensures Escape(c) == ['%', UpperHexDigit(c as int / 16), UpperHexDigit(c as int % 16)]
  {
    hide UpperHexDigit;
  }

  lemma EncodeOne(c: char)
    ensures Encode([c]) == if Unreserved(c) then [c] else Escape(c)
  {
    hide Unreserved, Escape;
    assert [c][1..] == "" && Encode("") == "";
    assert [c] + "" == [c] && Escape(c) + "" == Escape(c);
  }

  lemma EncodeCons(c: char, t: string)
    ensures Encode([c] + t) == Encode([c]) + Encode(t)
  {
    hide Unreserved, Escape;
    EncodeOne(c);
    assert ([c] + t)[0] == c && ([c] + t)[1..] == t;
  }

  /** Encoding goes byte by byte. */
  lemma {:induction false} EncodeConcat(a: string, b: string)
    ensures Encode(a + b) == Encode(a) + Encode(b)
  {
    hide Encode;
    if a == "" {
      assert a + b == b;
      EncodeNothing();
    } else {
      var c, t := a[0], a[1..];
      assert a == [c] + t;
      Assoc([c], t, b);
      EncodeCons(c, t + b);
      EncodeConcat(t, b);
      EncodeCons(c, t);
      Assoc(Encode([c]), Encode(t), Encode(b));
    }
  }

  lemma EncodeNothing()
    ensures Encode("") == ""
  {
  }

  /** Unreserved text stays as it is. */
  lemma {:induction false} EncodeKeeps(s: string)
    requires forall k :: 0 <= k < |s| ==> Free(s[k])
    ensures Encode(s) == s
  {
    hide Free;
    if s != "" {
      FreeIs(s[0]);
      EncodeKeeps(s[1..]);
      assert s == [s[0]] + s[1..];
    }
  }
}
