/** The alphabets that the text functions of the program go by, written out. */
module Letters {
  import opened Wrappers
  import opened Numbers
  import opened HeaderText

  function Capitals(): string { "ABCDEFGHIJKLMNOPQRSTUVWXYZ" }
  function Smalls(): string { "abcdefghijklmnopqrstuvwxyz" }
  function Figures(): string { "0123456789" }

  lemma CapitalsAre()
    ensures Capitals() == seq(26, i requires 0 <= i < 26 => (65 + i) as char)
  {
  }

  lemma SmallsAre()
    ensures Smalls() == seq(26, i requires 0 <= i < 26 => (97 + i) as char)
  {
  }

  lemma FiguresAre()
    ensures Figures() == seq(10, i requires 0 <= i < 10 => (48 + i) as char)
  {
  }

  lemma CapitalsRange(c: char)
    ensures c in Capitals() <==> 'A' <= c <= 'Z'
  {
    hide Capitals;
    CapitalsAre();
    if 'A' <= c <= 'Z' {
      assert Capitals()[c as int - 65] == c;
    }
  }

  lemma SmallsRange(c: char)
    ensures c in Smalls() <==> 'a' <= c <= 'z'
  {
    hide Smalls;
    SmallsAre();
    if 'a' <= c <= 'z' {
      assert Smalls()[c as int - 97] == c;
    }
  }

  lemma FiguresRange(c: char)
    ensures c in Figures() <==> '0' <= c <= '9'
  {
    hide Figures;
    FiguresAre();
    if '0' <= c <= '9' {
      assert Figures()[c as int - 48] == c;
    }
  }

  // ------------------------------------------------------------ the case of letters

  /** Both cases of every letter, and nothing else changes. */
  lemma CaseOfLetter(i: nat)
    requires i < 26
    ensures LowerChar(Capitals()[i]) == LowerChar(Smalls()[i]) == Smalls()[i]
    ensures UpperChar(Capitals()[i]) == UpperChar(Smalls()[i]) == Capitals()[i]
  {
    hide Capitals, Smalls;
    CapitalsAre();
    SmallsAre();
  }

  lemma NoLetterKeeps(c: char)
    requires c !in Capitals() && c !in Smalls()
    ensures LowerChar(c) == UpperChar(c) == c
  {
    hide Capitals, Smalls;
    CapitalsRange(c);
    SmallsRange(c);
  }

  /** The same letter in any case, or the same other character. */
  predicate SameLetter(c: char, d: char) {
    c == d || exists i :: 0 <= i < 26 && c in {Capitals()[i], Smalls()[i]} && d in {Capitals()[i], Smalls()[i]}
  }

  predicate SameButCase(a: string, b: string) {
    |a| == |b| && forall k :: 0 <= k < |a| ==> SameLetter(a[k], b[k])
  }

  lemma SameLetterLower(c: char, d: char)
    ensures SameLetter(c, d) <==> LowerChar(c) == LowerChar(d)
    ensures SameLetter(c, d) <==> UpperChar(c) == UpperChar(d)
  {
    hide Capitals, Smalls;
    CapitalsAre();
    SmallsAre();
    if LowerChar(c) == LowerChar(d) && c != d {
      var i := LowerChar(c) as int - 97;
      assert c in {Capitals()[i], Smalls()[i]} && d in {Capitals()[i], Smalls()[i]};
    }
    if UpperChar(c) == UpperChar(d) && c != d {
      var i := UpperChar(c) as int - 65;
      assert c in {Capitals()[i], Smalls()[i]} && d in {Capitals()[i], Smalls()[i]};
    }
  }

  lemma {:induction false} LowerAt(s: string, k: nat)
    requires k < |s|
    ensures Lower(s)[k] == LowerChar(s[k]) && Upper(s)[k] == UpperChar(s[k])
  {
    if k > 0 {
      LowerAt(s[1..], k - 1);
    }
  }

  /** Texts agree in lower case, and in upper case, exactly when they are the same but for the case
      of letters. */
  lemma CaseInsensitive(a: string, b: string)
    ensures Lower(a) == Lower(b) <==> SameButCase(a, b)
    ensures Upper(a) == Upper(b) <==> SameButCase(a, b)
  {
    hide SameLetter, LowerChar, UpperChar, Lower, Upper;
    if |a| == |b| {
      forall k | 0 <= k < |a|
        ensures Lower(a)[k] == LowerChar(a[k]) && Lower(b)[k] == LowerChar(b[k])
        ensures Upper(a)[k] == UpperChar(a[k]) && Upper(b)[k] == UpperChar(b[k])
        ensures SameLetter(a[k], b[k]) <==> Lower(a)[k] == Lower(b)[k]
        ensures SameLetter(a[k], b[k]) <==> Upper(a)[k] == Upper(b)[k]
      {
        LowerAt(a, k);
        LowerAt(b, k);
        SameLetterLower(a[k], b[k]);
      }
    }
  }

  // ------------------------------------------------------------ blanks

  /** The blanks of the "C" locale: space, tab, line feed, vertical tab, form feed, carriage return. */
  function BlankChars(): string { [' ', '\t', '\n', 11 as char, 12 as char, '\r'] }

  predicate Blanks(s: string) { forall k :: 0 <= k < |s| ==> s[k] in BlankChars() }

  lemma BlankIs(c: char)
    ensures IsSpace(c) <==> c in BlankChars()
  {
  }

  lemma {:induction false} TrimLeftIs(a: string, s: string)
    requires Blanks(a)
    ensures TrimLeft(a + s) == TrimLeft(s)
  {
    if a == "" {
      assert a + s == s;
    } else {
      BlankIs(a[0]);
      assert (a + s)[1..] == a[1..] + s;
      TrimLeftIs(a[1..], s);
    }
  }

  lemma {:induction false} TrimRightIs(s: string, b: string)
    requires Blanks(b)
    ensures TrimRight(s + b) == TrimRight(s)
  {
    if b == "" {
      assert s + b == s;
    } else {
      BlankIs(b[|b| - 1]);
      assert (s + b)[..|s + b| - 1] == s + b[..|b| - 1];
      TrimRightIs(s, b[..|b| - 1]);
    }
  }

  /** Trimming takes exactly the blanks off both ends. */
  lemma TrimTakes(a: string, s: string, b: string)
    requires Blanks(a) && Blanks(b)
    requires s != "" ==> s[0] !in BlankChars() && s[|s| - 1] !in BlankChars()
    ensures Trim(a + s + b) == s
  {
    hide BlankChars, Blanks, IsSpace, TrimLeft, TrimRight;
    if s == "" {
      TrimBlank(a, b);
      return;
    }
    BlankIs(s[0]);
    BlankIs(s[|s| - 1]);
    Assoc(a, s, b);
    TrimLeftIs(a, s + b);
    TrimLeftBlank(s + b);
    TrimRightIs(s, b);
    TrimKeeps(s);
    TrimLeftBlank(s);
  }

  lemma TrimBlank(a: string, b: string)
    requires Blanks(a) && Blanks(b)
    ensures Trim(a + "" + b) == ""
  {
    assert a + "" + b == (a + b) + "";
    TrimLeftIs(a + b, "");
  }
}
