/** What a whole header block leaves in the head of a request, field by field. */
module HeadFields {
  import opened Wrappers
  import opened Streams
  import opened Numbers
  import opened UrlCodec
  import opened HeaderText
  import opened Letters
  import opened RequestHeaders
  import opened OptionValues
  import opened Chunks

  /** The line has this name, in any case of letters. */
  predicate Says(f: Field, key: string) { SameButCase(f.0, key) }

  /** The value of the last line with this name. */
  function LastOf(fs: seq<Field>, key: string): Option<string>
  {
    if fs == [] then None
    else if Says(fs[|fs| - 1], key) then Some(fs[|fs| - 1].1)
    else LastOf(fs[..|fs| - 1], key)
  }

  function TimeoutOf(value: string): Option<string>
  {
    var opts := HeaderOptions(value, true, ',');
    if opts.Some? && "timeout" in opts.value then Some(opts.value["timeout"]) else None
  }

  /** The timeout option of the last keep-alive line that has one. */
  function LastTimeout(fs: seq<Field>): Option<string>
  {
    if fs == [] then None
    else
      var f := fs[|fs| - 1];
      if Says(f, "keep-alive") && TimeoutOf(f.1).Some? then TimeoutOf(f.1) else LastTimeout(fs[..|fs| - 1])
  }

  ghost predicate KeepAliveIs(h: Head, fs: seq<Field>)
  {
    match LastOf(fs, "connection")
    case None => !h.keepAlive
    case Some(value) =>
      var opts := HeaderOptions(value, true, ';');
      opts.Some? && (h.keepAlive <==> "close" !in opts.value)
  }

  ghost predicate CookiesAre(h: Head, fs: seq<Field>)
  {
    match LastOf(fs, "cookie")
    case None => h.cookies == map[]
    case Some(value) => HeaderOptions(value, true, ';') == Some(h.cookies)
  }

  ghost predicate TimeoutIs(h: Head, fs: seq<Field>)
  {
    match LastTimeout(fs)
    case None => h.timeout == -1
    case Some(value) => ScanDecimal(value, INT_MAX) == Ok(h.timeout)
  }

  ghost predicate LengthIs(h: Head, fs: seq<Field>)
  {
    match LastOf(fs, "content-length")
    case None => h.length == 0
    case Some(value) => ScanDecimal(value, LLONG_MAX) == Ok(h.length)
  }

  ghost predicate HostIs(h: Head, fs: seq<Field>)
  {
    h.host == match LastOf(fs, "host") case None => "" case Some(value) => value
  }

  ghost predicate CodingIs(h: Head, fs: seq<Field>)
  {
    h.chunked <==> exists i :: 0 <= i < |fs| && Says(fs[i], "transfer-encoding") && fs[i].1 == "chunked"
  }

  /** The head agrees with the lines. */
  ghost predicate Agrees(h: Head, fs: seq<Field>)
  {
    && KeepAliveIs(h, fs) && CookiesAre(h, fs) && TimeoutIs(h, fs) && LengthIs(h, fs) && HostIs(h, fs) && CodingIs(h, fs)
  }

  function Keys(): seq<string>
  {
    ["connection", "cookie", "keep-alive", "content-length", "host", "transfer-encoding"]
  }

  predicate SmallKey(key: string) { forall k :: 0 <= k < |key| ==> !('A' <= key[k] <= 'Z') }

  lemma KeysAreSmall()
    ensures forall i :: 0 <= i < |Keys()| ==> SmallKey(Keys()[i])
    ensures forall i, j :: 0 <= i < j < |Keys()| ==> Keys()[i] != Keys()[j]
  {
    assert Keys()[0][0] == Keys()[1][0] == 'c' && Keys()[0][3] == 'n' && Keys()[3][3] == 't';
  }

  lemma NameIs(f: Field, key: string)
    requires SmallKey(key)
    ensures Says(f, key) <==> Lower(f.0) == key
  {
    hide SameButCase, Lower;
    LowerKeeps(key);
    CaseInsensitive(f.0, key);
  }

  lemma NamesAre(f: Field)
    ensures forall i :: 0 <= i < |Keys()| ==> (Says(f, Keys()[i]) <==> Lower(f.0) == Keys()[i])
  {
    hide Says, Lower, SmallKey;
    KeysAreSmall();
    forall i | 0 <= i < |Keys()| ensures Says(f, Keys()[i]) <==> Lower(f.0) == Keys()[i] {
      NameIs(f, Keys()[i]);
    }
  }

  /** What one line changes. */
  lemma Changes(h: Head, f: Field)
    requires ApplyField(h, Lower(f.0), f.1).Ok?
    ensures var h' := ApplyField(h, Lower(f.0), f.1).value;
            && (if Says(f, "connection") then
                  var opts := HeaderOptions(f.1, true, ';');
                  opts.Some? && (h'.keepAlive <==> "close" !in opts.value)
                else h'.keepAlive == h.keepAlive)
            && (if Says(f, "cookie") then HeaderOptions(f.1, true, ';') == Some(h'.cookies) else h'.cookies == h.cookies)
            && (if Says(f, "keep-alive") && TimeoutOf(f.1).Some? then
                  ScanDecimal(TimeoutOf(f.1).value, INT_MAX) == Ok(h'.timeout)
                else h'.timeout == h.timeout)
            && (if Says(f, "content-length") then ScanDecimal(f.1, LLONG_MAX) == Ok(h'.length) else h'.length == h.length)
            && h'.host == (if Says(f, "host") then f.1 else h.host)
            && (h'.chunked <==> h.chunked || (Says(f, "transfer-encoding") && f.1 == "chunked"))
  {
    hide HeaderOptions, ScanDecimal, Says, Lower;
    NamesAre(f);
    assert Keys()[0] == "connection" && Keys()[1] == "cookie" && Keys()[2] == "keep-alive";
    assert Keys()[3] == "content-length" && Keys()[4] == "host" && Keys()[5] == "transfer-encoding";
    KeysAreSmall();
  }

  lemma LastOfSnoc(fs: seq<Field>, f: Field, key: string)
    ensures LastOf(fs + [f], key) == if Says(f, key) then Some(f.1) else LastOf(fs, key)
    ensures LastTimeout(fs + [f]) == if Says(f, "keep-alive") && TimeoutOf(f.1).Some? then TimeoutOf(f.1)
                                     else LastTimeout(fs)
  {
    hide Says, TimeoutOf;
    assert (fs + [f])[..|fs|] == fs;
  }

  lemma CodingSnoc(h: Head, h': Head, fs: seq<Field>, f: Field)
    requires CodingIs(h, fs)
    requires h'.chunked <==> h.chunked || (Says(f, "transfer-encoding") && f.1 == "chunked")
    ensures CodingIs(h', fs + [f])
  {
    hide Says;
    var all := fs + [f];
    assert all[|fs|] == f && forall i :: 0 <= i < |fs| ==> all[i] == fs[i];
  }

  lemma AgreesStep(h: Head, fs: seq<Field>, f: Field)
    requires Agrees(h, fs) && ApplyField(h, Lower(f.0), f.1).Ok?
    ensures Agrees(ApplyField(h, Lower(f.0), f.1).value, fs + [f])
  {
    hide HeaderOptions, ScanDecimal, Says, Lower, LastOf, LastTimeout, ApplyField, TimeoutOf, CodingIs;
    Changes(h, f);
    LastOfSnoc(fs, f, "connection");
    LastOfSnoc(fs, f, "cookie");
    LastOfSnoc(fs, f, "content-length");
    LastOfSnoc(fs, f, "host");
    CodingSnoc(h, ApplyField(h, Lower(f.0), f.1).value, fs, f);
  }

  lemma {:induction false} AgreesOn(h: Head, before: seq<Field>, fs: seq<Field>)
    requires Agrees(h, before) && Apply(h, fs).Ok?
    ensures Agrees(Apply(h, fs).value, before + fs)
    decreases |fs|
  {
    hide Agrees, ApplyField, Lower;
    if fs == [] {
      assert before + fs == before;
    } else {
      AgreesStep(h, before, fs[0]);
      AgreesOn(ApplyField(h, Lower(fs[0].0), fs[0].1).value, before + [fs[0]], fs[1..]);
      assert (before + [fs[0]]) + fs[1..] == before + fs;
    }
  }

  /** A header block that is not refused leaves what its lines say: keep-alive unless the last
      connection line has the option close, the options of the last cookie line, the last timeout, the
      last length and host, and chunked if some line says so. Without such a line the values are
      those the constructor starts from. */
  lemma BlockMeans(fs: seq<Field>)
    requires Apply(NewHead(), fs).Ok?
    ensures Agrees(Apply(NewHead(), fs).value, fs)
  {
    hide Apply;
    AgreesOn(NewHead(), [], fs);
    assert [] + fs == fs;
  }

  /** A block is refused exactly at a line whose number is refused or whose decoding never ends. */
  predicate Refused(f: Field)
  {
    || ((Says(f, "connection") || Says(f, "cookie")) && HeaderOptions(f.1, true, ';').None?)
    || (Says(f, "keep-alive") && (HeaderOptions(f.1, true, ',').None? ||
                                  (TimeoutOf(f.1).Some? && ScanDecimal(TimeoutOf(f.1).value, INT_MAX).Err?)))
    || (Says(f, "content-length") && ScanDecimal(f.1, LLONG_MAX).Err?)
  }

  lemma RefusedLine(h: Head, f: Field)
    ensures ApplyField(h, Lower(f.0), f.1).Err? <==> Refused(f)
  {
    hide HeaderOptions, ScanDecimal, Says, Lower;
    NamesAre(f);
    assert Keys()[0] == "connection" && Keys()[1] == "cookie" && Keys()[2] == "keep-alive";
    assert Keys()[3] == "content-length" && Keys()[4] == "host" && Keys()[5] == "transfer-encoding";
    KeysAreSmall();
  }

  lemma {:induction false} RefusedExactly(h: Head, fs: seq<Field>)
    ensures Apply(h, fs).Err? <==> exists i :: 0 <= i < |fs| && Refused(fs[i])
    decreases |fs|
  {
    hide ApplyField, Refused, Lower;
    if fs != [] {
      RefusedLine(h, fs[0]);
      var step := ApplyField(h, Lower(fs[0].0), fs[0].1);
      assert forall i :: 0 < i < |fs| ==> fs[i] == fs[1..][i - 1];
      assert forall i :: 0 <= i < |fs| - 1 ==> fs[1..][i] == fs[i + 1];
      if step.Ok? {
        RefusedExactly(step.value, fs[1..]);
      }
    }
  }

  // ------------------------------------------------------------ the usual values

  /** A list of one word without a value. */
  lemma OneWord(word: string, sep: char)
    requires word != "" && Solid(word) && Lacks(word, '%') && Lacks(word, '=') && Lacks(word, sep)
    ensures HeaderOptions(word, true, sep) == Some(map[Lower(word) := ""])
  {
    hide DecodeOption, Lower, Blanks, Lacks, Trim, Pieces, Solid;
    PiecesOfFirst(word, "", sep);
    NoBlanks();
    assert "" + word + "" == word;
    Nothing();
    OptionMeans("", word, "", "", "", "", true);
    TrimKeeps("");
    assert [word][1..] == [];
    assert FoldOptions([], true, "", map[Lower(word) := ""]) == Some(map[Lower(word) := ""]);
  }

  lemma NoBlanks()
    ensures Blanks("") && Solid("")
  {
  }

  lemma Nothing()
    ensures Lacks("" + "" + "", '%')
  {
  }

  /** "connection: close" ends the connection after the request, in any case of letters; any other
      single word keeps it. */
  lemma ConnectionWord(h: Head, word: string)
    requires word != "" && Solid(word) && Lacks(word, '%') && Lacks(word, '=') && Lacks(word, ';')
    ensures ApplyField(h, "connection", word)
            == Ok(h.(fields := h.fields["connection" := word], keepAlive := !SameButCase(word, "close")))
  {
    hide HeaderOptions, Lower, Solid, Lacks, SameButCase;
    OneWord(word, ';');
    NameIs((word, ""), "close");
  }

  /** "keep-alive: timeout=n" sets the timeout to n. */
  lemma KeepAliveTimeout(h: Head, n: nat)
    requires n <= INT_MAX
    ensures ApplyField(h, "keep-alive", "timeout=" + Decimal(n))
            == Ok(h.(fields := h.fields["keep-alive" := "timeout=" + Decimal(n)], timeout := n))
  {
    hide HeaderOptions, ScanDecimal, Decimal;
    TimeoutOption(n);
    ScanInvertsDecimal(n, INT_MAX);
  }

  lemma TimeoutOption(n: nat)
    ensures HeaderOptions("timeout=" + Decimal(n), true, ',') == Some(map["timeout" := Decimal(n)])
  {
    hide DecodeOption, Lower, Blanks, Lacks, Trim, Pieces, Solid, Decimal;
    var value, option := Decimal(n), "timeout=" + Decimal(n);
    TimeoutText(value);
    DigitsPlain(n);
    assert option == "" + "timeout" + "" + ['='] + ("" + value + "");
    PiecesOfFirst(option, "", ',');
    NoBlanks();
    OptionMeans("", "timeout", "", "", value, "", true);
    LowerKeeps("timeout");
    assert [option][1..] == [];
    assert FoldOptions([], true, value, map["timeout" := value]) == Some(map["timeout" := value]);
  }

  lemma DigitsPlain(n: nat)
    ensures Lacks(Decimal(n), ',') && Lacks(Decimal(n), '%') && Solid(Decimal(n))
  {
  }

  lemma TimeoutText(value: string)
    ensures Lacks("" + "timeout" + "", '%') && Lacks("" + "timeout" + "", '=') && Solid("timeout")
    ensures Lacks(value, ',') ==> Lacks("timeout=" + value, ',')
    ensures Lacks(value, '%') ==> Lacks("" + value + "", '%')
  {
  }

  // ------------------------------------------------------------ blocks that do not end

  /** A line that the input ends in is dropped; the lines before it count. */
  lemma {:induction false} CutOffBlock(fs: seq<Field>, text: string, h: Head)
    requires GoodFields(fs) && NoEol(text) && |text| < MAX_HEADERLINE_LEN && Apply(h, fs).Ok?
    ensures ReadHead(Open(Printed(fs) + text), h) == Ok((Apply(h, fs).value, Stream("", true, true)))
    decreases |fs|
  {
    hide ReadLine, ApplyField, ApplyLine, GoodField, FieldText, NoEol;
    if fs == [] {
      assert "" + text == text;
      LastLine(text, MAX_HEADERLINE_LEN);
      return;
    }
    var rest := Printed(fs[1..]) + text;
    FieldReadable(fs[0], rest);
    Assoc(FieldText(fs[0]) + CRLF, Printed(fs[1..]), text);
    CutOffBlock(fs[1..], text, ApplyField(h, Lower(fs[0].0), fs[0].1).value);
  }

  /** The lines without the empty one behind them. */
  function Printed(fs: seq<Field>): string
  {
    if fs == [] then "" else FieldText(fs[0]) + CRLF + Printed(fs[1..])
  }

  /** A line at the limit is refused, wherever it stands. */
  lemma {:induction false} LongLineRefused(fs: seq<Field>, text: string, rest: string, h: Head)
    requires GoodFields(fs) && NoEol(text) && |text| >= MAX_HEADERLINE_LEN && Apply(h, fs).Ok?
    ensures ReadHead(Open(Printed(fs) + (text + rest)), h) == Err(LineTooLong)
    decreases |fs|
  {
    hide ReadLine, ApplyField, ApplyLine, GoodField, FieldText, NoEol;
    if fs == [] {
      assert "" + (text + rest) == text + rest;
      LongLine(text, rest, MAX_HEADERLINE_LEN);
      return;
    }
    FieldReadable(fs[0], Printed(fs[1..]) + (text + rest));
    Assoc(FieldText(fs[0]) + CRLF, Printed(fs[1..]), text + rest);
    LongLineRefused(fs[1..], text, rest, ApplyField(h, Lower(fs[0].0), fs[0].1).value);
  }
}
