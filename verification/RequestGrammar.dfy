/** The language of the request parser: the heads of section 3 of RFC 7230 as the machine reads
    them, with the continuation lines of its section 3.2.4. */
module RequestGrammar {
  import opened RequestParser
  import opened Sequences

  /** A continuation line: blanks, and the text that is appended to the value before it. */
  datatype Fold = Fold(blanks: string, text: string)

  /** A header line with its continuation lines. */
  datatype Field = Field(name: string, value: string, folds: seq<Fold>)

  /** The derivation of a request head; the version is given by its digits. */
  datatype Head = Head(verb: string, uri: string, major: string, minor: string, fields: seq<Field>)

  predicate IsBlank(c: char) { c == ' ' || c == '\t' }

  predicate AllBlank(s: string) { forall i :: 0 <= i < |s| ==> IsBlank(s[i]) }

  predicate AllDigits(s: string) { forall i :: 0 <= i < |s| ==> IsDigit(s[i]) }

  predicate AllTokens(s: string) { forall i :: 0 <= i < |s| ==> IsToken(s[i]) }

  predicate NoCtl(s: string) { forall i :: 0 <= i < |s| ==> !IsCtl(s[i]) }

  predicate IsFold(f: Fold) { f.blanks != "" && AllBlank(f.blanks) && NoCtl(f.text) && (f.text != "" ==> f.text[0] != ' ') }

  predicate IsField(f: Field) {
    f.name != "" && AllTokens(f.name) && NoCtl(f.value) && AreFolds(f.folds)
  }

  predicate AreFields(fs: seq<Field>) { forall i :: 0 <= i < |fs| ==> IsField(fs[i]) }

  predicate IsHead(h: Head) {
    h.verb != "" && AllTokens(h.verb) && NoCtl(h.uri) && ' ' !in h.uri &&
    h.major != "" && AllDigits(h.major) && h.minor != "" && AllDigits(h.minor) && AreFields(h.fields)
  }

  // ----- the text and the meaning of a derivation -----

  function RenderFold(f: Fold): string { f.blanks + (f.text + "\r\n") }

  function RenderFolds(fs: seq<Fold>): string {
    if fs == [] then "" else RenderFold(fs[0]) + RenderFolds(fs[1..])
  }

  function RenderField(f: Field): string { (f.name + ": ") + (f.value + "\r\n") + RenderFolds(f.folds) }

  function RenderFields(fs: seq<Field>): string {
    if fs == [] then "" else RenderField(fs[0]) + RenderFields(fs[1..])
  }

  function RequestLine(h: Head): string {
    (h.verb + " ") + (h.uri + " HTTP/") + (h.major + ".") + (h.minor + "\r\n")
  }

  function Render(h: Head): string { RequestLine(h) + RenderFields(h.fields) + "\r\n" }

  /** The number that `s` denotes when it continues the digits of `v`. */
  function Decimal(v: int, s: string): int
    decreases |s|
  {
    if s == "" then v else Decimal(v * 10 + Digit(s[0]), s[1..])
  }

  /** The texts of the continuation lines, with nothing in between. */
  function FoldTexts(fs: seq<Fold>): string { if fs == [] then "" else fs[0].text + FoldTexts(fs[1..]) }

  function HeadersOf(fs: seq<Field>): seq<Header> {
    if fs == [] then [] else [HeaderOf(fs[0])] + HeadersOf(fs[1..])
  }

  function Denote(h: Head): Parsed {
    Parsed(h.verb, h.uri, Decimal(0, h.major), Decimal(0, h.minor), HeadersOf(h.fields))
  }

  // ----- the states that collect characters -----

  predicate Collects(st: State) {
    st.Method? || st.Uri? || st.Major? || st.Minor? || st.HeaderName? || st.HeaderValue? || st.HeaderLws?
  }

  /** A byte that such a state collects without leaving. */
  predicate InClass(st: State, c: char) {
    match st
    case Method => IsToken(c)
    case Uri => !IsCtl(c) && c != ' '
    case Major => IsDigit(c)
    case Minor => IsDigit(c)
    case HeaderName => IsToken(c)
    case HeaderValue => !IsCtl(c)
    case HeaderLws => IsBlank(c)
    case _ => false
  }

  predicate AllInClass(st: State, w: string) { forall i :: 0 <= i < |w| ==> InClass(st, w[i]) }

  /** The record after the bytes of `w` in state `st`. */
  function Collected(st: State, p: Parsed, w: string): Parsed
    requires st.HeaderName? || st.HeaderValue? ==> p.headers != []
  {
    match st
    case Method => p.(verb := p.verb + w)
    case Uri => p.(uri := p.uri + w)
    case Major => p.(major := Decimal(p.major, w))
    case Minor => p.(minor := Decimal(p.minor, w))
    case HeaderName =>
      var n := |p.headers| - 1;
      p.(headers := p.headers[n := p.headers[n].(name := p.headers[n].name + w)])
    case HeaderValue =>
      var n := |p.headers| - 1;
      p.(headers := p.headers[n := p.headers[n].(value := p.headers[n].value + w)])
    case _ => p
  }

  lemma DecimalOne(v: int, c: char)
    ensures Decimal(v, [c]) == v * 10 + Digit(c)
  {
    assert [c][1..] == "";
    assert Decimal(v * 10 + Digit(c), "") == v * 10 + Digit(c);
  }

  lemma CollectedOne(st: State, p: Parsed, c: char)
    requires Collects(st) && InClass(st, c)
    requires st.HeaderName? || st.HeaderValue? || st.HeaderLws? ==> p.headers != []
    ensures Step(st, p, c) == Next(st, Collected(st, p, [c]), Indeterminate)
  {
    DecimalOne(p.major, c);
    DecimalOne(p.minor, c);
  }

  lemma CollectedMore(st: State, p: Parsed, c: char, w: string)
    requires Collects(st) && (st.HeaderName? || st.HeaderValue? ==> p.headers != [])
    ensures Collected(st, Collected(st, p, [c]), w) == Collected(st, p, [c] + w)
  {
    assert ([c] + w)[1..] == w;
    DecimalOne(p.major, c);
    DecimalOne(p.minor, c);
    match st
    case Method => assert p.verb + [c] + w == p.verb + ([c] + w);
    case Uri => assert p.uri + [c] + w == p.uri + ([c] + w);
    case HeaderName =>
      var n := |p.headers| - 1;
      assert p.headers[n].name + [c] + w == p.headers[n].name + ([c] + w);
    case HeaderValue =>
      var n := |p.headers| - 1;
      assert p.headers[n].value + [c] + w == p.headers[n].value + ([c] + w);
    case _ =>
  }

  lemma CollectedNone(st: State, p: Parsed)
    requires Collects(st) && (st.HeaderName? || st.HeaderValue? ==> p.headers != [])
    ensures Collected(st, p, "") == p
  {
    if st.HeaderName? || st.HeaderValue? {
      var n := |p.headers| - 1;
      assert p.headers[n].name + "" == p.headers[n].name && p.headers[n].value + "" == p.headers[n].value;
      assert p.headers[n := p.headers[n]] == p.headers;
    }
  }

  // ----- completeness -----

  /** Reading `w` takes the machine from one state and record to another, whatever follows. */
  ghost predicate Leads(st: State, p: Parsed, w: string, st': State, p': Parsed) {
    forall rest {:trigger w + rest} :: Run(st, p, w + rest) == Run(st', p', rest)
  }

  lemma Chain(st: State, p: Parsed, a: string, st1: State, p1: Parsed, b: string, st2: State, p2: Parsed)
    requires Leads(st, p, a, st1, p1) && Leads(st1, p1, b, st2, p2)
    ensures Leads(st, p, a + b, st2, p2)
  {
    forall rest ensures Run(st, p, (a + b) + rest) == Run(st2, p2, rest) {
      assert (a + b) + rest == a + (b + rest);
    }
  }

  lemma LeadsNowhere(st: State, p: Parsed)
    ensures Leads(st, p, "", st, p)
  {
    forall rest ensures Run(st, p, "" + rest) == Run(st, p, rest) {
      assert "" + rest == rest;
    }
  }

  lemma LeadsOne(st: State, p: Parsed, c: char)
    requires UsesLastHeader(st, c) ==> p.headers != []
    requires Step(st, p, c).verdict.Indeterminate?
    ensures Leads(st, p, [c], Step(st, p, c).state, Step(st, p, c).parsed)
  {
    forall rest ensures Run(st, p, [c] + rest) == Run(Step(st, p, c).state, Step(st, p, c).parsed, rest) {
      assert ([c] + rest)[1..] == rest;
    }
  }

  /** A state that collects reads the bytes of its class one after the other. */
  lemma {:induction false} ReadsClass(st: State, p: Parsed, w: string)
    requires Collects(st) && AllInClass(st, w)
    requires st.HeaderName? || st.HeaderValue? || st.HeaderLws? ==> p.headers != []
    ensures Leads(st, p, w, st, Collected(st, p, w))
    decreases |w|
  {
    if w == "" {
      LeadsNowhere(st, p);
      CollectedNone(st, p);
    } else {
      var p1 := Collected(st, p, [w[0]]);
      CollectedOne(st, p, w[0]);
      LeadsOne(st, p, w[0]);
      ReadsClass(st, p1, w[1..]);
      CollectedMore(st, p, w[0], w[1..]);
      Chain(st, p, [w[0]], st, p1, w[1..], st, Collected(st, p1, w[1..]));
      assert [w[0]] + w[1..] == w;
    }
  }

  lemma LineEndRead(st: State, p: Parsed)
    requires st.Minor? || (p.headers != [] && (st.HeaderValue? || st.HeaderLws?))
    ensures Leads(st, p, "\r\n", HeaderLineStart, p)
  {
    var st1 := if st.Minor? then Newline1 else Newline2;
    LeadsOne(st, p, '\r');
    LeadsOne(st1, p, '\n');
    Chain(st, p, ['\r'], st1, p, ['\n'], HeaderLineStart, p);
    assert ['\r'] + ['\n'] == "\r\n";
  }

  lemma VerbRead(p: Parsed, verb: string)
    requires p.verb == "" && verb != "" && AllTokens(verb)
    ensures Leads(MethodStart, p, verb + " ", Uri, p.(verb := verb))
  {
    var p1 := p.(verb := [verb[0]]);
    LeadsOne(MethodStart, p, verb[0]);
    assert p.verb + [verb[0]] == [verb[0]];
    ReadsClass(Method, p1, verb[1..]);
    Chain(MethodStart, p, [verb[0]], Method, p1, verb[1..], Method, Collected(Method, p1, verb[1..]));
    assert [verb[0]] + verb[1..] == verb;
    LeadsOne(Method, p.(verb := verb), ' ');
    Chain(MethodStart, p, verb, Method, p.(verb := verb), " ", Uri, p.(verb := verb));
  }

  lemma VersionTextRead(p: Parsed)
    ensures Leads(VersionH, p, "HTTP/", MajorStart, p.(major := 0, minor := 0))
  {
    LeadsOne(VersionH, p, 'H');
    LeadsOne(VersionT1, p, 'T');
    Chain(VersionH, p, ['H'], VersionT1, p, ['T'], VersionT2, p);
    LeadsOne(VersionT2, p, 'T');
    Chain(VersionH, p, ['H'] + ['T'], VersionT2, p, ['T'], VersionP, p);
    LeadsOne(VersionP, p, 'P');
    Chain(VersionH, p, ['H'] + ['T'] + ['T'], VersionP, p, ['P'], VersionSlash, p);
    LeadsOne(VersionSlash, p, '/');
    Chain(VersionH, p, ['H'] + ['T'] + ['T'] + ['P'], VersionSlash, p, ['/'], MajorStart, p.(major := 0, minor := 0));
    assert ['H'] + ['T'] + ['T'] + ['P'] + ['/'] == "HTTP/";
  }

  lemma UriRead(p: Parsed, uri: string)
    requires p.uri == "" && NoCtl(uri) && ' ' !in uri
    ensures Leads(Uri, p, uri + " HTTP/", MajorStart, p.(uri := uri, major := 0, minor := 0))
  {
    var p1 := p.(uri := uri);
    ReadsClass(Uri, p, uri);
    assert "" + uri == uri;
    LeadsOne(Uri, p1, ' ');
    Chain(Uri, p, uri, Uri, p1, " ", VersionH, p1);
    VersionTextRead(p1);
    Chain(Uri, p, uri + " ", VersionH, p1, "HTTP/", MajorStart, p1.(major := 0, minor := 0));
    assert uri + " " + "HTTP/" == uri + " HTTP/";
  }

  lemma MajorRead(p: Parsed, digits: string)
    requires digits != "" && AllDigits(digits)
    ensures Leads(MajorStart, p, digits + ".", MinorStart, p.(major := Decimal(p.major, digits)))
  {
    var p1 := p.(major := p.major * 10 + Digit(digits[0]));
    var p2 := p.(major := Decimal(p.major, digits));
    LeadsOne(MajorStart, p, digits[0]);
    ReadsClass(Major, p1, digits[1..]);
    Chain(MajorStart, p, [digits[0]], Major, p1, digits[1..], Major, p2);
    assert [digits[0]] + digits[1..] == digits;
    LeadsOne(Major, p2, '.');
    Chain(MajorStart, p, digits, Major, p2, ".", MinorStart, p2);
  }

  lemma MinorRead(p: Parsed, digits: string)
    requires digits != "" && AllDigits(digits)
    ensures Leads(MinorStart, p, digits + "\r\n", HeaderLineStart, p.(minor := Decimal(p.minor, digits)))
  {
    var p1 := p.(minor := p.minor * 10 + Digit(digits[0]));
    var p2 := p.(minor := Decimal(p.minor, digits));
    LeadsOne(MinorStart, p, digits[0]);
    ReadsClass(Minor, p1, digits[1..]);
    Chain(MinorStart, p, [digits[0]], Minor, p1, digits[1..], Minor, p2);
    assert [digits[0]] + digits[1..] == digits;
    LineEndRead(Minor, p2);
    Chain(MinorStart, p, digits, Minor, p2, "\r\n", HeaderLineStart, p2);
  }

  function WithHeaders(p: Parsed, more: seq<Header>): Parsed { p.(headers := p.headers + more) }

  /** The record with `text` appended to the value of its last header. */
  function Appended(p: Parsed, text: string): Parsed
    requires p.headers != []
  {
    Collected(HeaderValue, p, text)
  }

  lemma NameRead(p: Parsed, name: string)
    requires name != "" && AllTokens(name)
    ensures Leads(HeaderLineStart, p, name + ": ", HeaderValue, WithHeaders(p, [Header(name, "")]))
  {
    var p1, p2 := WithHeaders(p, [Header([name[0]], "")]), WithHeaders(p, [Header(name, "")]);
    LeadsOne(HeaderLineStart, p, name[0]);
    ReadsClass(HeaderName, p1, name[1..]);
    assert [name[0]] + name[1..] == name;
    assert Collected(HeaderName, p1, name[1..]) == p2;
    Chain(HeaderLineStart, p, [name[0]], HeaderName, p1, name[1..], HeaderName, p2);
    LeadsOne(HeaderName, p2, ':');
    Chain(HeaderLineStart, p, name, HeaderName, p2, ":", SpaceBeforeValue, p2);
    LeadsOne(SpaceBeforeValue, p2, ' ');
    Chain(HeaderLineStart, p, name + ":", SpaceBeforeValue, p2, " ", HeaderValue, p2);
    assert name + ":" + " " == name + ": ";
  }

  lemma ValueRead(p: Parsed, value: string)
    requires p.headers != [] && NoCtl(value)
    ensures Leads(HeaderValue, p, value + "\r\n", HeaderLineStart, Appended(p, value))
  {
    ReadsClass(HeaderValue, p, value);
    LineEndRead(HeaderValue, Appended(p, value));
    Chain(HeaderValue, p, value, HeaderValue, Appended(p, value), "\r\n", HeaderLineStart, Appended(p, value));
  }

  lemma FoldRead(p: Parsed, f: Fold)
    requires p.headers != [] && IsFold(f)
    ensures Leads(HeaderLineStart, p, RenderFold(f), HeaderLineStart, Appended(p, f.text))
  {
    LeadsOne(HeaderLineStart, p, f.blanks[0]);
    ReadsClass(HeaderLws, p, f.blanks[1..]);
    Chain(HeaderLineStart, p, [f.blanks[0]], HeaderLws, p, f.blanks[1..], HeaderLws, p);
    assert [f.blanks[0]] + f.blanks[1..] == f.blanks;
    FoldTextRead(p, f.text);
    Chain(HeaderLineStart, p, f.blanks, HeaderLws, p, f.text + "\r\n", HeaderLineStart, Appended(p, f.text));
  }

  lemma FoldTextRead(p: Parsed, text: string)
    requires p.headers != [] && NoCtl(text) && (text != "" ==> text[0] != ' ')
    ensures Leads(HeaderLws, p, text + "\r\n", HeaderLineStart, Appended(p, text))
  {
    if text == "" {
      CollectedNone(HeaderValue, p);
      LineEndRead(HeaderLws, p);
      assert text + "\r\n" == "\r\n";
    } else {
      var p1 := Appended(p, [text[0]]);
      LeadsOne(HeaderLws, p, text[0]);
      ValueRead(p1, text[1..]);
      CollectedMore(HeaderValue, p, text[0], text[1..]);
      assert [text[0]] + text[1..] == text;
      Chain(HeaderLws, p, [text[0]], HeaderValue, p1, text[1..] + "\r\n", HeaderLineStart, Appended(p, text));
      assert [text[0]] + (text[1..] + "\r\n") == text + "\r\n";
    }
  }

  predicate AreFolds(fs: seq<Fold>) { forall i :: 0 <= i < |fs| ==> IsFold(fs[i]) }

  lemma {:induction false} FoldsRead(p: Parsed, fs: seq<Fold>)
    requires p.headers != [] && AreFolds(fs)
    ensures Leads(HeaderLineStart, p, RenderFolds(fs), HeaderLineStart, Appended(p, FoldTexts(fs)))
    decreases |fs|
  {
    if fs == [] {
      LeadsNowhere(HeaderLineStart, p);
      CollectedNone(HeaderValue, p);
    } else {
      var p1 := Appended(p, fs[0].text);
      FoldRead(p, fs[0]);
      FoldsRead(p1, fs[1..]);
      AppendedTwice(p, fs[0].text, FoldTexts(fs[1..]));
      Chain(HeaderLineStart, p, RenderFold(fs[0]), HeaderLineStart, p1,
            RenderFolds(fs[1..]), HeaderLineStart, Appended(p, FoldTexts(fs)));
    }
  }

  lemma AppendedTwice(p: Parsed, one: string, two: string)
    requires p.headers != []
    ensures Appended(Appended(p, one), two) == Appended(p, one + two)
  {
    var n := |p.headers| - 1;
    assert p.headers[n].value + one + two == p.headers[n].value + (one + two);
  }

  function HeaderOf(f: Field): Header { Header(f.name, f.value + FoldTexts(f.folds)) }

  lemma FieldRead(p: Parsed, f: Field)
    requires IsField(f)
    ensures Leads(HeaderLineStart, p, RenderField(f), HeaderLineStart, WithHeaders(p, [HeaderOf(f)]))
  {
    var p1, p2 := WithHeaders(p, [Header(f.name, "")]), WithHeaders(p, [Header(f.name, f.value)]);
    NameRead(p, f.name);
    ValueRead(p1, f.value);
    assert "" + f.value == f.value;
    assert Appended(p1, f.value) == p2;
    Chain(HeaderLineStart, p, f.name + ": ", HeaderValue, p1, f.value + "\r\n", HeaderLineStart, p2);
    FoldsRead(p2, f.folds);
    assert Appended(p2, FoldTexts(f.folds)) == WithHeaders(p, [HeaderOf(f)]);
    Chain(HeaderLineStart, p, (f.name + ": ") + (f.value + "\r\n"), HeaderLineStart, p2,
          RenderFolds(f.folds), HeaderLineStart, WithHeaders(p, [HeaderOf(f)]));
  }

  lemma {:induction false} FieldsRead(p: Parsed, fs: seq<Field>)
    requires AreFields(fs)
    ensures Leads(HeaderLineStart, p, RenderFields(fs), HeaderLineStart, WithHeaders(p, HeadersOf(fs)))
    decreases |fs|
  {
    if fs == [] {
      LeadsNowhere(HeaderLineStart, p);
      assert p.headers + [] == p.headers;
    } else {
      var p1 := WithHeaders(p, [HeaderOf(fs[0])]);
      FieldRead(p, fs[0]);
      FieldsRead(p1, fs[1..]);
      assert p1.headers + HeadersOf(fs[1..]) == p.headers + HeadersOf(fs);
      Chain(HeaderLineStart, p, RenderField(fs[0]), HeaderLineStart, p1,
            RenderFields(fs[1..]), HeaderLineStart, WithHeaders(p, HeadersOf(fs)));
    }
  }

  /** A fresh record, whatever its version numbers are. */
  predicate IsFresh(p: Parsed) { p.verb == "" && p.uri == "" && p.headers == [] }

  lemma RequestLineRead(p: Parsed, h: Head)
    requires IsFresh(p) && IsHead(h)
    ensures Leads(MethodStart, p, RequestLine(h), HeaderLineStart, Denote(h).(headers := []))
  {
    var p1 := p.(verb := h.verb);
    var p2 := Parsed(h.verb, h.uri, 0, 0, []);
    var p3 := p2.(major := Decimal(0, h.major));
    VerbRead(p, h.verb);
    UriRead(p1, h.uri);
    Chain(MethodStart, p, h.verb + " ", Uri, p1, h.uri + " HTTP/", MajorStart, p2);
    MajorRead(p2, h.major);
    Chain(MethodStart, p, (h.verb + " ") + (h.uri + " HTTP/"), MajorStart, p2, h.major + ".", MinorStart, p3);
    MinorRead(p3, h.minor);
    Chain(MethodStart, p, (h.verb + " ") + (h.uri + " HTTP/") + (h.major + "."), MinorStart, p3,
          h.minor + "\r\n", HeaderLineStart, Denote(h).(headers := []));
  }

  lemma BlankLineRead(p: Parsed, rest: string)
    ensures Run(HeaderLineStart, p, "\r\n" + rest) == Done(true, Newline3, p, rest)
  {
    LeadsOne(HeaderLineStart, p, '\r');
    assert "\r\n" + rest == ['\r'] + (['\n'] + rest);
    assert (['\n'] + rest)[1..] == rest;
  }

  /** Every derivable head is accepted at its last byte, and the record is what it denotes. */
  lemma DerivableAccepted(p: Parsed, h: Head, rest: string)
    requires IsFresh(p) && IsHead(h)
    ensures Run(MethodStart, p, Render(h) + rest) == Done(true, Newline3, Denote(h), rest)
  {
    var p1 := Denote(h).(headers := []);
    RequestLineRead(p, h);
    FieldsRead(p1, h.fields);
    assert [] + HeadersOf(h.fields) == HeadersOf(h.fields);
    Chain(MethodStart, p, RequestLine(h), HeaderLineStart, p1, RenderFields(h.fields), HeaderLineStart, Denote(h));
    assert Render(h) + rest == (RequestLine(h) + RenderFields(h.fields)) + ("\r\n" + rest);
    BlankLineRead(Denote(h), rest);
  }

  // ----- soundness -----

  predicate Accepting(st: State, p: Parsed, s: string) { Run(st, p, s).Done? && Run(st, p, s).accepted }

  lemma Byte(st: State, p: Parsed, s: string)
    requires Accepting(st, p, s) && !st.Newline3?
    ensures s != "" && (UsesLastHeader(st, s[0]) ==> p.headers != [])
    ensures var next := Step(st, p, s[0]);
            next.verdict.Indeterminate? && Run(st, p, s) == Run(next.state, next.parsed, s[1..])
  {
  }

  /** What an accepted text consists of in a state that collects: a string of its class, then a
      byte at which the machine goes on to another state. */
  lemma {:induction false} ClassFound(st: State, p: Parsed, s: string) returns (w: string, rest: string)
    requires Collects(st) && (st.HeaderName? || st.HeaderValue? || st.HeaderLws? ==> p.headers != [])
    requires Accepting(st, p, s)
    ensures s == w + rest && AllInClass(st, w)
    ensures Run(st, p, s) == Run(st, Collected(st, p, w), rest)
    ensures rest != "" && !InClass(st, rest[0])
    decreases |s|
  {
    Byte(st, p, s);
    if InClass(st, s[0]) {
      CollectedOne(st, p, s[0]);
      w, rest := ClassFound(st, Collected(st, p, [s[0]]), s[1..]);
      HeadTail(s);
      Assoc([s[0]], w, rest);
      w := [s[0]] + w;
    } else {
      w, rest := "", s;
    }
    ReadsClass(st, p, w);
  }

  lemma VerbFound(p: Parsed, s: string) returns (verb: string, rest: string)
    requires p.verb == "" && Accepting(MethodStart, p, s)
    ensures s == (verb + " ") + rest && verb != "" && AllTokens(verb)
    ensures Accepting(Uri, p.(verb := verb), rest)
  {
    Byte(MethodStart, p, s);
    var p1 := Step(MethodStart, p, s[0]).parsed;
    var w, tail := ClassFound(Method, p1, s[1..]);
    Byte(Method, Collected(Method, p1, w), tail);
    verb, rest := [s[0]] + w, tail[1..];
    assert s == (verb + " ") + rest by {
      HeadTail(s);
      HeadTail(tail);
      Assoc([s[0]], w, tail);
      Assoc(verb, " ", rest);
    }
    VerbRead(p, verb);
  }

  lemma UriFound(p: Parsed, s: string) returns (uri: string, rest: string)
    requires p.uri == "" && Accepting(Uri, p, s)
    ensures s == (uri + " HTTP/") + rest && NoCtl(uri) && ' ' !in uri
    ensures Accepting(MajorStart, p.(uri := uri, major := 0, minor := 0), rest)
  {
    var tail;
    uri, tail := ClassFound(Uri, p, s);
    var p1 := Collected(Uri, p, uri);
    Byte(Uri, p1, tail);
    var t := tail[1..];
    rest := VersionTextFound(p1, t);
    assert s == (uri + " HTTP/") + rest by {
      HeadTail(tail);
      Assoc(" ", "HTTP/", rest);
      assert " " + "HTTP/" == " HTTP/";
      Assoc(uri, " HTTP/", rest);
    }
    UriRead(p, uri);
  }

  lemma VersionTextFound(p: Parsed, t: string) returns (rest: string)
    requires Accepting(VersionH, p, t)
    ensures t == "HTTP/" + rest
  {
    Byte(VersionH, p, t);
    var t1 := t[1..];
    Byte(VersionT1, p, t1);
    var t2 := t1[1..];
    Byte(VersionT2, p, t2);
    var t3 := t2[1..];
    Byte(VersionP, p, t3);
    var t4 := t3[1..];
    Byte(VersionSlash, p, t4);
    rest := t4[1..];
    HttpText(t, t1, t2, t3, t4);
  }

  lemma HttpText(t: string, t1: string, t2: string, t3: string, t4: string)
    requires t != "" && t1 == t[1..] && t1 != "" && t2 == t1[1..] && t2 != "" && t3 == t2[1..] && t3 != ""
    requires t4 == t3[1..] && t4 != "" && t[0] == 'H' && t1[0] == 'T' && t2[0] == 'T' && t3[0] == 'P' && t4[0] == '/'
    ensures t == "HTTP/" + t4[1..]
  {
  }

  lemma MajorFound(p: Parsed, s: string) returns (digits: string, rest: string)
    requires Accepting(MajorStart, p, s)
    ensures s == (digits + ".") + rest && digits != "" && AllDigits(digits)
    ensures Accepting(MinorStart, p.(major := Decimal(p.major, digits)), rest)
  {
    Byte(MajorStart, p, s);
    var p1 := Step(MajorStart, p, s[0]).parsed;
    var w, tail := ClassFound(Major, p1, s[1..]);
    Byte(Major, Collected(Major, p1, w), tail);
    digits, rest := [s[0]] + w, tail[1..];
    assert s == (digits + ".") + rest by {
      HeadTail(s);
      HeadTail(tail);
      Assoc([s[0]], w, tail);
      Assoc(digits, ".", rest);
    }
    MajorRead(p, digits);
  }

  lemma LineEndFound(st: State, p: Parsed, s: string) returns (rest: string)
    requires st.Minor? || (p.headers != [] && (st.HeaderValue? || st.HeaderLws?))
    requires Accepting(st, p, s) && s[0] == '\r'
    ensures s == "\r\n" + rest && Accepting(HeaderLineStart, p, rest)
  {
    Byte(st, p, s);
    var t := s[1..];
    Byte(Step(st, p, s[0]).state, p, t);
    rest := t[1..];
    HeadTwo(s);
    LineEndRead(st, p);
  }

  lemma MinorFound(p: Parsed, s: string) returns (digits: string, rest: string)
    requires Accepting(MinorStart, p, s)
    ensures s == (digits + "\r\n") + rest && digits != "" && AllDigits(digits)
    ensures Accepting(HeaderLineStart, p.(minor := Decimal(p.minor, digits)), rest)
  {
    Byte(MinorStart, p, s);
    var p1 := Step(MinorStart, p, s[0]).parsed;
    var w, tail := ClassFound(Minor, p1, s[1..]);
    Byte(Minor, Collected(Minor, p1, w), tail);
    rest := LineEndFound(Minor, Collected(Minor, p1, w), tail);
    digits := [s[0]] + w;
    assert s == (digits + "\r\n") + rest by {
      HeadTail(s);
      Assoc([s[0]], w, tail);
      Assoc(digits, "\r\n", rest);
    }
    MinorRead(p, digits);
  }

  lemma NameFound(p: Parsed, s: string) returns (name: string, rest: string)
    requires Accepting(HeaderLineStart, p, s) && IsToken(s[0])
    ensures s == (name + ": ") + rest && name != "" && AllTokens(name)
    ensures Accepting(HeaderValue, WithHeaders(p, [Header(name, "")]), rest)
  {
    Byte(HeaderLineStart, p, s);
    var p1 := Step(HeaderLineStart, p, s[0]).parsed;
    var w, tail := ClassFound(HeaderName, p1, s[1..]);
    var p2 := Collected(HeaderName, p1, w);
    Byte(HeaderName, p2, tail);
    var t := tail[1..];
    Byte(SpaceBeforeValue, p2, t);
    name, rest := [s[0]] + w, t[1..];
    NameText(s, w, tail, rest);
    NameRead(p, name);
  }

  lemma NameText(s: string, w: string, tail: string, rest: string)
    requires s != "" && s[1..] == w + tail && tail != "" && tail[0] == ':'
    requires tail[1..] != "" && tail[1..][0] == ' ' && rest == tail[1..][1..]
    ensures s == (([s[0]] + w) + ": ") + rest
  {
    HeadTail(s);
    HeadTwo(tail);
    Assoc([s[0]], w, tail);
    Assoc([s[0]] + w, ": ", rest);
  }

  lemma ValueFound(p: Parsed, s: string) returns (value: string, rest: string)
    requires p.headers != [] && Accepting(HeaderValue, p, s)
    ensures s == (value + "\r\n") + rest && NoCtl(value)
    ensures Accepting(HeaderLineStart, Appended(p, value), rest)
  {
    var tail;
    value, tail := ClassFound(HeaderValue, p, s);
    Byte(HeaderValue, Appended(p, value), tail);
    rest := LineEndFound(HeaderValue, Appended(p, value), tail);
    Assoc(value, "\r\n", rest);
  }

  lemma FoldFound(p: Parsed, s: string) returns (f: Fold, rest: string)
    requires p.headers != [] && Accepting(HeaderLineStart, p, s) && IsBlank(s[0])
    ensures s == RenderFold(f) + rest && IsFold(f)
    ensures Accepting(HeaderLineStart, Appended(p, f.text), rest)
  {
    Byte(HeaderLineStart, p, s);
    var w, tail := ClassFound(HeaderLws, p, s[1..]);
    Byte(HeaderLws, p, tail);
    var text;
    text, rest := FoldTextFound(p, tail);
    f := Fold([s[0]] + w, text);
    assert s == RenderFold(f) + rest by {
      HeadTail(s);
      Assoc([s[0]], w, tail);
      Assoc(f.blanks, text + "\r\n", rest);
    }
    assert IsFold(f);
    FoldRead(p, f);
  }

  lemma FoldTextFound(p: Parsed, s: string) returns (text: string, rest: string)
    requires p.headers != [] && Accepting(HeaderLws, p, s) && !IsBlank(s[0])
    ensures s == (text + "\r\n") + rest && NoCtl(text) && (text != "" ==> text[0] != ' ')
  {
    Byte(HeaderLws, p, s);
    if s[0] == '\r' {
      rest := LineEndFound(HeaderLws, p, s);
      text := "";
    } else {
      var more;
      more, rest := ValueFound(Step(HeaderLws, p, s[0]).parsed, s[1..]);
      text := [s[0]] + more;
      HeadTail(s);
      Assoc([s[0]], more, "\r\n");
      Assoc([s[0]], more + "\r\n", rest);
    }
  }

  lemma {:induction false} FoldsFound(p: Parsed, s: string) returns (fs: seq<Fold>, rest: string)
    requires p.headers != [] && Accepting(HeaderLineStart, p, s)
    ensures s == RenderFolds(fs) + rest && AreFolds(fs)
    ensures Accepting(HeaderLineStart, Appended(p, FoldTexts(fs)), rest) && rest != "" && !IsBlank(rest[0])
    decreases |s|
  {
    Byte(HeaderLineStart, p, s);
    if IsBlank(s[0]) {
      var f, tail := FoldFound(p, s);
      var more;
      more, rest := FoldsFound(Appended(p, f.text), tail);
      fs := [f] + more;
      Assoc(RenderFold(f), RenderFolds(more), rest);
    } else {
      fs, rest := [], s;
    }
    FoldsRead(p, fs);
  }

  lemma {:induction false} FieldsFound(p: Parsed, s: string) returns (fs: seq<Field>, rest: string)
    requires Accepting(HeaderLineStart, p, s) && (p.headers == [] || !IsBlank(s[0]))
    ensures s == RenderFields(fs) + ("\r\n" + rest) && AreFields(fs)
    decreases |s|
  {
    Byte(HeaderLineStart, p, s);
    if s[0] == '\r' {
      var t := s[1..];
      assert t != "" && t[0] == '\n';
      fs, rest := [], t[1..];
      HeadTwo(s);
    } else {
      var f, tail := FieldFound(p, s);
      var more;
      more, rest := FieldsFound(WithHeaders(p, [HeaderOf(f)]), tail);
      fs := [f] + more;
      Assoc(RenderField(f), RenderFields(more), "\r\n" + rest);
    }
  }

  lemma FieldFound(p: Parsed, s: string) returns (f: Field, rest: string)
    requires Accepting(HeaderLineStart, p, s) && IsToken(s[0])
    ensures s == RenderField(f) + rest && IsField(f)
    ensures Accepting(HeaderLineStart, WithHeaders(p, [HeaderOf(f)]), rest) && rest != "" && !IsBlank(rest[0])
  {
    var name, s1 := NameFound(p, s);
    var p1 := WithHeaders(p, [Header(name, "")]);
    var value, s2 := ValueFound(p1, s1);
    var folds;
    folds, rest := FoldsFound(Appended(p1, value), s2);
    f := Field(name, value, folds);
    assert s == RenderField(f) + rest by {
      Assoc(value + "\r\n", RenderFolds(folds), rest);
      Assoc(name + ": ", value + "\r\n", RenderFolds(folds));
      Assoc(name + ": ", (value + "\r\n") + RenderFolds(folds), rest);
    }
    FieldRead(p, f);
  }

  /** Every accepted text is a derivable head and what follows it. */
  lemma AcceptedDerivable(p: Parsed, s: string) returns (h: Head, rest: string)
    requires IsFresh(p) && Accepting(MethodStart, p, s)
    ensures IsHead(h) && s == Render(h) + rest
    ensures Run(MethodStart, p, s) == Done(true, Newline3, Denote(h), rest)
  {
    var verb, s1 := VerbFound(p, s);
    var p1 := p.(verb := verb);
    var uri, s2 := UriFound(p1, s1);
    var p2 := p1.(uri := uri, major := 0, minor := 0);
    var major, s3 := MajorFound(p2, s2);
    var p3 := p2.(major := Decimal(p2.major, major));
    var minor, s4 := MinorFound(p3, s3);
    var fields;
    fields, rest := FieldsFound(p3.(minor := Decimal(p3.minor, minor)), s4);
    h := Head(verb, uri, major, minor, fields);
    HeadText(h, s, s1, s2, s3, s4, rest);
    DerivableAccepted(p, h, rest);
  }

  lemma HeadText(h: Head, s: string, s1: string, s2: string, s3: string, s4: string, rest: string)
    requires s == (h.verb + " ") + s1 && s1 == (h.uri + " HTTP/") + s2 && s2 == (h.major + ".") + s3
    requires s3 == (h.minor + "\r\n") + s4 && s4 == RenderFields(h.fields) + ("\r\n" + rest)
    ensures s == Render(h) + rest
  {
    assert s == RequestLine(h) + s4;
  }

  // ----- viability -----

  /** A shortest way to complete a head from each state. */
  function Completion(st: State): string
    decreases Distance(st)
  {
    match st
    case MethodStart => "G" + Completion(Method)
    case Method => " " + Completion(Uri)
    case Uri => " " + Completion(VersionH)
    case VersionH => "H" + Completion(VersionT1)
    case VersionT1 => "T" + Completion(VersionT2)
    case VersionT2 => "T" + Completion(VersionP)
    case VersionP => "P" + Completion(VersionSlash)
    case VersionSlash => "/" + Completion(MajorStart)
    case MajorStart => "1" + Completion(Major)
    case Major => "." + Completion(MinorStart)
    case MinorStart => "1" + Completion(Minor)
    case Minor => "\r" + Completion(Newline1)
    case Newline1 => "\n" + Completion(HeaderLineStart)
    case HeaderLineStart => "\r" + Completion(Newline3)
    case HeaderLws => "\r" + Completion(Newline2)
    case HeaderName => ":" + Completion(SpaceBeforeValue)
    case SpaceBeforeValue => " " + Completion(HeaderValue)
    case HeaderValue => "\r" + Completion(Newline2)
    case Newline2 => "\n" + Completion(HeaderLineStart)
    case Newline3 => "\n"
  }

  function Distance(st: State): nat {
    match st
    case MethodStart => 15 case Method => 14 case Uri => 13 case VersionH => 12 case VersionT1 => 11
    case VersionT2 => 10 case VersionP => 9 case VersionSlash => 8 case MajorStart => 7 case Major => 6
    case MinorStart => 5 case Minor => 4 case Newline1 => 2 case HeaderLineStart => 1 case HeaderLws => 3
    case HeaderName => 5 case SpaceBeforeValue => 4 case HeaderValue => 3 case Newline2 => 2 case Newline3 => 0
  }

  lemma {:induction false} CompletionAccepted(st: State, p: Parsed)
    ensures Accepting(st, p, Completion(st)) && Run(st, p, Completion(st)).rest == ""
    ensures Completion(st) != ""
    decreases Distance(st)
  {
    var s := Completion(st);
    if !st.Newline3? {
      var next := Step(st, p, s[0]);
      assert next.verdict.Indeterminate? && s[1..] == Completion(next.state);
      CompletionAccepted(next.state, next.parsed);
    }
  }

  lemma {:induction false} RunAppend(st: State, p: Parsed, a: string, b: string)
    ensures Run(st, p, a + b) ==
            match Run(st, p, a)
            case Partial(st', p') => Run(st', p', b)
            case Done(accepted, st', p', rest) => Done(accepted, st', p', rest + b)
            case Crash => Crash
    decreases |a|
  {
    if a == "" {
      assert a + b == b;
    } else {
      assert (a + b)[0] == a[0] && (a + b)[1..] == a[1..] + b;
      if !(UsesLastHeader(st, a[0]) && p.headers == []) {
        var next := Step(st, p, a[0]);
        RunAppend(next.state, next.parsed, a[1..], b);
      }
    }
  }

  ghost predicate Derivable(s: string) { exists h :: IsHead(h) && Render(h) == s }

  /** The machine accepts a text at its last byte iff it is a request head. */
  lemma AcceptsExactlyHeads(p: Parsed, s: string)
    requires IsFresh(p)
    ensures (Accepting(MethodStart, p, s) && Run(MethodStart, p, s).rest == "") <==> Derivable(s)
  {
    if Accepting(MethodStart, p, s) && Run(MethodStart, p, s).rest == "" {
      var h, rest := AcceptedDerivable(p, s);
      assert Render(h) + rest == Render(h);
    }
    forall h | IsHead(h) && Render(h) == s
      ensures Accepting(MethodStart, p, s) && Run(MethodStart, p, s).rest == ""
    {
      DerivableAccepted(p, h, "");
      assert Render(h) + "" == s;
    }
  }

  /** Some request head goes on from `s`. */
  ghost predicate Viable(s: string) { exists t :: t != "" && Derivable(s + t) }

  /** The machine asks for more bytes exactly as long as some request head goes on. */
  lemma AsksExactlyWhileViable(p: Parsed, s: string)
    requires IsFresh(p)
    ensures Run(MethodStart, p, s).Partial? <==> Viable(s)
  {
    var r := Run(MethodStart, p, s);
    if r.Partial? {
      var t := Completion(r.state);
      CompletionAccepted(r.state, r.parsed);
      RunAppend(MethodStart, p, s, t);
      AcceptsExactlyHeads(p, s + t);
    }
    forall t | t != "" && Derivable(s + t) ensures r.Partial? {
      AcceptsExactlyHeads(p, s + t);
      RunAppend(MethodStart, p, s, t);
    }
  }

  /** It refuses right at the first byte that no head can have there. */
  lemma RefusesFirstBadByte(p: Parsed, s: string, c: char)
    requires IsFresh(p) && Viable(s)
    ensures var r := Run(MethodStart, p, s + [c]);
            (r.Done? && !r.accepted && r.rest == "") <==> !Derivable(s + [c]) && !Viable(s + [c])
  {
    AsksExactlyWhileViable(p, s);
    AsksExactlyWhileViable(p, s + [c]);
    AcceptsExactlyHeads(p, s + [c]);
    RunAppend(MethodStart, p, s, [c]);
    ThreadedNeverCrashes(MethodStart, p, s + [c]);
    var mid := Run(MethodStart, p, s);
    assert [c][1..] == "" && Run(mid.state, mid.parsed, [c]).Done? ==> Run(mid.state, mid.parsed, [c]).rest == "";
  }

  // ----- continuation lines -----

  /** A line that begins with a blank or a tab carries on the value before it, without the blanks and tabs
      at its beginning. */
  lemma FoldIsRead(p: Parsed, blanks: string, text: string, rest: string)
    requires p.headers != [] && blanks != "" && forall i :: 0 <= i < |blanks| ==> blanks[i] == ' ' || blanks[i] == '\t'
    requires NoCtl(text) && (text != "" ==> text[0] != ' ')
    ensures Run(HeaderLineStart, p, (blanks + (text + "\r\n")) + rest) ==
            var n := |p.headers| - 1; var last := p.headers[n];
            Run(HeaderLineStart, p.(headers := p.headers[n := last.(value := last.value + text)]), rest)
  {
    FoldRead(p, Fold(blanks, text));
  }
}
