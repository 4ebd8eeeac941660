/** Reading a request in several calls of `parse`. Every call starts a fresh record while the state
    persists, so what a call does depends on the state and on whether it has seen a header. */
module RequestSplit {
  import opened RequestParser
  import opened RequestGrammar
  import opened Sequences

  /** Two runs that differ at most in the data they collect. */
  predicate SameControl(one: Outcome, other: Outcome) {
    match one
    case Done(accepted, st, _, rest) =>
      other.Done? && other.accepted == accepted && other.state == st && other.rest == rest
    case Partial(st, _) => other.Partial? && other.state == st
    case Crash => other.Crash?
  }

  lemma {:induction false} ControlIgnoresData(st: State, p: Parsed, q: Parsed, s: string)
    requires p.headers == [] <==> q.headers == []
    ensures SameControl(Run(st, p, s), Run(st, q, s))
    decreases |s|
  {
    if s != "" && !(UsesLastHeader(st, s[0]) && p.headers == []) {
      var one, other := Step(st, p, s[0]), Step(st, q, s[0]);
      if one.verdict.Indeterminate? {
        ControlIgnoresData(one.state, one.parsed, other.parsed, s[1..]);
      }
    }
  }

  /** Cutting the input before the first header begins changes neither the verdict, nor the state,
      nor the number of bytes read. */
  lemma SplitBeforeHeaders(st: State, p: Parsed, again: Parsed, s: string, t: string)
    requires Run(st, p, s).Partial? && Run(st, p, s).parsed.headers == []
    requires IsFresh(again)
    ensures SameControl(Run(st, p, s + t), Run(Run(st, p, s).state, again, t))
  {
    RunAppend(st, p, s, t);
    ControlIgnoresData(Run(st, p, s).state, Run(st, p, s).parsed, again, t);
  }

  lemma AcceptedAlike(one: Outcome, other: Outcome, rest: string)
    requires SameControl(one, other) && one.Done? && one.accepted && one.rest == rest
    ensures other.Done? && other.accepted && other.rest == rest
  {
  }

  /** A head that is cut before its first header is accepted by the second of two calls. */
  lemma SplitHeadAccepted(p: Parsed, again: Parsed, h: Head, one: string, two: string, rest: string)
    requires IsFresh(p) && IsFresh(again) && IsHead(h) && Render(h) == one + two
    requires Run(MethodStart, p, one).Partial? && Run(MethodStart, p, one).parsed.headers == []
    ensures Accepting(Run(MethodStart, p, one).state, again, two + rest)
    ensures Run(Run(MethodStart, p, one).state, again, two + rest).rest == rest
  {
    DerivableAccepted(p, h, rest);
    Assoc(one, two, rest);
    SplitBeforeHeaders(MethodStart, p, again, one, two + rest);
    AcceptedAlike(Run(MethodStart, p, one + (two + rest)), Run(Run(MethodStart, p, one).state, again, two + rest), rest);
  }

  /** After a header there are only the states of header lines and of the blank line. */
  predicate AfterHeader(st: State) { InHeaderLine(st) || st.HeaderLineStart? || st.Newline2? || st.Newline3? }

  lemma {:induction false} HeadersComeLast(st: State, p: Parsed, s: string)
    requires Run(st, p, s).Partial? && (p.headers == [] || AfterHeader(st))
    ensures Run(st, p, s).parsed.headers == [] || AfterHeader(Run(st, p, s).state)
    decreases |s|
  {
    if s != "" {
      var next := Step(st, p, s[0]);
      HeadersComeLast(next.state, next.parsed, s[1..]);
    }
  }

  /** In state `st`, `t` ends the header line without another character of its text, and a
      continuation line follows. */
  predicate FoldFollows(st: State, t: string)
    decreases |t|
  {
    t != "" &&
    match st
    case HeaderLineStart => IsBlank(t[0])
    case HeaderLws => (IsBlank(t[0]) && FoldFollows(HeaderLws, t[1..])) || (t[0] == '\r' && FoldFollows(Newline2, t[1..]))
    case HeaderName => t[0] == ':' && FoldFollows(SpaceBeforeValue, t[1..])
    case SpaceBeforeValue => t[0] == ' ' && FoldFollows(HeaderValue, t[1..])
    case HeaderValue => t[0] == '\r' && FoldFollows(Newline2, t[1..])
    case Newline2 => t[0] == '\n' && FoldFollows(HeaderLineStart, t[1..])
    case _ => false
  }

  lemma LineEndControl(q: Parsed, again: Parsed, t: string)
    ensures SameControl(Run(Newline3, q, t), Run(Newline3, again, t))
  {
  }

  /** A verdict costs at least one byte. */
  lemma {:induction false} RunShortens(st: State, p: Parsed, s: string)
    ensures Run(st, p, s).Done? ==> |Run(st, p, s).rest| < |s|
    decreases |s|
  {
    if s != "" && !(UsesLastHeader(st, s[0]) && p.headers == []) {
      var next := Step(st, p, s[0]);
      RunShortens(next.state, next.parsed, s[1..]);
    }
  }

  /** A record with headers and one without, at the beginning of a line. */
  lemma NextLine(q: Parsed, again: Parsed, t: string)
    requires q.headers != [] && again.headers == []
    ensures SameControl(Run(HeaderLineStart, q, t), Run(HeaderLineStart, again, t)) <==> !(t != "" && IsBlank(t[0]))
  {
    if t != "" {
      var one, other := Step(HeaderLineStart, q, t[0]), Step(HeaderLineStart, again, t[0]);
      if t[0] == ' ' || t[0] == '\t' {
        RunShortens(HeaderLws, q, t[1..]);
      } else if t[0] == '\r' {
        LineEndControl(q, again, t[1..]);
      } else if one.verdict.Indeterminate? {
        ControlIgnoresData(one.state, one.parsed, other.parsed, t[1..]);
      }
    }
  }

  /** The same, anywhere in the header lines. */
  lemma {:induction false} LineControl(st: State, q: Parsed, again: Parsed, t: string)
    requires AfterHeader(st) && q.headers != [] && again.headers == []
    ensures SameControl(Run(st, q, t), Run(st, again, t)) <==> !(Overruns(st, t) || FoldFollows(st, t))
    decreases |t|
  {
    if st.HeaderLineStart? {
      NextLine(q, again, t);
    } else if st.Newline3? {
      LineEndControl(q, again, t);
    } else if t != "" && UsesLastHeader(st, t[0]) {
      ThreadedNeverCrashes(st, q, t);
    } else if t != "" {
      var one, other := Step(st, q, t[0]), Step(st, again, t[0]);
      if one.verdict.Indeterminate? {
        LineControl(one.state, one.parsed, other.parsed, t[1..]);
      }
    }
  }

  /** Two calls agree with one on verdict, state and number of bytes exactly if the first has not
      seen a header yet, or the second neither goes on with the text of one nor begins, after the end
      of a line, with a continuation line. In the former case its behaviour is undefined. */
  lemma SplitAgreesExactly(st: State, p: Parsed, again: Parsed, s: string, t: string)
    requires IsFresh(p) && IsFresh(again) && Run(st, p, s).Partial?
    ensures var mid := Run(st, p, s);
            SameControl(Run(st, p, s + t), Run(mid.state, again, t)) <==>
            mid.parsed.headers == [] || !(Overruns(mid.state, t) || FoldFollows(mid.state, t))
    ensures Run(Run(st, p, s).state, again, t).Crash? <==> Overruns(Run(st, p, s).state, t)
  {
    var mid := Run(st, p, s);
    RunAppend(st, p, s, t);
    HeadersComeLast(st, p, s);
    CrashesExactlyIfOverruns(mid.state, again, t);
    if mid.parsed.headers == [] {
      ControlIgnoresData(mid.state, mid.parsed, again, t);
    } else {
      LineControl(mid.state, mid.parsed, again, t);
    }
  }

  /** Cutting the input between two header lines is harmless unless the next byte is a blank: the
      fresh record has no header to continue, and the second call refuses a legal continuation line. */
  lemma SplitBetweenHeaders(st: State, p: Parsed, again: Parsed, s: string, t: string)
    requires Run(st, p, s).Partial? && Run(st, p, s).parsed.headers != [] && Run(st, p, s).state.HeaderLineStart?
    requires IsFresh(again)
    ensures SameControl(Run(st, p, s + t), Run(HeaderLineStart, again, t)) <==>
            !(t != "" && (t[0] == ' ' || t[0] == '\t'))
  {
    RunAppend(st, p, s, t);
    NextLine(Run(st, p, s).parsed, again, t);
  }

  // ----- cuts inside a header -----

  lemma {:induction false} RenderSnoc(fs: seq<Field>, f: Field)
    ensures RenderFields(fs + [f]) == RenderFields(fs) + RenderField(f)
    decreases |fs|
  {
    if fs == [] {
      assert fs + [f] == [f] && [f][1..] == [];
    } else {
      assert (fs + [f])[1..] == fs[1..] + [f];
      RenderSnoc(fs[1..], f);
      Assoc(RenderField(fs[0]), RenderFields(fs[1..]), RenderField(f));
    }
  }

  /** The text of `h` before its blank line, and one more header up to the middle of its value. */
  function CutText(h: Head, name: string, value: string): string {
    (RequestLine(h) + RenderFields(h.fields)) + ((name + ": ") + value)
  }

  lemma CutTextRead(p: Parsed, h: Head, name: string, value: string)
    requires IsFresh(p) && IsHead(h) && name != "" && AllTokens(name) && NoCtl(value)
    ensures Run(MethodStart, p, CutText(h, name, value)).Partial?
    ensures Run(MethodStart, p, CutText(h, name, value)).state == HeaderValue
  {
    var p1 := Denote(h).(headers := []);
    var p2 := WithHeaders(p1, HeadersOf(h.fields));
    var p3 := WithHeaders(p2, [Header(name, "")]);
    RequestLineRead(p, h);
    FieldsRead(p1, h.fields);
    Chain(MethodStart, p, RequestLine(h), HeaderLineStart, p1, RenderFields(h.fields), HeaderLineStart, p2);
    NameRead(p2, name);
    ReadsClass(HeaderValue, p3, value);
    Chain(HeaderLineStart, p2, name + ": ", HeaderValue, p3, value, HeaderValue, Collected(HeaderValue, p3, value));
    Chain(MethodStart, p, RequestLine(h) + RenderFields(h.fields), HeaderLineStart, p2,
          (name + ": ") + value, HeaderValue, Collected(HeaderValue, p3, value));
    assert CutText(h, name, value) + "" == CutText(h, name, value);
  }

  lemma CutTextCompleted(h: Head, name: string, one: string, two: string)
    ensures Render(h.(fields := h.fields + [Field(name, one + two, [])])) == CutText(h, name, one) + (two + "\r\n\r\n")
  {
    var f := Field(name, one + two, []);
    var front := RequestLine(h) + RenderFields(h.fields);
    RenderSnoc(h.fields, f);
    assert RenderField(f) + "\r\n" == ((name + ": ") + one) + (two + "\r\n\r\n");
    Assoc(RequestLine(h), RenderFields(h.fields), RenderField(f));
    Assoc(front, RenderField(f), "\r\n");
    Assoc(front, (name + ": ") + one, two + "\r\n\r\n");
  }

  /** Whatever the request: if the value of its last header arrives in two reads, the first call asks
      for more and the second appends to a header that does not exist. */
  lemma CutInsideValueCrashes(p: Parsed, again: Parsed, h: Head, name: string, one: string, two: string)
    requires IsFresh(p) && IsFresh(again) && IsHead(h)
    requires name != "" && AllTokens(name) && NoCtl(one) && NoCtl(two) && two != ""
    ensures var whole := h.(fields := h.fields + [Field(name, one + two, [])]);
            IsHead(whole) && Render(whole) == CutText(h, name, one) + (two + "\r\n\r\n")
    ensures Run(MethodStart, p, CutText(h, name, one)).Partial?
    ensures Run(Run(MethodStart, p, CutText(h, name, one)).state, again, two + "\r\n\r\n") == Crash
  {
    CutTextCompleted(h, name, one, two);
    CutTextRead(p, h, name, one);
    assert (two + "\r\n\r\n")[0] == two[0];
    assert IsField(Field(name, one + two, []));
  }

  const SMALLEST := Head("G", "/", "1", "1", [])

  lemma SmallestText()
    ensures IsHead(SMALLEST) && AllTokens("A") && CutText(SMALLEST, "A", "b") == "G / HTTP/1.1\r\nA: b"
    ensures "c" + "\r\n\r\n" == "c\r\n\r\n"
  {
    assert RequestLine(SMALLEST) == ("G" + " ") + ("/" + " HTTP/") + ("1" + ".") + ("1" + "\r\n");
    assert ("G" + " ") + ("/" + " HTTP/") == "G / HTTP/";
    assert ("1" + ".") + ("1" + "\r\n") == "1.1\r\n";
    assert RequestLine(SMALLEST) == "G / HTTP/1.1\r\n";
    assert RenderFields([]) == "" && ("A" + ": ") + "b" == "A: b";
  }

  /** A request that crashes the parser when it arrives in two reads. */
  lemma CrashingInput(p: Parsed, again: Parsed, one: string, two: string)
    requires IsFresh(p) && IsFresh(again)
    requires one == "G / HTTP/1.1\r\nA: b" && two == "c\r\n\r\n"
    ensures Derivable(one + two)
    ensures Run(MethodStart, p, one).Partial? && Run(Run(MethodStart, p, one).state, again, two) == Crash
  {
    SmallestText();
    CutInsideValueCrashes(p, again, SMALLEST, "A", "b", "c");
  }

  // ----- the data of a split request -----

  /** The bytes that the machine appends to the method. */
  function VerbPart(st: State, s: string): string
    decreases |s|
  {
    if s == "" || !(st.MethodStart? || st.Method?) || !IsToken(s[0]) then "" else [s[0]] + VerbPart(Method, s[1..])
  }

  lemma {:induction false} VerbGrows(st: State, p: Parsed, s: string)
    requires Run(st, p, s).Done?
    ensures Run(st, p, s).parsed.verb == p.verb + VerbPart(st, s)
    decreases |s|
  {
    var next := Step(st, p, s[0]);
    assert p.verb + "" == p.verb;
    if next.verdict.Indeterminate? {
      VerbGrows(next.state, next.parsed, s[1..]);
      Assoc(p.verb, [s[0]], VerbPart(Method, s[1..]));
    }
  }

  lemma {:induction false} MethodStays(st: State, p: Parsed, s: string)
    requires Run(st, p, s).Partial?
    ensures |p.verb| <= |Run(st, p, s).parsed.verb|
    decreases |s|
  {
    if s != "" {
      var next := Step(st, p, s[0]);
      MethodStays(next.state, next.parsed, s[1..]);
    }
  }

  /** Of a request that is read in two calls, the second hands over the right record, and the right
      method, only if the first call had read nothing at all. */
  lemma SplitLosesMethod(p: Parsed, again: Parsed, s: string, t: string)
    requires IsFresh(p) && IsFresh(again) && Run(MethodStart, p, s).Partial?
    requires Accepting(MethodStart, p, s + t) && Accepting(Run(MethodStart, p, s).state, again, t)
    ensures var whole, second := Run(MethodStart, p, s + t).parsed, Run(Run(MethodStart, p, s).state, again, t).parsed;
            (second.verb == whole.verb <==> s == "") && (second == whole <==> s == "")
  {
    var mid := Run(MethodStart, p, s);
    RunAppend(MethodStart, p, s, t);
    VerbGrows(mid.state, mid.parsed, t);
    VerbGrows(mid.state, again, t);
    if s == "" {
      assert s + t == t;
      var h, rest := AcceptedDerivable(p, t);
      DerivableAccepted(again, h, rest);
    } else {
      var next := Step(MethodStart, p, s[0]);
      MethodStays(next.state, next.parsed, s[1..]);
    }
  }
}
