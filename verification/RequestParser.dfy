/** The HTTP request parser: `request_parser`, a machine of twenty states that reads one byte at a
    time. Characters below 128 are the bytes of the source; the others stand for the bytes that are
    negative in its signed `char`, which are neither characters nor controls to it. */
module RequestParser {
  datatype State =
    | MethodStart | Method | Uri
    | VersionH | VersionT1 | VersionT2 | VersionP | VersionSlash
    | MajorStart | Major | MinorStart | Minor | Newline1
    | HeaderLineStart | HeaderLws | HeaderName | SpaceBeforeValue | HeaderValue
    | Newline2 | Newline3

  datatype Header = Header(name: string, value: string)

  /** The value of a `parser_request`. */
  datatype Parsed = Parsed(verb: string, uri: string, major: int, minor: int, headers: seq<Header>)

  /** The three-valued result of reading a byte. */
  datatype Verdict = Yes | No | Indeterminate

  predicate IsChar(c: char) { c as int <= 127 }

  predicate IsCtl(c: char) { c as int <= 31 || c as int == 127 }

  predicate IsTspecial(c: char) {
    match c
    case '(' => true case ')' => true case '<' => true case '>' => true case '@' => true
    case ',' => true case ';' => true case ':' => true case '\\' => true case '"' => true
    case '/' => true case '[' => true case ']' => true case '?' => true case '=' => true
    case '{' => true case '}' => true case ' ' => true case '\t' => true
    case _ => false
  }

  predicate IsDigit(c: char) { '0' <= c <= '9' }

  /** A byte that may stand in a method or a header name. */
  predicate IsToken(c: char) { IsChar(c) && !IsCtl(c) && !IsTspecial(c) }

  function Digit(c: char): int { c as int - '0' as int }

  function NameExtended(headers: seq<Header>, c: char): seq<Header>
    requires headers != []
  {
    var last := headers[|headers| - 1];
    headers[|headers| - 1 := last.(name := last.name + [c])]
  }

  function ValueExtended(headers: seq<Header>, c: char): seq<Header>
    requires headers != []
  {
    var last := headers[|headers| - 1];
    headers[|headers| - 1 := last.(value := last.value + [c])]
  }

  /** The source appends to the last header; there must be one. */
  predicate UsesLastHeader(st: State, c: char) {
    (st.HeaderLws? && c != '\r' && c != ' ' && c != '\t' && !IsCtl(c)) ||
    (st.HeaderName? && c != ':' && IsToken(c)) ||
    (st.HeaderValue? && c != '\r' && !IsCtl(c))
  }

  datatype Next = Next(state: State, parsed: Parsed, verdict: Verdict)

  /** The effect of reading byte `c`. */
  function Step(st: State, p: Parsed, c: char): Next
    requires UsesLastHeader(st, c) ==> p.headers != []
  {
    var fail := Next(st, p, No);
    match st
    case MethodStart => if IsToken(c) then Next(Method, p.(verb := p.verb + [c]), Indeterminate) else fail
    case Method =>
      if c == ' ' then Next(Uri, p, Indeterminate)
      else if IsToken(c) then Next(Method, p.(verb := p.verb + [c]), Indeterminate) else fail
    case Uri =>
      if c == ' ' then Next(VersionH, p, Indeterminate)
      else if IsCtl(c) then fail else Next(Uri, p.(uri := p.uri + [c]), Indeterminate)
    case VersionH => if c == 'H' then Next(VersionT1, p, Indeterminate) else fail
    case VersionT1 => if c == 'T' then Next(VersionT2, p, Indeterminate) else fail
    case VersionT2 => if c == 'T' then Next(VersionP, p, Indeterminate) else fail
    case VersionP => if c == 'P' then Next(VersionSlash, p, Indeterminate) else fail
    case VersionSlash => if c == '/' then Next(MajorStart, p.(major := 0, minor := 0), Indeterminate) else fail
    case MajorStart => if IsDigit(c) then Next(Major, p.(major := p.major * 10 + Digit(c)), Indeterminate) else fail
    case Major =>
      if c == '.' then Next(MinorStart, p, Indeterminate)
      else if IsDigit(c) then Next(Major, p.(major := p.major * 10 + Digit(c)), Indeterminate) else fail
    case MinorStart => if IsDigit(c) then Next(Minor, p.(minor := p.minor * 10 + Digit(c)), Indeterminate) else fail
    case Minor =>
      if c == '\r' then Next(Newline1, p, Indeterminate)
      else if IsDigit(c) then Next(Minor, p.(minor := p.minor * 10 + Digit(c)), Indeterminate) else fail
    case Newline1 => if c == '\n' then Next(HeaderLineStart, p, Indeterminate) else fail
    case HeaderLineStart =>
      if c == '\r' then Next(Newline3, p, Indeterminate)
      else if p.headers != [] && (c == ' ' || c == '\t') then Next(HeaderLws, p, Indeterminate)
      else if IsToken(c) then Next(HeaderName, p.(headers := p.headers + [Header([c], "")]), Indeterminate) else fail
    case HeaderLws =>
      if c == '\r' then Next(Newline2, p, Indeterminate)
      else if c == ' ' || c == '\t' then Next(HeaderLws, p, Indeterminate)
      else if IsCtl(c) then fail
      else Next(HeaderValue, p.(headers := ValueExtended(p.headers, c)), Indeterminate)
    case HeaderName =>
      if c == ':' then Next(SpaceBeforeValue, p, Indeterminate)
      else if IsToken(c) then Next(HeaderName, p.(headers := NameExtended(p.headers, c)), Indeterminate) else fail
    case SpaceBeforeValue => if c == ' ' then Next(HeaderValue, p, Indeterminate) else fail
    case HeaderValue =>
      if c == '\r' then Next(Newline2, p, Indeterminate)
      else if IsCtl(c) then fail
      else Next(HeaderValue, p.(headers := ValueExtended(p.headers, c)), Indeterminate)
    case Newline2 => if c == '\n' then Next(HeaderLineStart, p, Indeterminate) else fail
    case Newline3 => Next(st, p, if c == '\n' then Yes else No)
  }

  /** What reading bytes until a verdict leads to. `Crash`: the source takes `back()` of an empty
      vector of headers. */
  datatype Outcome =
    | Done(accepted: bool, state: State, parsed: Parsed, rest: string)
    | Partial(state: State, parsed: Parsed)
    | Crash

  /** Reads the bytes of `s` with one record threaded through. */
  function Run(st: State, p: Parsed, s: string): Outcome
    decreases |s|
  {
    if s == "" then Partial(st, p)
    else if UsesLastHeader(st, s[0]) && p.headers == [] then Crash
    else
      var next := Step(st, p, s[0]);
      if next.verdict.Indeterminate? then Run(next.state, next.parsed, s[1..])
      else Done(next.verdict.Yes?, next.state, next.parsed, s[1..])
  }

  /** A fresh record: the source leaves the version numbers as they are in memory. */
  function FreshRecord(major: int, minor: int): Parsed { Parsed("", "", major, minor, []) }

  // ----- headers that do not exist -----

  /** Read in state `st` with a record that has no header, `t` goes on with the name or the value of
      one: it is the rest of a header line that an earlier call began. */
  predicate Overruns(st: State, t: string)
    decreases |t|
  {
    t != "" &&
    (UsesLastHeader(st, t[0]) ||
     (st.HeaderName? && t[0] == ':' && Overruns(SpaceBeforeValue, t[1..])) ||
     (st.SpaceBeforeValue? && t[0] == ' ' && Overruns(HeaderValue, t[1..])) ||
     (st.HeaderLws? && (t[0] == ' ' || t[0] == '\t') && Overruns(HeaderLws, t[1..])))
  }

  /** The states inside a header line, where its text goes to the last header. */
  predicate InHeaderLine(st: State) { st.HeaderLws? || st.HeaderName? || st.SpaceBeforeValue? || st.HeaderValue? }

  /** With one record threaded through, the source never appends to a header that does not exist. */
  lemma {:induction false} ThreadedNeverCrashes(st: State, p: Parsed, s: string)
    requires InHeaderLine(st) ==> p.headers != []
    ensures !Run(st, p, s).Crash?
    decreases |s|
  {
    if s != "" {
      var next := Step(st, p, s[0]);
      if next.verdict.Indeterminate? {
        ThreadedNeverCrashes(next.state, next.parsed, s[1..]);
      }
    }
  }

  /** With a record that has no header, it does so exactly on those bytes. */
  lemma {:induction false} CrashesExactlyIfOverruns(st: State, p: Parsed, t: string)
    requires p.headers == []
    ensures Run(st, p, t).Crash? <==> Overruns(st, t)
    decreases |t|
  {
    if !InHeaderLine(st) {
      ThreadedNeverCrashes(st, p, t);
    } else if t != "" && !UsesLastHeader(st, t[0]) {
      var next := Step(st, p, t[0]);
      if next.verdict.Indeterminate? {
        CrashesExactlyIfOverruns(next.state, next.parsed, t[1..]);
      }
    }
  }

  // ----- the parser itself -----

  class ParserRequest {
    var verb: string
    var uri: string
    var http_version_major: int
    var http_version_minor: int
    var headers: seq<Header>

    ghost function Value(): Parsed
      reads this
    {
      Parsed(verb, uri, http_version_major, http_version_minor, headers)
    }

    /** A fresh record. The source leaves the version numbers uninitialised. */
    constructor ()
      ensures verb == "" && uri == "" && headers == []
    {
      verb, uri, headers := "", "", [];
      http_version_major, http_version_minor := *, *;
    }
  }

  class Parser {
    var state_: State

    constructor ()
      ensures state_ == MethodStart
    {
      state_ := MethodStart;
    }

    method Reset()
      modifies this
      ensures state_ == MethodStart
    {
      state_ := MethodStart;
    }

    method Consume(req: ParserRequest, input: char) returns (result: Verdict)
      requires UsesLastHeader(state_, input) ==> req.headers != []
      modifies this, req
      ensures Next(state_, req.Value(), result) == Step(old(state_), old(req.Value()), input)
    {
      result := Indeterminate;
      match state_ {
        case MethodStart =>
          if !IsChar(input) || IsCtl(input) || IsTspecial(input) { return No; }
          state_, req.verb := Method, req.verb + [input];
        case Method =>
          if input == ' ' { state_ := Uri; }
          else if !IsChar(input) || IsCtl(input) || IsTspecial(input) { return No; }
          else { req.verb := req.verb + [input]; }
        case Uri =>
          if input == ' ' { state_ := VersionH; }
          else if IsCtl(input) { return No; }
          else { req.uri := req.uri + [input]; }
        case VersionH => if input == 'H' { state_ := VersionT1; } else { return No; }
        case VersionT1 => if input == 'T' { state_ := VersionT2; } else { return No; }
        case VersionT2 => if input == 'T' { state_ := VersionP; } else { return No; }
        case VersionP => if input == 'P' { state_ := VersionSlash; } else { return No; }
        case VersionSlash =>
          if input != '/' { return No; }
          req.http_version_major, req.http_version_minor, state_ := 0, 0, MajorStart;
        case MajorStart =>
          if !IsDigit(input) { return No; }
          req.http_version_major, state_ := req.http_version_major * 10 + Digit(input), Major;
        case Major =>
          if input == '.' { state_ := MinorStart; }
          else if IsDigit(input) { req.http_version_major := req.http_version_major * 10 + Digit(input); }
          else { return No; }
        case MinorStart =>
          if !IsDigit(input) { return No; }
          req.http_version_minor, state_ := req.http_version_minor * 10 + Digit(input), Minor;
        case Minor =>
          if input == '\r' { state_ := Newline1; }
          else if IsDigit(input) { req.http_version_minor := req.http_version_minor * 10 + Digit(input); }
          else { return No; }
        case Newline1 => if input == '\n' { state_ := HeaderLineStart; } else { return No; }
        case HeaderLineStart =>
          if input == '\r' { state_ := Newline3; }
          else if req.headers != [] && (input == ' ' || input == '\t') { state_ := HeaderLws; }
          else if !IsChar(input) || IsCtl(input) || IsTspecial(input) { return No; }
          else { req.headers, state_ := req.headers + [Header([input], "")], HeaderName; }
        case HeaderLws =>
          if input == '\r' { state_ := Newline2; }
          else if input == ' ' || input == '\t' { }
          else if IsCtl(input) { return No; }
          else { state_, req.headers := HeaderValue, ValueExtended(req.headers, input); }
        case HeaderName =>
          if input == ':' { state_ := SpaceBeforeValue; }
          else if !IsChar(input) || IsCtl(input) || IsTspecial(input) { return No; }
          else { req.headers := NameExtended(req.headers, input); }
        case SpaceBeforeValue => if input == ' ' { state_ := HeaderValue; } else { return No; }
        case HeaderValue =>
          if input == '\r' { state_ := Newline2; }
          else if IsCtl(input) { return No; }
          else { req.headers := ValueExtended(req.headers, input); }
        case Newline2 => if input == '\n' { state_ := HeaderLineStart; } else { return No; }
        case Newline3 => return if input == '\n' then Yes else No;
      }
    }

    /** Reads bytes of `data` until a verdict. Each call starts a fresh record, `record`, while the
        state persists. The data must not go on with a header of an earlier call. */
    method Parse(data: string) returns (result: Verdict, consumed: nat, record: ParserRequest)
      requires !Overruns(state_, data)
      modifies this
      ensures fresh(record) && consumed <= |data|
      ensures exists major, minor ::
                Run(old(state_), FreshRecord(major, minor), data) ==
                if result == Indeterminate then Partial(state_, record.Value())
                else Done(result == Yes, state_, record.Value(), data[consumed..])
      ensures result == Indeterminate ==> consumed == |data|
    {
      record := new ParserRequest();
      ghost var major, minor := record.http_version_major, record.http_version_minor;
      assert record.Value() == FreshRecord(major, minor);
      ghost var goal := Run(state_, FreshRecord(major, minor), data);
      CrashesExactlyIfOverruns(state_, FreshRecord(major, minor), data);
      consumed := 0;
      while consumed != |data|
        invariant consumed <= |data|
        invariant fresh(record)
        invariant Run(state_, record.Value(), data[consumed..]) == goal
      {
        ghost var s := data[consumed..];
        assert s[0] == data[consumed] && s[1..] == data[consumed + 1..];
        result := Consume(record, data[consumed]);
        consumed := consumed + 1;
        if result != Indeterminate {
          return;
        }
      }
      result := Indeterminate;
    }
  }
}
