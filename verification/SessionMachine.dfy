/** The life of a connection as a state machine over the completions of its socket operations. */
module SessionMachine {
  import opened Options
  import opened RequestParser
  import opened RequestGrammar
  import opened RequestSplit
  import Router

  /** An `http::request`: header fields are found under the lower-case form of their names. */
  datatype HttpRequest = HttpRequest(verb: string, version: int, target: string, fields: map<string, string>, body: string)

  /** What the session finds outside: the number that `std::stoi` reads off a text, unless it
      throws; the handler that the server has for a target; and whether a handler answers a request
      or throws. */
  datatype Env = Env(stoi: string -> Option<int>, lookup: string -> Router.Found, answers: (nat, HttpRequest) -> bool)

  /** An answer: an error page, or what a handler makes of a request. */
  datatype Response = BadRequest(message: string) | Handled(handler: nat, request: HttpRequest)

  /** What the session waits for. `Thrown`: a handler has thrown in a callback, which nothing catches.
      `Undefined`: a callback has taken from an empty vector. */
  datatype Pending =
    | ReadingHeader | ReadingBody(wanted: nat) | Writing(response: Response)
    | Closed | Thrown(handler: nat) | Undefined

  datatype Event = HeaderBytes(data: string) | BodyBytes(data: string) | Written | Failed

  /** The fields of a session, and counts of what it has done: definite verdicts of the parser,
      responses begun, responses written, and calls of `log_request` still to complete. */
  datatype Session = Session(parser: State, request: HttpRequest, handler: Option<nat>, bodyData: string, pending: Pending,
                             verdicts: nat, responses: nat, cycles: nat, unlogged: nat)

  function Lower(s: string): string {
    if s == "" then "" else [if 'A' <= s[0] <= 'Z' then (s[0] as int + 32) as char else s[0]] + Lower(s[1..])
  }

  /** `set` for each header in turn: a later header replaces an earlier one of the same name. */
  function SetAll(fields: map<string, string>, headers: seq<Header>): map<string, string>
    decreases |headers|
  {
    if headers == [] then fields
    else
      var n := |headers| - 1;
      SetAll(fields, headers[..n])[Lower(headers[n].name) := headers[n].value]
  }

  function Translated(req: HttpRequest, p: Parsed): HttpRequest {
    req.(verb := p.verb, version := p.major * 10 + p.minor, target := p.uri, fields := SetAll(req.fields, p.headers))
  }

  const CONTENT_LENGTH := "content-length"
  const BAD_HEADERS := "Invalid request headers or content length"
  const BAD_URI := "Error getting handler for uri "

  /** The length of the body; -1 if it is not a number. */
  function ContentLength(env: Env, fields: map<string, string>): int {
    if CONTENT_LENGTH !in fields || fields[CONTENT_LENGTH] == "" then 0
    else match env.stoi(fields[CONTENT_LENGTH]) case None => -1 case Some(n) => n
  }

  function Respond(s: Session, response: Response): Session {
    s.(pending := Writing(response), responses := s.responses + 1, unlogged := s.unlogged + 1)
  }

  /** A handler is given the request. */
  function Handle(env: Env, s: Session, handler: nat): Session {
    if env.answers(handler, s.request) then Respond(s, Handled(handler, s.request)) else s.(pending := Thrown(handler))
  }

  function Fresh(junk: (int, int)): Parsed { FreshRecord(junk.0, junk.1) }

  function WithBody(s: Session, more: string): Session { s.(request := s.request.(body := s.request.body + more)) }

  /** A head is complete: the request goes to its handler, possibly after its body is read. */
  function Dispatch(env: Env, s: Session, rest: string): Session {
    var length := ContentLength(env, s.request.fields);
    if length < 0 then Respond(s, BadRequest(BAD_HEADERS))
    else
      match env.lookup(s.request.target)
      case AboveRoot => s.(pending := Undefined)
      case NoHandler => Respond(s.(handler := None), BadRequest(BAD_URI + s.request.target))
      case Handler(h) =>
        var found := s.(handler := Some(h));
        if length <= |rest| then Handle(env, WithBody(found, rest[..length]), h)
        else WithBody(found, rest).(pending := ReadingBody(length - |rest|))
  }

  function OnHeaderBytes(env: Env, s: Session, data: string, junk: (int, int)): Session {
    AfterParse(env, s, Run(s.parser, Fresh(junk), data))
  }

  /** What a call of the parser leads to. */
  function AfterParse(env: Env, s: Session, outcome: Outcome): Session {
    match outcome
    case Crash => s.(pending := Undefined)
    case Partial(st, _) =>
      var s1 := s.(parser := st);
      if ContentLength(env, s.request.fields) < 0 then Respond(s1, BadRequest(BAD_HEADERS)) else s1
    case Done(accepted, st, p, rest) =>
      var s1 := s.(parser := st, verdicts := s.verdicts + 1);
      if accepted then Dispatch(env, s1.(request := Translated(s.request, p)), rest)
      else Respond(s1, BadRequest(BAD_HEADERS))
  }

  function OnBodyBytes(env: Env, s: Session, data: string): Session {
    var s1 := WithBody(s.(bodyData := s.bodyData + data), s.bodyData + data);
    if s1.handler.Some? then Handle(env, s1, s1.handler.value) else Respond(s1, BadRequest("N/A"))
  }

  function OnWritten(s: Session): Session {
    s.(parser := MethodStart, request := s.request.(fields := map[], body := ""), bodyData := "",
       pending := ReadingHeader, cycles := s.cycles + 1)
  }

  /** A completion that fits what the session waits for. A header read delivers what there is, a
      body read exactly what was asked for. */
  predicate Fits(s: Session, e: Event) {
    match e
    case HeaderBytes(data) => s.pending.ReadingHeader?
    case BodyBytes(data) => s.pending.ReadingBody? && |data| == s.pending.wanted
    case Written => s.pending.Writing?
    case Failed => s.pending.ReadingHeader? || s.pending.ReadingBody? || s.pending.Writing?
  }

  function Step(env: Env, s: Session, e: Event, junk: (int, int)): Session
    requires Fits(s, e)
  {
    match e
    case HeaderBytes(data) => OnHeaderBytes(env, s, data, junk)
    case BodyBytes(data) => OnBodyBytes(env, s, data)
    case Written => OnWritten(s)
    case Failed => s.(pending := Closed)
  }

  predicate StepsTo(env: Env, s: Session, e: Event, junk: (int, int), s': Session) {
    Fits(s, e) && s' == Step(env, s, e, junk)
  }

  /** A connection that has just been accepted. */
  predicate IsNew(s: Session) {
    s.parser == MethodStart && s.request.fields == map[] && s.request.body == "" && s.bodyData == "" &&
    s.pending == ReadingHeader && s.verdicts == 0 && s.responses == 0 && s.cycles == 0 && s.unlogged == 0
  }

  // ----- what holds throughout -----

  /** A request is read into no fields and an empty body; while a body is read, what is there and
      what is awaited make up the content length; and each verdict has its one response, which ends
      its cycle. */
  predicate Inv(env: Env, s: Session) {
    match s.pending
    case ReadingHeader =>
      s.request.fields == map[] && s.request.body == "" && s.bodyData == "" &&
      s.verdicts == s.responses == s.cycles
    case ReadingBody(wanted) =>
      wanted > 0 && s.bodyData == "" && s.handler.Some? &&
      |s.request.body| + wanted == ContentLength(env, s.request.fields) &&
      s.verdicts == s.responses + 1 && s.responses == s.cycles
    case Writing(_) => s.verdicts == s.responses == s.cycles + 1
    case Closed => s.cycles <= s.responses <= s.verdicts <= s.cycles + 1
    case Thrown(_) => s.verdicts == s.responses + 1 && s.responses == s.cycles
    case Undefined => s.responses == s.cycles && s.responses <= s.verdicts <= s.responses + 1
  }

  lemma StepKeepsInv(env: Env, s: Session, e: Event, junk: (int, int))
    requires Inv(env, s) && Fits(s, e)
    ensures Inv(env, Step(env, s, e, junk))
  {
    if e.HeaderBytes? {
      HeaderKeepsInv(env, s, Run(s.parser, Fresh(junk), e.data));
    }
  }

  lemma HeaderKeepsInv(env: Env, s: Session, outcome: Outcome)
    requires Inv(env, s) && s.pending.ReadingHeader?
    ensures Inv(env, AfterParse(env, s, outcome))
  {
  }

  /** The session after some completions. */
  ghost predicate Reaches(env: Env, s: Session, es: seq<Event>, s': Session)
    decreases |es|
  {
    if es == [] then s' == s
    else Fits(s, es[0]) && exists junk :: Reaches(env, Step(env, s, es[0], junk), es[1..], s')
  }

  /** A verdict without a response: the rest of the body is still to come, or the handler has thrown. */
  predicate Owes(s: Session) { s.pending.ReadingBody? || s.pending.Thrown? }

  /** Over every run: no verdict has two responses, and each has one, but for the last one while its
      body is read, if its handler has thrown, or if the socket failed or the behaviour is undefined. A
      header is always read into no fields and an empty body. */
  lemma {:induction false} RunsKeepInv(env: Env, s: Session, es: seq<Event>, s': Session)
    requires Inv(env, s) && Reaches(env, s, es, s')
    ensures Inv(env, s')
    ensures s'.verdicts - s'.responses == (if Owes(s') then 1 else 0) ||
            ((s'.pending.Closed? || s'.pending.Undefined?) && 0 <= s'.verdicts - s'.responses <= 1)
    decreases |es|
  {
    if es != [] {
      var junk :| Reaches(env, Step(env, s, es[0], junk), es[1..], s');
      StepKeepsInv(env, s, es[0], junk);
      RunsKeepInv(env, Step(env, s, es[0], junk), es[1..], s');
    }
  }

  // ----- undefined behaviour -----

  /** The behaviour becomes undefined exactly if the bytes go on with a header of an earlier read, or
      complete a head whose target goes above the root. */
  lemma UndefinedExactly(env: Env, s: Session, data: string, junk: (int, int))
    requires s.pending.ReadingHeader?
    ensures Step(env, s, HeaderBytes(data), junk).pending.Undefined? <==>
            Overruns(s.parser, data) ||
            (Accepting(s.parser, Fresh(junk), data) &&
             var req := Translated(s.request, Run(s.parser, Fresh(junk), data).parsed);
             ContentLength(env, req.fields) >= 0 && env.lookup(req.target).AboveRoot?)
  {
    CrashesExactlyIfOverruns(s.parser, Fresh(junk), data);
  }

  // ----- bodies -----

  /** What becomes of a request that goes to `handler`. */
  function Fate(env: Env, handler: nat, req: HttpRequest): Pending {
    if env.answers(handler, req) then Writing(Handled(handler, req)) else Thrown(handler)
  }

  /** The session after a read that brings `head` and the first `k` of the `bytes` behind it and, if it
      then waits for more of the body, the read of that. */
  function Received(env: Env, s: Session, head: string, bytes: string, k: nat, junk: (int, int)): Session
    requires s.pending.ReadingHeader? && k <= |bytes|
  {
    var s1 := Step(env, s, HeaderBytes(head + bytes[..k]), junk);
    if s1.pending.ReadingBody? && k + s1.pending.wanted <= |bytes|
    then Step(env, s1, BodyBytes(bytes[k..k + s1.pending.wanted]), junk)
    else s1
  }

  /** However the bytes after a head are split between the read that completes the head and the
      read of the body, the handler gets the first content-length of them as the body; `head` is what
      that read has of the head, in whatever state the reads before it left the parser. */
  lemma BodyReassembled(env: Env, s: Session, head: string, st: State, p: Parsed, bytes: string, k: nat,
                        handler: nat, junk: (int, int))
    requires Inv(env, s) && s.pending.ReadingHeader? && Run(s.parser, Fresh(junk), head) == Done(true, st, p, "")
    requires var req := Translated(s.request, p); var length := ContentLength(env, req.fields);
             0 <= length <= |bytes| && k <= |bytes| && env.lookup(req.target) == Router.Handler(handler)
    ensures var req := Translated(s.request, p); var length := ContentLength(env, req.fields);
            Received(env, s, head, bytes, k, junk).pending == Fate(env, handler, req.(body := bytes[..length]))
    ensures var length := ContentLength(env, Translated(s.request, p).fields);
            length > k ==> Step(env, s, HeaderBytes(head + bytes[..k]), junk).pending == ReadingBody(length - k)
  {
    HeadDispatched(env, s, head, st, p, bytes[..k], junk);
    DispatchTakesBody(env, Headed(s, st, p), bytes, k, handler);
  }

  /** The session with the request of a head that has just been completed. */
  function Headed(s: Session, st: State, p: Parsed): Session {
    s.(parser := st, verdicts := s.verdicts + 1, request := Translated(s.request, p))
  }

  lemma HeadDispatched(env: Env, s: Session, head: string, st: State, p: Parsed, rest: string, junk: (int, int))
    requires s.pending.ReadingHeader? && Run(s.parser, Fresh(junk), head) == Done(true, st, p, "")
    ensures Step(env, s, HeaderBytes(head + rest), junk) == Dispatch(env, Headed(s, st, p), rest)
  {
    HeadCompleted(s.parser, Fresh(junk), head, st, p, rest);
  }

  lemma HeadCompleted(st: State, fresh': Parsed, head: string, st': State, p: Parsed, rest: string)
    requires IsFresh(fresh') && Run(st, fresh', head) == Done(true, st', p, "")
    ensures Run(st, fresh', head + rest) == Done(true, st', p, rest)
  {
    RunAppend(st, fresh', head, rest);
    assert "" + rest == rest;
  }

  lemma DispatchTakesBody(env: Env, s: Session, bytes: string, k: nat, handler: nat)
    requires s.request.body == "" && s.bodyData == "" && env.lookup(s.request.target) == Router.Handler(handler)
    requires 0 <= ContentLength(env, s.request.fields) <= |bytes| && k <= |bytes|
    ensures var length := ContentLength(env, s.request.fields);
            var s1 := Dispatch(env, s, bytes[..k]);
            var fate := Fate(env, handler, s.request.(body := bytes[..length]));
            if length <= k then s1.pending == fate
            else s1.pending == ReadingBody(length - k) && OnBodyBytes(env, s1, bytes[k..length]).pending == fate
  {
    var length := ContentLength(env, s.request.fields);
    if length <= k {
      assert "" + bytes[..k][..length] == bytes[..length];
    } else {
      assert "" + bytes[k..length] == bytes[k..length];
      assert ("" + bytes[..k]) + bytes[k..length] == bytes[..length];
    }
  }

  /** A head that cannot be served is answered, as soon as a read completes it, with the error page
      for its defect: first a content length that is no count, then a target without a handler. */
  lemma UnservableHeadIsRefused(env: Env, s: Session, head: string, st: State, p: Parsed, rest: string, junk: (int, int))
    requires s.pending.ReadingHeader? && Run(s.parser, Fresh(junk), head) == Done(true, st, p, "")
    requires var req := Translated(s.request, p);
             ContentLength(env, req.fields) < 0 || env.lookup(req.target) == Router.NoHandler
    ensures Step(env, s, HeaderBytes(head + rest), junk).pending ==
            var req := Translated(s.request, p);
            Writing(BadRequest(if ContentLength(env, req.fields) < 0 then "Invalid request headers or content length"
                               else "Error getting handler for uri " + p.uri))
  {
    HeadCompleted(s.parser, Fresh(junk), head, st, p, rest);
  }

  /** Of the headers with one name, in whatever case, the last is the field of the request. */
  lemma {:induction false} LastHeaderWins(fields: map<string, string>, headers: seq<Header>, i: nat)
    requires i < |headers|
    requires forall j :: i < j < |headers| ==> Lower(headers[j].name) != Lower(headers[i].name)
    ensures Lower(headers[i].name) in SetAll(fields, headers)
    ensures SetAll(fields, headers)[Lower(headers[i].name)] == headers[i].value
    decreases |headers|
  {
    var n := |headers| - 1;
    if i < n {
      LastHeaderWins(fields, headers[..n], i);
    }
  }

  lemma BeginsWithHead(p: Parsed, data: string)
    requires IsFresh(p) && Accepting(MethodStart, p, data)
    ensures exists n :: 0 <= n <= |data| && Derivable(data[..n])
  {
    var h, rest := AcceptedDerivable(p, data);
    assert data[..|Render(h)|] == Render(h);
  }

  /** The reads so far have had the bytes `before` of a request, and with `data` the parser does not
      lose track: no header has begun, or `data` does not go on with one. */
  predicate Follows(s: Session, p: Parsed, before: string, data: string) {
    var mid := Run(MethodStart, p, before);
    s.pending.ReadingHeader? && IsFresh(p) && mid.Partial? && s.parser == mid.state &&
    (mid.parsed.headers == [] || !(Overruns(mid.state, data) || FoldFollows(mid.state, data)))
  }

  /** Bytes with which the request, from its first byte on, neither begins with a head nor can be
      completed to one are answered with an error page at once. */
  lemma NonsenseIsRefused(env: Env, s: Session, p: Parsed, before: string, data: string, junk: (int, int))
    requires Follows(s, p, before, data)
    requires forall n :: 0 <= n <= |before + data| ==> !Derivable((before + data)[..n])
    requires !Viable(before + data)
    ensures Step(env, s, HeaderBytes(data), junk).pending ==
            Writing(BadRequest("Invalid request headers or content length"))
  {
    ThreadedNeverCrashes(MethodStart, p, before + data);
    AsksExactlyWhileViable(p, before + data);
    if Accepting(MethodStart, p, before + data) {
      BeginsWithHead(p, before + data);
    }
    SplitAgreesExactly(MethodStart, p, Fresh(junk), before, data);
  }

  // ----- heads in several reads -----

  /** Where the parser asks for more, the session reads on, and nothing but the state of the parser has
      changed. */
  lemma UnfinishedHeadChangesNothing(env: Env, s: Session, data: string, junk: (int, int))
    requires Inv(env, s) && s.pending.ReadingHeader? && Run(s.parser, Fresh(junk), data).Partial?
    ensures Step(env, s, HeaderBytes(data), junk) == s.(parser := Run(s.parser, Fresh(junk), data).state)
  {
  }

  /** The session reads on iff what it has can be completed to a head. */
  lemma ReadsOnWhileViable(env: Env, s: Session, p: Parsed, before: string, data: string, junk: (int, int))
    requires Inv(env, s) && Follows(s, p, before, data)
    ensures Step(env, s, HeaderBytes(data), junk).pending.ReadingHeader? <==> Viable(before + data)
  {
    AsksExactlyWhileViable(p, before + data);
    SplitAgreesExactly(MethodStart, p, Fresh(junk), before, data);
  }

  /** A head that is cut before its first header is read on, and the next read gives the session its
      verdict. */
  lemma SplitHeadIsCompleted(env: Env, s: Session, h: Head, one: string, two: string, rest: string,
                             junk: (int, int), again: (int, int))
    requires Inv(env, s) && s.pending.ReadingHeader? && s.parser == MethodStart
    requires IsHead(h) && Render(h) == one + two && Run(MethodStart, Fresh(junk), one).Partial?
    requires Run(MethodStart, Fresh(junk), one).parsed.headers == []
    ensures Step(env, s, HeaderBytes(one), junk) == s.(parser := Run(MethodStart, Fresh(junk), one).state)
    ensures var s1 := Step(env, s, HeaderBytes(one), junk);
            Accepting(s1.parser, Fresh(again), two + rest) &&
            Step(env, s1, HeaderBytes(two + rest), again) ==
              Dispatch(env, Headed(s1, Newline3, Run(s1.parser, Fresh(again), two + rest).parsed), rest)
  {
    UnfinishedHeadChangesNothing(env, s, one, junk);
    var st := Run(MethodStart, Fresh(junk), one).state;
    SplitHeadAccepted(Fresh(junk), Fresh(again), h, one, two, rest);
    AcceptsInLastState(st, Fresh(again), two + rest);
    DispatchedAt(env, s.(parser := st), two + rest, again);
  }

  lemma {:induction false} AcceptsInLastState(st: State, p: Parsed, s: string)
    requires Accepting(st, p, s)
    ensures Run(st, p, s).state == Newline3
    decreases |s|
  {
    var next := RequestParser.Step(st, p, s[0]);
    if next.verdict.Indeterminate? {
      AcceptsInLastState(next.state, next.parsed, s[1..]);
    }
  }

  lemma DispatchedAt(env: Env, s: Session, data: string, junk: (int, int))
    requires s.pending.ReadingHeader? && Accepting(s.parser, Fresh(junk), data)
    ensures var r := Run(s.parser, Fresh(junk), data);
            Step(env, s, HeaderBytes(data), junk) == Dispatch(env, Headed(s, r.state, r.parsed), r.rest)
  {
  }

  // ----- the parts of a request -----

  /** Letters of a text in any case. */
  predicate SameLetters(name: string, lower: string) {
    |name| == |lower| &&
    forall k :: 0 <= k < |name| ==>
      name[k] == lower[k] || ('A' <= name[k] <= 'Z' && name[k] as int + 32 == lower[k] as int)
  }

  predicate IsLower(s: string) { forall k :: 0 <= k < |s| ==> !('A' <= s[k] <= 'Z') }

  lemma {:induction false} LowerIsSameLetters(name: string, lower: string)
    requires IsLower(lower)
    ensures Lower(name) == lower <==> SameLetters(name, lower)
    decreases |name|
  {
    if name != "" && lower != "" {
      var c := if 'A' <= name[0] <= 'Z' then (name[0] as int + 32) as char else name[0];
      LowerIsSameLetters(name[1..], lower[1..]);
      assert Lower(name)[1..] == Lower(name[1..]) && Lower(name)[0] == c;
      assert lower == [lower[0]] + lower[1..] && Lower(name) == [c] + Lower(name[1..]);
      assert SameLetters(name, lower) <==>
               SameLetters(name[1..], lower[1..]) && (name[0] == lower[0] || ('A' <= name[0] <= 'Z' && name[0] as int + 32 == lower[0] as int)) by {
        SameLettersCons(name, lower);
      }
    }
  }

  lemma SameLettersCons(name: string, lower: string)
    requires name != "" && lower != ""
    ensures SameLetters(name, lower) <==>
            (name[0] == lower[0] || ('A' <= name[0] <= 'Z' && name[0] as int + 32 == lower[0] as int)) &&
            SameLetters(name[1..], lower[1..])
  {
    var n, l := name[1..], lower[1..];
    assert |name| == |lower| ==> forall k :: 0 <= k < |n| ==> n[k] == name[k + 1] && l[k] == lower[k + 1];
    if SameLetters(n, l) {
      forall k | 1 <= k < |name|
        ensures name[k] == lower[k] || ('A' <= name[k] <= 'Z' && name[k] as int + 32 == lower[k] as int)
      {
        assert n[k - 1] == name[k] && l[k - 1] == lower[k];
      }
    }
  }

  /** A field is set by the headers of its name only. */
  lemma {:induction false} OtherFieldsStay(fields: map<string, string>, headers: seq<Header>, field: string)
    requires forall i :: 0 <= i < |headers| ==> Lower(headers[i].name) != field
    ensures field in SetAll(fields, headers) <==> field in fields
    ensures field in fields ==> SetAll(fields, headers)[field] == fields[field]
    decreases |headers|
  {
    if headers != [] {
      OtherFieldsStay(fields, headers[..|headers| - 1], field);
    }
  }

  lemma LengthName(name: string)
    ensures Lower(name) == "content-length" <==> SameLetters(name, "content-length")
  {
    LowerIsSameLetters(name, "content-length");
  }

  /** The last header that is called `Content-Length`, in any case of its letters, gives the length of the
      body: none if it has no value, and an error if that is no number. */
  lemma DeclaredLength(env: Env, headers: seq<Header>, i: nat)
    requires i < |headers| && SameLetters(headers[i].name, "content-length")
    requires forall j :: i < j < |headers| ==> !SameLetters(headers[j].name, "content-length")
    ensures ContentLength(env, SetAll(map[], headers)) ==
            if headers[i].value == "" then 0
            else if env.stoi(headers[i].value).None? then -1 else env.stoi(headers[i].value).value
  {
    LengthName(headers[i].name);
    forall j | i < j < |headers| ensures Lower(headers[j].name) != Lower(headers[i].name) {
      LengthName(headers[j].name);
    }
    LastHeaderWins(map[], headers, i);
  }

  /** Without such a header there is no body. */
  lemma NoDeclaredLength(env: Env, headers: seq<Header>)
    requires forall i :: 0 <= i < |headers| ==> !SameLetters(headers[i].name, "content-length")
    ensures ContentLength(env, SetAll(map[], headers)) == 0
  {
    forall i | 0 <= i < |headers| ensures Lower(headers[i].name) != "content-length" {
      LengthName(headers[i].name);
    }
    OtherFieldsStay(map[], headers, "content-length");
  }

  /** After a response the session waits for a request with nothing of the last one, and the parser is at
      its start. */
  lemma WrittenStartsAfresh(env: Env, s: Session)
    requires s.pending.Writing?
    ensures var s1 := Step(env, s, Written, (0, 0));
            s1.pending.ReadingHeader? && s1.parser == MethodStart && s1.bodyData == "" &&
            s1.request.fields == map[] && s1.request.body == "" && s1.verdicts == s.verdicts && s1.responses == s.responses
  {
  }

  /** The request that a head stands for. */
  function RequestOf(h: Head, body: string): HttpRequest {
    HttpRequest(h.verb, 10 * Decimal(0, h.major) + Decimal(0, h.minor), h.uri, SetAll(map[], HeadersOf(h.fields)), body)
  }

  /** A request on an idle connection is served with its own parts and nothing else. */
  lemma IdleConnectionServes(env: Env, s: Session, h: Head, bytes: string, k: nat, handler: nat, junk: (int, int))
    requires Inv(env, s) && s.pending.ReadingHeader? && s.parser == MethodStart && IsHead(h) && k <= |bytes|
    requires 0 <= ContentLength(env, RequestOf(h, "").fields) <= |bytes| && env.lookup(h.uri) == Router.Handler(handler)
    ensures var req := RequestOf(h, bytes[..ContentLength(env, RequestOf(h, "").fields)]);
            Received(env, s, Render(h), bytes, k, junk).pending == Fate(env, handler, req)
  {
    DerivableAccepted(Fresh(junk), h, "");
    assert Render(h) + "" == Render(h);
    assert Translated(s.request, Denote(h)) == RequestOf(h, "");
    var body := bytes[..ContentLength(env, RequestOf(h, "").fields)];
    assert RequestOf(h, "").(body := body) == RequestOf(h, body);
    BodyReassembled(env, s, Render(h), Newline3, Denote(h), bytes, k, handler, junk);
  }

  /** A connection that has just been accepted is idle. */
  lemma NewIsIdle(env: Env, s: Session)
    requires IsNew(s)
    ensures Inv(env, s) && s.pending.ReadingHeader? && s.parser == MethodStart
  {
  }

  /** So is the next request on the connection of one that has been answered. */
  lemma NextRequestIsServed(env: Env, s: Session, h: Head, bytes: string, k: nat, handler: nat, junk: (int, int))
    requires Inv(env, s) && s.pending.Writing? && IsHead(h) && k <= |bytes|
    requires 0 <= ContentLength(env, RequestOf(h, "").fields) <= |bytes| && env.lookup(h.uri) == Router.Handler(handler)
    ensures var req := RequestOf(h, bytes[..ContentLength(env, RequestOf(h, "").fields)]);
            Received(env, Step(env, s, Written, (0, 0)), Render(h), bytes, k, junk).pending == Fate(env, handler, req)
  {
    StepKeepsInv(env, s, Written, (0, 0));
    WrittenStartsAfresh(env, s);
    IdleConnectionServes(env, Step(env, s, Written, (0, 0)), h, bytes, k, handler, junk);
  }

  /** A failed operation of the socket ends the session: nothing is answered, and nothing happens any
      more. */
  lemma FailureEnds(env: Env, s: Session, e: Event)
    requires Fits(s, Failed)
    ensures Step(env, s, Failed, (0, 0)) == s.(pending := Closed) && !Fits(Step(env, s, Failed, (0, 0)), e)
  {
  }
}
