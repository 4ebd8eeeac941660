/** The session object: callbacks that update its fields in place. */
module ConnectionSession {
  import opened Options
  import opened RequestParser
  import M = SessionMachine

  class Session {
    const env: M.Env
    const request_parser_: Parser
    var request_: M.HttpRequest
    var request_handler_: Option<nat>
    var body_data: string
    var pending_: M.Pending
    ghost var verdicts: nat
    ghost var responses: nat
    ghost var cycles: nat
    ghost var unlogged: nat

    /** The state of the session as a value. */
    ghost function Value(): M.Session
      reads this, request_parser_
    {
      M.Session(request_parser_.state_, request_, request_handler_, body_data, pending_, verdicts, responses, cycles, unlogged)
    }

    constructor (env: M.Env)
      ensures M.IsNew(Value()) && fresh(request_parser_) && this.env == env
    {
      this.env := env;
      request_parser_ := new Parser();
      request_, request_handler_ := M.HttpRequest("", 11, "", map[], ""), None;
      body_data, pending_ := "", M.ReadingHeader;
      verdicts, responses, cycles, unlogged := 0, 0, 0, 0;
    }

    /** Copies what was parsed into the request. */
    method Translate(parsed: Parsed)
      modifies this`request_
      ensures Value() == old(Value()).(request := M.Translated(old(request_), parsed))
      ensures request_.verb == parsed.verb && request_.version == 10 * parsed.major + parsed.minor
      ensures request_.target == parsed.uri && request_.body == old(request_.body)
    {
      request_ := request_.(verb := parsed.verb, version := parsed.major * 10 + parsed.minor, target := parsed.uri);
      for i := 0 to |parsed.headers|
        invariant request_ == M.Translated(old(request_), parsed.(headers := parsed.headers[..i]))
      {
        assert parsed.headers[..i + 1][..i] == parsed.headers[..i];
        var h := parsed.headers[i];
        request_ := request_.(fields := request_.fields[M.Lower(h.name) := h.value]);
      }
      assert parsed.headers[..|parsed.headers|] == parsed.headers;
    }

    method Write(response: M.Response)
      modifies this
      ensures Value() == M.Respond(old(Value()), response)
    {
      pending_ := M.Writing(response);
      responses, unlogged := responses + 1, unlogged + 1;
    }

    /** Gives the request to its handler, which may throw. */
    method Handle(handler: nat)
      modifies this
      ensures Value() == M.Handle(env, old(Value()), handler)
    {
      if env.answers(handler, request_) {
        Write(M.Handled(handler, request_));
      } else {
        pending_ := M.Thrown(handler);
      }
    }

    /** The completion of a header read with the bytes `data`, or of one that failed. Where the source
        would take from an empty vector, the session is left in a state of its own. */
    method HandleReadHeader(error: bool, data: string)
      requires pending_.ReadingHeader?
      modifies this, request_parser_
      ensures error ==> Value() == M.Step(env, old(Value()), M.Failed, (0, 0))
      ensures !error ==> exists junk :: M.StepsTo(env, old(Value()), M.HeaderBytes(data), junk, Value())
    {
      if error {
        pending_ := M.Closed;
        return;
      }
      ghost var before := Value();
      if Overruns(request_parser_.state_, data) {
        CrashesExactlyIfOverruns(request_parser_.state_, FreshRecord(0, 0), data);
        pending_ := M.Undefined;
        assert M.StepsTo(env, before, M.HeaderBytes(data), (0, 0), Value());
        return;
      }
      var result, header_read_end, record := request_parser_.Parse(data);
      ghost var major, minor :|
        Run(before.parser, FreshRecord(major, minor), data) ==
        if result == Indeterminate then Partial(request_parser_.state_, record.Value())
        else Done(result == Yes, request_parser_.state_, record.Value(), data[header_read_end..]);
      var parsed := Parsed(record.verb, record.uri, record.http_version_major, record.http_version_minor, record.headers);
      HandleVerdict(result, parsed, data[header_read_end..], before);
      assert M.StepsTo(env, before, M.HeaderBytes(data), (major, minor), Value());
    }

    method HandleVerdict(result: Verdict, parsed: Parsed, rest: string, ghost before: M.Session)
      requires Value() == before.(parser := request_parser_.state_)
      modifies this
      ensures Value() == M.AfterParse(env, before,
                if result == Indeterminate then Partial(request_parser_.state_, parsed)
                else Done(result == Yes, request_parser_.state_, parsed, rest))
    {
      if result == Yes {
        Translate(parsed);
      }
      if result != Indeterminate {
        verdicts := verdicts + 1;
      }
      var content_length := M.ContentLength(env, request_.fields);
      if result == No || content_length < 0 {
        Write(M.BadRequest(M.BAD_HEADERS));
      } else if result == Yes {
        DispatchRequest(content_length, rest);
      }
    }

    method DispatchRequest(content_length: int, rest: string)
      requires content_length == M.ContentLength(env, request_.fields) >= 0
      modifies this
      ensures Value() == M.Dispatch(env, old(Value()), rest)
    {
      var found := env.lookup(request_.target);
      if found.AboveRoot? {
        pending_ := M.Undefined;
        return;
      }
      request_handler_ := if found.Handler? then Some(found.i) else None;
      if request_handler_ == None {
        Write(M.BadRequest(M.BAD_URI + request_.target));
        return;
      }
      if content_length == 0 {
        assert request_.body + rest[..0] == request_.body;
        Handle(request_handler_.value);
      } else if |rest| >= content_length {
        request_ := request_.(body := request_.body + rest[..content_length]);
        Handle(request_handler_.value);
      } else {
        request_ := request_.(body := request_.body + rest);
        pending_ := M.ReadingBody(content_length - |rest|);
      }
    }

    method HandleReadBody(error: bool, data: string)
      requires pending_.ReadingBody? && (!error ==> |data| == pending_.wanted)
      modifies this
      ensures Value() == M.Step(env, old(Value()), if error then M.Failed else M.BodyBytes(data), (0, 0))
    {
      if error {
        pending_ := M.Closed;
        return;
      }
      body_data := body_data + data;
      request_ := request_.(body := request_.body + body_data);
      if request_handler_ != None {
        Handle(request_handler_.value);
      } else {
        Write(M.BadRequest("N/A"));
      }
    }

    method HandleWrite(error: bool)
      requires pending_.Writing?
      modifies this, request_parser_
      ensures Value() == M.Step(env, old(Value()), if error then M.Failed else M.Written, (0, 0))
    {
      if error {
        pending_ := M.Closed;
        return;
      }
      request_parser_.Reset();
      request_ := request_.(fields := map[]);
      request_ := request_.(body := "");
      body_data, pending_ := "", M.ReadingHeader;
      cycles := cycles + 1;
    }
  }
}
