/** From the bytes on a connection to the handler that answers them and, for a reverse proxy, on to
    what is asked of the proxied server. */
module EndToEnd {
  import opened Options
  import opened ConfigGrammar
  import opened RequestParser
  import opened RequestGrammar
  import opened Paths
  import opened Router
  import opened ProxyLoop
  import M = SessionMachine

  /** A server with its registrations and their directories. `other` says whether a handler answers a
      request as far as it is not known here: the proxied server may fail, for one. */
  datatype Site = Site(cwd: string, regs: seq<Registration>, keys: seq<seq<string>>,
                       stoi: string -> Option<int>, other: (nat, M.HttpRequest) -> bool)

  predicate IsProxy(site: Site, i: nat) { i < |site.regs| && site.regs[i].kind == "ReverseProxyHandler" }

  /** A reverse proxy throws if the target is shorter than its location. */
  predicate Answers(site: Site, i: nat, req: M.HttpRequest) {
    (IsProxy(site, i) && i < |site.keys| ==> Forwarded(Join(site.keys[i]), req.target).Some?) && site.other(i, req)
  }

  /** What a session finds on this server. */
  function EnvOf(site: Site): M.Env {
    M.Env(site.stoi, target => Lookup(site.cwd, site.keys, target), (i: nat, req: M.HttpRequest) => Answers(site, i, req))
  }

  /** The read that brings `head` completes a request with the record `p` whose body is the first of
      `bytes`. */
  predicate Completes(site: Site, s: M.Session, head: string, st: State, p: Parsed, bytes: string, junk: (int, int)) {
    M.Inv(EnvOf(site), s) && s.pending.ReadingHeader? && Run(s.parser, M.Fresh(junk), head) == Done(true, st, p, "") &&
    !GoesAboveRoot(site.cwd, p.uri) &&
    0 <= M.ContentLength(EnvOf(site), M.Translated(s.request, p).fields) <= |bytes|
  }

  /** The request that the handler gets. */
  function FullRequest(site: Site, s: M.Session, p: Parsed, bytes: string): M.HttpRequest
    requires 0 <= M.ContentLength(EnvOf(site), M.Translated(s.request, p).fields) <= |bytes|
  {
    var req := M.Translated(s.request, p);
    req.(body := bytes[..M.ContentLength(EnvOf(site), req.fields)])
  }

  /** In whatever reads a request arrives, it goes to handler `i`, with its body, iff that is the last
      registration at the longest registered part of the target; and it gets the error page for the
      target iff there is none. */
  lemma BytesFindHandler(site: Site, s: M.Session, head: string, st: State, p: Parsed, bytes: string, k: nat,
                         i: nat, junk: (int, int))
    requires Completes(site, s, head, st, p, bytes, junk) && k <= |bytes|
    ensures Absolute(site.cwd, p.uri).Some?
    ensures var cs := Absolute(site.cwd, p.uri).value;
            var end := M.Received(EnvOf(site), s, head, bytes, k, junk).pending;
            (end == M.Fate(EnvOf(site), i, FullRequest(site, s, p, bytes)) <==> Serves(site.keys, cs, i)) &&
            (end == M.Writing(M.BadRequest("Error getting handler for uri " + p.uri)) <==>
             forall j :: 0 <= j < |site.keys| ==> !(site.keys[j] <= cs))
  {
    var env := EnvOf(site);
    AbsoluteUnlessAboveRoot(site.cwd, p.uri);
    LookupIsService(site.cwd, site.keys, p.uri, i);
    var found := Lookup(site.cwd, site.keys, p.uri);
    if found.Handler? {
      M.BodyReassembled(env, s, head, st, p, bytes, k, found.i, junk);
    } else {
      M.UnservableHeadIsRefused(env, s, head, st, p, bytes[..k], junk);
    }
  }

  // ----- reverse proxies -----

  /** A request that goes to a reverse proxy is answered, if it is otherwise, iff its target is not
      shorter than the location of the proxy; if it is shorter, the callback throws. */
  lemma ProxyAnswersExactly(site: Site, s: M.Session, head: string, st: State, p: Parsed, bytes: string, k: nat,
                            i: nat, junk: (int, int))
    requires Completes(site, s, head, st, p, bytes, junk) && k <= |bytes|
    requires Lookup(site.cwd, site.keys, p.uri) == Handler(i) && IsProxy(site, i)
    requires site.other(i, FullRequest(site, s, p, bytes))
    ensures var full := FullRequest(site, s, p, bytes);
            M.Received(EnvOf(site), s, head, bytes, k, junk).pending ==
            if |p.uri| >= |Join(site.keys[i])| then M.Writing(M.Handled(i, full)) else M.Thrown(i)
  {
    M.BodyReassembled(EnvOf(site), s, head, st, p, bytes, k, i, junk);
  }

  /** That is so for every target that begins with a slash. */
  lemma RootedTargetIsLongEnough(site: Site, target: string, i: nat)
    requires target != "" && target[0] == '/' && Lookup(site.cwd, site.keys, target) == Handler(i)
    ensures |Join(site.keys[i])| <= |target|
  {
    assert Complete(site.cwd, Unquoted(target)) == target;
    LookupIsService(site.cwd, site.keys, target, i);
    NormalIsNoLonger(target, site.keys[i]);
  }

  lemma ShortTarget()
    ensures Absolute("/w", "a") == Some(["w", "a"]) && Join(["w", "a"]) == "/w/a"
  {
    RelativePath("/w", "a");
    assert ["w", "a"][1..] == ["a"] && ["a"][1..] == [];
    assert Join(["a"]) == "/" + "a" + "" && Join(["w", "a"]) == "/" + "w" + Join(["a"]);
    assert Join(["w", "a"]) == "/w" + "/" + "a";
    assert AreNames(["w", "a"]);
    NamesAreNormal(["w", "a"]);
  }

  /** A reverse proxy below the working directory `/w`. */
  function ShortSite(stoi: string -> Option<int>, other: (nat, M.HttpRequest) -> bool): Site {
    var block := [Stmt(["host", "h"], NoBlock), Stmt(["port", "80"], NoBlock)];
    Site("/w", [Registration("ReverseProxyHandler", "/w/a", block)], [["w", "a"]], stoi, other)
  }

  lemma ShortTargetFate(site: Site, req: M.HttpRequest)
    requires site == ShortSite(site.stoi, site.other) && req.target == "a"
    ensures EnvOf(site).lookup("a") == Handler(0) && M.Fate(EnvOf(site), 0, req) == M.Thrown(0)
    ensures Absolute(site.cwd, "a").Some?
  {
    ShortTarget();
    assert Forwarded("/w/a", "a") == None;
  }

  /** It is not for every other: the target `a`, taken below the working directory, is under the
      location, but shorter. */
  lemma ShortTargetThrows(site: Site, s: M.Session, junk: (int, int))
    requires site == ShortSite(site.stoi, site.other)
    requires M.Inv(EnvOf(site), s) && s.pending.ReadingHeader? && s.parser == MethodStart
    ensures M.Received(EnvOf(site), s, Render(Head("GET", "a", "1", "1", [])), "", 0, junk).pending == M.Thrown(0)
  {
    var h := Head("GET", "a", "1", "1", []);
    var req := M.Translated(s.request, Denote(h));
    assert Render(h) + "" == Render(h);
    DerivableAccepted(M.Fresh(junk), h, "");
    assert req.target == "a" && req.fields == map[];
    ShortTargetFate(site, req.(body := ""[..0]));
    M.BodyReassembled(EnvOf(site), s, Render(h), Newline3, Denote(h), "", 0, 0, junk);
  }

  /** A request for a link that the proxy at registration `i` has written, or for a redirect that it
      has sent on, is answered by that proxy, which asks the proxied server for the path that stood on
      its page, provided that nothing else is registered below the proxy on the way. */
  lemma LinkComesBack(site: Site, s: M.Session, head: string, st: State, p: Parsed, bytes: string, k: nat,
                      i: nat, more: string, junk: (int, int))
    requires Completes(site, s, head, st, p, bytes, junk) && k <= |bytes| && IsProxy(site, i)
    requires i < |site.keys| && AreNames(site.keys[i]) && p.uri == Redirected(Join(site.keys[i]), "/" + more)
    requires ".." !in Components(more) && LastAt(site.keys, site.keys[i]) == i
    requires var ds := site.keys[i] + Kept(Components(more));
             forall k :: |site.keys[i]| < k <= |ds| ==> LastAt(site.keys, ds[..k]) < 0
    requires site.other(i, FullRequest(site, s, p, bytes))
    ensures M.Received(EnvOf(site), s, head, bytes, k, junk).pending == M.Writing(M.Handled(i, FullRequest(site, s, p, bytes)))
    ensures Forwarded(Join(site.keys[i]), p.uri) == Some("/" + more)
  {
    ClosedLoop(site.cwd, site.keys, i, more);
    ProxyAnswersExactly(site, s, head, st, p, bytes, k, i, junk);
  }
}
