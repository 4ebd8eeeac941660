/** The reverse proxy as a whole: what it forwards, what it sends back, and that the links it writes
    lead back to it. */
module ProxyLoop {
  import opened Options
  import opened Paths
  import opened Router
  import opened ProxyRewrite
  import opened ProxyReversal
  import opened ProxyPasses

  datatype Request = Request(target: string, fields: map<string, string>)

  datatype Response = Response(status: int, fields: map<string, string>, body: string)

  /** The target that is asked of the proxied server. `None`: `substr` throws, since the target is
      shorter than the location. */
  function Forwarded(location: string, target: string): Option<string> {
    if |target| < |location| then None
    else if |target| == |location| then Some("/")
    else Some(target[|location|..])
  }

  /** The redirect that is sent to the client. */
  function Redirected(location: string, redirect: string): string {
    if BeginsSlash(redirect) then location + redirect else redirect
  }

  predicate IsRedirect(resp: Response) { "location" in resp.fields && 300 <= resp.status <= 399 }

  class ReverseProxyRequestHandler {
    const location: string
    const host: string
    const port: string

    constructor (location: string, host: string, port: string)
      ensures this.location == location && this.host == host && this.port == port
    {
      this.location, this.host, this.port := location, host, port;
    }

    /** The request that `handle_request` hands to the HTTP client. */
    method ProxiedRequest(req: Request) returns (r: Option<Request>)
      ensures Forwarded(location, req.target).None? ==> r == None
      ensures Forwarded(location, req.target).Some? ==>
                r == Some(Request(Forwarded(location, req.target).value,
                                  req.fields["host" := host + ":" + port]["accept-encoding" := "identity"]))
      ensures r.None? <==> |req.target| < |location|
      ensures r.Some? ==> r.value.target == if |req.target| == |location| then "/" else req.target[|location|..]
    {
      if |req.target| < |location| {
        return None;
      }
      var proxied := req.(target := req.target[|location|..]);
      if |proxied.target| == 0 {
        proxied := proxied.(target := "/");
      }
      proxied := proxied.(fields := proxied.fields["host" := host + ":" + port]);
      proxied := proxied.(fields := proxied.fields["accept-encoding" := "identity"]);
      return Some(proxied);
    }

    /** What becomes of the answer of the HTTP client. */
    method PreparedResponse(answer: Response) returns (resp: Response)
      ensures resp.status == answer.status
      ensures resp.fields == if IsRedirect(answer)
                             then answer.fields["location" := Redirected(location, answer.fields["location"])]
                             else answer.fields
      ensures resp.body == Passes(Href, Src, UrlQuoted, UrlBare, location, answer.body)
      ensures "location" in answer.fields && 300 <= answer.status <= 399 && "/" <= answer.fields["location"] ==>
                resp.fields == answer.fields["location" := location + answer.fields["location"]]
      ensures !("location" in answer.fields && 300 <= answer.status <= 399 && "/" <= answer.fields["location"]) ==>
                resp.fields == answer.fields
    {
      resp := answer;
      if "location" in resp.fields && 300 <= resp.status && resp.status <= 399 {
        var redirect := resp.fields["location"];
        if redirect != "" && redirect[0] == '/' {
          redirect := location + redirect;
        }
        resp := resp.(fields := resp.fields["location" := redirect]);
      }
      var body := PreparedBody(location, resp.body);
      resp := resp.(body := body);
    }
  }

  // ----- the closed loop -----

  /** The components that a path without `..` adds. */
  function Kept(cs: seq<string>): seq<string> {
    if cs == [] then []
    else (if cs[0] == "." || cs[0] == "" then [] else [cs[0]]) + Kept(cs[1..])
  }

  lemma {:induction false} ResolvesDown(stack: seq<string>, cs: seq<string>)
    requires ".." !in cs
    ensures Resolve(stack, cs) == Some(stack + Kept(cs))
    decreases |cs|
  {
    if cs == [] {
      assert stack + Kept(cs) == stack;
    } else if cs[0] == "." || cs[0] == "" {
      ResolvesDown(stack, cs[1..]);
      assert [] + Kept(cs[1..]) == Kept(cs[1..]);
    } else {
      ResolvesDown(stack + [cs[0]], cs[1..]);
      assert stack + [cs[0]] + Kept(cs[1..]) == stack + ([cs[0]] + Kept(cs[1..]));
    }
  }

  /** The walk comes down to the first part of a path under which something is registered. */
  lemma {:induction false} RouteComesTo(keys: seq<seq<string>>, ds: seq<string>, m: nat)
    requires m <= |ds| && forall k :: m < k <= |ds| ==> LastAt(keys, ds[..k]) < 0
    ensures Route(keys, ds) == Route(keys, ds[..m])
    decreases |ds|
  {
    assert ds[..|ds|] == ds;
    if m < |ds| {
      var up := ds[..|ds| - 1];
      assert LastAt(keys, ds[..|ds|]) < 0;
      forall k | m < k <= |up| ensures LastAt(keys, up[..k]) < 0 {
        assert up[..k] == ds[..k];
      }
      RouteComesTo(keys, up, m);
      assert up[..m] == ds[..m];
    }
  }

  lemma LinkDirectories(cwd: string, cs: seq<string>, more: string)
    requires AreNames(cs) && ".." !in Components(more)
    ensures Absolute(cwd, Join(cs) + "/" + more) == Some(cs + Kept(Components(more)))
  {
    var target := Join(cs) + "/" + more;
    assert target[0] == '/' by {
      if cs != [] { JoinText(cs); }
    }
    assert Complete(cwd, Unquoted(target)) == target;
    ComponentsAppend(Join(cs), more);
    NamesAreNormal(cs);
    ResolveAppend([], Components(Join(cs)), Components(more));
    ResolvesDown(cs, Components(more));
  }

  /** A link that the proxy at registration `i` has written, or a redirect that it has sent on, is
      routed to that proxy and forwarded as the path that the proxied server had written, provided
      that nothing else is registered below the proxy on the way. */
  lemma ClosedLoop(cwd: string, keys: seq<seq<string>>, i: nat, more: string)
    requires i < |keys| && AreNames(keys[i]) && ".." !in Components(more)
    requires LastAt(keys, keys[i]) == i
    requires var ds := keys[i] + Kept(Components(more));
             forall k :: |keys[i]| < k <= |ds| ==> LastAt(keys, ds[..k]) < 0
    ensures var loc, link := Join(keys[i]), "/" + more;
            Redirected(loc, link) == loc + link &&
            Absolute(cwd, loc + link).Some? &&
            Route(keys, Absolute(cwd, loc + link).value) == i &&
            Forwarded(loc, loc + link) == Some(link)
  {
    var cs := keys[i];
    var loc, link := Join(cs), "/" + more;
    var ds := cs + Kept(Components(more));
    assert loc + link == Join(cs) + "/" + more;
    LinkDirectories(cwd, cs, more);
    assert ds[..|cs|] == cs;
    RouteComesTo(keys, ds, |cs|);
    assert (loc + link)[|loc|..] == link;
  }

  /** A target that is just the location asks for the root; a redirect that does not begin with a slash,
      to another site say, is sent on as it is, and one that does gets the location in front. */
  lemma TargetsAndRedirects(loc: string, path: string)
    ensures Forwarded(loc, loc) == Some("/")
    ensures path != "" ==> Forwarded(loc, loc + path) == Some(path)
    ensures Redirected(loc, path) == if "/" <= path then loc + path else path
  {
    assert (loc + path)[|loc|..] == path;
    assert "/" <= path <==> path != "" && path[0] == '/';
  }

  /** A redirect to another host, with two slashes, gets the location in front as a path does, although
      a link to the same host on a page is left as it is. */
  lemma HostRedirectGetsLocation(p: Pass, loc: string, r: string)
    requires !p.UrlBare? && IsPlain(r) && |r| >= 2 && r[0] == '/' && r[1] == '/'
    ensures Redirected(loc, r) == loc + r
    ensures PassOver(p, loc, Prefix(p) + r) == Prefix(p) + r
  {
    var s := Prefix(p) + r;
    PrefixChars(p);
    forall k | 0 <= k < |s| ensures !AnySite({p}, s[k..]) {
      HostIsNoSite(p, r, k);
    }
    PassIsWeave(p, loc, s);
    WeaveCopies({p}, loc, s, |s|);
    assert s[..|s|] + "" == s;
  }

  lemma HostIsNoSite(p: Pass, r: string, k: nat)
    requires !p.UrlBare? && IsPlain(r) && |r| >= 2 && r[0] == '/' && r[1] == '/' && k < |Prefix(p) + r|
    ensures !Site(p, (Prefix(p) + r)[k..])
  {
    var s, e := Prefix(p) + r, |Prefix(p)| - 1;
    PrefixChars(p);
    if k == 0 {
      assert s[|From(p)|] == r[1];
    } else if k + e < |s| {
      assert s[k + e] == r[k - 1] && r[k - 1] in r;
      assert s[k..][e] == s[k + e] && From(p)[e] == '"';
    }
  }

  /** For one. */
  lemma HostRedirect()
    ensures Redirected("/p", "//host/x") == "/p" + "//host/x"
    ensures PassOver(Href, "/p", "href=\"" + "//host/x") == "href=\"" + "//host/x"
  {
    HostRedirectGetsLocation(Href, "/p", "//host/x");
  }

  /** Every location under which a handler is registered is one for which links can be undone. */
  lemma LocationsAreReversible(cs: seq<string>, prefix: string, page: string)
    requires AreNames(cs) && prefix != "" && '/' !in prefix
    ensures IsLocation(Join(cs))
    ensures Undo(prefix, Join(cs), "/", Rewrite(prefix, Join(cs), "/", page)) == page
  {
    if cs != [] {
      JoinText(cs);
      assert IsName(cs[0]);
      assert Join(cs)[1] == cs[0][0] && cs[0][0] in cs[0];
    }
    RewriteReversible(prefix, Join(cs), page);
  }
}
