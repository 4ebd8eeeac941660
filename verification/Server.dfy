/** The server's tables: how they are filled from a configuration, and how a request finds its
    handler in them. */
module Server {
  import opened ConfigParser
  import opened ConfigValues
  import opened Paths
  import opened Router

  class RequestHandler {
    const kind: string
    const location: string
    const host: string
    const port: string
    const root: string

    /** A handler of the given kind with what it needs from its block. */
    constructor (kind: string, location: string, config: NginxConfig, ghost r: Registration)
      requires config.Valid() && r.kind == kind && r.block == config.Model && HasSettings(r)
      ensures this.kind == kind && this.location == location
      ensures host == Setting(r, "host") && port == Setting(r, "port") && root == Setting(r, "root")
      ensures kind == "ReverseProxyHandler" ==>
                [host] <= ValuesOf(config.Model, [], "host") && [port] <= ValuesOf(config.Model, [], "port")
      ensures kind == "StaticHandler" || kind == "MemeHandler" ==> [root] <= ValuesOf(config.Model, [], "root")
    {
      this.kind, this.location := kind, location;
      host, port, root := "", "", "";
      if kind == "ReverseProxyHandler" {
        var host_values := ConfigLookup(config, [], "host");
        host := host_values[0];
        var port_values := ConfigLookup(config, [], "port");
        port := port_values[0];
      } else if kind == "StaticHandler" || kind == "MemeHandler" {
        var values := ConfigLookup(config, [], "root");
        root := values[0];
      }
    }
  }

  /** The handler that is made for a registration under the directories `cs`. */
  ghost predicate IsFor(h: RequestHandler, r: Registration, cs: seq<string>) {
    h.kind == r.kind && h.location == Join(cs) &&
    h.host == Setting(r, "host") && h.port == Setting(r, "port") && h.root == Setting(r, "root")
  }

  /** The handlers that were made for the registrations of kind `t`. */
  function OfKind(regs: seq<Registration>, made: seq<RequestHandler>, t: string): seq<RequestHandler>
    requires |regs| == |made|
  {
    if regs == [] then []
    else
      var n := |regs| - 1;
      OfKind(regs[..n], made[..n], t) + if regs[n].kind == t then [made[n]] else []
  }

  function LocationsOfKind(regs: seq<Registration>, t: string): seq<string> {
    if regs == [] then []
    else
      var n := |regs| - 1;
      LocationsOfKind(regs[..n], t) + if regs[n].kind == t then [regs[n].location] else []
  }

  class Server {
    const cwd: string
    var location_to_handler_: map<string, RequestHandler>
    var type_to_handler_: map<string, seq<RequestHandler>>
    var handler_to_prefixes_: map<string, seq<string>>
    var requests_: map<(string, int), nat>
    ghost var regs: seq<Registration>
    ghost var keys: seq<seq<string>>
    ghost var made: seq<RequestHandler>

    /** The tables are those of the registrations `regs` under `keys`, for which the handlers
        `made` were made. */
    ghost predicate Consistent()
      reads this
    {
      Tables(location_to_handler_, type_to_handler_, handler_to_prefixes_, regs, keys, made)
    }

    ghost predicate Valid()
      reads this
    {
      Consistent() && Keyed(cwd, regs, keys)
    }

    /** Registers the handlers of a configuration, unless the directory of the memes cannot be made or
        the configuration has no port. */
    constructor (config: NginxConfig, cwd: string, atoi: string -> int, directory_error: bool)
      requires config.Valid()
      requires !directory_error && PortOf(config.Model, atoi) != -1 ==> AllResolve(cwd, Locations(config.Model))
      ensures Valid() && this.cwd == cwd && requests_ == map[]
      ensures regs == if !directory_error && PortOf(config.Model, atoi) != -1 then Locations(config.Model) else []
    {
      this.cwd := cwd;
      location_to_handler_, type_to_handler_, handler_to_prefixes_, requests_ := map[], map[], map[], map[];
      regs, keys, made := [], [], [];
      new;
      if directory_error {
        return;
      }
      var port_num := GetPortNumber(config, atoi);
      if port_num == -1 {
        return;
      }
      GetHandlers(config);
      assert [] + Locations(config.Model) == Locations(config.Model);
    }

    /** Makes the handler for one location; an unknown kind is reported and ignored. */
    method CreateAndAddHandler(kind: string, location: string, config: NginxConfig)
      requires Valid() && !GoesAboveRoot(cwd, location) && config.Valid()
      requires HasSettings(Registration(kind, location, config.Model))
      modifies this
      ensures Valid() && requests_ == old(requests_)
      ensures regs == old(regs) + if kind in HANDLER_TYPES then [Registration(kind, location, old(config.Model))] else []
      ensures IsKnown(kind) ==> |made| == |old(made)| + 1 && fresh(made[|old(made)|]) && made[|old(made)|].kind == kind
      ensures IsKnown(kind) ==>
                location_to_handler_ == old(location_to_handler_)[made[|old(made)|].location := made[|old(made)|]] &&
                type_to_handler_ == old(type_to_handler_)[kind := Entry(old(type_to_handler_), kind) + [made[|old(made)|]]] &&
                handler_to_prefixes_ == old(handler_to_prefixes_)[kind := Entry(old(handler_to_prefixes_), kind) + [location]]
      ensures !IsKnown(kind) ==>
                made == old(made) && location_to_handler_ == old(location_to_handler_) &&
                type_to_handler_ == old(type_to_handler_) && handler_to_prefixes_ == old(handler_to_prefixes_)
    {
      KnownKinds(kind);
      if kind !in HANDLER_TYPES {
        return;
      }
      AbsoluteUnlessAboveRoot(cwd, location);
      ghost var r, cs := Registration(kind, location, config.Model), Absolute(cwd, location).value;
      NormalHasNames(Complete(cwd, Unquoted(location)));
      KeyedAdds(cwd, regs, keys, r, cs);
      var loc := ConvertToAbsolutePath(cwd, location);
      var handler := new RequestHandler(kind, loc, config, r);
      TablesAdd(location_to_handler_, type_to_handler_, handler_to_prefixes_, regs, keys, made, r, cs, handler);
      Install(handler, location, r, cs);
    }

    method Install(handler: RequestHandler, location: string, ghost r: Registration, ghost cs: seq<string>)
      modifies this
      ensures requests_ == old(requests_)
      ensures regs == old(regs) + [r] && keys == old(keys) + [cs] && made == old(made) + [handler]
      ensures location_to_handler_ == old(location_to_handler_)[handler.location := handler]
      ensures type_to_handler_ == old(type_to_handler_)[handler.kind := Entry(old(type_to_handler_), handler.kind) + [handler]]
      ensures handler_to_prefixes_ ==
              old(handler_to_prefixes_)[handler.kind := Entry(old(handler_to_prefixes_), handler.kind) + [location]]
    {
      handler_to_prefixes_ := handler_to_prefixes_[handler.kind := Entry(handler_to_prefixes_, handler.kind) + [location]];
      location_to_handler_ := location_to_handler_[handler.location := handler];
      type_to_handler_ := type_to_handler_[handler.kind := Entry(type_to_handler_, handler.kind) + [handler]];
      regs, keys, made := regs + [r], keys + [cs], made + [handler];
    }

    /** Registers the location that a statement of a server block may be. */
    method AddLocation(server_statement: NginxConfigStatement)
      requires Valid() && server_statement.Valid() && AllResolve(cwd, LocationOf(server_statement.Model))
      modifies this
      ensures Valid() && requests_ == old(requests_)
      ensures regs == old(regs) + LocationOf(server_statement.Model)
    {
      var block_tokens := server_statement.tokens_;
      if server_statement.child_block_ != null && |block_tokens| == 3 && block_tokens[0] == "location" {
        var kind, i := block_tokens[2], 0;
        while i < |HANDLER_TYPES| && HANDLER_TYPES[i] != kind
          invariant i <= |HANDLER_TYPES| && kind !in HANDLER_TYPES[..i]
        {
          i := i + 1;
        }
        if i < |HANDLER_TYPES| {
          assert Resolves(cwd, LocationOf(server_statement.Model)[0]);
          AbsoluteUnlessAboveRoot(cwd, block_tokens[1]);
          CreateAndAddHandler(kind, block_tokens[1], server_statement.child_block_);
        }
      }
    }

    /** Registers the locations of a statement of the configuration, if it is a server block. */
    method AddServer(statement: NginxConfigStatement)
      requires Valid() && statement.Valid() && this !in statement.Repr
      requires AllResolve(cwd, ServerLocations(statement.Model))
      modifies this
      ensures Valid() && requests_ == old(requests_)
      ensures regs == old(regs) + ServerLocations(statement.Model)
    {
      if statement.child_block_ == null || |statement.tokens_| != 1 || statement.tokens_[0] != "server" {
        return;
      }
      assert statement.tokens_ == ["server"];
      AddLocations(statement.child_block_);
    }

    method AddLocations(server_config: NginxConfig)
      requires Valid() && server_config.Valid() && this !in server_config.Repr
      requires AllResolve(cwd, Flat(LocationOf, server_config.Model))
      modifies this
      ensures Valid() && requests_ == old(requests_)
      ensures regs == old(regs) + Flat(LocationOf, server_config.Model)
    {
      ghost var model := server_config.Model;
      var n := |server_config.statements_|;
      for j := 0 to n
        invariant Valid() && requests_ == old(requests_) && regs == old(regs) + Flat(LocationOf, model[..j])
      {
        assert server_config.statements_[j].Valid() && server_config.statements_[j].Model == model[j];
        FlatGrows(LocationOf, model, j);
        PartResolves(cwd, Flat(LocationOf, model[..j]), LocationOf(model[j]), Flat(LocationOf, model));
        AddLocation(server_config.statements_[j]);
        Regrouped(old(regs), Flat(LocationOf, model[..j]), LocationOf(model[j]));
      }
      assert model[..n] == model;
    }

    /** Fills the tables from the location blocks of the server blocks of a configuration. */
    method GetHandlers(config: NginxConfig)
      requires Valid() && config.Valid() && this !in config.Repr
      requires AllResolve(cwd, Locations(config.Model))
      modifies this
      ensures Valid() && requests_ == old(requests_)
      ensures regs == old(regs) + Locations(config.Model)
    {
      ghost var model := config.Model;
      var n := |config.statements_|;
      for i := 0 to n
        invariant Valid() && requests_ == old(requests_) && regs == old(regs) + Locations(model[..i])
      {
        assert config.statements_[i].Valid() && config.statements_[i].Model == model[i];
        FlatGrows(ServerLocations, model, i);
        PartResolves(cwd, Locations(model[..i]), ServerLocations(model[i]), Locations(model));
        AddServer(config.statements_[i]);
        Regrouped(old(regs), Locations(model[..i]), ServerLocations(model[i]));
      }
      assert model[..n] == model;
    }

    /** The handler for a request: the table is searched from the path towards the root. */
    method GetRequestHandler(request_uri: string) returns (h: RequestHandler?)
      requires Valid() && !GoesAboveRoot(cwd, request_uri)
      ensures Absolute(cwd, request_uri).Some?
      ensures h == null <==> forall j :: 0 <= j < |keys| ==> !(keys[j] <= Absolute(cwd, request_uri).value)
      ensures h != null ==> exists i :: Serves(keys, Absolute(cwd, request_uri).value, i) && h == made[i]
      ensures var found := Lookup(cwd, keys, request_uri);
              if found.Handler? then found.i < |made| && h == made[found.i] else h == null
    {
      AbsoluteUnlessAboveRoot(cwd, request_uri);
      ghost var cs := Absolute(cwd, request_uri).value;
      NormalHasNames(Complete(cwd, Unquoted(request_uri)));
      var uri := ConvertToAbsolutePath(cwd, request_uri);
      h := Walk(uri, cs);
      RouteServes(keys, cs);
    }

    method Walk(path: string, ghost cs: seq<string>) returns (h: RequestHandler?)
      requires |keys| == |made| && Table(location_to_handler_, keys, made) && AreNames(cs) && path == Join(cs)
      ensures var i := Route(keys, cs); h == if i < 0 then null else made[i]
    {
      var uri := path;
      ghost var k := |cs|;
      NoParents();
      assert cs[..k] == cs;
      while ParentPath(uri) != ""
        invariant k <= |cs| && Route(keys, cs) == Route(keys, cs[..k])
        invariant uri == Join(cs[..k]) || (k == 0 && uri == "/")
        decreases k
      {
        assert k > 0;
        WalkStep(keys, cs, k);
        assert AreNames(cs[..k]);
        if uri in location_to_handler_ {
          return location_to_handler_[uri];
        }
        assert LastAt(keys, cs[..k]) < 0;
        uri := ParentPath(uri);
        k := k - 1;
      }
      if k > 0 { WalkStep(keys, cs, k); }
      assert k == 0 && cs[..k] == [];
      if "" !in location_to_handler_ {
        return null;
      }
      return location_to_handler_[""];
    }

    /** The kind under which a handler was registered. */
    method GetHandlerType(ptr: RequestHandler?) returns (t: string)
      requires Consistent()
      ensures t == if ptr == null then "Bad" else if ptr in made then ptr.kind else "Unknown"
    {
      if ptr == null {
        return "Bad";
      }
      var left := type_to_handler_.Keys;
      while left != {}
        invariant left <= type_to_handler_.Keys
        invariant forall u :: u in type_to_handler_ && u !in left ==> ptr !in type_to_handler_[u]
        decreases left
      {
        var u :| u in left;
        MadeOfKind(regs, made, u, ptr);
        assert type_to_handler_[u] == OfKind(regs, made, u);
        if ptr in type_to_handler_[u] {
          return u;
        }
        left := left - {u};
      }
      forall i | 0 <= i < |made| ensures made[i] != ptr {
        MadeOfKind(regs, made, regs[i].kind, made[i]);
        assert Entry(type_to_handler_, regs[i].kind) == OfKind(regs, made, regs[i].kind);
      }
      return "Unknown";
    }

    /** Counts a request; the caller holds the lock. */
    method LogRequest(req_resp: (string, int))
      modifies this`requests_
      ensures requests_ == Counted(old(requests_), req_resp)
      ensures requests_.Keys == old(requests_.Keys) + {req_resp}
      ensures requests_[req_resp] == (if req_resp in old(requests_) then old(requests_)[req_resp] + 1 else 1)
      ensures forall key :: key in old(requests_) && key != req_resp ==> requests_[key] == old(requests_)[key]
    {
      if req_resp in requests_ {
        requests_ := requests_[req_resp := requests_[req_resp] + 1];
      } else {
        requests_ := requests_[req_resp := 1];
      }
    }
  }

  /** One step of the walk towards the root. */
  lemma WalkStep(keys: seq<seq<string>>, cs: seq<string>, k: nat)
    requires 0 < k <= |cs| && AreNames(cs)
    ensures ParentPath(Join(cs[..k])) == if k == 1 then "/" else Join(cs[..k - 1])
    ensures ParentPath(Join(cs[..k])) != ""
    ensures LastAt(keys, cs[..k]) < 0 ==> Route(keys, cs[..k]) == Route(keys, cs[..k - 1])
    ensures LastAt(keys, cs[..k]) >= 0 ==> Route(keys, cs[..k]) == LastAt(keys, cs[..k])
  {
    assert AreNames(cs[..k]) && cs[..k][..k - 1] == cs[..k - 1];
    ParentOfJoin(cs[..k]);
    if k > 1 { ParentOfJoin(cs[..k - 1]); }
  }

  function Counted(m: map<(string, int), nat>, key: (string, int)): map<(string, int), nat> {
    m[key := (if key in m then m[key] else 0) + 1]
  }

  /** One count grows by one, and no other changes. */
  lemma CountedOnce(m: map<(string, int), nat>, key: (string, int), other: (string, int))
    ensures key in Counted(m, key) && Counted(m, key)[key] == if key in m then m[key] + 1 else 1
    ensures other != key ==> (other in Counted(m, key) <==> other in m)
    ensures other != key && other in m ==> Counted(m, key)[other] == m[other]
  {
  }

  lemma {:induction false} MadeOfKind(regs: seq<Registration>, made: seq<RequestHandler>, t: string, h: RequestHandler)
    requires |regs| == |made|
    ensures h in OfKind(regs, made, t) <==> exists i :: 0 <= i < |made| && made[i] == h && regs[i].kind == t
    decreases |regs|
  {
    if regs != [] {
      var n := |regs| - 1;
      MadeOfKind(regs[..n], made[..n], t, h);
      assert forall i :: 0 <= i < n ==> made[..n][i] == made[i] && regs[..n][i] == regs[i];
    }
  }

  function Entry<T>(m: map<string, seq<T>>, t: string): seq<T> { if t in m then m[t] else [] }

  ghost predicate AreMade(regs: seq<Registration>, keys: seq<seq<string>>, made: seq<RequestHandler>) {
    |regs| == |keys| == |made| &&
    (forall i :: 0 <= i < |regs| ==> AreNames(keys[i]) && IsFor(made[i], regs[i], keys[i])) &&
    (forall i, j :: 0 <= i < j < |made| ==> made[i] != made[j])
  }

  /** `m` holds, for each normal form, the handler of the last registration under it. */
  ghost predicate Table(m: map<string, RequestHandler>, keys: seq<seq<string>>, made: seq<RequestHandler>)
    requires |keys| == |made|
  {
    forall cs :: AreNames(cs) ==>
      if LastAt(keys, cs) >= 0 then Join(cs) in m && m[Join(cs)] == made[LastAt(keys, cs)] else Join(cs) !in m
  }

  ghost predicate TypesGrouped(m: map<string, seq<RequestHandler>>, regs: seq<Registration>, made: seq<RequestHandler>)
    requires |regs| == |made|
  {
    forall t :: Entry(m, t) == OfKind(regs, made, t)
  }

  ghost predicate PrefixesGrouped(m: map<string, seq<string>>, regs: seq<Registration>) {
    forall t :: Entry(m, t) == LocationsOfKind(regs, t)
  }

  lemma TableAdds(m: map<string, RequestHandler>, keys: seq<seq<string>>, made: seq<RequestHandler>,
                  cs: seq<string>, h: RequestHandler)
    requires |keys| == |made| && Table(m, keys, made) && AreNames(cs)
    ensures Table(m[Join(cs) := h], keys + [cs], made + [h])
  {
    assert (keys + [cs])[..|keys|] == keys;
    forall ds | AreNames(ds) && Join(ds) == Join(cs) ensures ds == cs {
      JoinIsInjective(ds, cs);
    }
  }

  lemma TypesAdd(m: map<string, seq<RequestHandler>>, regs: seq<Registration>, made: seq<RequestHandler>,
                 r: Registration, h: RequestHandler)
    requires |regs| == |made| && TypesGrouped(m, regs, made)
    ensures TypesGrouped(m[r.kind := Entry(m, r.kind) + [h]], regs + [r], made + [h])
  {
    assert (regs + [r])[..|regs|] == regs && (made + [h])[..|made|] == made;
    forall t ensures Entry(m[r.kind := Entry(m, r.kind) + [h]], t) == OfKind(regs + [r], made + [h], t) {
      assert OfKind(regs + [r], made + [h], t) == OfKind(regs, made, t) + if r.kind == t then [h] else [];
    }
  }

  lemma PrefixesAdd(m: map<string, seq<string>>, regs: seq<Registration>, r: Registration)
    requires PrefixesGrouped(m, regs)
    ensures PrefixesGrouped(m[r.kind := Entry(m, r.kind) + [r.location]], regs + [r])
  {
    assert (regs + [r])[..|regs|] == regs;
    forall t ensures Entry(m[r.kind := Entry(m, r.kind) + [r.location]], t) == LocationsOfKind(regs + [r], t) {
      assert LocationsOfKind(regs + [r], t) == LocationsOfKind(regs, t) + if r.kind == t then [r.location] else [];
    }
  }

  /** The tables are those of the registrations, under these directories, with these handlers. */
  ghost predicate Tables(locations: map<string, RequestHandler>, types: map<string, seq<RequestHandler>>,
                         prefixes: map<string, seq<string>>,
                         regs: seq<Registration>, keys: seq<seq<string>>, made: seq<RequestHandler>)
  {
    AreMade(regs, keys, made) && Table(locations, keys, made) && TypesGrouped(types, regs, made) && PrefixesGrouped(prefixes, regs)
  }

  lemma TablesAdd(locations: map<string, RequestHandler>, types: map<string, seq<RequestHandler>>,
                  prefixes: map<string, seq<string>>,
                  regs: seq<Registration>, keys: seq<seq<string>>, made: seq<RequestHandler>,
                  r: Registration, cs: seq<string>, h: RequestHandler)
    requires Tables(locations, types, prefixes, regs, keys, made) && AreNames(cs) && h !in made && IsFor(h, r, cs)
    ensures Tables(locations[h.location := h], types[h.kind := Entry(types, h.kind) + [h]],
                   prefixes[h.kind := Entry(prefixes, h.kind) + [r.location]], regs + [r], keys + [cs], made + [h])
  {
    MadeAdds(regs, keys, made, r, cs, h);
    TableAdds(locations, keys, made, cs, h);
    TypesAdd(types, regs, made, r, h);
    PrefixesAdd(prefixes, regs, r);
  }

  lemma KeyedAdds(cwd: string, regs: seq<Registration>, keys: seq<seq<string>>, r: Registration, cs: seq<string>)
    requires Keyed(cwd, regs, keys) && FoundAt(cwd, r, cs)
    ensures Keyed(cwd, regs + [r], keys + [cs])
  {
  }

  lemma MadeAdds(regs: seq<Registration>, keys: seq<seq<string>>, made: seq<RequestHandler>,
                 r: Registration, cs: seq<string>, h: RequestHandler)
    requires AreMade(regs, keys, made) && AreNames(cs) && h !in made && IsFor(h, r, cs)
    ensures AreMade(regs + [r], keys + [cs], made + [h])
  {
  }

  lemma Regrouped(a: seq<Registration>, b: seq<Registration>, c: seq<Registration>)
    ensures a + b + c == a + (b + c)
  {
  }
}
