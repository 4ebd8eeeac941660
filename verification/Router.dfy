/** Which handler a location of the configuration gives a request, as a function of the statements
    that register handlers. */
module Router {
  import opened ConfigGrammar
  import opened ConfigValues
  import opened Options
  import opened Paths

  /** A statement `location <location> <kind> { <block> }` of a known kind. */
  datatype Registration = Registration(kind: string, location: string, block: seq<Stmt>)

  const HANDLER_TYPES: seq<string> := [
    "EchoHandler", "StaticHandler", "ReverseProxyHandler", "NotFoundHandler",
    "StatusHandler", "HealthHandler", "SleepHandler", "MemeHandler"]

  /** The results of `f` for a list of statements, in order. */
  function Flat(f: Stmt -> seq<Registration>, stmts: seq<Stmt>): seq<Registration> {
    if stmts == [] then []
    else
      var n := |stmts| - 1;
      Flat(f, stmts[..n]) + f(stmts[n])
  }

  lemma {:induction false} FlatGrows(f: Stmt -> seq<Registration>, stmts: seq<Stmt>, i: nat)
    requires i < |stmts|
    ensures Flat(f, stmts[..i + 1]) == Flat(f, stmts[..i]) + f(stmts[i])
    ensures Flat(f, stmts[..i + 1]) <= Flat(f, stmts)
    decreases |stmts|
  {
    assert stmts[..i + 1][..i] == stmts[..i];
    var n := |stmts| - 1;
    if i == n {
      assert stmts[..i + 1] == stmts;
    } else {
      FlatGrows(f, stmts[..n], i);
      assert stmts[..n][..i + 1] == stmts[..i + 1];
    }
  }

  /** The registration that a statement of a server block is, if it is one. */
  function LocationOf(s: Stmt): seq<Registration> {
    if s.child.Block? && |s.tokens| == 3 && s.tokens[0] == "location" && s.tokens[2] in HANDLER_TYPES
    then [Registration(s.tokens[2], s.tokens[1], s.child.stmts)] else []
  }

  /** The registrations in a statement of the configuration, if it is a server block. */
  function ServerLocations(s: Stmt): seq<Registration> {
    if s.child.Block? && s.tokens == ["server"] then Flat(LocationOf, s.child.stmts) else []
  }

  /** All registrations of a configuration, in its order. */
  function Locations(stmts: seq<Stmt>): seq<Registration> { Flat(ServerLocations, stmts) }

  /** The registration is found under the directories `cs`; none if its location goes above the root. */
  predicate FoundAt(cwd: string, r: Registration, cs: seq<string>) { Absolute(cwd, r.location) == Some(cs) }

  /** `keys` are the directories under which the registrations are found. */
  predicate Keyed(cwd: string, regs: seq<Registration>, keys: seq<seq<string>>) {
    |keys| == |regs| && forall i :: 0 <= i < |regs| ==> FoundAt(cwd, regs[i], keys[i])
  }

  predicate AllResolve(cwd: string, regs: seq<Registration>) {
    forall i :: 0 <= i < |regs| ==> Resolves(cwd, regs[i])
  }

  lemma PartResolves(cwd: string, front: seq<Registration>, part: seq<Registration>, all: seq<Registration>)
    requires AllResolve(cwd, all) && front + part <= all
    ensures AllResolve(cwd, part)
  {
    forall i | 0 <= i < |part| ensures Resolves(cwd, part[i]) {
      assert part[i] == (front + part)[|front| + i] == all[|front| + i];
    }
  }

  predicate Resolves(cwd: string, r: Registration) { Absolute(cwd, r.location).Some? && HasSettings(r) }

  // ----- settings -----

  /** The fields that a handler looks up in its block when it is made. */
  function Needs(kind: string): seq<string> {
    if kind == "ReverseProxyHandler" then ["host", "port"]
    else if kind == "StaticHandler" || kind == "MemeHandler" then ["root"]
    else []
  }

  /** They all have a value; the source takes the first even if there is none. */
  predicate HasSettings(r: Registration) {
    forall name :: name in Needs(r.kind) ==> ValuesOf(r.block, [], name) != []
  }

  /** The first value of a field, if the handler needs it. */
  function Setting(r: Registration, name: string): string {
    var values := ValuesOf(r.block, [], name);
    if name in Needs(r.kind) && values != [] then values[0] else ""
  }

  // ----- the walk -----

  /** The index of the last registration at exactly these directories, or -1. */
  function LastAt(keys: seq<seq<string>>, cs: seq<string>): (i: int)
    ensures -1 <= i < |keys| && (i >= 0 ==> keys[i] == cs)
    ensures forall j :: i < j < |keys| ==> keys[j] != cs
  {
    if keys == [] then -1
    else
      var n := |keys| - 1;
      if keys[n] == cs then n else LastAt(keys[..n], cs)
  }

  /** The walk from a directory towards the root; -1 if nothing is registered on the way. */
  function Route(keys: seq<seq<string>>, cs: seq<string>): (i: int)
    ensures -1 <= i < |keys|
    decreases |cs|
  {
    var i := LastAt(keys, cs);
    if i >= 0 || cs == [] then i else Route(keys, cs[..|cs| - 1])
  }

  /** `i` is the registration for requests to `cs`: the last one at the longest registered part. */
  ghost predicate Serves(keys: seq<seq<string>>, cs: seq<string>, i: int) {
    0 <= i < |keys| && keys[i] <= cs &&
    forall j :: 0 <= j < |keys| && keys[j] <= cs ==> |keys[j]| < |keys[i]| || (keys[j] == keys[i] && j <= i)
  }

  /** The walk finds the registration that serves, and fails iff no registered location, not even
      the root, is a part of the path. */
  lemma {:induction false} RouteServes(keys: seq<seq<string>>, cs: seq<string>)
    ensures Route(keys, cs) >= 0 ==> Serves(keys, cs, Route(keys, cs))
    ensures Route(keys, cs) < 0 <==> forall j :: 0 <= j < |keys| ==> !(keys[j] <= cs)
    decreases |cs|
  {
    var i := LastAt(keys, cs);
    if i < 0 && cs != [] {
      var up := cs[..|cs| - 1];
      RouteServes(keys, up);
      forall j | 0 <= j < |keys| ensures keys[j] <= cs <==> keys[j] <= up {
        PrefixOfParent(keys[j], cs);
      }
    } else if i >= 0 {
      forall j | 0 <= j < |keys| && keys[j] <= cs ensures |keys[j]| < |cs| || (keys[j] == cs && j <= i) {
        assert |keys[j]| == |cs| ==> keys[j] == cs;
      }
    } else {
      forall j | 0 <= j < |keys| ensures !(keys[j] <= cs) {
        OnlyEmptyBelowEmpty(keys[j]);
      }
    }
  }

  lemma OnlyEmptyBelowEmpty(a: seq<string>)
    ensures a <= [] <==> a == []
  {
  }

  lemma PrefixOfParent(a: seq<string>, cs: seq<string>)
    requires cs != [] && a != cs
    ensures a <= cs <==> a <= cs[..|cs| - 1]
  {
    assert a <= cs && |a| == |cs| ==> a == cs;
  }

  /** There is only one such registration. */
  lemma ServesIsUnique(keys: seq<seq<string>>, cs: seq<string>, i: int, j: int)
    requires Serves(keys, cs, i) && Serves(keys, cs, j)
    ensures i == j
  {
    assert keys[i] <= cs && keys[j] <= cs;
  }

  /** What looking up a target leads to; above the root, the source takes from an empty vector. */
  datatype Found = Handler(i: nat) | NoHandler | AboveRoot

  /** The handler for a target, by the number of its registration. */
  function Lookup(cwd: string, keys: seq<seq<string>>, target: string): Found {
    match Absolute(cwd, target)
    case None => AboveRoot
    case Some(cs) => var i := Route(keys, cs); if i < 0 then NoHandler else Handler(i)
  }

  /** The registration that serves a target is the one that is looked up. */
  lemma LookupIsService(cwd: string, keys: seq<seq<string>>, target: string, i: nat)
    requires Absolute(cwd, target).Some?
    ensures Lookup(cwd, keys, target) == Handler(i) <==> Serves(keys, Absolute(cwd, target).value, i)
    ensures Lookup(cwd, keys, target) == NoHandler <==>
            forall j :: 0 <= j < |keys| ==> !(keys[j] <= Absolute(cwd, target).value)
  {
    var cs := Absolute(cwd, target).value;
    RouteServes(keys, cs);
    if Serves(keys, cs, i) {
      ServesIsUnique(keys, cs, Route(keys, cs), i);
    }
  }

  // ----- the walk on texts -----

  function LastSlash(s: string): (k: int)
    ensures -1 <= k < |s|
  {
    if s == "" then -1 else if s[|s| - 1] == '/' then |s| - 1 else LastSlash(s[..|s| - 1])
  }

  /** The parent of a path in normal form: `/` for a single directory, and nothing for `/`. */
  function ParentPath(s: string): string {
    var k := LastSlash(s);
    if k < 0 then "" else if k > 0 then s[..k] else if |s| == 1 then "" else "/"
  }

  lemma {:induction false} LastSlashBefore(front: string, name: string)
    requires '/' !in name
    ensures LastSlash(front + "/" + name) == |front|
    decreases |name|
  {
    var s := front + "/" + name;
    if name != "" {
      var n := |name| - 1;
      assert s[|s| - 1] == name[n] && name[n] in name;
      assert s[..|s| - 1] == front + "/" + name[..n];
      LastSlashBefore(front, name[..n]);
    }
  }

  lemma ParentOfJoin(cs: seq<string>)
    requires cs != [] && AreNames(cs)
    ensures ParentPath(Join(cs)) == if |cs| == 1 then "/" else Join(cs[..|cs| - 1])
    ensures Join(cs) != ""
  {
    var n := |cs| - 1;
    assert IsName(cs[n]);
    JoinLast(cs);
    ParentOfText(Join(cs[..n]), cs[n]);
    JoinIsNothing(cs[..n]);
  }

  lemma JoinLast(cs: seq<string>)
    requires cs != []
    ensures Join(cs) == Join(cs[..|cs| - 1]) + "/" + cs[|cs| - 1]
  {
    var n := |cs| - 1;
    assert cs[..n] + [cs[n]] == cs;
    JoinSnoc(cs[..n], cs[n]);
  }

  lemma JoinIsNothing(cs: seq<string>)
    ensures Join(cs) == "" <==> cs == []
  {
    if cs != [] { JoinText(cs); }
  }

  lemma ParentOfText(front: string, name: string)
    requires '/' !in name && name != ""
    ensures ParentPath(front + "/" + name) == if front == "" then "/" else front
  {
    LastSlashBefore(front, name);
    assert (front + "/" + name)[..|front|] == front;
  }

  lemma NoParents()
    ensures ParentPath("") == "" && ParentPath("/") == ""
  {
  }

  // ----- what is registered -----

  /** The kinds of handlers there are. */
  predicate IsKnown(kind: string) {
    kind == "EchoHandler" || kind == "StaticHandler" || kind == "ReverseProxyHandler" || kind == "NotFoundHandler" ||
    kind == "StatusHandler" || kind == "HealthHandler" || kind == "SleepHandler" || kind == "MemeHandler"
  }

  lemma KnownKinds(kind: string)
    ensures kind in HANDLER_TYPES <==> IsKnown(kind)
  {
    var ts := HANDLER_TYPES;
    assert ts[0] == "EchoHandler" && ts[1] == "StaticHandler" && ts[2] == "ReverseProxyHandler" && ts[3] == "NotFoundHandler";
    assert ts[4] == "StatusHandler" && ts[5] == "HealthHandler" && ts[6] == "SleepHandler" && ts[7] == "MemeHandler";
  }

  lemma {:induction false} FlatMember(f: Stmt -> seq<Registration>, stmts: seq<Stmt>, r: Registration)
    ensures r in Flat(f, stmts) <==> exists i :: 0 <= i < |stmts| && r in f(stmts[i])
    decreases |stmts|
  {
    if stmts != [] {
      var n := |stmts| - 1;
      FlatMember(f, stmts[..n], r);
      assert forall i :: 0 <= i < n ==> stmts[..n][i] == stmts[i];
    }
  }

  lemma {:induction false} FlatAppend(f: Stmt -> seq<Registration>, a: seq<Stmt>, b: seq<Stmt>)
    ensures Flat(f, a + b) == Flat(f, a) + Flat(f, b)
    decreases |b|
  {
    if b == [] {
      assert a + b == a;
    } else {
      var n := |b| - 1;
      assert (a + b)[..|a| + n] == a + b[..n] && (a + b)[|a| + n] == b[n];
      FlatAppend(f, a, b[..n]);
    }
  }

  /** The statement `location <location> <kind> { ... }` that a registration comes from. */
  predicate Declares(s: Stmt, r: Registration) {
    s == Stmt(["location", r.location, r.kind], Block(r.block)) && IsKnown(r.kind)
  }

  ghost predicate DeclaredIn(inner: seq<Stmt>, r: Registration) { exists j :: 0 <= j < |inner| && Declares(inner[j], r) }

  lemma LocationDeclares(s: Stmt, r: Registration)
    ensures r in LocationOf(s) <==> Declares(s, r)
  {
    KnownKinds(r.kind);
    if s.child.Block? && |s.tokens| == 3 {
      KnownKinds(s.tokens[2]);
      assert s.tokens == [s.tokens[0], s.tokens[1], s.tokens[2]];
    }
  }

  /** Registered is what a location statement with three words and a known kind declares in a block that
      is just `server`, and nothing else. */
  lemma RegisteredExactly(stmts: seq<Stmt>, r: Registration)
    ensures r in Locations(stmts) <==>
            exists i :: 0 <= i < |stmts| && stmts[i].child.Block? && stmts[i].tokens == ["server"] &&
              DeclaredIn(stmts[i].child.stmts, r)
  {
    FlatMember(ServerLocations, stmts, r);
    forall i | 0 <= i < |stmts|
      ensures r in ServerLocations(stmts[i]) <==>
              stmts[i].child.Block? && stmts[i].tokens == ["server"] && DeclaredIn(stmts[i].child.stmts, r)
    {
      ServerDeclares(stmts[i], r);
    }
  }

  lemma ServerDeclares(s: Stmt, r: Registration)
    ensures r in ServerLocations(s) <==> s.child.Block? && s.tokens == ["server"] && DeclaredIn(s.child.stmts, r)
  {
    if s.child.Block? && s.tokens == ["server"] {
      var inner := s.child.stmts;
      FlatMember(LocationOf, inner, r);
      forall j | 0 <= j < |inner| ensures r in LocationOf(inner[j]) <==> Declares(inner[j], r) {
        LocationDeclares(inner[j], r);
      }
    }
  }

  /** They are registered in the order of the configuration. */
  lemma RegisteredInOrder(a: seq<Stmt>, b: seq<Stmt>, tokens: seq<string>, one: seq<Stmt>, two: seq<Stmt>)
    ensures Locations(a + b) == Locations(a) + Locations(b)
    ensures Locations([Stmt(tokens, Block(one + two))]) == Locations([Stmt(tokens, Block(one))]) + Locations([Stmt(tokens, Block(two))])
  {
    FlatAppend(ServerLocations, a, b);
    FlatAppend(LocationOf, one, two);
    OneServer(Stmt(tokens, Block(one + two)));
    OneServer(Stmt(tokens, Block(one)));
    OneServer(Stmt(tokens, Block(two)));
  }

  lemma OneServer(s: Stmt)
    ensures Locations([s]) == ServerLocations(s)
  {
    assert [s][..0] == [];
    assert Flat(ServerLocations, [s]) == Flat(ServerLocations, []) + ServerLocations(s);
    assert Flat(ServerLocations, []) + ServerLocations(s) == ServerLocations(s);
  }
}
