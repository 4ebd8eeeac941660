/** Looking values up in a configuration: `configLookup` and `getPortNumber`. */
module ConfigValues {
  import opened Options
  import opened ConfigGrammar
  import opened ConfigParser

  /** A statement without a block, whose first token is `name`. */
  predicate IsField(s: Stmt, name: string) { s.child.NoBlock? && s.tokens != [] && s.tokens[0] == name }

  predicate IsBlock(s: Stmt, name: string) { s.child.Block? && s.tokens != [] && s.tokens[0] == name }

  /** The values of the first field `name`; nothing if there is none. */
  function FieldIn(stmts: seq<Stmt>, name: string): seq<string> {
    if stmts == [] then []
    else if IsField(stmts[0], name) then stmts[0].tokens[1..]
    else FieldIn(stmts[1..], name)
  }

  /** The statements of the first block `name`. */
  function BlockIn(stmts: seq<Stmt>, name: string): Option<seq<Stmt>> {
    if stmts == [] then None
    else if IsBlock(stmts[0], name) then Some(stmts[0].child.stmts)
    else BlockIn(stmts[1..], name)
  }

  /** The values of a field inside nested blocks. Only the first block of a name is looked into. */
  function ValuesOf(stmts: seq<Stmt>, names: seq<string>, field: string): seq<string>
    decreases |names|
  {
    if names == [] then FieldIn(stmts, field)
    else match BlockIn(stmts, names[0]) case None => [] case Some(inner) => ValuesOf(inner, names[1..], field)
  }

  method ConfigLookup(config: NginxConfig, block_names: seq<string>, field_name: string) returns (field_values: seq<string>)
    requires config.Valid()
    ensures field_values == ValuesOf(config.Model, block_names, field_name)
    decreases |block_names|
  {
    ghost var model := config.Model;
    var n := |config.statements_|;
    assert model[0..] == model;
    if |block_names| == 0 {
      for i := 0 to n
        invariant FieldIn(model[i..], field_name) == FieldIn(model, field_name)
      {
        var statement := config.statements_[i];
        assert statement.Valid() && statement.Model == model[i] == model[i..][0] && model[i..][1..] == model[i + 1..];
        if statement.child_block_ == null && |statement.tokens_| >= 1 && statement.tokens_[0] == field_name {
          field_values := Values(statement.tokens_);
          return;
        }
      }
      return [];
    }
    for i := 0 to n
      invariant BlockIn(model[i..], block_names[0]) == BlockIn(model, block_names[0])
    {
      var statement := config.statements_[i];
      assert statement.Valid() && statement.Model == model[i] == model[i..][0] && model[i..][1..] == model[i + 1..];
      if statement.child_block_ != null && |statement.tokens_| > 0 && statement.tokens_[0] == block_names[0] {
        field_values := ConfigLookup(statement.child_block_, block_names[1..], field_name);
        return;
      }
    }
    return [];
  }

  method Values(tokens: seq<string>) returns (field_values: seq<string>)
    requires |tokens| >= 1
    ensures [tokens[0]] + field_values == tokens
  {
    field_values := [];
    for k := 1 to |tokens|
      invariant field_values == tokens[1..k]
    {
      field_values := field_values + [tokens[k]];
    }
  }

  // ----- the port -----

  /** The port of a configuration as `atoi` reads it; -1 if there is none. */
  function PortOf(stmts: seq<Stmt>, atoi: string -> int): int {
    var values := ValuesOf(stmts, ["server"], "port");
    if |values| != 1 then -1 else atoi(values[0])
  }

  method GetPortNumber(config: NginxConfig, atoi: string -> int) returns (port: int)
    requires config.Valid()
    ensures port == PortOf(config.Model, atoi)
  {
    var field_values := ConfigLookup(config, ["server"], "port");
    if |field_values| != 1 {
      return -1;
    }
    return atoi(field_values[0]);
  }

  predicate FirstField(stmts: seq<Stmt>, name: string, i: nat) {
    i < |stmts| && IsField(stmts[i], name) && forall j :: 0 <= j < i ==> !IsField(stmts[j], name)
  }

  predicate FirstBlock(stmts: seq<Stmt>, name: string, i: nat) {
    i < |stmts| && IsBlock(stmts[i], name) && forall j :: 0 <= j < i ==> !IsBlock(stmts[j], name)
  }

  lemma {:induction false} FieldFound(stmts: seq<Stmt>, name: string) returns (i: nat)
    ensures i <= |stmts| && forall j :: 0 <= j < i ==> !IsField(stmts[j], name)
    ensures i < |stmts| ==> FirstField(stmts, name, i)
    ensures FieldIn(stmts, name) == if i < |stmts| then stmts[i].tokens[1..] else []
  {
    if stmts == [] || IsField(stmts[0], name) {
      i := 0;
    } else {
      i := FieldFound(stmts[1..], name);
      i := i + 1;
    }
  }

  lemma {:induction false} BlockFound(stmts: seq<Stmt>, name: string) returns (i: nat)
    ensures i <= |stmts| && forall j :: 0 <= j < i ==> !IsBlock(stmts[j], name)
    ensures i < |stmts| ==> FirstBlock(stmts, name, i)
    ensures BlockIn(stmts, name) == if i < |stmts| then Some(stmts[i].child.stmts) else None
  {
    if stmts == [] || IsBlock(stmts[0], name) {
      i := 0;
    } else {
      i := BlockFound(stmts[1..], name);
      i := i + 1;
    }
  }

  /** In the first block that begins with `server`, the first field `port` has the one value `v`. */
  ghost predicate PortIs(stmts: seq<Stmt>, v: string) {
    exists i: nat, j: nat :: FirstBlock(stmts, "server", i) && PortAt(stmts[i].child.stmts, j, v)
  }

  predicate PortAt(inner: seq<Stmt>, j: nat, v: string) {
    FirstField(inner, "port", j) && inner[j].tokens == ["port", v]
  }

  lemma LookupOfPort(stmts: seq<Stmt>)
    ensures ValuesOf(stmts, ["server"], "port") ==
            match BlockIn(stmts, "server") case None => [] case Some(inner) => FieldIn(inner, "port")
  {
    assert ["server"][1..] == [];
  }

  lemma OneValue(tokens: seq<string>, v: string)
    requires tokens != [] && tokens[0] == "port"
    ensures tokens[1..] == [v] <==> tokens == ["port", v]
  {
    assert tokens == [tokens[0]] + tokens[1..];
  }

  lemma PortValue(stmts: seq<Stmt>, v: string)
    ensures ValuesOf(stmts, ["server"], "port") == [v] <==> PortIs(stmts, v)
  {
    LookupOfPort(stmts);
    var i := BlockFound(stmts, "server");
    if i < |stmts| {
      var inner := stmts[i].child.stmts;
      var j := FieldFound(inner, "port");
      if j < |inner| {
        OneValue(inner[j].tokens, v);
      }
      assert PortIs(stmts, v) <==> j < |inner| && PortAt(inner, j, v) by {
        assert j < |inner| && PortAt(inner, j, v) ==> FirstBlock(stmts, "server", i) && PortAt(stmts[i].child.stmts, j, v);
      }
    }
  }

  /** A configuration has a port exactly if the first block that begins with `server`, whatever other
      tokens it has, has a first field `port` with one value, and that is not read as -1. */
  lemma HasPortExactly(stmts: seq<Stmt>, atoi: string -> int)
    ensures PortOf(stmts, atoi) != -1 <==> exists v :: PortIs(stmts, v) && atoi(v) != -1
  {
    var values := ValuesOf(stmts, ["server"], "port");
    if |values| == 1 {
      assert values == [values[0]];
      PortValue(stmts, values[0]);
    }
    forall v | PortIs(stmts, v) ensures values == [v] {
      PortValue(stmts, v);
    }
  }

  /** Behind a block that begins with `server` and has no field `port`, no port is found, although
      handlers are registered from there. */
  lemma PortIsHidden(tokens: seq<string>, inner: seq<Stmt>, more: seq<Stmt>, atoi: string -> int)
    requires tokens != [] && tokens[0] == "server" && FieldIn(inner, "port") == []
    ensures PortOf([Stmt(tokens, Block(inner))] + more, atoi) == -1
  {
    LookupOfPort([Stmt(tokens, Block(inner))] + more);
  }

  /** The port is read off the first field `port` of the first block that begins with `server`, whatever
      else the configuration has. */
  lemma PortIsRead(stmts: seq<Stmt>, v: string, atoi: string -> int)
    requires PortIs(stmts, v)
    ensures PortOf(stmts, atoi) == atoi(v)
  {
    PortValue(stmts, v);
  }

  lemma PortIsFound(front: seq<Stmt>, more: seq<string>, one: seq<Stmt>, v: string, two: seq<Stmt>, back: seq<Stmt>,
                    atoi: string -> int)
    requires forall i :: 0 <= i < |front| ==> front[i].child == NoBlock || front[i].tokens == [] || front[i].tokens[0] != "server"
    requires forall j :: 0 <= j < |one| ==> one[j].child != NoBlock || one[j].tokens == [] || one[j].tokens[0] != "port"
    ensures PortOf(front + [Stmt(["server"] + more, Block(one + [Stmt(["port", v], NoBlock)] + two))] + back, atoi) == atoi(v)
  {
    var inner := one + [Stmt(["port", v], NoBlock)] + two;
    var stmts := front + [Stmt(["server"] + more, Block(inner))] + back;
    assert inner[|one|] == Stmt(["port", v], NoBlock) && stmts[|front|] == Stmt(["server"] + more, Block(inner));
    assert PortAt(inner, |one|, v);
    assert FirstBlock(stmts, "server", |front|);
    PortIsRead(stmts, v, atoi);
  }
}
