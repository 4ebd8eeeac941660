/** Starting the server: from the text of a configuration to the tables. */
module ServerMain {
  import opened ConfigGrammar
  import opened ConfigLexer
  import opened ConfigParser
  import opened ConfigPrinter
  import opened ConfigQuoting
  import opened ConfigRuns
  import opened ConfigValues
  import opened Router
  import opened Sequences
  import opened Server

  /** The registrations that the server makes for an accepted configuration. */
  function Registered(stmts: seq<Stmt>, atoi: string -> int, directory_error: bool): seq<Registration> {
    if !directory_error && PortOf(stmts, atoi) != -1 then Locations(stmts) else []
  }

  /** Parses the configuration and, if it is accepted, makes the server. Its tables are those of the
      locations in the derivation tree of the text, provided that this has a port. */
  method Start(text: string, cwd: string, atoi: string -> int, directory_error: bool) returns (s: Server?)
    requires !QuotedStartsBlock([], Tokens(text))
    requires ParseText([], text).Accept? ==> AllResolve(cwd, Registered(ParseText([], text).block, atoi, directory_error))
    ensures s != null <==> ParseText([], text).Accept?
    ensures s != null ==> fresh(s) && s.Valid() && s.cwd == cwd && s.requests_ == map[]
    ensures s != null ==> s.regs == Registered(ParseText([], text).block, atoi, directory_error)
  {
    var config_file := new InputStream(text);
    var config := new NginxConfig();
    var success := Parse(config_file, config);
    if !success {
      return null;
    }
    s := new Server(config, cwd, atoi, directory_error);
  }

  const PORTLESS := [Stmt(["server"], Block([Stmt(["location", "/", "EchoHandler"], Block([]))]))]

  /** A configuration without a port is accepted, and nothing is registered for it. */
  lemma NothingWithoutPort(atoi: string -> int)
    ensures ParseText([], "server {\n" + ("location / EchoHandler {\n" + "}\n}\n")) == Accept(PORTLESS)
    ensures Locations(PORTLESS) == [Registration("EchoHandler", "/", [])]
    ensures Registered(PORTLESS, atoi, false) == []
  {
    PortlessText();
    ParseInvertsPrint([], PORTLESS);
    assert [] + PORTLESS == PORTLESS;
    PortIsHidden(["server"], PORTLESS[0].child.stmts, [], atoi);
    assert [PORTLESS[0]] + [] == PORTLESS;
    PortlessLocations();
  }

  lemma PortlessLocations()
    ensures Locations(PORTLESS) == [Registration("EchoHandler", "/", [])]
  {
    var server, location := PORTLESS[0], PORTLESS[0].child.stmts[0];
    assert PORTLESS[..0] == [] && server.child.stmts[..0] == [];
    assert "EchoHandler" == HANDLER_TYPES[0];
    assert LocationOf(location) == [Registration("EchoHandler", "/", [])];
    assert Flat(LocationOf, server.child.stmts) == Flat(LocationOf, []) + LocationOf(location);
    assert Flat(ServerLocations, PORTLESS) == Flat(ServerLocations, []) + ServerLocations(server);
  }

  lemma PortlessText()
    ensures Printable(PORTLESS) && Print(PORTLESS) == "server {\n" + ("location / EchoHandler {\n" + "}\n}\n")
  {
    var inner := PORTLESS[0].child.stmts;
    PortlessWords();
    LocationPrinted();
    BlockPrinted(inner[0].tokens, []);
    BlockPrinted(["server"], inner);
    assert PrintTokens(["server"]) == "server";
    Lines("server", "location / EchoHandler");
    assert "server" + " {\n" == "server {\n" && "location / EchoHandler" + " {\n" == "location / EchoHandler {\n";
  }

  lemma Lines(one: string, two: string)
    ensures one + (" {\n" + (two + (" {\n" + "" + "}\n")) + "}\n") == (one + " {\n") + ((two + " {\n") + "}\n}\n")
  {
    var end := "}\n";
    assert end + end == "}\n}\n" && " {\n" + "" + end == " {\n" + end;
    Assoc(two, " {\n", end);
    Assoc(" {\n", (two + " {\n") + end, end);
    Assoc(two + " {\n", end, end);
    Assoc(one, " {\n", (two + " {\n") + (end + end));
  }

  lemma BlockPrinted(tokens: seq<string>, inner: seq<Stmt>)
    requires tokens != [] && IsWord(tokens[0]) && AreArguments(tokens) && Printable(inner)
    ensures Print([Stmt(tokens, Block(inner))]) == PrintTokens(tokens) + (" {\n" + Print(inner) + "}\n")
    ensures Printable([Stmt(tokens, Block(inner))])
  {
    var all := [Stmt(tokens, Block(inner))];
    assert all[1..] == [] && Print(all[1..]) == "" && Printable(all[1..]);
    assert PrintableChild(all[0].child);
    assert Print(all) == PrintTokens(tokens) + (" {\n" + Print(inner) + "}\n") + "";
  }

  lemma PortlessWords()
    ensures IsWord("server") && IsWord("location") && IsWord("/") && IsWord("EchoHandler")
  {
  }

  lemma WordPrinted(w: string, more: seq<string>)
    requires w != "" && w[0] != '"'
    ensures PrintTokens([w] + more) == if more == [] then w else (w + " ") + PrintTokens(more)
  {
    assert ([w] + more)[1..] == more && w + "" + "" == w;
  }

  lemma LocationPrinted()
    ensures PrintTokens(["location", "/", "EchoHandler"]) == "location / EchoHandler"
  {
    WordPrinted("EchoHandler", []);
    WordPrinted("/", ["EchoHandler"]);
    WordPrinted("location", ["/", "EchoHandler"]);
    assert ["EchoHandler"] + [] == ["EchoHandler"] && ["/"] + ["EchoHandler"] == ["/", "EchoHandler"];
    assert ["location"] + ["/", "EchoHandler"] == ["location", "/", "EchoHandler"];
    assert "/" + " " == "/ " && "/ " + "EchoHandler" == "/ EchoHandler";
    assert "location" + " " == "location " && "location " + "/ EchoHandler" == "location / EchoHandler";
  }
}
