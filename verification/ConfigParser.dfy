/** `NginxConfigParser::Parse`: builds the tree of a configuration in place, through a stack of
    pointers into the tree that is being built. */
module ConfigParser {
  import opened ConfigLexer
  import opened ConfigGrammar
  import opened ConfigRuns

  class NginxConfigStatement {
    var tokens_: seq<string>
    var child_block_: NginxConfig?
    ghost var Model: Stmt
    ghost var Repr: set<object>

    /** The statement and the tree below it are `Model`, and own the objects in `Repr`. */
    ghost predicate Valid()
      reads this, Repr
      decreases Repr, 0
    {
      this in Repr && Model.tokens == tokens_ &&
      if child_block_ == null then Model.child == NoBlock
      else
        child_block_ in Repr && child_block_.Repr <= Repr - {this} &&
        child_block_.Valid() && Model.child == Block(child_block_.Model)
    }

    constructor (token: string)
      ensures Valid() && Model == Stmt([token], NoBlock) && Repr == {this}
    {
      tokens_, child_block_ := [token], null;
      Model, Repr := Stmt([token], NoBlock), {this};
    }
  }

  class NginxConfig {
    var statements_: seq<NginxConfigStatement>
    ghost var Model: seq<Stmt>
    ghost var Repr: set<object>

    ghost predicate Valid()
      reads this, Repr
      decreases Repr, 2
    {
      this in Repr && Holds(this, Model, Repr - {this}, null)
    }

    constructor ()
      ensures Valid() && Model == [] && Repr == {this} && statements_ == []
    {
      statements_, Model, Repr := [], [], {this};
    }
  }

  /** The statements of `config` are `models`, and own objects in `foot` only, none of them
      shared. If `inner` is given, it is the block of the last statement and not looked into. */
  ghost predicate Holds(config: NginxConfig, models: seq<Stmt>, foot: set<object>, inner: NginxConfig?)
    reads config, foot
    decreases foot, 1
  {
    var ss, n := config.statements_, |models|;
    config !in foot && |ss| == n &&
    (forall j :: 0 <= j < n ==> ss[j] in foot && ss[j].Repr <= foot) &&
    (forall i, j :: 0 <= i < j < n ==> ss[i].Repr !! ss[j].Repr) &&
    (forall j :: 0 <= j < (if inner == null then n else n - 1) ==> ss[j].Valid() && ss[j].Model == models[j]) &&
    (inner != null ==>
      n > 0 && ss[n - 1].tokens_ == models[n - 1].tokens && ss[n - 1].child_block_ == inner &&
      ss[n - 1].Repr == {ss[n - 1]})
  }

  /** At the end the whole tree belongs to the configuration. */
  ghost method Settle(config: NginxConfig, models: seq<Stmt>, foot: set<object>)
    requires Holds(config, models, foot, null)
    modifies config
    ensures config.Valid() && config.Model == models && config.Repr == {config} + foot
  {
    config.Repr, config.Model := {config} + foot, models;
    assert config.Repr - {config} == foot;
    forall j | 0 <= j < |models| ensures config.statements_[j].Valid() && config.statements_[j].Model == models[j] {
      assert old(config.statements_[j].Valid());
    }
  }

  /** What the stack of the parser stands for: the statements of the blocks around the innermost
      one and of that one, the objects that the statements of each block own, and all objects. */
  datatype Shape = Shape(outer: seq<seq<Stmt>>, top: seq<Stmt>, feet: seq<set<object>>, region: set<object>)

  /** The heap invariant of the parser: each block on the stack is the block of the last statement
      of the one below it, and no object belongs to two of them. */
  ghost predicate Stacked(stack: seq<NginxConfig>, sh: Shape)
    reads sh.region
  {
    var n := |sh.outer|;
    |stack| == |sh.feet| == n + 1 &&
    (forall i :: 0 <= i <= n ==> stack[i] in sh.region && sh.feet[i] <= sh.region) &&
    (forall i :: 0 <= i < n ==> Holds(stack[i], sh.outer[i], sh.feet[i], stack[i + 1])) &&
    Holds(stack[n], sh.top, sh.feet[n], null) &&
    (forall i, j :: 0 <= i < j <= n ==> ({stack[i]} + sh.feet[i]) !! ({stack[j]} + sh.feet[j]))
  }

  method AppendStatement(top: NginxConfig, token: string, ghost models: seq<Stmt>, ghost foot: set<object>)
    returns (ghost foot': set<object>)
    requires Holds(top, models, foot, null)
    modifies top
    ensures foot <= foot' && fresh(foot' - foot)
    ensures Holds(top, models + [Stmt([token], NoBlock)], foot', null)
  {
    var s := new NginxConfigStatement(token);
    top.statements_ := top.statements_ + [s];
    foot' := foot + {s};
    ghost var models' := models + [Stmt([token], NoBlock)];
    forall j | 0 <= j < |models'| ensures top.statements_[j].Valid() && top.statements_[j].Model == models'[j] {
      if j < |models| { assert old(top.statements_[j].Valid()); }
    }
  }

  method AppendToken(top: NginxConfig, token: string, ghost models: seq<Stmt>, ghost foot: set<object>)
    requires Holds(top, models, foot, null) && models != []
    modifies foot
    ensures Holds(top, ExtendLast(models, token), foot, null)
  {
    var s := top.statements_[|top.statements_| - 1];
    s.tokens_ := s.tokens_ + [token];
    s.Model := s.Model.(tokens := s.tokens_);
    ghost var models' := ExtendLast(models, token);
    forall j | 0 <= j < |models'| ensures top.statements_[j].Valid() && top.statements_[j].Model == models'[j] {
      assert old(top.statements_[j].Valid());
      if j < |models| - 1 { assert s !in top.statements_[j].Repr; }
    }
  }

  method OpenBlock(top: NginxConfig, ghost models: seq<Stmt>, ghost foot: set<object>) returns (inner: NginxConfig)
    requires Holds(top, models, foot, null) && models != []
    modifies foot
    ensures fresh(inner) && Holds(inner, [], {}, null)
    ensures Holds(top, WithChild(models, NoBlock), foot, inner)
  {
    inner := new NginxConfig();
    var s := top.statements_[|top.statements_| - 1];
    s.child_block_ := inner;
    s.Repr := {s};
    ghost var models' := WithChild(models, NoBlock);
    forall j | 0 <= j < |models'| - 1 ensures top.statements_[j].Valid() && top.statements_[j].Model == models'[j] {
      assert old(top.statements_[j].Valid()) && s !in old(top.statements_[j].Repr);
    }
  }

  /** Closing a block changes nothing in the heap: the block now belongs to its statement. */
  ghost method CloseBlock(below: NginxConfig, models: seq<Stmt>, foot: set<object>,
                          top: NginxConfig, topModels: seq<Stmt>, topFoot: set<object>)
    requires Holds(below, models, foot, top) && Holds(top, topModels, topFoot, null)
    requires ({below} + foot) !! ({top} + topFoot)
    modifies foot, top
    ensures Holds(below, WithChild(models, Block(topModels)), foot + {top} + topFoot, null)
  {
    var s := below.statements_[|below.statements_| - 1];
    top.Repr, top.Model := {top} + topFoot, topModels;
    s.Repr, s.Model := {s} + top.Repr, Stmt(s.tokens_, Block(topModels));
    forall j | 0 <= j < |topModels|
      ensures top.statements_[j].Valid() && top.statements_[j].Model == topModels[j]
    {
      assert old(top.statements_[j].Valid());
    }
    assert Holds(top, topModels, topFoot, null) && top.Valid() && s.Valid();
    forall j | 0 <= j < |models| - 1
      ensures below.statements_[j].Valid() && below.statements_[j].Model == models[j]
    {
      assert old(below.statements_[j].Valid()) && s !in below.statements_[j].Repr;
    }
  }

  // ----- the steps of the parser, on the whole stack -----

  method BeginStatement(config_stack: seq<NginxConfig>, token: string, ghost sh: Shape) returns (ghost sh': Shape)
    requires Stacked(config_stack, sh)
    modifies config_stack[|config_stack| - 1]
    ensures sh.region <= sh'.region && fresh(sh'.region - sh.region)
    ensures sh'.outer == sh.outer && sh'.top == sh.top + [Stmt([token], NoBlock)] && Stacked(config_stack, sh')
  {
    var n := |config_stack| - 1;
    ghost var foot := AppendStatement(config_stack[n], token, sh.top, sh.feet[n]);
    sh' := Shape(sh.outer, sh.top + [Stmt([token], NoBlock)], sh.feet[n := foot], sh.region + foot);
    forall i | 0 <= i < n ensures Holds(config_stack[i], sh.outer[i], sh.feet[i], config_stack[i + 1]) {
      assert old(Holds(config_stack[i], sh.outer[i], sh.feet[i], config_stack[i + 1]));
    }
  }

  method ContinueStatement(config_stack: seq<NginxConfig>, token: string, ghost sh: Shape) returns (ghost sh': Shape)
    requires Stacked(config_stack, sh) && sh.top != []
    modifies sh.feet[|sh.feet| - 1]
    ensures sh' == sh.(top := ExtendLast(sh.top, token)) && Stacked(config_stack, sh')
  {
    var n := |config_stack| - 1;
    AppendToken(config_stack[n], token, sh.top, sh.feet[n]);
    sh' := sh.(top := ExtendLast(sh.top, token));
    forall i | 0 <= i < n ensures Holds(config_stack[i], sh.outer[i], sh.feet[i], config_stack[i + 1]) {
      assert old(Holds(config_stack[i], sh.outer[i], sh.feet[i], config_stack[i + 1]));
    }
  }

  method PushBlock(config_stack: seq<NginxConfig>, ghost sh: Shape)
    returns (config_stack': seq<NginxConfig>, ghost sh': Shape)
    requires Stacked(config_stack, sh) && sh.top != []
    modifies sh.feet[|sh.feet| - 1]
    ensures |config_stack'| == |config_stack| + 1 && config_stack <= config_stack'
    ensures sh.region <= sh'.region && fresh(sh'.region - sh.region)
    ensures sh'.outer == sh.outer + [WithChild(sh.top, NoBlock)] && sh'.top == [] && Stacked(config_stack', sh')
  {
    var n := |config_stack| - 1;
    var new_config := OpenBlock(config_stack[n], sh.top, sh.feet[n]);
    config_stack' := config_stack + [new_config];
    sh' := Shape(sh.outer + [WithChild(sh.top, NoBlock)], [], sh.feet + [{}], sh.region + {new_config});
    forall i | 0 <= i < n ensures Holds(config_stack[i], sh.outer[i], sh.feet[i], config_stack[i + 1]) {
      assert old(Holds(config_stack[i], sh.outer[i], sh.feet[i], config_stack[i + 1]));
    }
  }

  /** A block that is taken off the stack becomes part of the statement below it. */
  ghost method ClosePopped(config_stack: seq<NginxConfig>, sh: Shape) returns (sh': Shape)
    requires Stacked(config_stack, sh) && sh.outer != [] && sh.outer[|sh.outer| - 1] != []
    modifies sh.feet[|sh.feet| - 2], config_stack[|config_stack| - 1]
    ensures sh'.region == sh.region
    ensures var n := |sh.outer| - 1;
            sh'.outer == sh.outer[..n] && sh'.top == WithChild(sh.outer[n], Block(sh.top))
    ensures Stacked(config_stack[..|config_stack| - 1], sh')
  {
    var n := |config_stack| - 2;
    var below, top := config_stack[n], config_stack[n + 1];
    CloseBlock(below, sh.outer[n], sh.feet[n], top, sh.top, sh.feet[n + 1]);
    sh' := Shape(sh.outer[..n], WithChild(sh.outer[n], Block(sh.top)),
                 sh.feet[..n] + [sh.feet[n] + {top} + sh.feet[n + 1]], sh.region);
    forall i | 0 <= i < n ensures Holds(config_stack[i], sh.outer[i], sh.feet[i], config_stack[i + 1]) {
      assert old(Holds(config_stack[i], sh.outer[i], sh.feet[i], config_stack[i + 1]));
    }
  }

  method PopBlock(config_stack: seq<NginxConfig>, ghost sh: Shape)
    returns (config_stack': seq<NginxConfig>, ghost sh': Shape)
    requires Stacked(config_stack, sh) && sh.outer != [] && sh.outer[|sh.outer| - 1] != []
    modifies sh.feet[|sh.feet| - 2], config_stack[|config_stack| - 1]
    ensures config_stack' == config_stack[..|config_stack| - 1] && sh'.region == sh.region
    ensures var n := |sh.outer| - 1;
            sh'.outer == sh.outer[..n] && sh'.top == WithChild(sh.outer[n], Block(sh.top))
    ensures Stacked(config_stack', sh')
  {
    config_stack' := config_stack[..|config_stack| - 1];
    sh' := ClosePopped(config_stack, sh);
  }

  /** When the parser stops, the objects are a tree again, open blocks and all. */
  ghost method Collapse(config_stack: seq<NginxConfig>, sh: Shape)
    requires Stacked(config_stack, sh) && [] !in sh.outer
    modifies sh.region
    ensures config_stack[0].Valid() && config_stack[0].Model == Collapsed(sh.outer, sh.top)
    ensures config_stack[0].Repr <= sh.region
    decreases |sh.outer|
  {
    if sh.outer == [] {
      Settle(config_stack[0], sh.top, sh.feet[0]);
    } else {
      var n := |sh.outer| - 1;
      assert sh.outer[n] in sh.outer;
      var sh1 := ClosePopped(config_stack, sh);
      Collapse(config_stack[..n + 1], sh1);
    }
  }

  /** An unquoted or quoted token, `t`. */
  method DispatchText(config_file: InputStream, config_stack: seq<NginxConfig>, last: TokenType,
                      token_type: TokenType, token: string, ghost t: Token, ghost sh: Shape)
    returns (broken: bool, ghost sh': Shape)
    requires config_file.Valid() && config_file !in sh.region && (config_file.failed ==> config_file.Rest() == "")
    requires Stacked(config_stack, sh) && Consistent(sh.outer, sh.top, last)
    requires (token_type == Normal || token_type == QuotedString) && t == TokenOf(Lexed(token_type, token, config_file.Rest()))
    requires Step(sh.outer, sh.top, last, t) != Halt(Undefined)
    modifies config_file, sh.region
    ensures config_file.Valid() && (!broken ==> config_file.Rest() == old(config_file.Rest()))
    ensures Step(sh.outer, sh.top, last, t) == if broken then Halt(Reject) else Go(sh'.outer, sh'.top)
    ensures sh.region <= sh'.region && fresh(sh'.region - sh.region) && Stacked(config_stack, sh')
    ensures broken ==> sh' == sh
  {
    broken, sh' := false, sh;
    if token_type == Normal {
      if last != Normal && last != QuotedString {
        sh' := BeginStatement(config_stack, token, sh);
      } else {
        sh' := ContinueStatement(config_stack, token, sh);
      }
    } else {
      broken := PeekSeparator(config_file);
      if !broken {
        sh' := ContinueStatement(config_stack, token, sh);
      }
    }
  }

  /** A brace or a semicolon, `t`; anything else breaks the parser off. */
  method DispatchPunctuation(config_stack: seq<NginxConfig>, last: TokenType, bracketCtr: int,
                             token_type: TokenType, ghost t: Token, ghost sh: Shape)
    returns (broken: bool, config_stack': seq<NginxConfig>, bracketCtr': int, ghost sh': Shape)
    requires bracketCtr == |config_stack| - 1
    requires Stacked(config_stack, sh) && Consistent(sh.outer, sh.top, last)
    requires t.Open? || t.Close? || t.Semi? || t.Bad?
    requires token_type == if t.Bad? then Error else TypeOf(t)
    modifies sh.region
    ensures Step(sh.outer, sh.top, last, t) == if broken then Halt(Reject) else Go(sh'.outer, sh'.top)
    ensures sh.region <= sh'.region && fresh(sh'.region - sh.region) && Stacked(config_stack', sh')
    ensures config_stack[0] == config_stack'[0] && (broken ==> sh' == sh)
    ensures !broken ==> bracketCtr' == |config_stack'| - 1
  {
    broken, config_stack', bracketCtr', sh' := false, config_stack, bracketCtr, sh;
    match token_type {
      case StatementEnd =>
        broken := last != Normal && last != QuotedString;
      case StartBlock =>
        bracketCtr' := bracketCtr + 1;
        broken := last != Normal && last != QuotedString;
        if !broken {
          config_stack', sh' := PushBlock(config_stack, sh);
        }
      case EndBlock =>
        bracketCtr' := bracketCtr - 1;
        // The source gives up on a negative counter at the head of its loop.
        broken := (last != StatementEnd && last != EndBlock && last != StartBlock) || bracketCtr' < 0;
        if !broken {
          config_stack', sh' := PopBlock(config_stack, sh);
        }
      case _ =>
        broken := true;
    }
  }

  method Dispatch(config_file: InputStream, config_stack: seq<NginxConfig>, last: TokenType, bracketCtr: int,
                  token_type: TokenType, token: string, ghost t: Token, ghost sh: Shape)
    returns (broken: bool, config_stack': seq<NginxConfig>, bracketCtr': int, ghost sh': Shape)
    requires bracketCtr == |config_stack| - 1
    requires config_file.Valid() && config_file !in sh.region && (config_file.failed ==> config_file.Rest() == "")
    requires Stacked(config_stack, sh) && Consistent(sh.outer, sh.top, last)
    requires token_type != Comment && token_type != Eof && t == TokenOf(Lexed(token_type, token, config_file.Rest()))
    requires token_type != Start && Step(sh.outer, sh.top, last, t) != Halt(Undefined)
    modifies config_file, sh.region
    ensures config_file.Valid() && (!broken ==> config_file.Rest() == old(config_file.Rest()))
    ensures Step(sh.outer, sh.top, last, t) == if broken then Halt(Reject) else Go(sh'.outer, sh'.top)
    ensures sh.region <= sh'.region && fresh(sh'.region - sh.region) && Stacked(config_stack', sh')
    ensures config_stack[0] == config_stack'[0] && (broken ==> sh' == sh)
    ensures !broken ==> bracketCtr' == |config_stack'| - 1
  {
    if token_type == Normal || token_type == QuotedString {
      config_stack', bracketCtr' := config_stack, bracketCtr;
      broken, sh' := DispatchText(config_file, config_stack, last, token_type, token, t, sh);
    } else {
      broken, config_stack', bracketCtr', sh' := DispatchPunctuation(config_stack, last, bracketCtr, token_type, t, sh);
    }
  }

  /** Looks at the character after a quoted token; `bad` unless it is one that may stand there. */
  method PeekSeparator(config_file: InputStream) returns (bad: bool)
    requires config_file.Valid() && (config_file.failed ==> config_file.Rest() == "")
    modifies config_file
    ensures config_file.Valid()
    ensures bad <==> old(config_file.Rest()) == "" || !IsSeparator(old(config_file.Rest())[0])
    ensures !bad ==> config_file.Rest() == old(config_file.Rest())
  {
    if config_file.failed {
      return true;
    }
    ghost var s := config_file.Rest();
    var next_char := config_file.Get();
    if config_file.failed {
      return true;
    }
    assert s == [next_char] + config_file.Rest();
    if !IsSeparator(next_char) {
      return true;
    }
    config_file.Unget();
    assert config_file.Rest() == s;
    return false;
  }

  /** The end of the file is legal after complete statements with no block open. */
  method MayEnd(last: TokenType, bracketCtr: int, ghost sh: Shape) returns (ok: bool)
    requires Consistent(sh.outer, sh.top, last) && bracketCtr == |sh.outer|
    ensures Step(sh.outer, sh.top, last, End) == Halt(if ok then Accept(sh.top) else Reject)
  {
    ok := bracketCtr == 0 && (last == StatementEnd || last == EndBlock || last == Start);
  }

  datatype Progress = Continue | Stop(ok: bool)

  /** What a round of the loop has done with token `t`, as a move of the machine. */
  ghost predicate Moved(sh: Shape, last: TokenType, t: Token, progress: Progress, sh': Shape, last': TokenType)
    requires Consistent(sh.outer, sh.top, last)
  {
    match progress
    case Continue =>
      if t.Note? then sh' == sh && last' == last
      else last' == TypeOf(t) && Step(sh.outer, sh.top, last, t) == Go(sh'.outer, sh'.top)
    case Stop(ok) =>
      !t.Note? && sh' == sh && Step(sh.outer, sh.top, last, t) == Halt(if ok then Accept(sh.top) else Reject)
  }

  /** Such a round goes on with the run of the machine, or ends it. */
  lemma RunMoves(sh: Shape, last: TokenType, text: string, progress: Progress, sh': Shape, last': TokenType)
    requires Consistent(sh.outer, sh.top, last) && Moved(sh, last, TokenOf(Lex(text)), progress, sh', last')
    ensures var goal, left := Machine(sh.outer, sh.top, last, Tokens(text)), Left(sh.outer, sh.top, last, Tokens(text));
            match progress
            case Continue =>
              var rest := Lex(text).rest;
              |rest| < |text| && Consistent(sh'.outer, sh'.top, last') &&
              Machine(sh'.outer, sh'.top, last', Tokens(rest)) == goal && Left(sh'.outer, sh'.top, last', Tokens(rest)) == left
            case Stop(ok) => goal == (if ok then Accept(sh'.top) else Reject) && left == Collapsed(sh'.outer, sh'.top)
  {
    NextToken(sh.outer, sh.top, last, text);
    NextLeft(sh.outer, sh.top, last, text);
  }

  lemma RunDefined(sh: Shape, last: TokenType, text: string)
    requires Consistent(sh.outer, sh.top, last) && !Machine(sh.outer, sh.top, last, Tokens(text)).Undefined?
    ensures Step(sh.outer, sh.top, last, TokenOf(Lex(text))) != Halt(Undefined)
  {
    NextToken(sh.outer, sh.top, last, text);
  }

  /** Acts on a token, `t`. */
  method Act(config_file: InputStream, config_stack: seq<NginxConfig>, last: TokenType, bracketCtr: int,
             token_type: TokenType, token: string, ghost t: Token, ghost sh: Shape)
    returns (progress: Progress, config_stack': seq<NginxConfig>, last': TokenType, bracketCtr': int, ghost sh': Shape)
    requires bracketCtr == |config_stack| - 1
    requires config_file.Valid() && config_file !in sh.region && (config_file.failed ==> config_file.Rest() == "")
    requires Stacked(config_stack, sh) && Consistent(sh.outer, sh.top, last)
    requires t == TokenOf(Lexed(token_type, token, config_file.Rest())) && Step(sh.outer, sh.top, last, t) != Halt(Undefined)
    modifies config_file, sh.region
    ensures config_file.Valid() && (progress.Continue? ==> config_file.Rest() == old(config_file.Rest()))
    ensures Moved(sh, last, t, progress, sh', last')
    ensures Stacked(config_stack', sh') && config_stack'[0] == config_stack[0]
    ensures sh.region <= sh'.region && fresh(sh'.region - sh.region)
    ensures progress.Continue? ==> bracketCtr' == |config_stack'| - 1
  {
    if token_type == Error || token_type == Start {
      return Stop(false), config_stack, last, bracketCtr, sh;
    }
    if token_type == Comment {
      return Continue, config_stack, last, bracketCtr, sh;
    }
    if token_type == Eof {
      var ok := MayEnd(last, bracketCtr, sh);
      return Stop(ok), config_stack, last, bracketCtr, sh;
    }
    var broken;
    broken, config_stack', bracketCtr', sh' :=
      Dispatch(config_file, config_stack, last, bracketCtr, token_type, token, t, sh);
    progress, last' := if broken then Stop(false) else Continue, token_type;
  }

  /** The state of the parser before a round of the loop, whose run ends with `goal` and the tree `left`. */
  ghost predicate Running(sh: Shape, last: TokenType, rest: string, goal: Outcome, left: seq<Stmt>) {
    Consistent(sh.outer, sh.top, last) &&
    Machine(sh.outer, sh.top, last, Tokens(rest)) == goal && Left(sh.outer, sh.top, last, Tokens(rest)) == left
  }

  /** One round of the loop: reads a token and acts on it. */
  method Advance(config_file: InputStream, config_stack: seq<NginxConfig>, last: TokenType, bracketCtr: int,
                 ghost sh: Shape, ghost goal: Outcome, ghost left: seq<Stmt>)
    returns (progress: Progress, config_stack': seq<NginxConfig>, last': TokenType, bracketCtr': int, ghost sh': Shape)
    requires config_file.Valid() && config_file !in sh.region
    requires Stacked(config_stack, sh) && bracketCtr == |config_stack| - 1
    requires Running(sh, last, config_file.Rest(), goal, left) && !goal.Undefined?
    modifies config_file, sh.region
    ensures config_file.Valid()
    ensures Stacked(config_stack', sh') && config_stack'[0] == config_stack[0]
    ensures sh.region <= sh'.region && fresh(sh'.region - sh.region)
    ensures match progress
            case Continue =>
              bracketCtr' == |config_stack'| - 1 && |config_file.Rest()| < |old(config_file.Rest())| &&
              Running(sh', last', config_file.Rest(), goal, left)
            case Stop(ok) =>
              Consistent(sh'.outer, sh'.top, last) && left == Collapsed(sh'.outer, sh'.top) && (ok <==> goal.Accept?)
  {
    ghost var text := config_file.Rest();
    RunDefined(sh, last, text);
    var token_type, token := ParseToken(config_file);
    progress, config_stack', last', bracketCtr', sh' :=
      Act(config_file, config_stack, last, bracketCtr, token_type, token, TokenOf(Lex(text)), sh);
    RunMoves(sh, last, text, progress, sh', last');
  }

  /** Parses a file into `config`, which may hold statements already. The file must not have a quoted
      token where a block begins. Whether or not it is accepted, the objects are a tree afterwards. */
  method Parse(config_file: InputStream, config: NginxConfig) returns (ok: bool)
    requires config_file.Valid() && config.Valid() && config_file !in config.Repr
    requires !QuotedStartsBlock(config.Model, Tokens(config_file.Rest()))
    modifies config_file, config.Repr
    ensures ok <==> ParseText(old(config.Model), old(config_file.Rest())).Accept?
    ensures config.Valid() && fresh(config.Repr - old(config.Repr))
    ensures config.Model == LeftOf(old(config.Model), old(config_file.Rest()))
    ensures ok ==> config.Model == ParseText(old(config.Model), old(config_file.Rest())).block
  {
    ghost var base, text := config.Model, config_file.Rest();
    ghost var goal, left := ParseText(base, text), LeftOf(base, text);
    UndefinedExactlyIfQuotedStartsBlock(base, Tokens(text));
    if goal.Accept? { AcceptedIsLeft([], base, Start, Tokens(text)); }
    var config_stack, last_token_type, bracketCtr := [config], Start, 0;
    ghost var sh := Shape([], base, [config.Repr - {config}], config.Repr);
    while true
      invariant config_file.Valid() && config_file !in sh.region
      invariant old(config.Repr) <= sh.region && fresh(sh.region - old(config.Repr))
      invariant Stacked(config_stack, sh) && config_stack[0] == config && bracketCtr == |config_stack| - 1
      invariant Running(sh, last_token_type, config_file.Rest(), goal, left)
      decreases |config_file.Rest()|
    {
      var progress;
      progress, config_stack, last_token_type, bracketCtr, sh :=
        Advance(config_file, config_stack, last_token_type, bracketCtr, sh, goal, left);
      if progress.Stop? {
        Collapse(config_stack, sh);
        return progress.ok;
      }
    }
  }
}
