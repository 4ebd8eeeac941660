/** The grammar of a configuration and the stack machine of `NginxConfigParser::Parse` over the
    tokens of a file. The machine is what the heap-building method is verified against; the
    derivations say independently which token sequences are configurations, and of which tree. */
module ConfigGrammar {
  import opened ConfigLexer
  import opened Sequences

  /** The parsed form of a statement: its tokens and, for a block, the statements inside. */
  datatype Stmt = Stmt(tokens: seq<string>, child: Child)

  datatype Child = NoBlock | Block(stmts: seq<Stmt>)

  /** A token as the parser sees it. `separated` tells whether the character after a quoted
      token is one of those the parser allows there. */
  datatype Token =
    | Word(text: string) | Quoted(text: string, separated: bool)
    | Open | Close | Semi | Note | End | Bad

  predicate IsSeparator(c: char) { c == ' ' || c == '\t' || c == '\n' || c == '\r' || c == ';' || c == '{' }

  /** The token that `l` stands for. */
  function TokenOf(l: Lexed): Token {
    match l.kind
    case Normal => Word(l.value)
    case QuotedString => Quoted(l.value, l.rest != "" && IsSeparator(l.rest[0]))
    case StartBlock => Open
    case EndBlock => Close
    case StatementEnd => Semi
    case Comment => Note
    case Eof => End
    case Error => Bad
    case Start => Bad
  }

  /** All tokens of a text, up to the end of the file or the first error. */
  function Tokens(s: string): seq<Token>
    decreases |s|
  {
    var l := Lex(s);
    var token := TokenOf(l);
    if token.End? || token.Bad? then [token]
    else LexConsumes(s); [token] + Tokens(l.rest)
  }

  lemma LexConsumes(s: string)
    requires !TokenOf(Lex(s)).End? && !TokenOf(Lex(s)).Bad?
    ensures |Lex(s).rest| < |s|
  {
    BlanksThenToken("", s);
  }

  lemma TokensStep(s: string, l: Lexed)
    requires Lex(s) == l && !TokenOf(l).End? && !TokenOf(l).Bad?
    ensures Tokens(s) == [TokenOf(l)] + Tokens(l.rest)
  {
    LexConsumes(s);
  }

  lemma {:induction false} BlanksThenToken(value: string, s: string)
    requires value == ""
    ensures var l := LexFrom(InitialWhitespace, value, s); |l.rest| < |s| || l.kind.Eof?
    decreases |s|
  {
    if s != "" && IsBlank(s[0]) {
      BlanksThenToken(value, s[1..]);
    }
  }

  // ----- the machine -----

  datatype Outcome =
    | Accept(block: seq<Stmt>)
    | Reject
    | Undefined  // a quoted token in a block that has no statement: the source takes `back()` of an empty vector

  /** The statements of a block with one more token in the last statement. */
  function ExtendLast(top: seq<Stmt>, text: string): seq<Stmt>
    requires top != []
  {
    var last := top[|top| - 1];
    top[|top| - 1 := last.(tokens := last.tokens + [text])]
  }

  function WithChild(top: seq<Stmt>, child: Child): seq<Stmt>
    requires top != []
  {
    top[|top| - 1 := top[|top| - 1].(child := child)]
  }

  predicate EndsStatement(last: TokenType) { last.Normal? || last.QuotedString? }

  predicate BetweenStatements(last: TokenType) { last.StatementEnd? || last.EndBlock? || last.StartBlock? }

  /** Every enclosing block has a statement, the one whose block is open, and a statement that has
      begun is there. */
  predicate Consistent(outer: seq<seq<Stmt>>, top: seq<Stmt>, last: TokenType) {
    (forall i :: 0 <= i < |outer| ==> outer[i] != []) && (EndsStatement(last) ==> top != [])
  }

  datatype Move = Go(outer: seq<seq<Stmt>>, top: seq<Stmt>) | Halt(outcome: Outcome)

  function TypeOf(t: Token): TokenType {
    match t
    case Word(_) => Normal
    case Quoted(_, _) => QuotedString
    case Open => StartBlock
    case Close => EndBlock
    case Semi => StatementEnd
    case Note => Comment
    case End => Eof
    case Bad => Error
  }

  /** One token that is no comment. `top` is the innermost open block and `outer` are the blocks
      around it, outermost first; each of them belongs to the last statement of the one before it. */
  function Step(outer: seq<seq<Stmt>>, top: seq<Stmt>, last: TokenType, t: Token): (m: Move)
    requires Consistent(outer, top, last)
    ensures m.Go? ==> Consistent(m.outer, m.top, TypeOf(t))
  {
    match t
    case Bad => Halt(Reject)
    case Note => Halt(Reject)
    case Word(text) => Go(outer, if EndsStatement(last) then ExtendLast(top, text) else top + [Stmt([text], NoBlock)])
    case Quoted(text, separated) =>
      if !separated then Halt(Reject)
      else if top == [] then Halt(Undefined)
      else Go(outer, ExtendLast(top, text))
    case Semi => if EndsStatement(last) then Go(outer, top) else Halt(Reject)
    case Open => if EndsStatement(last) then Go(outer + [WithChild(top, NoBlock)], []) else Halt(Reject)
    case Close =>
      // The source pops even the outermost block and gives up on the negative bracket counter.
      if !BetweenStatements(last) || outer == [] then Halt(Reject)
      else
        var n := |outer| - 1;
        Go(outer[..n], WithChild(outer[n], Block(top)))
    case End =>
      Halt(if outer == [] && (last.StatementEnd? || last.EndBlock? || last.Start?) then Accept(top) else Reject)
  }

  /** Runs the parser on `ts`. */
  function Machine(outer: seq<seq<Stmt>>, top: seq<Stmt>, last: TokenType, ts: seq<Token>): Outcome
    requires Consistent(outer, top, last)
    decreases |ts|
  {
    if ts == [] then Reject
    else if ts[0].Note? then Machine(outer, top, last, ts[1..])
    else
      match Step(outer, top, last, ts[0])
      case Halt(outcome) => outcome
      case Go(outer', top') => Machine(outer', top', TypeOf(ts[0]), ts[1..])
  }

  /** The whole parser on a text, started with the statements the caller's configuration holds. */
  function ParseText(base: seq<Stmt>, s: string): Outcome { Machine([], base, Start, Tokens(s)) }

  /** The machine on a text, one token at a time. */
  lemma NextToken(outer: seq<seq<Stmt>>, top: seq<Stmt>, last: TokenType, text: string)
    requires Consistent(outer, top, last)
    ensures var l := Lex(text); var t := TokenOf(l);
            Machine(outer, top, last, Tokens(text)) ==
            if t.Note? then Machine(outer, top, last, Tokens(l.rest))
            else
              match Step(outer, top, last, t)
              case Halt(outcome) => outcome
              case Go(outer', top') => Machine(outer', top', TypeOf(t), Tokens(l.rest))
    ensures var l := Lex(text); !TokenOf(l).End? && !TokenOf(l).Bad? ==> |l.rest| < |text|
  {
    var l := Lex(text);
    if !TokenOf(l).End? && !TokenOf(l).Bad? {
      TokensStep(text, l);
      LexConsumes(text);
      assert Tokens(text)[1..] == Tokens(l.rest);
    }
  }

  // ----- derivations -----

  /** A derivation of one statement: its words, and the statements between its braces. */
  datatype Item = Item(words: seq<Token>, body: Body)

  datatype Body = NoBody | Braces(items: seq<Item>)

  predicate IsText(t: Token) { t.Word? || (t.Quoted? && t.separated) }

  predicate AreTexts(words: seq<Token>) { forall i :: 0 <= i < |words| ==> IsText(words[i]) }

  /** Derivations of the statements of a block. */
  predicate AreItems(items: seq<Item>)
    decreases items
  {
    items == [] || (items[0].words != [] && AreTexts(items[0].words) && IsBody(items[0].body) && AreItems(items[1..]))
  }

  predicate IsBody(body: Body)
    decreases body
  {
    body.Braces? ==> AreItems(body.items)
  }

  /** No block begins with a quoted token; `started` says that this block has a statement already. */
  predicate NoQuotedStart(items: seq<Item>, started: bool)
    decreases items
  {
    items == [] ||
    ((items[0].words != [] && items[0].words[0].Quoted? ==> started) &&
     NoQuotedStartInside(items[0].body) && NoQuotedStart(items[1..], true))
  }

  predicate NoQuotedStartInside(body: Body)
    decreases body
  {
    body.Braces? ==> NoQuotedStart(body.items, false)
  }

  /** The token sequence of a derivation. */
  function Yields(items: seq<Item>): seq<Token>
    decreases items
  {
    if items == [] then [] else items[0].words + YieldBody(items[0].body) + Yields(items[1..])
  }

  function YieldBody(body: Body): seq<Token>
    decreases body
  {
    match body case NoBody => [Semi] case Braces(items) => [Open] + Yields(items) + [Close]
  }

  function Texts(words: seq<Token>): (r: seq<string>)
    requires AreTexts(words)
    ensures |r| == |words|
  {
    if words == [] then []
    else
      assert IsText(words[0]);
      [words[0].text] + Texts(words[1..])
  }

  function ExtendAll(top: seq<Stmt>, texts: seq<string>): seq<Stmt>
    requires top != []
  {
    var last := top[|top| - 1];
    top[|top| - 1 := last.(tokens := last.tokens + texts)]
  }

  /** The block after the words of one more statement: a quoted first token does not begin a
      statement but carries on the one before it. */
  function AddWords(base: seq<Stmt>, words: seq<Token>): (r: seq<Stmt>)
    requires words != [] && AreTexts(words) && (words[0].Quoted? ==> base != [])
    ensures r != []
  {
    ExtendAll(if words[0].Word? then base + [Stmt([], NoBlock)] else base, Texts(words))
  }

  function AddBody(base: seq<Stmt>, body: Body): seq<Stmt>
    requires base != [] && IsBody(body) && NoQuotedStartInside(body)
    decreases body
  {
    match body case NoBody => base case Braces(items) => WithChild(base, Block(Build(items, [])))
  }

  /** The tree of a derivation. */
  function Build(items: seq<Item>, base: seq<Stmt>): seq<Stmt>
    requires AreItems(items) && NoQuotedStart(items, base != [])
    decreases items
  {
    if items == [] then base
    else Build(items[1..], AddBody(AddWords(base, items[0].words), items[0].body))
  }

  // ----- every derivation is accepted, with its tree -----

  lemma {:induction false} WordsRun(outer: seq<seq<Stmt>>, top: seq<Stmt>, last: TokenType,
                                    words: seq<Token>, ts: seq<Token>)
    returns (last': TokenType)
    requires Consistent(outer, top, last) && EndsStatement(last) && AreTexts(words)
    ensures EndsStatement(last')
    ensures Machine(outer, top, last, words + ts) == Machine(outer, ExtendAll(top, Texts(words)), last', ts)
    decreases |words|
  {
    if words == [] {
      last' := last;
      assert words + ts == ts && top[|top| - 1].tokens + [] == top[|top| - 1].tokens;
      assert ExtendAll(top, []) == top;
    } else {
      var w := words[0];
      assert IsText(w);
      assert (words + ts)[0] == w && (words + ts)[1..] == words[1..] + ts;
      last' := WordsRun(outer, ExtendLast(top, w.text), if w.Word? then Normal else QuotedString, words[1..], ts);
      ExtendTwice(top, w.text, Texts(words[1..]));
      assert Texts(words) == [w.text] + Texts(words[1..]);
    }
  }

  /** The words of a statement, read from between two statements. */
  lemma FirstWordsRun(outer: seq<seq<Stmt>>, top: seq<Stmt>, last: TokenType, words: seq<Token>, ts: seq<Token>)
    returns (last': TokenType)
    requires Consistent(outer, top, last) && !EndsStatement(last)
    requires words != [] && AreTexts(words) && (words[0].Quoted? ==> top != [])
    ensures EndsStatement(last')
    ensures Machine(outer, top, last, words + ts) == Machine(outer, AddWords(top, words), last', ts)
  {
    var w := words[0];
    assert IsText(w);
    assert (words + ts)[0] == w && (words + ts)[1..] == words[1..] + ts;
    var top' := if w.Word? then top + [Stmt([w.text], NoBlock)] else ExtendLast(top, w.text);
    assert [] + [w.text] == [w.text];
    last' := WordsRun(outer, top', if w.Word? then Normal else QuotedString, words[1..], ts);
    ExtendTwice(if w.Word? then top + [Stmt([], NoBlock)] else top, w.text, Texts(words[1..]));
    assert w.Word? ==> ExtendLast(top + [Stmt([], NoBlock)], w.text) == top';
    assert Texts(words) == [w.text] + Texts(words[1..]);
  }

  lemma ExtendTwice(top: seq<Stmt>, text: string, texts: seq<string>)
    requires top != []
    ensures ExtendAll(ExtendLast(top, text), texts) == ExtendAll(top, [text] + texts)
  {
    var last := top[|top| - 1];
    assert last.tokens + [text] + texts == last.tokens + ([text] + texts);
  }

  /** The parser runs through the statements of a derivation and has then built their tree. */
  lemma {:induction false} ItemsRun(outer: seq<seq<Stmt>>, base: seq<Stmt>, last: TokenType,
                                    items: seq<Item>, ts: seq<Token>)
    returns (last': TokenType)
    requires Consistent(outer, base, last) && !EndsStatement(last)
    requires AreItems(items) && NoQuotedStart(items, base != [])
    ensures if items == [] then last' == last else last'.StatementEnd? || last'.EndBlock?
    ensures Machine(outer, base, last, Yields(items) + ts) == Machine(outer, Build(items, base), last', ts)
    decreases items
  {
    if items == [] {
      last' := last;
      assert Yields(items) + ts == ts;
    } else {
      var item, rest := items[0], Yields(items[1..]) + ts;
      assert Yields(items) + ts == item.words + (YieldBody(item.body) + rest);
      var last1 := FirstWordsRun(outer, base, last, item.words, YieldBody(item.body) + rest);
      var last2 := BodyRuns(outer, AddWords(base, item.words), last1, item.body, rest);
      last' := ItemsRun(outer, AddBody(AddWords(base, item.words), item.body), last2, items[1..], ts);
    }
  }

  lemma {:induction false} BodyRuns(outer: seq<seq<Stmt>>, top: seq<Stmt>, last: TokenType, body: Body, ts: seq<Token>)
    returns (last': TokenType)
    requires Consistent(outer, top, last) && EndsStatement(last)
    requires IsBody(body) && NoQuotedStartInside(body)
    ensures last'.StatementEnd? || last'.EndBlock?
    ensures Machine(outer, top, last, YieldBody(body) + ts) == Machine(outer, AddBody(top, body), last', ts)
    decreases body
  {
    var all := YieldBody(body) + ts;
    match body
    case NoBody =>
      assert all[0] == Semi && all[1..] == ts;
      last' := StatementEnd;
    case Braces(items) =>
      var inner := outer + [WithChild(top, NoBlock)];
      BracesYield(items, ts);
      assert all[1..] == Yields(items) + ([Close] + ts);
      var last1 := ItemsRun(inner, [], StartBlock, items, [Close] + ts);
      assert ([Close] + ts)[1..] == ts && inner[..|outer|] == outer;
      assert WithChild(WithChild(top, NoBlock), Block(Build(items, []))) == WithChild(top, Block(Build(items, [])));
      last' := EndBlock;
  }

  // ----- every accepted token sequence has a derivation -----

  function WithoutNotes(ts: seq<Token>): seq<Token> {
    if ts == [] then [] else (if ts[0].Note? then [] else [ts[0]]) + WithoutNotes(ts[1..])
  }

  lemma {:induction false} NotesIgnored(outer: seq<seq<Stmt>>, top: seq<Stmt>, last: TokenType, ts: seq<Token>)
    requires Consistent(outer, top, last)
    ensures Machine(outer, top, last, ts) == Machine(outer, top, last, WithoutNotes(ts))
    decreases |ts|
  {
    if ts != [] {
      var t, rest := ts[0], ts[1..];
      var bare := WithoutNotes(ts);
      if t.Note? {
        assert bare == WithoutNotes(rest);
        NotesIgnored(outer, top, last, rest);
      } else {
        assert bare[0] == t && bare[1..] == WithoutNotes(rest);
        var m := Step(outer, top, last, t);
        if m.Go? {
          NotesIgnored(m.outer, m.top, TypeOf(t), rest);
        }
      }
    }
  }

  predicate NoNotes(ts: seq<Token>) { forall i :: 0 <= i < |ts| ==> !ts[i].Note? }

  lemma NoNotesInSuffix(ts: seq<Token>, front: seq<Token>, rest: seq<Token>)
    requires NoNotes(ts) && ts == front + rest
    ensures NoNotes(rest)
  {
    assert forall i :: 0 <= i < |rest| ==> rest[i] == ts[|front| + i];
  }

  /** Splits the words off an accepted rest of a statement. */
  lemma {:induction false} WordsFound(outer: seq<seq<Stmt>>, top: seq<Stmt>, last: TokenType, ts: seq<Token>)
    returns (words: seq<Token>, rest: seq<Token>)
    requires Consistent(outer, top, last) && EndsStatement(last)
    requires NoNotes(ts)
    requires Machine(outer, top, last, ts).Accept?
    ensures ts == words + rest && AreTexts(words)
    ensures rest != [] && (rest[0].Semi? || rest[0].Open?)
    decreases |ts|
  {
    var t := ts[0];
    if t.Semi? || t.Open? {
      words, rest := [], ts;
    } else {
      words, rest := WordsFound(outer, ExtendLast(top, t.text), if t.Word? then Normal else QuotedString, ts[1..]);
      words := [t] + words;
      assert ts == [t] + ts[1..];
    }
  }

  lemma FirstWordsFound(outer: seq<seq<Stmt>>, base: seq<Stmt>, last: TokenType, ts: seq<Token>)
    returns (words: seq<Token>, rest: seq<Token>, last': TokenType)
    requires Consistent(outer, base, last) && !EndsStatement(last) && NoNotes(ts)
    requires Machine(outer, base, last, ts).Accept? && !ts[0].Close? && !ts[0].End?
    ensures ts == words + rest && words != [] && AreTexts(words) && (words[0].Quoted? ==> base != [])
    ensures rest != [] && (rest[0].Semi? || rest[0].Open?) && EndsStatement(last')
    ensures Machine(outer, base, last, ts) == Machine(outer, AddWords(base, words), last', rest)
  {
    var t := ts[0];
    var top := if t.Word? then base + [Stmt([t.text], NoBlock)] else ExtendLast(base, t.text);
    words, rest := WordsFound(outer, top, if t.Word? then Normal else QuotedString, ts[1..]);
    words := [t] + words;
    assert ts == words + rest;
    last' := FirstWordsRun(outer, base, last, words, rest);
  }

  lemma YieldsCons(words: seq<Token>, body: Body, tail: seq<Item>, rest: seq<Token>)
    ensures Yields([Item(words, body)] + tail) + rest == words + (YieldBody(body) + (Yields(tail) + rest))
  {
    var items := [Item(words, body)] + tail;
    assert items[1..] == tail;
    assert Yields(items) == words + YieldBody(body) + Yields(tail);
  }

  lemma BracesYield(items: seq<Item>, rest: seq<Token>)
    ensures YieldBody(Braces(items)) + rest == [Open] + (Yields(items) + ([Close] + rest))
  {
  }

  lemma ItemsCons(words: seq<Token>, body: Body, tail: seq<Item>, started: bool)
    requires words != [] && AreTexts(words) && (words[0].Quoted? ==> started)
    requires IsBody(body) && NoQuotedStartInside(body)
    requires AreItems(tail) && NoQuotedStart(tail, true)
    ensures AreItems([Item(words, body)] + tail) && NoQuotedStart([Item(words, body)] + tail, started)
  {
    assert ([Item(words, body)] + tail)[1..] == tail;
  }

  /** Reads the statements of the innermost block off an accepted token sequence, as a recursive
      descent would: what remains begins with the end of the block. */
  lemma {:induction false} ItemsFound(outer: seq<seq<Stmt>>, base: seq<Stmt>, last: TokenType, ts: seq<Token>)
    returns (items: seq<Item>, rest: seq<Token>)
    requires Consistent(outer, base, last) && !EndsStatement(last) && NoNotes(ts)
    requires Machine(outer, base, last, ts).Accept?
    ensures ts == Yields(items) + rest && AreItems(items) && NoQuotedStart(items, base != [])
    ensures rest != [] && (rest[0].Close? || rest[0].End?)
    decreases |ts|
  {
    if ts[0].Close? || ts[0].End? {
      items, rest := [], ts;
    } else {
      var words, rest1, last1 := FirstWordsFound(outer, base, last, ts);
      NoNotesInSuffix(ts, words, rest1);
      var top := AddWords(base, words);
      var body, rest2 := BodyFound(outer, top, last1, rest1);
      NoNotesInSuffix(rest1, YieldBody(body), rest2);
      var last2 := BodyRuns(outer, top, last1, body, rest2);
      var tail;
      tail, rest := ItemsFound(outer, AddBody(top, body), last2, rest2);
      items := [Item(words, body)] + tail;
      YieldsCons(words, body, tail, rest);
      ItemsCons(words, body, tail, base != []);
    }
  }

  lemma {:induction false} BodyFound(outer: seq<seq<Stmt>>, top: seq<Stmt>, last: TokenType, ts: seq<Token>)
    returns (body: Body, rest: seq<Token>)
    requires Consistent(outer, top, last) && EndsStatement(last) && NoNotes(ts)
    requires ts != [] && (ts[0].Semi? || ts[0].Open?) && Machine(outer, top, last, ts).Accept?
    ensures ts == YieldBody(body) + rest && IsBody(body) && NoQuotedStartInside(body)
    decreases |ts|, 0
  {
    if ts[0].Semi? {
      body, rest := NoBody, ts[1..];
    } else {
      var inner := outer + [WithChild(top, NoBlock)];
      NoNotesInSuffix(ts, [Open], ts[1..]);
      var items, rest1 := ItemsFound(inner, [], StartBlock, ts[1..]);
      assert rest1[0].Close? by {
        var last1 := ItemsRun(inner, [], StartBlock, items, rest1);
      }
      body, rest := Braces(items), rest1[1..];
      assert rest1 == [Close] + rest;
      BracesYield(items, rest);
    }
  }

  // ----- the language of the parser -----

  /** `ts`, up to comments and whatever follows the end of the file, is the configuration `items`. */
  predicate Derives(ts: seq<Token>, items: seq<Item>, base: seq<Stmt>) {
    AreItems(items) && NoQuotedStart(items, base != []) && Yields(items) + [End] <= WithoutNotes(ts)
  }

  lemma AcceptedIsDerivable(base: seq<Stmt>, ts: seq<Token>) returns (items: seq<Item>)
    requires Machine([], base, Start, ts).Accept?
    ensures Derives(ts, items, base) && Build(items, base) == Machine([], base, Start, ts).block
  {
    NotesIgnored([], base, Start, ts);
    NoNotesLeft(ts);
    var bare := WithoutNotes(ts);
    var rest;
    items, rest := ItemsFound([], base, Start, bare);
    assert rest[0].End? && Build(items, base) == Machine([], base, Start, ts).block by {
      var last := ItemsRun([], base, Start, items, rest);
    }
    JoinedPrefix(Yields(items), rest);
  }

  lemma DerivableIsAccepted(base: seq<Stmt>, ts: seq<Token>, items: seq<Item>)
    requires Derives(ts, items, base)
    ensures Machine([], base, Start, ts) == Accept(Build(items, base))
  {
    NotesIgnored([], base, Start, ts);
    var bare := WithoutNotes(ts);
    var rest := bare[|Yields(items)|..];
    assert bare == Yields(items) + rest && rest[0] == (Yields(items) + [End])[|Yields(items)|];
    var last := ItemsRun([], base, Start, items, rest);
  }

  /** The stack machine accepts exactly the derivable token sequences, and the tree it builds is
      the tree of the derivation. */
  lemma AcceptsExactlyDerivable(base: seq<Stmt>, ts: seq<Token>, block: seq<Stmt>)
    ensures Machine([], base, Start, ts) == Accept(block) <==>
            exists items :: Derives(ts, items, base) && Build(items, base) == block
  {
    if Machine([], base, Start, ts) == Accept(block) {
      var items := AcceptedIsDerivable(base, ts);
    }
    forall items | Derives(ts, items, base) && Build(items, base) == block
      ensures Machine([], base, Start, ts) == Accept(block)
    {
      DerivableIsAccepted(base, ts, items);
    }
  }

  lemma {:induction false} NoNotesLeft(ts: seq<Token>)
    ensures NoNotes(WithoutNotes(ts))
  {
    if ts != [] {
      NoNotesLeft(ts[1..]);
    }
  }
}
