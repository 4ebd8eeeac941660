/** Writing a configuration down and reading it back. */
module ConfigPrinter {
  import opened ConfigLexer
  import opened ConfigQuoting
  import opened ConfigGrammar
  import opened Sequences

  /** A token that an argument of a statement can be: a word, or a quoted text with its quotes,
      which the parser keeps as part of the value. */
  predicate IsQuotedText(t: string) {
    |t| >= 2 && t[0] == '"' && t[|t| - 1] == '"' && Representable(t[1..|t| - 1])
  }

  predicate IsArgument(t: string) { IsWord(t) || IsQuotedText(t) }

  predicate AreArguments(ts: seq<string>) { forall i :: 0 <= i < |ts| ==> IsArgument(ts[i]) }

  predicate Printable(stmts: seq<Stmt>)
    decreases stmts
  {
    stmts == [] ||
    (stmts[0].tokens != [] && IsWord(stmts[0].tokens[0]) && AreArguments(stmts[0].tokens) &&
     PrintableChild(stmts[0].child) && Printable(stmts[1..]))
  }

  predicate PrintableChild(child: Child)
    decreases child
  {
    child.Block? ==> Printable(child.stmts)
  }

  function PrintToken(t: string): string {
    if |t| >= 2 && t[0] == '"' then "\"" + Encode(t[1..|t| - 1]) + "\"" else t
  }

  function PrintTokens(ts: seq<string>): string {
    if ts == [] then "" else PrintToken(ts[0]) + (if |ts| == 1 then "" else " ") + PrintTokens(ts[1..])
  }

  function Print(stmts: seq<Stmt>): string
    decreases stmts
  {
    if stmts == [] then "" else PrintTokens(stmts[0].tokens) + PrintChild(stmts[0].child) + Print(stmts[1..])
  }

  function PrintChild(child: Child): string
    decreases child
  {
    match child case NoBlock => ";\n" case Block(stmts) => " {\n" + Print(stmts) + "}\n"
  }

  // ----- the derivation of a printed configuration -----

  function WordsOf(ts: seq<string>): (r: seq<Token>)
    ensures |r| == |ts| && AreTexts(r)
    ensures forall i :: 0 <= i < |r| ==> r[i].text == ts[i]
    ensures forall i :: 0 <= i < |r| ==> (r[i].Quoted? <==> ts[i] != "" && ts[i][0] == '"')
  {
    seq(|ts|, i requires 0 <= i < |ts| =>
      if ts[i] != "" && ts[i][0] == '"' then Quoted(ts[i], true) else Word(ts[i]))
  }

  function ItemsOf(stmts: seq<Stmt>): seq<Item>
    decreases stmts
  {
    if stmts == [] then []
    else [Item(WordsOf(stmts[0].tokens), BodyOf(stmts[0].child))] + ItemsOf(stmts[1..])
  }

  function BodyOf(child: Child): Body
    decreases child
  {
    match child case NoBlock => NoBody case Block(stmts) => Braces(ItemsOf(stmts))
  }

  lemma {:induction false} PrintableDerives(stmts: seq<Stmt>, started: bool)
    requires Printable(stmts)
    ensures AreItems(ItemsOf(stmts)) && NoQuotedStart(ItemsOf(stmts), started)
    decreases stmts
  {
    if stmts != [] {
      PrintableChildDerives(stmts[0].child);
      PrintableDerives(stmts[1..], true);
      assert ItemsOf(stmts)[1..] == ItemsOf(stmts[1..]);
    }
  }

  lemma {:induction false} PrintableChildDerives(child: Child)
    requires PrintableChild(child)
    ensures IsBody(BodyOf(child)) && NoQuotedStartInside(BodyOf(child))
    decreases child
  {
    if child.Block? {
      PrintableDerives(child.stmts, false);
    }
  }

  lemma {:induction false} TextsOfWords(words: seq<Token>, ts: seq<string>)
    requires AreTexts(words) && |words| == |ts| && forall i :: 0 <= i < |ts| ==> words[i].text == ts[i]
    ensures Texts(words) == ts
  {
    if ts != [] {
      assert IsText(words[0]);
      TextsOfWords(words[1..], ts[1..]);
      assert ts == [ts[0]] + ts[1..];
    }
  }

  /** The tree of that derivation is the configuration itself. */
  lemma {:induction false} BuildsItself(stmts: seq<Stmt>, base: seq<Stmt>)
    requires Printable(stmts)
    requires AreItems(ItemsOf(stmts)) && NoQuotedStart(ItemsOf(stmts), base != [])
    ensures Build(ItemsOf(stmts), base) == base + stmts
    decreases stmts
  {
    if stmts == [] {
      assert base + stmts == base;
    } else {
      var s, items := stmts[0], ItemsOf(stmts);
      assert items[1..] == ItemsOf(stmts[1..]);
      AddsItsWords(base, s.tokens);
      AddsItsChild(base, s);
      BuildsItself(stmts[1..], base + [s]);
      assert base + [s] + stmts[1..] == base + stmts;
    }
  }

  lemma AddsItsWords(base: seq<Stmt>, ts: seq<string>)
    requires ts != [] && IsWord(ts[0])
    ensures AddWords(base, WordsOf(ts)) == base + [Stmt(ts, NoBlock)]
  {
    TextsOfWords(WordsOf(ts), ts);
    assert [] + ts == ts;
  }

  lemma {:induction false} AddsItsChild(base: seq<Stmt>, s: Stmt)
    requires PrintableChild(s.child)
    requires IsBody(BodyOf(s.child)) && NoQuotedStartInside(BodyOf(s.child))
    ensures AddBody(base + [Stmt(s.tokens, NoBlock)], BodyOf(s.child)) == base + [s]
    decreases s
  {
    if s.child.Block? {
      BuildsItself(s.child.stmts, []);
      assert [] + s.child.stmts == s.child.stmts;
    }
  }

  // ----- the tokens of a printed configuration -----

  lemma PunctuationLexes(c: char, kind: TokenType, rest: string)
    requires (c == '{' && kind.StartBlock?) || (c == '}' && kind.EndBlock?) || (c == ';' && kind.StatementEnd?)
    ensures Tokens([c] + rest) == [TokenOf(Lexed(kind, [c], rest))] + Tokens(rest)
  {
    assert ([c] + rest)[1..] == rest;
    TokensStep([c] + rest, Lexed(kind, [c], rest));
  }

  lemma BlankSkipped(c: char, s: string)
    requires IsBlank(c)
    ensures Tokens([c] + s) == Tokens(s)
  {
    assert ([c] + s)[1..] == s;
    assert Lex([c] + s) == Lex(s);
  }

  lemma PrintedTokenLexes(t: string, rest: string)
    requires IsArgument(t) && rest != "" && EndsNormal(rest[0]) && IsSeparator(rest[0])
    ensures Tokens(PrintToken(t) + rest) == WordsOf([t]) + Tokens(rest)
  {
    if IsQuotedText(t) {
      QuotedLexes(t, rest);
      TokensStep(PrintToken(t) + rest, Lexed(QuotedString, t, rest));
      assert WordsOf([t]) == [Quoted(t, true)];
    } else {
      WordLexes(t, rest);
      TokensStep(t + rest, Lexed(Normal, t, rest));
      assert WordsOf([t]) == [Word(t)];
    }
  }

  lemma QuotedLexes(t: string, rest: string)
    requires IsQuotedText(t)
    ensures Lex(PrintToken(t) + rest) == Lexed(QuotedString, t, rest)
  {
    var content := t[1..|t| - 1];
    var raw := Encode(content) + "\"" + rest;
    EncodedLexesBack("\"", content, rest);
    assert "\"" + content + "\"" == t;
    assert PrintToken(t) + rest == "\"" + raw && ("\"" + raw)[1..] == raw;
  }

  lemma PrintTokensText(ts: seq<string>, rest: string)
    requires |ts| >= 2
    ensures PrintTokens(ts) + rest == PrintToken(ts[0]) + ([' '] + (PrintTokens(ts[1..]) + rest))
  {
    var a, b := PrintToken(ts[0]), PrintTokens(ts[1..]);
    assert PrintTokens(ts) == (a + [' ']) + b;
    Assoc(a + [' '], b, rest);
    Assoc(a, [' '], b + rest);
  }

  lemma WordsOfCons(ts: seq<string>)
    requires ts != []
    ensures WordsOf(ts) == WordsOf([ts[0]]) + WordsOf(ts[1..])
  {
  }

  lemma {:induction false} PrintedTokensLex(ts: seq<string>, rest: string)
    requires ts != [] && AreArguments(ts) && rest != "" && EndsNormal(rest[0]) && IsSeparator(rest[0])
    ensures Tokens(PrintTokens(ts) + rest) == WordsOf(ts) + Tokens(rest)
  {
    assert IsArgument(ts[0]);
    if |ts| == 1 {
      assert ts == [ts[0]] && PrintTokens(ts) == PrintToken(ts[0]);
      PrintedTokenLexes(ts[0], rest);
    } else {
      var more := PrintTokens(ts[1..]) + rest;
      PrintTokensText(ts, rest);
      PrintedTokenLexes(ts[0], [' '] + more);
      BlankSkipped(' ', more);
      PrintedTokensLex(ts[1..], rest);
      WordsOfCons(ts);
      Assoc(WordsOf([ts[0]]), WordsOf(ts[1..]), Tokens(rest));
    }
  }

  lemma {:induction false} PrintedLexes(stmts: seq<Stmt>, rest: string)
    requires Printable(stmts)
    ensures Tokens(Print(stmts) + rest) == Yields(ItemsOf(stmts)) + Tokens(rest)
    decreases stmts
  {
    if stmts == [] {
      assert Print(stmts) + rest == rest;
    } else {
      var s, more := stmts[0], Print(stmts[1..]) + rest;
      Assoc(PrintTokens(s.tokens) + PrintChild(s.child), Print(stmts[1..]), rest);
      Assoc(PrintTokens(s.tokens), PrintChild(s.child), more);
      PrintedTokensLex(s.tokens, PrintChild(s.child) + more);
      PrintedChildLexes(s.child, more);
      PrintedLexes(stmts[1..], rest);
      YieldsCons(WordsOf(s.tokens), BodyOf(s.child), ItemsOf(stmts[1..]), Tokens(rest));
    }
  }

  lemma {:induction false} PrintedChildLexes(child: Child, rest: string)
    requires PrintableChild(child)
    ensures Tokens(PrintChild(child) + rest) == YieldBody(BodyOf(child)) + Tokens(rest)
    decreases child
  {
    match child
    case NoBlock => LineEnds(rest);
    case Block(stmts) =>
      BlockText(Print(stmts), rest);
      BlockOpens(Print(stmts) + (['}'] + (['\n'] + rest)));
      PrintedLexes(stmts, ['}'] + (['\n'] + rest));
      BlockCloses(rest);
      BracesYield(ItemsOf(stmts), Tokens(rest));
  }

  lemma LineEnds(rest: string)
    ensures Tokens(";\n" + rest) == [Semi] + Tokens(rest)
  {
    assert ";\n" + rest == [';'] + (['\n'] + rest);
    PunctuationLexes(';', StatementEnd, ['\n'] + rest);
    BlankSkipped('\n', rest);
  }

  lemma BlockText(inside: string, rest: string)
    ensures " {\n" + inside + "}\n" + rest ==
            [' '] + (['{'] + (['\n'] + (inside + (['}'] + (['\n'] + rest)))))
  {
  }

  lemma BlockCloses(rest: string)
    ensures Tokens(['}'] + (['\n'] + rest)) == [Close] + Tokens(rest)
  {
    PunctuationLexes('}', EndBlock, ['\n'] + rest);
    BlankSkipped('\n', rest);
  }

  lemma BlockOpens(inside: string)
    ensures Tokens([' '] + (['{'] + (['\n'] + inside))) == [Open] + Tokens(inside)
  {
    BlankSkipped(' ', ['{'] + (['\n'] + inside));
    PunctuationLexes('{', StartBlock, ['\n'] + inside);
    BlankSkipped('\n', inside);
  }

  lemma FileEnds()
    ensures Tokens("") == [End]
  {
  }

  lemma EndAccepts(top: seq<Stmt>, last: TokenType)
    requires last.StatementEnd? || last.EndBlock? || last.Start?
    ensures Machine([], top, last, [End]) == Accept(top)
  {
  }

  /** Printing a configuration and parsing the text gives the configuration back, at any depth of
      nesting, appended to the statements that the caller's configuration already held. */
  lemma ParseInvertsPrint(base: seq<Stmt>, stmts: seq<Stmt>)
    requires Printable(stmts)
    ensures ParseText(base, Print(stmts)) == Accept(base + stmts)
  {
    PrintableDerives(stmts, base != []);
    PrintedLexes(stmts, "");
    assert Print(stmts) + "" == Print(stmts);
    FileEnds();
    BuildsItself(stmts, base);
    var last := ItemsRun([], base, Start, ItemsOf(stmts), [End]);
    EndAccepts(base + stmts, last);
  }

  /** A configuration with one more word of a single character at the very end of the file is accepted
      without that word. */
  lemma LastLetterIsLost(base: seq<Stmt>, stmts: seq<Stmt>, c: char)
    requires Printable(stmts) && IsWord([c])
    ensures ParseText(base, Print(stmts) + [c]) == Accept(base + stmts)
  {
    PrintableDerives(stmts, base != []);
    PrintedLexes(stmts, [c]);
    WordLexes([c], "");
    assert Tokens([c]) == [End];
    BuildsItself(stmts, base);
    var last := ItemsRun([], base, Start, ItemsOf(stmts), [End]);
    EndAccepts(base + stmts, last);
  }

  /** A longer word there is not lost: its statement is not ended, and the file is refused. */
  lemma LastWordIsRefused(base: seq<Stmt>, stmts: seq<Stmt>, w: string)
    requires Printable(stmts) && IsWord(w) && |w| > 1
    ensures ParseText(base, Print(stmts) + w) == Reject
  {
    PrintableDerives(stmts, base != []);
    PrintedLexes(stmts, w);
    WordAtEnd(w);
    BuildsItself(stmts, base);
    var last := ItemsRun([], base, Start, ItemsOf(stmts), [Word(w), End]);
    WordThenEndRefused(base + stmts, last, w);
  }

  lemma WordThenEndRefused(top: seq<Stmt>, last: TokenType, w: string)
    requires !EndsStatement(last)
    ensures Machine([], top, last, [Word(w), End]) == Reject
  {
    assert [Word(w), End][1..] == [End];
  }

  lemma WordAtEnd(w: string)
    requires IsWord(w) && |w| > 1
    ensures Tokens(w) == [Word(w), End]
  {
    assert (w + "")[1..] == w[1..] && w + "" == w && [w[0]] + w[1..] == w && w[1..] + "" == w[1..];
    WordTailLexes([w[0]], w[1..], "");
    assert "" + [w[0]] == [w[0]];
    TokensStep(w, Lexed(Normal, w, ""));
    FileEnds();
  }

  /** No two printable configurations have the same text. */
  lemma PrintIsInjective(one: seq<Stmt>, other: seq<Stmt>)
    requires Printable(one) && Printable(other) && Print(one) == Print(other)
    ensures one == other
  {
    ParseInvertsPrint([], one);
    ParseInvertsPrint([], other);
    assert [] + one == one && [] + other == other;
  }

  // ----- comments -----

  lemma {:induction false} CommentTextLexes(v: string, text: string, end: char, rest: string)
    requires '\n' !in text && '\r' !in text && (end == '\n' || end == '\r')
    ensures LexFrom(InComment, v, text + ([end] + rest)) == Lexed(Comment, v + text, rest)
    ensures LexFrom(InComment, v, text) == AtEnd(InComment, v + text)
    decreases |text|
  {
    var s := text + ([end] + rest);
    if text == "" {
      assert s[0] == end && s[1..] == rest && v + text == v;
    } else {
      CutInFront(text, [end] + rest, 1);
      HeadTail(text);
      CommentTextLexes(v + [text[0]], text[1..], end, rest);
      Assoc(v, [text[0]], text[1..]);
    }
  }

  /** A comment says nothing, whatever it contains, up to the newline or carriage return that ends it. */
  lemma CommentIgnored(base: seq<Stmt>, text: string, end: char, rest: string)
    requires '\n' !in text && '\r' !in text && (end == '\n' || end == '\r')
    ensures ParseText(base, "#" + (text + ([end] + rest))) == ParseText(base, rest)
  {
    var s := "#" + (text + ([end] + rest));
    CutInFront("#", text + ([end] + rest), 1);
    CommentTextLexes("#", text, end, rest);
    NextToken([], base, Start, s);
  }

  lemma CommentAtEndLexes(text: string)
    requires '\n' !in text && '\r' !in text
    ensures Tokens("#" + text) == if text == "" then [End] else [Note, End]
  {
    CutInFront("#", text, 1);
    CommentTextLexes("#", text, '\n', "");
    if text != "" {
      TokensStep("#" + text, Lexed(Comment, "#" + text, ""));
      FileEnds();
    }
  }

  /** Nor does one that the end of the file ends. */
  lemma LastCommentIgnored(base: seq<Stmt>, stmts: seq<Stmt>, text: string)
    requires Printable(stmts) && '\n' !in text && '\r' !in text
    ensures ParseText(base, Print(stmts) + ("#" + text)) == Accept(base + stmts)
  {
    var end := Tokens("#" + text);
    PrintableDerives(stmts, base != []);
    PrintedLexes(stmts, "#" + text);
    CommentAtEndLexes(text);
    BuildsItself(stmts, base);
    var last := ItemsRun([], base, Start, ItemsOf(stmts), end);
    NoteThenEnd(base + stmts, last, end);
  }

  lemma NoteThenEnd(top: seq<Stmt>, last: TokenType, end: seq<Token>)
    requires (last.StatementEnd? || last.EndBlock? || last.Start?) && (end == [End] || end == [Note, End])
    ensures Machine([], top, last, end) == Accept(top)
  {
    assert [Note, End][1..] == [End];
  }

  // ----- quoted arguments -----

  /** A quoted text is an argument iff a blank, a semicolon or an opening brace comes right behind it. */
  lemma QuotedNeedsSeparator(t: string, c: char, rest: string)
    requires IsQuotedText(t)
    ensures TokenOf(Lex(PrintToken(t) + ([c] + rest))) ==
            Quoted(t, c == ' ' || c == '\t' || c == '\n' || c == '\r' || c == ';' || c == '{')
    ensures TokenOf(Lex(PrintToken(t))) == Quoted(t, false)
  {
    QuotedLexes(t, [c] + rest);
    QuotedLexes(t, "");
    assert PrintToken(t) + "" == PrintToken(t);
  }

  /** A configuration with a quoted text behind it that is not closed is refused. */
  lemma UnclosedIsRefused(base: seq<Stmt>, stmts: seq<Stmt>, quote: char, s: string)
    requires Printable(stmts) && (quote == '"' || quote == '\'') && quote !in s
    ensures ParseText(base, Print(stmts) + ([quote] + s)) == Reject
  {
    PrintableDerives(stmts, base != []);
    PrintedLexes(stmts, [quote] + s);
    assert ([quote] + s)[1..] == s;
    UnclosedIsError(if quote == '"' then DoubleQuote else SingleQuote, [quote], s);
    BuildsItself(stmts, base);
    var last := ItemsRun([], base, Start, ItemsOf(stmts), Tokens([quote] + s));
    ErrorIsRefused(base + stmts, last, [quote] + s);
  }

  lemma ErrorIsRefused(top: seq<Stmt>, last: TokenType, s: string)
    requires Lex(s).kind == Error && !EndsStatement(last)
    ensures Machine([], top, last, Tokens(s)) == Reject
  {
  }

  /** Behind a complete configuration and a word, a quoted text with any other character right behind it is
      refused. */
  lemma UnseparatedIsRefused(base: seq<Stmt>, stmts: seq<Stmt>, w: string, t: string, c: char, rest: string)
    requires Printable(stmts) && IsWord(w) && IsQuotedText(t)
    requires c != ' ' && c != '\t' && c != '\n' && c != '\r' && c != ';' && c != '{'
    ensures ParseText(base, Print(stmts) + (w + ([' '] + (PrintToken(t) + ([c] + rest))))) == Reject
  {
    var tail := PrintToken(t) + ([c] + rest);
    var s := w + ([' '] + tail);
    PrintableDerives(stmts, base != []);
    PrintedLexes(stmts, s);
    WordLexes(w, [' '] + tail);
    TokensStep(s, Lexed(Normal, w, [' '] + tail));
    BlankSkipped(' ', tail);
    QuotedNeedsSeparator(t, c, rest);
    BuildsItself(stmts, base);
    var last := ItemsRun([], base, Start, ItemsOf(stmts), Tokens(s));
    QuotedRefused(base + stmts, last, w, tail);
  }

  lemma QuotedRefused(top: seq<Stmt>, last: TokenType, w: string, s: string)
    requires !EndsStatement(last) && TokenOf(Lex(s)).Quoted? && !TokenOf(Lex(s)).separated
    ensures Machine([], top, last, [Word(w)] + Tokens(s)) == Reject
  {
    assert ([Word(w)] + Tokens(s))[1..] == Tokens(s);
    NextToken([], top + [Stmt([w], NoBlock)], Normal, s);
  }

  // ----- quoted texts behind a statement -----

  /** A quoted text behind a complete statement is one more token of it; a block behind that takes the
      place of the block that the statement had. */
  lemma QuotedCarriesOn(front: seq<Stmt>, s: Stmt, t: string, inner: seq<Stmt>)
    requires Printable(front + [s]) && Printable(inner) && IsQuotedText(t)
    ensures ParseText([], Print(front + [s]) + (PrintToken(t) + ";\n")) == Accept(front + [s.(tokens := s.tokens + [t])])
    ensures ParseText([], Print(front + [s]) + (PrintToken(t) + (" {\n" + Print(inner) + "}\n"))) ==
            Accept(front + [Stmt(s.tokens + [t], Block(inner))])
  {
    QuotedRuns(front, s, t, NoBlock);
    QuotedRuns(front, s, t, Block(inner));
  }

  lemma QuotedRuns(front: seq<Stmt>, s: Stmt, t: string, child: Child)
    requires Printable(front + [s]) && PrintableChild(child) && IsQuotedText(t)
    ensures ParseText([], Print(front + [s]) + (PrintToken(t) + PrintChild(child))) ==
            Accept(front + [Stmt(s.tokens + [t], if child.Block? then child else s.child)])
  {
    var stmts, rest := front + [s], PrintToken(t) + PrintChild(child);
    PrintableDerives(stmts, false);
    PrintedLexes(stmts, rest);
    BuildsItself(stmts, []);
    assert [] + stmts == stmts;
    QuotedTokens(t, child);
    var last := ItemsRun([], [], Start, ItemsOf(stmts), Tokens(rest));
    QuotedThenBody(front, s, last, t, child);
  }

  lemma QuotedTokens(t: string, child: Child)
    requires PrintableChild(child) && IsQuotedText(t)
    ensures Tokens(PrintToken(t) + PrintChild(child)) == [Quoted(t, true)] + (YieldBody(BodyOf(child)) + [End])
  {
    PrintedTokenLexes(t, PrintChild(child));
    PrintedChildLexes(child, "");
    FileEnds();
    assert PrintChild(child) + "" == PrintChild(child) && WordsOf([t]) == [Quoted(t, true)];
  }

  lemma QuotedThenBody(front: seq<Stmt>, s: Stmt, last: TokenType, t: string, child: Child)
    requires !EndsStatement(last) && PrintableChild(child)
    ensures Machine([], front + [s], last, [Quoted(t, true)] + (YieldBody(BodyOf(child)) + [End])) ==
            Accept(front + [Stmt(s.tokens + [t], if child.Block? then child else s.child)])
  {
    var ts, top := YieldBody(BodyOf(child)) + [End], front + [s.(tokens := s.tokens + [t])];
    assert ([Quoted(t, true)] + ts)[1..] == ts && ExtendLast(front + [s], t) == top;
    PrintableChildDerives(child);
    var last1 := BodyRuns([], top, QuotedString, BodyOf(child), [End]);
    BodyAdds(front, s.(tokens := s.tokens + [t]), child);
    EndAccepts(AddBody(top, BodyOf(child)), last1);
  }

  lemma BodyAdds(front: seq<Stmt>, s: Stmt, child: Child)
    requires PrintableChild(child) && IsBody(BodyOf(child)) && NoQuotedStartInside(BodyOf(child))
    ensures AddBody(front + [s], BodyOf(child)) == front + [if child.Block? then s.(child := child) else s]
  {
    if child.Block? {
      BuildsItself(child.stmts, []);
      assert [] + child.stmts == child.stmts;
    }
  }
}
