/** Which texts the tokens of a configuration can stand for, and how to write them down. */
module ConfigQuoting {
  import opened ConfigLexer

  /** `s` is a text that some double-quoted token stands for: no backslash of it is at its end
      or in front of `t`, `n` or `r`. */
  predicate Representable(s: string) {
    forall i :: 0 <= i < |s| && s[i] == '\\' ==> i + 1 < |s| && s[i + 1] !in "tnr"
  }

  /** Writes a text for a double-quoted token: only the quote needs a backslash. */
  function Encode(s: string): string {
    if s == "" then "" else EncodeChar(s[0]) + Encode(s[1..])
  }

  function EncodeChar(c: char): string { if c == '"' then "\\\"" else [c] }

  lemma EncodedCharLexes(v: string, c: char, t: string)
    requires c == '\\' ==> t != "" && !IsEscape('"', t[0])
    ensures LexFrom(DoubleQuote, v, EncodeChar(c) + t) == LexFrom(DoubleQuote, v + [c], t)
  {
    var s := EncodeChar(c) + t;
    if c == '"' {
      assert s[0] == '\\' && s[1..][0] == '"' && s[1..][1..] == t;
    } else {
      assert s[0] == c && s[1..] == t;
    }
  }

  /** Lexing what `Encode` writes gives the text back, whatever follows the closing quote. */
  lemma {:induction false} EncodedLexesBack(v: string, content: string, rest: string)
    requires Representable(content)
    ensures LexFrom(DoubleQuote, v, Encode(content) + "\"" + rest) ==
            Lexed(QuotedString, v + content + "\"", rest)
    decreases |content|
  {
    var s := Encode(content) + "\"" + rest;
    if content == "" {
      assert s == "\"" + rest && s[1..] == rest;
    } else {
      var c, tail := content[0], content[1..];
      assert Representable(tail) by {
        assert forall i :: 0 <= i < |tail| ==> tail[i] == content[i + 1];
      }
      var t := Encode(tail) + "\"" + rest;
      EncodedLexesBack(v + [c], tail, rest);
      assert v + [c] + tail == v + content;
      assert s == EncodeChar(c) + t;
      assert c == '\\' ==> tail[0] == content[1] && t[0] == EncodeChar(tail[0])[0];
      EncodedCharLexes(v, c, t);
    }
  }

  /** Whatever a double-quoted token is made of, its text is representable. */
  lemma {:induction false} LexedIsRepresentable(v: string, s: string) returns (content: string)
    requires LexFrom(DoubleQuote, v, s).kind == QuotedString
    ensures LexFrom(DoubleQuote, v, s).value == v + content + "\""
    ensures Representable(content)
    ensures s != ""
    ensures s[0] != '"' ==> content != "" && (s[0] !in "tnr" ==> content[0] !in "tnr")
    decreases |s|
  {
    var c, t := s[0], s[1..];
    if c == '"' {
      content := "";
    } else {
      var head, tail := c, "";
      if c == '\\' && t != "" && IsEscape('"', t[0]) {
        head := Escaped(t[0]);
        tail := LexedIsRepresentable(v + [head], t[1..]);
      } else {
        tail := LexedIsRepresentable(v + [head], t);
      }
      content := [head] + tail;
      assert v + [head] + tail == v + content;
      forall i | 0 <= i < |content| && content[i] == '\\'
        ensures i + 1 < |content| && content[i + 1] !in "tnr"
      {
        if i > 0 { assert tail[i - 1] == '\\'; }
      }
    }
  }

  /** The image of double-quoted lexing, in both directions. */
  lemma QuotedImage(content: string)
    ensures (exists raw :: Lex("\"" + raw) == Lexed(QuotedString, "\"" + content + "\"", ""))
            <==> Representable(content)
  {
    forall raw | Lex("\"" + raw) == Lexed(QuotedString, "\"" + content + "\"", "")
      ensures Representable(content)
    {
      assert ("\"" + raw)[1..] == raw;
      var found := LexedIsRepresentable("\"", raw);
      assert ("\"" + content + "\"")[1..|content| + 1] == content;
      assert ("\"" + found + "\"")[1..|found| + 1] == found;
    }
    if Representable(content) {
      var raw := Encode(content) + "\"";
      EncodedLexesBack("\"", content, "");
      assert Encode(content) + "\"" + "" == raw && ("\"" + raw)[1..] == raw;
      assert Lex("\"" + raw) == Lexed(QuotedString, "\"" + content + "\"", "");
    }
  }

  // ----- unquoted tokens -----

  predicate StartsNormal(c: char) {
    !IsBlank(c) && c != '{' && c != '}' && c != '#' && c != '"' && c != '\'' && c != ';'
  }

  /** The text of an unquoted token. */
  predicate IsWord(w: string) {
    w != "" && StartsNormal(w[0]) && forall i :: 0 <= i < |w| ==> !EndsNormal(w[i])
  }

  lemma {:induction false} WordTailLexes(v: string, w: string, rest: string)
    requires forall i :: 0 <= i < |w| ==> !EndsNormal(w[i])
    requires rest != "" ==> EndsNormal(rest[0])
    ensures LexFrom(InNormal, v, w + rest) == if rest == "" then AtEnd(InNormal, v + w) else Lexed(Normal, v + w, rest)
    decreases |w|
  {
    if w == "" {
      assert w + rest == rest && v + w == v;
    } else {
      assert (w + rest)[1..] == w[1..] + rest && v + [w[0]] + w[1..] == v + w;
      WordTailLexes(v + [w[0]], w[1..], rest);
    }
  }

  /** A word in front of a character that ends it, and a word at the end of the file: there a
      word of one character is taken for the end of the file and is lost. */
  lemma WordLexes(w: string, rest: string)
    requires IsWord(w) && (rest != "" ==> EndsNormal(rest[0]))
    ensures rest != "" ==> Lex(w + rest) == Lexed(Normal, w, rest)
    ensures Lex(w).kind == Normal <==> |w| > 1
    ensures |w| == 1 ==> Lex(w).kind == Eof
  {
    assert (w + rest)[1..] == w[1..] + rest && [w[0]] + w[1..] == w && w + "" == w && w[1..] + "" == w[1..];
    assert "" + [w[0]] == [w[0]];
    WordTailLexes([w[0]], w[1..], rest);
    WordTailLexes([w[0]], w[1..], "");
  }

  // ----- single-quoted tokens -----

  function Doubled(s: string): string { if s == "" then "" else [s[0], s[0]] + Doubled(s[1..]) }

  /** The single-quote state appends every plain character twice, so the value of such a token is
      never the text that was written. */
  lemma {:induction false} SingleQuotedDoubles(v: string, w: string, rest: string)
    requires forall i :: 0 <= i < |w| ==> w[i] != '\'' && w[i] != '\\'
    ensures LexFrom(SingleQuote, v, w + "'" + rest) == Lexed(QuotedString, v + Doubled(w) + "''", rest)
    ensures |Doubled(w) + "''"| == 2 * |w + "'"|
    decreases |w|
  {
    var s := w + "'" + rest;
    if w == "" {
      assert s == "'" + rest && s[1..] == rest && v + Doubled(w) + "''" == v + ['\''] + ['\''];
    } else {
      var c, tail := w[0], w[1..];
      assert s == [c] + (tail + "'" + rest) && s[1..] == tail + "'" + rest;
      SingleQuotedDoubles(v + [c] + [c], tail, rest);
      assert v + [c] + [c] + Doubled(tail) + "''" == v + Doubled(w) + "''";
    }
  }
  /** Escapes or not, the text of a single-quoted token is longer than what was read for it. */
  lemma {:induction false} SingleQuotedGrows(v: string, s: string)
    requires LexFrom(SingleQuote, v, s).kind == QuotedString
    ensures var l := LexFrom(SingleQuote, v, s); |l.value| - |v| > |s| - |l.rest|
    decreases |s|
  {
    var c, t := s[0], s[1..];
    if c == '\\' && t != "" {
      if IsEscape('\'', t[0]) {
        SingleQuotedGrows(v + [c] + [Escaped(t[0])], t[1..]);
      } else {
        SingleQuotedGrows(v + [c] + [c], t);
      }
    } else if c != '\'' && c != '\\' {
      SingleQuotedGrows(v + [c] + [c], t);
    }
  }

  /** So the value of a single-quoted token is never the text that stands in the file. */
  lemma SingleQuotedIsNeverItself(raw: string, rest: string)
    requires Lex("'" + raw + rest).kind == QuotedString && Lex("'" + raw + rest).rest == rest
    ensures Lex("'" + raw + rest).value != "'" + raw
  {
    var s := "'" + raw + rest;
    assert s[1..] == raw + rest;
    SingleQuotedGrows("'", raw + rest);
  }

  // ----- the characters, one by one -----

  /** A word ends at a blank, a tab, a newline, a semicolon or a brace and nowhere else: not at a
      carriage return, a number sign or a quote. */
  lemma WordEndsExactlyAt(w: string, c: char, rest: string)
    requires IsWord(w)
    ensures Lex(w + ([c] + rest)) == Lexed(Normal, w, [c] + rest) <==>
            c == ' ' || c == '\t' || c == '\n' || c == ';' || c == '{' || c == '}'
  {
    var s := [c] + rest;
    if EndsNormal(c) {
      WordLexes(w, s);
    } else {
      assert (w + s)[1..] == w[1..] + s && "" + [w[0]] == [w[0]];
      WordRuns([w[0]], w[1..], s);
      assert s[1..] == rest;
      assert LexFrom(InNormal, [w[0]] + w[1..], s) == LexFrom(InNormal, [w[0]] + w[1..] + [c], rest);
    }
  }

  lemma {:induction false} WordRuns(v: string, w: string, s: string)
    requires forall i :: 0 <= i < |w| ==> !EndsNormal(w[i])
    ensures LexFrom(InNormal, v, w + s) == LexFrom(InNormal, v + w, s)
    decreases |w|
  {
    if w == "" {
      assert w + s == s && v + w == v;
    } else {
      assert (w + s)[1..] == w[1..] + s && v + [w[0]] + w[1..] == v + w;
      WordRuns(v + [w[0]], w[1..], s);
    }
  }

  /** Every text of other characters that does not begin with one of eleven is a word. */
  lemma WordsAre(w: string)
    requires w != ""
    requires forall i :: 0 <= i < |w| ==> w[i] != ' ' && w[i] != '\t' && w[i] != '\n' && w[i] != ';' && w[i] != '{' && w[i] != '}'
    requires w[0] != '\r' && w[0] != '#' && w[0] != '"' && w[0] != '\''
    ensures IsWord(w)
  {
  }

  /** Blanks, tabs, newlines and carriage returns between tokens are skipped, and nothing else is. */
  lemma SkippedExactly(c: char, s: string)
    ensures c == ' ' || c == '\t' || c == '\n' || c == '\r' ==> Lex([c] + s) == Lex(s)
    ensures !(c == ' ' || c == '\t' || c == '\n' || c == '\r') ==>
              |Lex([c] + s).value| > 0 && (Lex([c] + s).kind != QuotedString ==> Lex([c] + s).value[0] == c)
  {
    assert ([c] + s)[1..] == s && "" + [c] == [c];
    if !IsBlank(c) {
      var st := if c == '#' then InComment else if c == '"' then DoubleQuote else if c == '\'' then SingleQuote else InNormal;
      if c != '{' && c != '}' && c != ';' {
        ValueGrows(st, [c], s);
      }
    }
  }

  lemma {:induction false} ValueGrows(st: LexState, v: string, s: string)
    requires !st.InitialWhitespace?
    ensures v <= LexFrom(st, v, s).value
    decreases |s|
  {
    if s != "" {
      var c, t := s[0], s[1..];
      match st
      case SingleQuote =>
        if c == '\\' {
          if t == "" {
          } else if IsEscape('\'', t[0]) {
            ValueGrows(st, v + [c] + [Escaped(t[0])], t[1..]);
          } else {
            ValueGrows(st, v + [c] + [c], t);
          }
        } else if c != '\'' {
          ValueGrows(st, v + [c] + [c], t);
        }
      case DoubleQuote =>
        if c == '\\' {
          if t == "" {
          } else if IsEscape('"', t[0]) {
            ValueGrows(st, v + [Escaped(t[0])], t[1..]);
          } else {
            ValueGrows(st, v + [c], t);
          }
        } else if c != '"' {
          ValueGrows(st, v + [c], t);
        }
      case InComment =>
        if c != '\n' && c != '\r' {
          ValueGrows(st, v + [c], t);
        }
      case InNormal =>
        if !EndsNormal(c) {
          ValueGrows(st, v + [c], t);
        }
    }
  }

  /** Each escape stands for the character that it names: in double quotes for that alone, in single
      quotes with the backslash in front. */
  lemma EscapesStandFor(v: string, t: string)
    ensures LexFrom(DoubleQuote, v, "\\t" + t) == LexFrom(DoubleQuote, v + "\t", t)
    ensures LexFrom(DoubleQuote, v, "\\n" + t) == LexFrom(DoubleQuote, v + "\n", t)
    ensures LexFrom(DoubleQuote, v, "\\r" + t) == LexFrom(DoubleQuote, v + "\r", t)
    ensures LexFrom(DoubleQuote, v, "\\\"" + t) == LexFrom(DoubleQuote, v + "\"", t)
    ensures LexFrom(SingleQuote, v, "\\t" + t) == LexFrom(SingleQuote, v + "\\\t", t)
    ensures LexFrom(SingleQuote, v, "\\n" + t) == LexFrom(SingleQuote, v + "\\\n", t)
    ensures LexFrom(SingleQuote, v, "\\r" + t) == LexFrom(SingleQuote, v + "\\\r", t)
    ensures LexFrom(SingleQuote, v, "\\'" + t) == LexFrom(SingleQuote, v + "\\'", t)
  {
    EscapeRead('t', '\t', v, t);
    EscapeRead('n', '\n', v, t);
    EscapeRead('r', '\r', v, t);
    var s, q := "\\\"" + t, "\\'" + t;
    assert s[0] == '\\' && s[1..][0] == '"' && s[1..][1..] == t;
    assert q[0] == '\\' && q[1..][0] == '\'' && q[1..][1..] == t;
    assert v + ['\\'] + ['\''] == v + "\\'";
  }

  lemma EscapeRead(name: char, c: char, v: string, t: string)
    requires (name == 't' && c == '\t') || (name == 'n' && c == '\n') || (name == 'r' && c == '\r')
    ensures LexFrom(DoubleQuote, v, ['\\', name] + t) == LexFrom(DoubleQuote, v + [c], t)
    ensures LexFrom(SingleQuote, v, ['\\', name] + t) == LexFrom(SingleQuote, v + ['\\', c], t)
  {
    var s := ['\\', name] + t;
    assert s[0] == '\\' && s[1..][0] == name && s[1..][1..] == t;
    assert v + ['\\'] + [c] == v + ['\\', c];
  }

  /** Writes a text for a double-quoted token with an escape for everything that has one. */
  function EncodeFully(s: string): string { if s == "" then "" else EncodeFullyChar(s[0]) + EncodeFully(s[1..]) }

  function EncodeFullyChar(c: char): string {
    if c == '\t' then "\\t" else if c == '\n' then "\\n" else if c == '\r' then "\\r" else if c == '"' then "\\\"" else [c]
  }

  /** Lexing that gives the text back, whatever follows. */
  lemma {:induction false} FullyEncodedLexesBack(v: string, content: string, rest: string)
    requires Representable(content)
    ensures LexFrom(DoubleQuote, v, EncodeFully(content) + "\"" + rest) == Lexed(QuotedString, v + content + "\"", rest)
    decreases |content|
  {
    var s := EncodeFully(content) + "\"" + rest;
    if content == "" {
      assert s == "\"" + rest && s[1..] == rest;
    } else {
      var c, tail := content[0], content[1..];
      assert Representable(tail) by {
        assert forall i :: 0 <= i < |tail| ==> tail[i] == content[i + 1];
      }
      var t := EncodeFully(tail) + "\"" + rest;
      FullyEncodedLexesBack(v + [c], tail, rest);
      assert v + [c] + tail == v + content;
      assert s == EncodeFullyChar(c) + t;
      assert c == '\\' ==> tail[0] == content[1] && t[0] == EncodeFullyChar(tail[0])[0];
      FullyEncodedCharLexes(v, c, t);
    }
  }

  lemma FullyEncodedCharLexes(v: string, c: char, t: string)
    requires c == '\\' ==> t != "" && !IsEscape('"', t[0])
    ensures LexFrom(DoubleQuote, v, EncodeFullyChar(c) + t) == LexFrom(DoubleQuote, v + [c], t)
  {
    EscapesStandFor(v, t);
    var s := EncodeFullyChar(c) + t;
    if c != '\t' && c != '\n' && c != '\r' && c != '"' {
      assert s[0] == c && s[1..] == t;
    }
  }

  /** A quoted token that is not closed is an error. */
  lemma {:induction false} UnclosedIsError(st: LexState, v: string, s: string)
    requires st.SingleQuote? || st.DoubleQuote?
    requires (if st.SingleQuote? then '\'' else '"') !in s
    ensures LexFrom(st, v, s).kind == Error
    decreases |s|
  {
    if s != "" {
      var c, t := s[0], s[1..];
      var w := if st.SingleQuote? then v + [c] else v;
      if c == '\\' && t == "" {
      } else if c == '\\' && (t[0] == 't' || t[0] == 'n' || t[0] == 'r') {
        UnclosedIsError(st, w + [Escaped(t[0])], t[1..]);
      } else {
        assert c in s && (t != "" ==> t[0] in s);
        UnclosedIsError(st, w + [c], t);
      }
    }
  }
}
