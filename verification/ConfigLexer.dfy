/** The tokenizer of the configuration parser: `NginxConfigParser::ParseToken`, a five-state
    machine that reads one character at a time from a stream with a one-character push-back. */
module ConfigLexer {
  datatype TokenType =
    | Start | Normal | StartBlock | EndBlock | Comment | StatementEnd | Eof | Error | QuotedString

  datatype LexState = InitialWhitespace | SingleQuote | DoubleQuote | InComment | InNormal

  /** What one call of the tokenizer yields: the token, its text, and the characters left. */
  datatype Lexed = Lexed(kind: TokenType, value: string, rest: string)

  /** The characters that the tokenizer skips between tokens. */
  predicate IsBlank(c: char) { c == ' ' || c == '\t' || c == '\n' || c == '\r' }

  /** The characters that end an unquoted token. A carriage return, `#` and the quotes do not. */
  predicate EndsNormal(c: char) { c == ' ' || c == '\t' || c == '\n' || c == ';' || c == '{' || c == '}' }

  // ----- the stream -----

  /** A `std::istream` over a finite text. Once a read hits the end, the fail bit stays set and
      `unget` no longer moves the position. */
  class InputStream {
    const data: string
    var pos: nat
    var failed: bool

    ghost predicate Valid()
      reads this
    {
      pos <= |data| && (failed ==> pos == |data|)
    }

    ghost function Rest(): string
      requires Valid()
      reads this
    {
      data[pos..]
    }

    constructor (text: string)
      ensures Valid() && !failed && Rest() == text && data == text
    {
      data, pos, failed := text, 0, false;
    }

    method Get() returns (c: char)
      requires Valid() && !failed
      modifies this
      ensures Valid()
      ensures failed <==> old(Rest()) == ""
      ensures failed ==> Rest() == ""
      ensures !failed ==> pos == old(pos) + 1 && [c] + Rest() == old(Rest())
    {
      if pos == |data| {
        failed := true;
        c := '\0';
      } else {
        c := data[pos];
        pos := pos + 1;
      }
    }

    method Unget()
      requires Valid() && (failed || 0 < pos)
      modifies this
      ensures Valid() && failed == old(failed)
      ensures pos == if failed then old(pos) else old(pos) - 1
    {
      if !failed {
        pos := pos - 1;
      }
    }
  }

  // ----- the specification of one token -----

  /** The character an escape stands for in a string quoted with `quote`, if `next` ends an escape. */
  predicate IsEscape(quote: char, next: char) { next == 't' || next == 'n' || next == 'r' || next == quote }

  function Escaped(next: char): char {
    match next
    case 't' => '\t'
    case 'n' => '\n'
    case 'r' => '\r'
    case _ => next
  }

  /** What the end of the file means in each state. */
  function AtEnd(st: LexState, value: string): Lexed {
    if st.SingleQuote? || st.DoubleQuote? then Lexed(Error, value, "")
    else if |value| <= 1 then Lexed(Eof, value, "")
    else if st.InNormal? then Lexed(Normal, value, "")
    else if st.InComment? then Lexed(Comment, value, "")
    else Lexed(Error, value, "")
  }

  /** The rest of the token that is read from `s` in state `st` when `value` has been collected. */
  function LexFrom(st: LexState, value: string, s: string): (l: Lexed)
    ensures |l.rest| <= |s|
    decreases |s|
  {
    if s == "" then AtEnd(st, value)
    else
      var c, t := s[0], s[1..];
      match st
      case InitialWhitespace =>
        if c == '{' then Lexed(StartBlock, [c], t)
        else if c == '}' then Lexed(EndBlock, [c], t)
        else if c == ';' then Lexed(StatementEnd, [c], t)
        else if c == '#' then LexFrom(InComment, [c], t)
        else if c == '"' then LexFrom(DoubleQuote, [c], t)
        else if c == '\'' then LexFrom(SingleQuote, [c], t)
        else if IsBlank(c) then LexFrom(InitialWhitespace, value, t)
        else LexFrom(InNormal, value + [c], t)
      case SingleQuote =>
        // The source appends c on entry and once more on every path that is no escape.
        var v := value + [c];
        if c == '\\' then
          if t == "" then LexFrom(SingleQuote, v, t)
          else if IsEscape('\'', t[0]) then LexFrom(SingleQuote, v + [Escaped(t[0])], t[1..])
          else LexFrom(SingleQuote, v + [c], t)
        else if c == '\'' then Lexed(QuotedString, v + [c], t)
        else LexFrom(SingleQuote, v + [c], t)
      case DoubleQuote =>
        if c == '\\' then
          if t == "" then LexFrom(DoubleQuote, value, t)
          else if IsEscape('"', t[0]) then LexFrom(DoubleQuote, value + [Escaped(t[0])], t[1..])
          else LexFrom(DoubleQuote, value + [c], t)
        else if c == '"' then Lexed(QuotedString, value + [c], t)
        else LexFrom(DoubleQuote, value + [c], t)
      case InComment =>
        if c == '\n' || c == '\r' then Lexed(Comment, value, t)
        else LexFrom(InComment, value + [c], t)
      case InNormal =>
        if EndsNormal(c) then Lexed(Normal, value, s)
        else LexFrom(InNormal, value + [c], t)
  }

  function Lex(s: string): Lexed { LexFrom(InitialWhitespace, "", s) }

  // ----- the tokenizer itself -----

  /** Reads what follows a backslash in a string quoted with `quote`: the character an escape
      stands for, or the backslash itself with the next character pushed back. */
  method ReadEscape(input: InputStream, quote: char) returns (more: string)
    requires input.Valid() && !input.failed
    modifies input
    ensures input.Valid() && (input.failed <==> old(input.Rest()) == "")
    ensures var s := old(input.Rest());
            if s == "" then more == "" && input.Rest() == ""
            else if IsEscape(quote, s[0]) then more == [Escaped(s[0])] && input.Rest() == s[1..]
            else more == "\\" && input.Rest() == s
    ensures input.pos >= old(input.pos)
  {
    var next := input.Get();
    if input.failed {
      more := "";
    } else if IsEscape(quote, next) {
      more := [Escaped(next)];
    } else {
      more := "\\";
      input.Unget();
    }
  }

  /** One round of the single-quote state, entered with the character `c`. */
  method ReadSingleQuoted(input: InputStream, value: string, c: char) returns (longer: string, closed: bool)
    requires input.Valid() && !input.failed
    modifies input
    ensures input.Valid() && input.pos >= old(input.pos)
    ensures LexFrom(SingleQuote, value, [c] + old(input.Rest())) ==
            if closed then Lexed(QuotedString, longer, input.Rest()) else LexFrom(SingleQuote, longer, input.Rest())
    ensures input.failed ==> !closed
  {
    ghost var s := [c] + input.Rest();
    assert s[0] == c && s[1..] == input.Rest();
    longer, closed := value + [c], false;
    if c == '\\' {
      var more := ReadEscape(input, '\'');
      longer := longer + more;
    } else {
      longer := longer + [c];
      closed := c == '\'';
    }
  }

  /** One round of the double-quote state, entered with the character `c`. */
  method ReadDoubleQuoted(input: InputStream, value: string, c: char) returns (longer: string, closed: bool)
    requires input.Valid() && !input.failed
    modifies input
    ensures input.Valid() && input.pos >= old(input.pos)
    ensures LexFrom(DoubleQuote, value, [c] + old(input.Rest())) ==
            if closed then Lexed(QuotedString, longer, input.Rest()) else LexFrom(DoubleQuote, longer, input.Rest())
    ensures input.failed ==> !closed
  {
    ghost var s := [c] + input.Rest();
    assert s[0] == c && s[1..] == input.Rest();
    if c == '\\' {
      var more := ReadEscape(input, '"');
      longer, closed := value + more, false;
    } else {
      longer, closed := value + [c], c == '"';
    }
  }

  method ParseToken(input: InputStream) returns (kind: TokenType, value: string)
    requires input.Valid()
    modifies input
    ensures input.Valid() && (input.failed ==> input.Rest() == "")
    ensures Lexed(kind, value, input.Rest()) == Lex(old(input.Rest()))
  {
    value := "";
    var state := InitialWhitespace;
    while !input.failed
      invariant input.Valid()
      invariant LexFrom(state, value, input.Rest()) == Lex(old(input.Rest()))
      decreases !input.failed, |input.data| - input.pos
    {
      ghost var s := input.Rest();
      var c := input.Get();
      if input.failed {
        break;
      }
      assert s == [c] + input.Rest() && s[1..] == input.Rest();
      match state {
        case InitialWhitespace =>
          if c == '{' {
            return StartBlock, [c];
          } else if c == '}' {
            return EndBlock, [c];
          } else if c == '#' {
            value, state := [c], InComment;
          } else if c == '"' {
            value, state := [c], DoubleQuote;
          } else if c == '\'' {
            value, state := [c], SingleQuote;
          } else if c == ';' {
            return StatementEnd, [c];
          } else if !IsBlank(c) {
            value, state := value + [c], InNormal;
          }
        case SingleQuote =>
          var closed;
          value, closed := ReadSingleQuoted(input, value, c);
          if closed {
            return QuotedString, value;
          }
        case DoubleQuote =>
          var closed;
          value, closed := ReadDoubleQuoted(input, value, c);
          if closed {
            return QuotedString, value;
          }
        case InComment =>
          if c == '\n' || c == '\r' {
            return Comment, value;
          }
          value := value + [c];
        case InNormal =>
          if EndsNormal(c) {
            input.Unget();
            assert input.Rest() == s;
            return Normal, value;
          }
          value := value + [c];
      }
    }
    if state == SingleQuote || state == DoubleQuote {
      return Error, value;
    }
    if |value| > 1 {
      input.Unget();
      match state {
        case InNormal => return Normal, value;
        case InComment => return Comment, value;
        case _ => return Error, value;
      }
    }
    return Eof, value;
  }
}
