/** Writing a request head down and reading it back. */
module RequestSerializer {
  import opened RequestParser
  import opened RequestGrammar

  function DigitChar(d: int): char
    requires 0 <= d <= 9
  {
    ('0' as int + d) as char
  }

  /** The decimal digits of a number. */
  function Digits(n: nat): (s: string)
    ensures s != "" && AllDigits(s)
  {
    if n < 10 then [DigitChar(n)] else Digits(n / 10) + [DigitChar(n % 10)]
  }

  lemma {:induction false} DecimalAppend(v: int, s: string, c: char)
    ensures Decimal(v, s + [c]) == Decimal(v, s) * 10 + Digit(c)
    decreases |s|
  {
    if s == "" {
      assert s + [c] == [c];
      DecimalOne(v, c);
    } else {
      assert (s + [c])[0] == s[0] && (s + [c])[1..] == s[1..] + [c];
      DecimalAppend(v * 10 + Digit(s[0]), s[1..], c);
    }
  }

  /** Reading the digits of a number gives the number back, however many there are. */
  lemma {:induction false} DecimalOfDigits(n: nat)
    ensures Decimal(0, Digits(n)) == n
  {
    if n < 10 {
      DecimalOne(0, DigitChar(n));
    } else {
      DecimalOfDigits(n / 10);
      DecimalAppend(0, Digits(n / 10), DigitChar(n % 10));
    }
  }

  const INT_MAX := 2147483647

  /** The largest number that comes up while the source adds digit `k`: it subtracts the code of
      `0` only at the end. */
  function Peak(digits: string, k: nat): int
    requires k < |digits|
  {
    Decimal(0, digits[..k]) * 10 + digits[k] as int
  }

  lemma {:induction false} DecimalGrows(digits: string, k: nat)
    requires AllDigits(digits) && k <= |digits|
    ensures 0 <= Decimal(0, digits[..k]) <= Decimal(0, digits)
    decreases |digits|
  {
    if k == |digits| {
      assert digits[..k] == digits;
      if k > 0 {
        DecimalGrows(digits[..k - 1], k - 1);
        DecimalAppend(0, digits[..k - 1], digits[k - 1]);
        assert digits[..k - 1] + [digits[k - 1]] == digits && digits[..k - 1][..k - 1] == digits[..k - 1];
      }
    } else {
      var n := |digits| - 1;
      DecimalGrows(digits[..n], k);
      assert digits[..n][..k] == digits[..k] && digits[..n] + [digits[n]] == digits;
      DecimalAppend(0, digits[..n], digits[n]);
    }
  }

  lemma PeakIsNext(digits: string, k: nat)
    requires AllDigits(digits) && k < |digits|
    ensures Peak(digits, k) == Decimal(0, digits[..k + 1]) + '0' as int <= Decimal(0, digits) + '0' as int
  {
    DecimalAppend(0, digits[..k], digits[k]);
    assert digits[..k] + [digits[k]] == digits[..k + 1];
    DecimalGrows(digits, k + 1);
  }

  /** A version number is read without overflow of a 32-bit `int` exactly if it is not within 48, the
      code of `0`, of the largest one. */
  lemma ReadWithoutOverflow(digits: string)
    requires digits != "" && AllDigits(digits)
    ensures (forall k :: 0 <= k < |digits| ==> Peak(digits, k) <= INT_MAX) <==>
            Decimal(0, digits) + '0' as int <= INT_MAX
  {
    forall k | 0 <= k < |digits| ensures Peak(digits, k) <= Decimal(0, digits) + '0' as int {
      PeakIsNext(digits, k);
    }
    var n := |digits| - 1;
    PeakIsNext(digits, n);
    assert digits[..n + 1] == digits;
  }

  function FieldsOf(headers: seq<Header>): seq<Field> {
    if headers == [] then [] else [Field(headers[0].name, headers[0].value, [])] + FieldsOf(headers[1..])
  }

  /** The head of a request, one line for each header. */
  function Serialize(verb: string, uri: string, major: nat, minor: nat, headers: seq<Header>): string {
    Render(Head(verb, uri, Digits(major), Digits(minor), FieldsOf(headers)))
  }

  predicate AreLegal(headers: seq<Header>) {
    forall i :: 0 <= i < |headers| ==> headers[i].name != "" && AllTokens(headers[i].name) && NoCtl(headers[i].value)
  }

  lemma {:induction false} FieldsOfLegal(headers: seq<Header>)
    requires AreLegal(headers)
    ensures AreFields(FieldsOf(headers)) && HeadersOf(FieldsOf(headers)) == headers
  {
    if headers != [] {
      FieldsOfLegal(headers[1..]);
      var h := headers[0];
      assert HeaderOf(Field(h.name, h.value, [])) == h by {
        assert h.value + "" == h.value;
      }
      assert FieldsOf(headers)[1..] == FieldsOf(headers[1..]);
      assert [h] + headers[1..] == headers;
    }
  }

  /** The parser recovers every part of a head that was written down, at its last byte. */
  lemma ParserInvertsSerialize(p: Parsed, verb: string, uri: string, major: nat, minor: nat,
                               headers: seq<Header>, rest: string)
    requires IsFresh(p)
    requires verb != "" && AllTokens(verb) && NoCtl(uri) && ' ' !in uri && AreLegal(headers)
    ensures Run(MethodStart, p, Serialize(verb, uri, major, minor, headers) + rest) ==
            Done(true, Newline3, Parsed(verb, uri, major, minor, headers), rest)
  {
    FieldsOfLegal(headers);
    DecimalOfDigits(major);
    DecimalOfDigits(minor);
    DerivableAccepted(p, Head(verb, uri, Digits(major), Digits(minor), FieldsOf(headers)), rest);
  }

  // ----- the bytes and digits themselves -----

  predicate IsAlphanumeric(c: char) { '0' <= c <= '9' || 'A' <= c <= 'Z' || 'a' <= c <= 'z' }

  /** Methods and names consist of letters, digits and fifteen other characters. */
  lemma TokenBytes(c: char)
    ensures IsToken(c) <==> IsAlphanumeric(c) || c in "!#$%&'*+-.^_`|~"
  {
    SpecialBytes(c);
  }

  lemma SpecialBytes(c: char)
    ensures c in "!#$%&'*+-.^_`|~" <==>
            c == '!' || c == '#' || c == '$' || c == '%' || c == '&' || c == '\'' || c == '*' || c == '+' ||
            c == '-' || c == '.' || c == '^' || c == '_' || c == '`' || c == '|' || c == '~'
  {
    var s := "!#$%&'*+-.^_`|~";
    assert s[0] == '!' && s[1] == '#' && s[2] == '$' && s[3] == '%' && s[4] == '&' && s[5] == '\'' && s[6] == '*';
    assert s[7] == '+' && s[8] == '-' && s[9] == '.' && s[10] == '^' && s[11] == '_' && s[12] == '`' && s[13] == '|';
    assert s[14] == '~';
  }

  /** Only the bytes below the blank and the delete character are refused in values, and the blank
      besides in a URI. All others are legal there, also those that are no ASCII characters. */
  lemma TextBytes(s: string)
    ensures NoCtl(s) <==> forall i :: 0 <= i < |s| ==> s[i] >= ' ' && s[i] as int != 127
  {
  }

  /** The digits have their values, and each counts ten times the next one. */
  lemma DigitsAreDecimal(v: int, s: string, d: nat)
    requires d < 10
    ensures DigitChar(d) == "0123456789"[d] && Digit("0123456789"[d]) == d
    ensures Decimal(v, s + ["0123456789"[d]]) == 10 * Decimal(v, s) + d
    ensures Decimal(v, "") == v
  {
    DecimalAppend(v, s, "0123456789"[d]);
  }

  /** A head with the names and values that clients send. */
  lemma AgentIsAccepted(p: Parsed, rest: string)
    requires IsFresh(p)
    ensures Run(MethodStart, p, Serialize("GET", "/", 1, 1, [Header("User-Agent", "curl/7.68.0")]) + rest) ==
            Done(true, Newline3, Parsed("GET", "/", 1, 1, [Header("User-Agent", "curl/7.68.0")]), rest)
  {
    var headers := [Header("User-Agent", "curl/7.68.0")];
    AgentIsLegal();
    assert AreLegal(headers);
    ParserInvertsSerialize(p, "GET", "/", 1, 1, headers, rest);
  }

  lemma AgentIsLegal()
    ensures AllTokens("GET") && NoCtl("/") && ' ' !in "/" && AllTokens("User-Agent") && NoCtl("curl/7.68.0")
  {
  }

  /** It is this text. */
  lemma AgentText()
    ensures Serialize("GET", "/", 1, 1, [Header("User-Agent", "curl/7.68.0")]) ==
            "GET / HTTP/1.1\r\n" + ("User-Agent: " + "curl/7.68.0\r\n") + "\r\n"
  {
    var headers := [Header("User-Agent", "curl/7.68.0")];
    var h := Head("GET", "/", "1", "1", FieldsOf(headers));
    assert headers[1..] == [] && FieldsOf(headers) == [Field("User-Agent", "curl/7.68.0", [])];
    assert FieldsOf(headers)[1..] == [];
    assert Digits(1) == "1";
    assert RequestLine(h) == ("GET" + " ") + ("/" + " HTTP/") + ("1" + ".") + ("1" + "\r\n");
    assert "GET" + " " == "GET " && "/" + " HTTP/" == "/ HTTP/" && "1" + "." == "1." && "1" + "\r\n" == "1\r\n";
    assert "GET " + "/ HTTP/" == "GET / HTTP/" && "GET / HTTP/" + "1." == "GET / HTTP/1.";
    assert RequestLine(h) == "GET / HTTP/1.1\r\n";
    AgentField(h.fields);
  }

  lemma AgentField(fs: seq<Field>)
    requires fs == [Field("User-Agent", "curl/7.68.0", [])]
    ensures RenderFields(fs) == "User-Agent: " + "curl/7.68.0\r\n"
  {
    assert fs[1..] == [] && RenderFolds([]) == "";
    assert "User-Agent" + ": " == "User-Agent: " && "curl/7.68.0" + "\r\n" == "curl/7.68.0\r\n";
    assert RenderField(fs[0]) == "User-Agent: " + "curl/7.68.0\r\n" + "";
  }
}
