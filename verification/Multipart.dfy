/** The splitter of multipart forms: `MemeHandler::parse` and the part of `generate_meme` that runs
    it four times over one stream (section 5.1.1 of RFC 2046). */
module Multipart {
  import opened Options
  import opened Sequences

  // ----- lines -----

  /** The text up to the first newline. */
  function Line(s: string): (line: string)
    ensures '\n' !in line
  {
    if s == "" || s[0] == '\n' then "" else [s[0]] + Line(s[1..])
  }

  /** The text after the first newline, if there is one. */
  function AfterLine(s: string): (rest: string)
    ensures |rest| <= |s| && (s != "" ==> |rest| < |s|)
  {
    if s == "" then "" else if s[0] == '\n' then s[1..] else AfterLine(s[1..])
  }

  class StringStream {
    const data: string
    var pos: nat

    ghost predicate Valid()
      reads this
    {
      pos <= |data|
    }

    ghost function Rest(): string
      requires Valid()
      reads this
    {
      data[pos..]
    }

    constructor (text: string)
      ensures Valid() && Rest() == text
    {
      data, pos := text, 0;
    }

    /** `std::getline`: a last line without a newline counts, an empty rest does not. */
    method GetLine() returns (ok: bool, line: string)
      requires Valid()
      modifies this
      ensures Valid() && (ok <==> old(Rest()) != "")
      ensures line == Line(old(Rest())) && Rest() == AfterLine(old(Rest()))
    {
      line, ok := "", pos < |data|;
      ghost var s := data[pos..];
      while pos < |data| && data[pos] != '\n'
        invariant pos <= |data|
        invariant line + Line(data[pos..]) == Line(s) && AfterLine(data[pos..]) == AfterLine(s)
      {
        ghost var t := data[pos..];
        assert t[0] == data[pos] && t[1..] == data[pos + 1..];
        Assoc(line, [data[pos]], Line(t[1..]));
        line := line + [data[pos]];
        pos := pos + 1;
      }
      assert Line(data[pos..]) == "";
      if pos < |data| {
        assert data[pos..][1..] == data[pos + 1..];
        pos := pos + 1;
      }
    }
  }

  // ----- one part -----

  predicate IsBoundary(boundary: string, line: string) {
    line == "--" + boundary + "--\r" || line == "--" + boundary + "\r"
  }

  predicate EndsCr(line: string) { line != "" && line[|line| - 1] == '\r' }

  datatype Part = Part(header: string, body: string)

  /** A part that was read, and the text after its boundary line. */
  datatype Scanned = Scanned(part: Part, rest: string)

  function ScanBody(boundary: string, header: string, body: string, s: string): Option<Scanned>
    decreases |s|
  {
    if s == "" then None
    else if IsBoundary(boundary, Line(s)) then Some(Scanned(Part(header, body), AfterLine(s)))
    else ScanBody(boundary, header, body + (Line(s) + "\n"), AfterLine(s))
  }

  /** `crlf` tells that the line before ended in a carriage return. */
  function ScanHeader(boundary: string, crlf: bool, header: string, s: string): Option<Scanned>
    decreases |s|
  {
    if s == "" then None
    else if IsBoundary(boundary, Line(s)) then Some(Scanned(Part(header, ""), AfterLine(s)))
    else if Line(s) == "\r" && crlf then ScanBody(boundary, header, "", AfterLine(s))
    else ScanHeader(boundary, EndsCr(Line(s)), header + (Line(s) + "\n"), AfterLine(s))
  }

  datatype ParseState = ReadingHeader | ReadingBody | ReachedBoundary

  method Parse(ss_body: StringStream, boundary: string) returns (ok: bool, header: string, body: string)
    requires ss_body.Valid()
    modifies ss_body
    ensures ss_body.Valid()
    ensures ScanHeader(boundary, false, "", old(ss_body.Rest())) ==
            if ok then Some(Scanned(Part(header, body), ss_body.Rest())) else None
  {
    header, body := "", "";
    var state, crlf_end := ReadingHeader, false;
    ghost var goal := ScanHeader(boundary, false, "", ss_body.Rest());
    while state != ReachedBoundary
      invariant ss_body.Valid() && (state.ReadingHeader? ==> body == "")
      invariant goal == match state
                        case ReadingHeader => ScanHeader(boundary, crlf_end, header, ss_body.Rest())
                        case ReadingBody => ScanBody(boundary, header, body, ss_body.Rest())
                        case ReachedBoundary => Some(Scanned(Part(header, body), ss_body.Rest()))
      decreases !state.ReachedBoundary?, |ss_body.Rest()|
    {
      var read, curr_line := ss_body.GetLine();
      if !read {
        break;
      }
      if state == ReadingHeader {
        if IsBoundary(boundary, curr_line) {
          state := ReachedBoundary;
        } else if curr_line == "\r" && crlf_end {
          state := ReadingBody;
        } else {
          header := header + (curr_line + "\n");
        }
      } else if IsBoundary(boundary, curr_line) {
        state := ReachedBoundary;
      } else {
        body := body + (curr_line + "\n");
      }
      crlf_end := EndsCr(curr_line);
    }
    ok := state == ReachedBoundary;
  }

  // ----- the four parts -----

  datatype Form = Form(parts: seq<Part>) | BadForm(message: string)

  const NO_BOUNDARY := "Invalid meme request: no boundary"
  const MESSAGES: seq<string> := [
    "Invalid meme request: error in template selection", "Invalid meme request: error in image",
    "Invalid meme request: error in top caption", "Invalid meme request: error in bottom caption"]
  const TOO_MANY := "Invalid meme request: too many fields"

  /** Reads the parts from the `i`-th on. */
  function ReadParts(boundary: string, i: nat, parts: seq<Part>, s: string): Form
    requires i <= 4
    decreases 4 - i
  {
    if i == 4 then
      if s == "" then Form(parts) else BadForm(TOO_MANY)
    else
      match ScanHeader(boundary, false, "", s)
      case None => BadForm(MESSAGES[i])
      case Some(found) => ReadParts(boundary, i + 1, parts + [found.part], found.rest)
  }

  function ReadForm(boundary: string, s: string): Form {
    if s == "" || Line(s) != "--" + boundary + "\r" then BadForm(NO_BOUNDARY)
    else ReadParts(boundary, 0, [], AfterLine(s))
  }

  /** The beginning of `generate_meme`: the boundary line, the four parts, and nothing else. */
  method SplitForm(req_body: string, boundary: string) returns (form: Form)
    ensures form == ReadForm(boundary, req_body)
  {
    var ss_body := new StringStream(req_body);
    var read, line := ss_body.GetLine();
    if !read || line != "--" + boundary + "\r" {
      return BadForm(NO_BOUNDARY);
    }
    var ok, header, body := Parse(ss_body, boundary);
    if !ok {
      return BadForm(MESSAGES[0]);
    }
    var parts := [Part(header, body)];
    assert [] + [Part(header, body)] == parts;
    ok, header, body := Parse(ss_body, boundary);
    if !ok {
      return BadForm(MESSAGES[1]);
    }
    parts := parts + [Part(header, body)];
    ok, header, body := Parse(ss_body, boundary);
    if !ok {
      return BadForm(MESSAGES[2]);
    }
    parts := parts + [Part(header, body)];
    ok, header, body := Parse(ss_body, boundary);
    if !ok {
      return BadForm(MESSAGES[3]);
    }
    parts := parts + [Part(header, body)];
    read, line := ss_body.GetLine();
    return if read then BadForm(TOO_MANY) else Form(parts);
  }

  // ----- the grammar of a part -----

  /** The text of some lines. */
  function Text(lines: seq<string>): string { if lines == [] then "" else (lines[0] + "\n") + Text(lines[1..]) }

  /** The derivation of a part: its header lines, the lines after the blank line if there is one,
      and the boundary line. */
  datatype Sheet = Sheet(header: seq<string>, body: Option<seq<string>>, closing: string)

  predicate IsPlainLine(boundary: string, line: string) { '\n' !in line && !IsBoundary(boundary, line) }

  /** Header lines: none of them is blank after a line that ends in a carriage return. */
  predicate AreHeaderLines(boundary: string, crlf: bool, lines: seq<string>)
    decreases |lines|
  {
    lines == [] ||
    (IsPlainLine(boundary, lines[0]) && !(lines[0] == "\r" && crlf) &&
     AreHeaderLines(boundary, EndsCr(lines[0]), lines[1..]))
  }

  predicate AreBodyLines(boundary: string, lines: seq<string>) {
    forall i :: 0 <= i < |lines| ==> IsPlainLine(boundary, lines[i])
  }

  predicate LastEndsCr(crlf: bool, lines: seq<string>) { if lines == [] then crlf else EndsCr(lines[|lines| - 1]) }

  predicate IsSheet(boundary: string, sheet: Sheet) {
    AreHeaderLines(boundary, false, sheet.header) && IsBoundary(boundary, sheet.closing) && '\n' !in sheet.closing &&
    (sheet.body.Some? ==> LastEndsCr(false, sheet.header) && AreBodyLines(boundary, sheet.body.value))
  }

  function BodyText(body: Option<seq<string>>): string { if body.None? then "" else "\r\n" + Text(body.value) }

  function PartOf(sheet: Sheet): Part {
    Part(Text(sheet.header), if sheet.body.None? then "" else Text(sheet.body.value))
  }

  /** `s` consists of the sheet and of `rest`; only at the end of the stream may the boundary line
      be without a newline. */
  predicate Lays(sheet: Sheet, s: string, rest: string) {
    var front := Text(sheet.header) + (BodyText(sheet.body) + sheet.closing);
    s == front + ("\n" + rest) || (s == front && rest == "")
  }

  lemma {:induction false} LineThen(line: string, rest: string)
    requires '\n' !in line
    ensures Line((line + "\n") + rest) == line && AfterLine((line + "\n") + rest) == rest
    ensures Line(line) == line && AfterLine(line) == ""
  {
    var s := (line + "\n") + rest;
    if line == "" {
      assert s[0] == '\n' && s[1..] == rest;
    } else {
      HeadTail(line);
      assert s[0] == line[0] && s[1..] == (line[1..] + "\n") + rest;
      LineThen(line[1..], rest);
    }
  }

  lemma {:induction false} LineCut(s: string)
    requires s != ""
    ensures s == (Line(s) + "\n") + AfterLine(s) || (s == Line(s) && AfterLine(s) == "")
  {
    if s[0] == '\n' {
      HeadTail(s);
    } else if s[1..] == "" {
      assert s == [s[0]];
    } else {
      LineCut(s[1..]);
      HeadTail(s);
      Assoc([s[0]], Line(s[1..]), "\n");
      Assoc([s[0]], Line(s[1..]) + "\n", AfterLine(s[1..]));
    }
  }

  // ----- what is printed is read -----

  lemma {:induction false} HeaderRead(boundary: string, crlf: bool, header: string, lines: seq<string>, s: string)
    requires AreHeaderLines(boundary, crlf, lines)
    ensures ScanHeader(boundary, crlf, header, Text(lines) + s) ==
            ScanHeader(boundary, LastEndsCr(crlf, lines), header + Text(lines), s)
    decreases |lines|
  {
    if lines == [] {
      assert Text(lines) + s == s && header + "" == header;
    } else {
      var line, tail := lines[0] + "\n", Text(lines[1..]);
      Assoc(line, tail, s);
      LineThen(lines[0], tail + s);
      HeaderRead(boundary, EndsCr(lines[0]), header + line, lines[1..], s);
      Assoc(header, line, tail);
    }
  }

  lemma {:induction false} BodyRead(boundary: string, header: string, body: string, lines: seq<string>, s: string)
    requires AreBodyLines(boundary, lines)
    ensures ScanBody(boundary, header, body, Text(lines) + s) == ScanBody(boundary, header, body + Text(lines), s)
    decreases |lines|
  {
    if lines == [] {
      assert Text(lines) + s == s && body + "" == body;
    } else {
      var line, tail := lines[0] + "\n", Text(lines[1..]);
      assert IsPlainLine(boundary, lines[0]);
      Assoc(line, tail, s);
      LineThen(lines[0], tail + s);
      BodyRead(boundary, header, body + line, lines[1..], s);
      Assoc(body, line, tail);
    }
  }

  /** A sheet that is laid out at the beginning of the stream is read as its part, and the stream
      is left right behind it. */
  lemma SheetRead(boundary: string, sheet: Sheet, s: string, rest: string)
    requires IsSheet(boundary, sheet) && Lays(sheet, s, rest)
    ensures ScanHeader(boundary, false, "", s) == Some(Scanned(PartOf(sheet), rest))
  {
    var end := EndOf(sheet, s, rest);
    LaysText(sheet, s, rest);
    ClosingLine(sheet.closing, end, rest);
    HeaderRead(boundary, false, "", sheet.header, BodyText(sheet.body) + end);
    assert "" + Text(sheet.header) == Text(sheet.header);
    BodyPartRead(boundary, sheet, LastEndsCr(false, sheet.header), end, rest);
  }

  function EndOf(sheet: Sheet, s: string, rest: string): string {
    sheet.closing + (if s == Text(sheet.header) + (BodyText(sheet.body) + sheet.closing) then "" else "\n" + rest)
  }

  lemma BodyPartRead(boundary: string, sheet: Sheet, crlf: bool, end: string, rest: string)
    requires IsSheet(boundary, sheet) && (sheet.body.Some? ==> crlf)
    requires end != "" && Line(end) == sheet.closing && AfterLine(end) == rest
    ensures ScanHeader(boundary, crlf, Text(sheet.header), BodyText(sheet.body) + end) == Some(Scanned(PartOf(sheet), rest))
  {
    if sheet.body.Some? {
      var lines := Text(sheet.body.value);
      assert "\r\n" == "\r" + "\n";
      Assoc("\r\n", lines, end);
      LineThen("\r", lines + end);
      BodyRead(boundary, Text(sheet.header), "", sheet.body.value, end);
      assert "" + lines == lines;
    } else {
      assert BodyText(sheet.body) + end == end;
    }
  }

  lemma LaysText(sheet: Sheet, s: string, rest: string)
    requires Lays(sheet, s, rest)
    ensures s == Text(sheet.header) + (BodyText(sheet.body) + EndOf(sheet, s, rest))
  {
    var h, b, c := Text(sheet.header), BodyText(sheet.body), sheet.closing;
    assert c + "" == c;
    Assoc(h, b + c, "\n" + rest);
    Assoc(b, c, "\n" + rest);
  }

  lemma ClosingLine(closing: string, end: string, rest: string)
    requires closing != "" && '\n' !in closing
    requires (end == closing + "" && rest == "") || end == closing + ("\n" + rest)
    ensures end != "" && Line(end) == closing && AfterLine(end) == rest
  {
    LineThen(closing, rest);
    Assoc(closing, "\n", rest);
    assert closing + "" == closing;
  }

  // ----- what is read was laid out so -----

  lemma ClosingFound(boundary: string, s: string)
    requires s != "" && IsBoundary(boundary, Line(s))
    ensures Lays(Sheet([], None, Line(s)), s, AfterLine(s))
  {
    LineCut(s);
    Assoc(Line(s), "\n", AfterLine(s));
    assert Text([]) + (BodyText(None) + Line(s)) == Line(s);
  }

  lemma {:induction false} BodyFound(boundary: string, header: string, body: string, s: string)
    returns (lines: seq<string>, closing: string, rest: string)
    requires ScanBody(boundary, header, body, s).Some?
    ensures AreBodyLines(boundary, lines) && IsBoundary(boundary, closing) && '\n' !in closing
    ensures s == Text(lines) + (closing + ("\n" + rest)) || (s == Text(lines) + closing && rest == "")
    ensures ScanBody(boundary, header, body, s).value.rest == rest
    decreases |s|
  {
    LineCut(s);
    if IsBoundary(boundary, Line(s)) {
      lines, closing, rest := [], Line(s), AfterLine(s);
      Assoc(closing, "\n", rest);
      assert "" + s == s;
    } else {
      lines, closing, rest := BodyFound(boundary, header, body + (Line(s) + "\n"), AfterLine(s));
      Assoc(Line(s) + "\n", Text(lines), closing + ("\n" + rest));
      Assoc(Line(s) + "\n", Text(lines), closing);
      var all := [Line(s)] + lines;
      assert all[1..] == lines;
      lines := all;
    }
  }

  /** The lines of whatever part `parse` reads. */
  lemma {:induction false} SheetFound(boundary: string, crlf: bool, header: string, s: string)
    returns (sheet: Sheet, rest: string)
    requires ScanHeader(boundary, crlf, header, s).Some?
    ensures AreHeaderLines(boundary, crlf, sheet.header) && IsBoundary(boundary, sheet.closing) && '\n' !in sheet.closing
    ensures sheet.body.Some? ==> LastEndsCr(crlf, sheet.header) && AreBodyLines(boundary, sheet.body.value)
    ensures Lays(sheet, s, rest) && ScanHeader(boundary, crlf, header, s).value.rest == rest
    decreases |s|
  {
    LineCut(s);
    if IsBoundary(boundary, Line(s)) {
      ClosingFound(boundary, s);
      sheet, rest := Sheet([], None, Line(s)), AfterLine(s);
    } else if Line(s) == "\r" && crlf {
      var lines, closing;
      lines, closing, rest := BodyFound(boundary, header, "", AfterLine(s));
      sheet := Sheet([], Some(lines), closing);
      BodyLays(lines, closing, s, AfterLine(s), rest);
    } else {
      var below;
      below, rest := SheetFound(boundary, EndsCr(Line(s)), header + (Line(s) + "\n"), AfterLine(s));
      sheet := Sheet([Line(s)] + below.header, below.body, below.closing);
      assert sheet.header[1..] == below.header;
      assert LastEndsCr(crlf, sheet.header) == LastEndsCr(EndsCr(Line(s)), below.header);
      HeaderLays(sheet, below, s, rest);
    }
  }

  lemma BodyLays(lines: seq<string>, closing: string, s: string, t: string, rest: string)
    requires s == ("\r" + "\n") + t
    requires t == Text(lines) + (closing + ("\n" + rest)) || (t == Text(lines) + closing && rest == "")
    ensures Lays(Sheet([], Some(lines), closing), s, rest)
  {
    var x, y := "\r\n", Text(lines);
    assert "\r" + "\n" == x && "" + ((x + y) + closing) == (x + y) + closing;
    Assoc(x, y, closing);
    Assoc(x, y, closing + ("\n" + rest));
    Assoc(x + y, closing, "\n" + rest);
  }

  lemma HeaderLays(sheet: Sheet, below: Sheet, s: string, rest: string)
    requires sheet.header != [] && below == sheet.(header := sheet.header[1..])
    requires s == (sheet.header[0] + "\n") + AfterLine(s) && Lays(below, AfterLine(s), rest)
    ensures Lays(sheet, s, rest)
  {
    var x, y, z := sheet.header[0] + "\n", Text(below.header), BodyText(sheet.body) + sheet.closing;
    Assoc(x, y, z);
    Assoc(x, y + z, "\n" + rest);
  }

  /** `parse` succeeds exactly on the streams that begin with a sheet, with the texts of its header
      and body lines; it takes the sheet and nothing else off the stream. */
  lemma ReadsExactlySheets(boundary: string, s: string, part: Part, rest: string)
    ensures ScanHeader(boundary, false, "", s) == Some(Scanned(part, rest)) <==>
            exists sheet :: IsSheet(boundary, sheet) && Lays(sheet, s, rest) && PartOf(sheet) == part
  {
    if ScanHeader(boundary, false, "", s) == Some(Scanned(part, rest)) {
      var sheet, found := SheetFound(boundary, false, "", s);
      SheetRead(boundary, sheet, s, rest);
      assert IsSheet(boundary, sheet) && Lays(sheet, s, rest) && PartOf(sheet) == part;
    }
    forall sheet | IsSheet(boundary, sheet) && Lays(sheet, s, rest) && PartOf(sheet) == part
      ensures ScanHeader(boundary, false, "", s) == Some(Scanned(part, rest))
    {
      SheetRead(boundary, sheet, s, rest);
    }
  }

  // ----- forms -----

  function SheetText(sheet: Sheet): string {
    (Text(sheet.header) + (BodyText(sheet.body) + sheet.closing)) + "\n"
  }

  function FormText(sheets: seq<Sheet>): string {
    if sheets == [] then "" else SheetText(sheets[0]) + FormText(sheets[1..])
  }

  /** The stream is the sheets one after the other; the last newline may be missing. */
  predicate LaysAll(sheets: seq<Sheet>, s: string) { s == FormText(sheets) || s + "\n" == FormText(sheets) }

  predicate AreSheets(boundary: string, sheets: seq<Sheet>) { forall i :: 0 <= i < |sheets| ==> IsSheet(boundary, sheets[i]) }

  function PartsOf(sheets: seq<Sheet>): seq<Part> {
    if sheets == [] then [] else [PartOf(sheets[0])] + PartsOf(sheets[1..])
  }

  lemma FormTextEnds(sheets: seq<Sheet>)
    ensures sheets == [] || (FormText(sheets) != "" && FormText(sheets)[|FormText(sheets)| - 1] == '\n')
    decreases |sheets|
  {
    if sheets != [] {
      FormTextEnds(sheets[1..]);
    }
  }

  /** The stream after the first of several sheets. */
  lemma FirstLays(sheets: seq<Sheet>, s: string) returns (rest: string)
    requires sheets != [] && LaysAll(sheets, s)
    ensures Lays(sheets[0], s, rest) && LaysAll(sheets[1..], rest)
  {
    var front, more := Text(sheets[0].header) + (BodyText(sheets[0].body) + sheets[0].closing), FormText(sheets[1..]);
    Assoc(front, "\n", more);
    FormTextEnds(sheets[1..]);
    if s == FormText(sheets) {
      rest := more;
    } else if more == "" {
      rest := "";
      assert s == (s + "\n")[..|s|] == (front + "\n")[..|front|] == front;
      assert sheets[1..] == [];
    } else {
      rest := more[..|more| - 1];
      assert more == rest + "\n";
      assert s == (s + "\n")[..|s|];
      assert s == front + ("\n" + rest);
    }
  }

  lemma AllLay(sheet: Sheet, sheets: seq<Sheet>, s: string, rest: string)
    requires Lays(sheet, s, rest) && LaysAll(sheets, rest) && (sheets != [] ==> rest != "")
    ensures LaysAll([sheet] + sheets, s)
  {
    var front, more := Text(sheet.header) + (BodyText(sheet.body) + sheet.closing), FormText(sheets);
    assert ([sheet] + sheets)[1..] == sheets;
    Assoc(front, "\n", more);
    Assoc(front, "\n", rest);
    Assoc(front + "\n", rest, "\n");
    if s == front && rest == "" {
      assert sheets == [] && more == "";
    }
  }

  lemma NextPart(boundary: string, i: nat, parts: seq<Part>, s: string, part: Part, rest: string)
    requires i < 4 && ScanHeader(boundary, false, "", s) == Some(Scanned(part, rest))
    ensures ReadParts(boundary, i, parts, s) == ReadParts(boundary, i + 1, parts + [part], rest)
  {
  }

  lemma NothingIsNoPart(boundary: string, i: nat, parts: seq<Part>, s: string)
    requires i <= 4 && ReadParts(boundary, i, parts, s).Form?
    ensures i < 4 ==> s != ""
  {
  }

  lemma SheetsSplit(boundary: string, parts: seq<Part>, sheets: seq<Sheet>)
    requires sheets != [] && AreSheets(boundary, sheets)
    ensures IsSheet(boundary, sheets[0]) && AreSheets(boundary, sheets[1..])
    ensures (parts + [PartOf(sheets[0])]) + PartsOf(sheets[1..]) == parts + PartsOf(sheets)
  {
  }

  lemma SheetsJoin(boundary: string, sheet: Sheet, sheets: seq<Sheet>)
    requires IsSheet(boundary, sheet) && AreSheets(boundary, sheets)
    ensures var all := [sheet] + sheets;
            AreSheets(boundary, all) && all[1..] == sheets && PartsOf(all) == [PartOf(sheet)] + PartsOf(sheets)
  {
    assert ([sheet] + sheets)[1..] == sheets;
  }

  lemma NoMoreParts(boundary: string, parts: seq<Part>, sheets: seq<Sheet>, s: string)
    requires sheets == [] && LaysAll(sheets, s)
    ensures ReadParts(boundary, 4, parts, s) == Form(parts + PartsOf(sheets))
  {
    assert parts + [] == parts && s == "";
  }

  lemma {:induction false} PartsFound(boundary: string, i: nat, parts: seq<Part>, s: string) returns (sheets: seq<Sheet>)
    requires i <= 4 && ReadParts(boundary, i, parts, s).Form?
    ensures |sheets| == 4 - i && AreSheets(boundary, sheets) && LaysAll(sheets, s)
    ensures ReadParts(boundary, i, parts, s) == Form(parts + PartsOf(sheets))
    decreases 4 - i
  {
    if i == 4 {
      sheets := [];
      assert parts + [] == parts;
    } else {
      var sheet, rest := SheetFound(boundary, false, "", s);
      SheetRead(boundary, sheet, s, rest);
      NextPart(boundary, i, parts, s, PartOf(sheet), rest);
      var more := PartsFound(boundary, i + 1, parts + [PartOf(sheet)], rest);
      NothingIsNoPart(boundary, i + 1, parts + [PartOf(sheet)], rest);
      sheets := PartsJoin(boundary, parts, s, sheet, rest, more);
    }
  }

  lemma PartsJoin(boundary: string, parts: seq<Part>, s: string, sheet: Sheet, rest: string, more: seq<Sheet>)
    returns (sheets: seq<Sheet>)
    requires IsSheet(boundary, sheet) && Lays(sheet, s, rest)
    requires AreSheets(boundary, more) && LaysAll(more, rest) && (more != [] ==> rest != "")
    ensures |sheets| == 1 + |more| && AreSheets(boundary, sheets) && LaysAll(sheets, s)
    ensures (parts + [PartOf(sheet)]) + PartsOf(more) == parts + PartsOf(sheets)
  {
    sheets := [sheet] + more;
    AllLay(sheet, more, s, rest);
    SheetsJoin(boundary, sheet, more);
    Assoc(parts, [PartOf(sheet)], PartsOf(more));
  }

  lemma {:induction false} PartsRead(boundary: string, i: nat, parts: seq<Part>, sheets: seq<Sheet>, s: string)
    requires i <= 4 && |sheets| == 4 - i && AreSheets(boundary, sheets) && LaysAll(sheets, s)
    ensures ReadParts(boundary, i, parts, s) == Form(parts + PartsOf(sheets))
    decreases 4 - i
  {
    if i == 4 {
      NoMoreParts(boundary, parts, sheets, s);
    } else {
      var first, others := sheets[0], sheets[1..];
      SheetsSplit(boundary, parts, sheets);
      var rest := FirstLays(sheets, s);
      SheetRead(boundary, first, s, rest);
      NextPart(boundary, i, parts, s, PartOf(first), rest);
      PartsRead(boundary, i + 1, parts + [PartOf(first)], others, rest);
    }
  }

  /** A form is accepted exactly if it is a boundary line and four sheets and nothing else; the
      parts are those of the sheets. */
  lemma AcceptsExactlyFourSheets(boundary: string, s: string, parts: seq<Part>)
    requires '\n' !in boundary
    ensures ReadForm(boundary, s) == Form(parts) <==>
            exists sheets: seq<Sheet>, tail: string :: |sheets| == 4 && AreSheets(boundary, sheets) &&
              LaysAll(sheets, tail) && s == ("--" + boundary + "\r\n") + tail && PartsOf(sheets) == parts
  {
    var first := "--" + boundary + "\r";
    assert '\n' !in first && first + "\n" == "--" + boundary + "\r\n";
    if ReadForm(boundary, s) == Form(parts) {
      var sheets := PartsFound(boundary, 0, [], AfterLine(s));
      assert [] + PartsOf(sheets) == PartsOf(sheets);
      FormTextEnds(sheets);
      LineCut(s);
      assert AfterLine(s) != "";
      assert s == ("--" + boundary + "\r\n") + AfterLine(s);
    }
    forall sheets: seq<Sheet>, tail: string |
      |sheets| == 4 && AreSheets(boundary, sheets) && LaysAll(sheets, tail) &&
      s == ("--" + boundary + "\r\n") + tail && PartsOf(sheets) == parts
      ensures ReadForm(boundary, s) == Form(parts)
    {
      LineThen(first, tail);
      PartsRead(boundary, 0, [], sheets, tail);
      assert [] + PartsOf(sheets) == PartsOf(sheets);
    }
  }

  // ----- refused forms -----

  /** `s` is the sheets one after the other, and then `rest`. */
  ghost predicate LaysSome(sheets: seq<Sheet>, s: string, rest: string)
    decreases |sheets|
  {
    if sheets == [] then s == rest
    else exists mid :: Lays(sheets[0], s, mid) && LaysSome(sheets[1..], mid, rest)
  }

  ghost predicate BeginsWithSheet(boundary: string, s: string) {
    exists sheet, rest :: IsSheet(boundary, sheet) && Lays(sheet, s, rest)
  }

  lemma ReadsIfBeginsWithSheet(boundary: string, s: string)
    ensures ScanHeader(boundary, false, "", s).Some? <==> BeginsWithSheet(boundary, s)
  {
    if ScanHeader(boundary, false, "", s).Some? {
      var sheet, rest := SheetFound(boundary, false, "", s);
      assert IsSheet(boundary, sheet) && Lays(sheet, s, rest);
    }
    forall sheet, rest | IsSheet(boundary, sheet) && Lays(sheet, s, rest)
      ensures ScanHeader(boundary, false, "", s).Some?
    {
      SheetRead(boundary, sheet, s, rest);
    }
  }

  /** The number of parts that are read before the form is refused; 5 if it is not. */
  function StopsAfter(boundary: string, i: nat, s: string): (k: nat)
    requires i <= 4
    ensures i <= k <= 5
    decreases 4 - i
  {
    if i == 4 then if s == "" then 5 else 4
    else
      match ScanHeader(boundary, false, "", s)
      case None => i
      case Some(found) => StopsAfter(boundary, i + 1, found.rest)
  }

  function Message(k: nat): string
    requires k <= 4
  {
    if k == 4 then TOO_MANY else MESSAGES[k]
  }

  /** After `k` parts, `rest` is not as the form must go on. */
  ghost predicate Ill(boundary: string, k: nat, rest: string) {
    if k == 4 then rest != "" else !BeginsWithSheet(boundary, rest)
  }

  lemma {:induction false} StopDecides(boundary: string, i: nat, parts: seq<Part>, s: string)
    requires i <= 4
    ensures var k := StopsAfter(boundary, i, s);
            if k == 5 then ReadParts(boundary, i, parts, s).Form?
            else ReadParts(boundary, i, parts, s) == BadForm(Message(k))
    decreases 4 - i
  {
    if i < 4 {
      match ScanHeader(boundary, false, "", s)
      case None =>
      case Some(found) => StopDecides(boundary, i + 1, parts + [found.part], found.rest);
    }
  }

  lemma {:induction false} StopLaidOut(boundary: string, i: nat, s: string) returns (sheets: seq<Sheet>, rest: string)
    requires i <= 4 && StopsAfter(boundary, i, s) <= 4
    ensures var k := StopsAfter(boundary, i, s);
            |sheets| == k - i && AreSheets(boundary, sheets) && LaysSome(sheets, s, rest) && Ill(boundary, k, rest)
    decreases 4 - i
  {
    if i == 4 || ScanHeader(boundary, false, "", s).None? {
      ReadsIfBeginsWithSheet(boundary, s);
      sheets, rest := [], s;
    } else {
      var sheet, mid := SheetFound(boundary, false, "", s);
      SheetRead(boundary, sheet, s, mid);
      StopsLater(boundary, i, s, PartOf(sheet), mid);
      var more;
      more, rest := StopLaidOut(boundary, i + 1, mid);
      LaysOneMore(boundary, sheet, more, s, mid, rest);
      sheets := [sheet] + more;
    }
  }

  lemma LaysOneMore(boundary: string, sheet: Sheet, more: seq<Sheet>, s: string, mid: string, rest: string)
    requires IsSheet(boundary, sheet) && AreSheets(boundary, more) && Lays(sheet, s, mid) && LaysSome(more, mid, rest)
    ensures AreSheets(boundary, [sheet] + more) && LaysSome([sheet] + more, s, rest)
  {
    assert ([sheet] + more)[1..] == more;
  }

  lemma StopsHere(boundary: string, k: nat, s: string)
    requires k <= 4 && Ill(boundary, k, s)
    ensures StopsAfter(boundary, k, s) == k
  {
    ReadsIfBeginsWithSheet(boundary, s);
  }

  lemma StopsLater(boundary: string, i: nat, s: string, part: Part, rest: string)
    requires i < 4 && ScanHeader(boundary, false, "", s) == Some(Scanned(part, rest))
    ensures StopsAfter(boundary, i, s) == StopsAfter(boundary, i + 1, rest)
  {
  }

  lemma {:induction false} LaidOutStops(boundary: string, i: nat, s: string, k: nat, sheets: seq<Sheet>, rest: string)
    requires i <= k <= 4 && |sheets| == k - i && AreSheets(boundary, sheets)
    requires LaysSome(sheets, s, rest) && Ill(boundary, k, rest)
    ensures StopsAfter(boundary, i, s) == k
    decreases 4 - i
  {
    if i == k {
      StopsHere(boundary, k, s);
    } else {
      var mid :| Lays(sheets[0], s, mid) && LaysSome(sheets[1..], mid, rest);
      SheetRead(boundary, sheets[0], s, mid);
      StopsLater(boundary, i, s, PartOf(sheets[0]), mid);
      LaidOutStops(boundary, i + 1, mid, k, sheets[1..], rest);
    }
  }

  lemma MessagesDiffer(k: nat, m: nat)
    requires k <= 4 && m <= 4
    ensures Message(k) == Message(m) <==> k == m
    ensures Message(k) != NO_BOUNDARY
  {
    MessageChars(k);
    MessageChars(m);
    assert NO_BOUNDARY[22] == 'n';
  }

  lemma MessageChars(k: nat)
    requires k <= 4
    ensures |Message(k)| > 32 && Message(k)[22] == (if k == 4 then 't' else 'e')
    ensures k < 4 ==> Message(k)[31] == "titb"[k] && Message(k)[32] == "emoo"[k]
  {
  }

  /** The form begins with its boundary line, and `tail` follows. */
  predicate Opens(boundary: string, s: string, tail: string) {
    s == ("--" + boundary + "\r\n") + tail || (s == "--" + boundary + "\r" && tail == "")
  }

  lemma OpeningLine(boundary: string, s: string)
    requires '\n' !in boundary
    ensures forall tail :: Opens(boundary, s, tail) <==>
              s != "" && Line(s) == "--" + boundary + "\r" && tail == AfterLine(s)
  {
    var first := "--" + boundary + "\r";
    assert '\n' !in first && first + "\n" == "--" + boundary + "\r\n";
    if s != "" { LineCut(s); }
    forall tail | Opens(boundary, s, tail) ensures s != "" && Line(s) == first && tail == AfterLine(s) {
      LineThen(first, tail);
    }
  }

  /** A form is refused with the message of part `k` exactly if the boundary line and `k` parts are in
      order and nothing that could be the next one follows; with the last message exactly if something
      follows four parts; and for want of a boundary exactly if the boundary line is missing. */
  lemma RefusesExactly(boundary: string, s: string, k: nat)
    requires '\n' !in boundary && k <= 4
    ensures ReadForm(boundary, s) == BadForm(Message(k)) <==>
            exists sheets: seq<Sheet>, tail: string, rest: string :: |sheets| == k && AreSheets(boundary, sheets) &&
              Opens(boundary, s, tail) && LaysSome(sheets, tail, rest) && Ill(boundary, k, rest)
    ensures ReadForm(boundary, s) == BadForm(NO_BOUNDARY) <==> forall tail :: !Opens(boundary, s, tail)
  {
    var tail := AfterLine(s);
    OpeningLine(boundary, s);
    StopDecides(boundary, 0, [], tail);
    MessagesDiffer(k, k);
    if s != "" && Line(s) == "--" + boundary + "\r" {
      assert Opens(boundary, s, tail);
      var m := StopsAfter(boundary, 0, tail);
      if m <= 4 {
        MessagesDiffer(m, k);
      }
      if m == k {
        var sheets, rest := StopLaidOut(boundary, 0, tail);
        assert |sheets| == k && Opens(boundary, s, tail) && LaysSome(sheets, tail, rest);
      }
    }
    forall sheets: seq<Sheet>, tail: string, rest: string |
      |sheets| == k && AreSheets(boundary, sheets) && Opens(boundary, s, tail) && LaysSome(sheets, tail, rest) &&
      Ill(boundary, k, rest)
      ensures ReadForm(boundary, s) == BadForm(Message(k))
    {
      LaidOutStops(boundary, 0, tail, k, sheets, rest);
    }
  }

  // ----- printed forms -----

  /** A header line is ended by a blank line only if it ends in a carriage return itself: otherwise the
      blank line is another header line. So is one at the beginning of a part. */
  lemma BlankLineNeedsReturn(boundary: string, line: string, s: string)
    requires '\n' !in line && line != "--" + boundary && line != "--" + boundary + "--" && line != ""
    ensures ScanHeader(boundary, false, "", (line + "\r\n") + ("\r\n" + s)) == ScanBody(boundary, line + "\r\n", "", s)
    ensures line[|line| - 1] != '\r' ==>
              ScanHeader(boundary, false, "", (line + "\n") + ("\r\n" + s)) == ScanHeader(boundary, true, (line + "\n") + "\r\n", s)
    ensures ScanHeader(boundary, false, "", "\r\n" + s) == ScanHeader(boundary, true, "\r\n", s)
  {
    var cr := line + "\r";
    assert cr + "\n" == line + "\r\n" && "\r" + "\n" == "\r\n" && cr != "\r";
    LineThen(cr, "\r\n" + s);
    LineThen("\r", s);
    NotBoundary(boundary, line);
    assert "" + "\r\n" == "\r\n" && "" + (line + "\n") == line + "\n" && "" + (line + "\r\n") == line + "\r\n";
    if line[|line| - 1] != '\r' {
      LineThen(line, "\r\n" + s);
      assert !IsBoundary(boundary, line);
    }
  }

  lemma NotBoundary(boundary: string, line: string)
    requires line != "--" + boundary && line != "--" + boundary + "--"
    ensures !IsBoundary(boundary, line + "\r")
    ensures !IsBoundary(boundary, "\r")
  {
    assert (line + "\r")[..|line|] == line;
    assert ("--" + boundary + "\r")[..|boundary| + 2] == "--" + boundary;
    assert ("--" + boundary + "--\r")[..|boundary| + 4] == "--" + boundary + "--";
  }

  /** A header line of a printed form, without its line end. */
  predicate IsHeaderText(boundary: string, line: string) {
    line != "" && '\n' !in line && line != "--" + boundary && line != "--" + boundary + "--"
  }

  predicate AreHeaderTexts(boundary: string, lines: seq<string>) { forall i :: 0 <= i < |lines| ==> IsHeaderText(boundary, lines[i]) }

  /** A body line, without its newline. */
  predicate AreBodyTexts(boundary: string, lines: seq<string>) {
    forall i :: 0 <= i < |lines| ==>
      '\n' !in lines[i] && lines[i] != "--" + boundary + "\r" && lines[i] != "--" + boundary + "--\r"
  }

  function Returned(lines: seq<string>): seq<string> { if lines == [] then [] else [lines[0] + "\r"] + Returned(lines[1..]) }

  lemma {:induction false} ReturnedAreHeaders(boundary: string, crlf: bool, lines: seq<string>)
    requires AreHeaderTexts(boundary, lines)
    ensures AreHeaderLines(boundary, crlf, Returned(lines)) && (lines != [] ==> LastEndsCr(crlf, Returned(lines)))
    decreases |lines|
  {
    if lines != [] {
      var all := Returned(lines);
      assert IsHeaderText(boundary, lines[0]);
      NotBoundary(boundary, lines[0]);
      ReturnedAreHeaders(boundary, true, lines[1..]);
      assert all[1..] == Returned(lines[1..]) && all[0] == lines[0] + "\r" && |all[0]| > 1;
      assert lines[1..] != [] ==> all[|all| - 1] == Returned(lines[1..])[|all| - 2];
    }
  }

  /** A part to be printed: header lines and body lines. */
  datatype Draft = Draft(header: seq<string>, body: seq<string>)

  predicate IsDraft(boundary: string, d: Draft) {
    d.header != [] && AreHeaderTexts(boundary, d.header) && AreBodyTexts(boundary, d.body)
  }

  function SheetOf(boundary: string, d: Draft, last: bool): Sheet {
    Sheet(Returned(d.header), Some(d.body), "--" + boundary + if last then "--\r" else "\r")
  }

  /** The text of a printed part: its header lines, a blank line, its body lines and a boundary line. */
  function PrintPart(boundary: string, d: Draft, last: bool): string {
    (Text(Returned(d.header)) + (("\r\n" + Text(d.body)) + ("--" + boundary + if last then "--\r" else "\r"))) + "\n"
  }

  lemma DraftIsSheet(boundary: string, d: Draft, last: bool)
    requires IsDraft(boundary, d) && '\n' !in boundary
    ensures IsSheet(boundary, SheetOf(boundary, d, last)) && SheetText(SheetOf(boundary, d, last)) == PrintPart(boundary, d, last)
    ensures PartOf(SheetOf(boundary, d, last)) == Part(Text(Returned(d.header)), Text(d.body))
  {
    ReturnedAreHeaders(boundary, false, d.header);
    assert forall i :: 0 <= i < |d.body| ==> IsPlainLine(boundary, d.body[i]);
  }

  /** Splitting a printed form of four parts gives the texts of their header and body lines. */
  lemma PrintedFormIsRead(boundary: string, a: Draft, b: Draft, c: Draft, d: Draft)
    requires '\n' !in boundary
    requires IsDraft(boundary, a) && IsDraft(boundary, b) && IsDraft(boundary, c) && IsDraft(boundary, d)
    ensures ReadForm(boundary, ("--" + boundary + "\r\n") +
              (PrintPart(boundary, a, false) + (PrintPart(boundary, b, false) +
               (PrintPart(boundary, c, false) + PrintPart(boundary, d, true))))) ==
            Form([Part(Text(Returned(a.header)), Text(a.body)), Part(Text(Returned(b.header)), Text(b.body)),
                  Part(Text(Returned(c.header)), Text(c.body)), Part(Text(Returned(d.header)), Text(d.body))])
  {
    var sheets := [SheetOf(boundary, a, false), SheetOf(boundary, b, false), SheetOf(boundary, c, false), SheetOf(boundary, d, true)];
    DraftIsSheet(boundary, a, false);
    DraftIsSheet(boundary, b, false);
    DraftIsSheet(boundary, c, false);
    DraftIsSheet(boundary, d, true);
    FourSheets(sheets[0], sheets[1], sheets[2], sheets[3]);
    assert AreSheets(boundary, sheets) && LaysAll(sheets, FormText(sheets));
    AcceptsExactlyFourSheets(boundary, ("--" + boundary + "\r\n") + FormText(sheets), PartsOf(sheets));
  }

  lemma FourSheets(a: Sheet, b: Sheet, c: Sheet, d: Sheet)
    ensures FormText([a, b, c, d]) == SheetText(a) + (SheetText(b) + (SheetText(c) + SheetText(d)))
    ensures PartsOf([a, b, c, d]) == [PartOf(a), PartOf(b), PartOf(c), PartOf(d)]
  {
    assert [a, b, c, d][1..] == [b, c, d] && [b, c, d][1..] == [c, d] && [c, d][1..] == [d] && [d][1..] == [];
    assert FormText([]) == "" && SheetText(d) + "" == SheetText(d);
    assert FormText([d]) == SheetText(d);
    assert FormText([c, d]) == SheetText(c) + FormText([d]);
    assert FormText([b, c, d]) == SheetText(b) + FormText([c, d]);
    assert FormText([a, b, c, d]) == SheetText(a) + FormText([b, c, d]);
    assert PartsOf([d]) == [PartOf(d)] && PartsOf([c, d]) == [PartOf(c), PartOf(d)];
  }

  /** The texts of the messages. */
  lemma MessagesAre()
    ensures Message(0) == "Invalid meme request: error in template selection"
    ensures Message(1) == "Invalid meme request: error in image"
    ensures Message(2) == "Invalid meme request: error in top caption"
    ensures Message(3) == "Invalid meme request: error in bottom caption"
    ensures Message(4) == "Invalid meme request: too many fields" && NO_BOUNDARY == "Invalid meme request: no boundary"
  {
  }
}
