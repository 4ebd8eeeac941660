# A verified model of a small C++ web server

This project models the parts of the web server that transform text and keep state, and proves what
they do for every input and every run. `dafny verify dfyconfig.toml` checks it.

The model follows the server from its configuration to a proxied page:

- **Configuration** (`ConfigLexer`, `ConfigQuoting`, `ConfigGrammar`, `ConfigRuns`, `ConfigParser`,
  `ConfigPrinter`). The tokenizer reads a stream with push-back; the parser builds a tree of objects in
  place through a stack of pointers into that tree. The parser is verified against a stack machine over
  tokens (`Machine`), and the machine against derivations (`Yields`, `Build`), which do not mention a
  stack. `ConfigRuns` says what whole runs keep, what a refused file leaves behind, and on which files
  the behaviour is defined.
- **Requests** (`RequestParser`, `RequestGrammar`, `RequestSerializer`, `RequestSplit`). The twenty-state
  byte machine, and the language of request heads that it accepts (sections 3.1.1, 3.2 and 3.2.4 of
  RFC 7230, as far as the code follows them).
- **Reverse proxy** (`ProxyRewrite`, `ProxyReversal`, `ProxyPasses`, `ProxyPages`, `ProxyLoop`). The
  find-and-replace loop over a growing string, the four passes over a page, targets and redirects.
- **Paths and routing** (`ConfigValues`, `Paths`, `Router`, `Server`, `ServerMain`). Looking up values in
  the configuration tree, normal forms of paths, the handler tables that are filled from the tree, and
  the walk from a path to the root.
- **Sessions** (`SessionMachine`, `ConnectionSession`, `SessionWorld`, `EndToEnd`). A connection as a
  state machine over the completions of its socket operations, the object whose callbacks are its steps,
  all connections of a server interleaved, and the way of a request from its bytes to its handler and on
  to the proxied server.
- **Multipart forms** (`Multipart`). The line machine that splits a part off a stream, run four times.

`Options` and `Sequences` hold an option type and facts about cutting and joining sequences.

Conventions:

- A text is a sequence of characters. A character of 128 or more stands for a byte that is negative in
  the signed `char` of the source: neither a character nor a control to the request parser.
- The input stream keeps its position and its fail bit. Once a read has hit the end, `unget` does not
  move the position, since `unget` does nothing while the fail bit is set.
- Where the source has undefined behaviour, the specification says so with a value of its own
  (`Undefined`, `Crash`, `None`), and the method requires of its input that it does not lead there. These
  are `back()` of an empty vector (`QuotedStartsBlock`: a quoted token at the beginning of an empty block;
  `Overruns`: bytes that go on with a header of an earlier call) and `..` above the root
  (`GoesAboveRoot`). That these conditions are met exactly by the inputs that lead there is proved. A
  handler whose block does not have a field that it needs is excluded likewise (`HasSettings`).
- A session does not exclude anything: where the behaviour becomes undefined, and where a handler throws
  in a callback, it is left in a state of its own (`Undefined`, `Thrown`) and does nothing more. That the
  process ends then is not modelled; other connections may go on.
- The three handlers of the source that need a server pointer and the others differ only in what they
  answer; a handler is modelled by its kind, its location and what it looks up in its block.
- `ParentPath` follows Boost: the parent of `/a` is `/`, and `/` has none, so the root location is found
  under the empty key.

Where the code departs from what its comments, interface or tests suggest, the model follows the code:

- The port is looked up in the first block that begins with `server`, while handlers are registered from
  the blocks that are exactly `server` (`PortIsHidden`). A configuration without a port is accepted, and
  the server runs without handlers (`NothingWithoutPort`).
- In single-quoted tokens every ordinary character is appended twice (`SingleQuotedDoubles`), so no such
  token has the text of the file as its value (`SingleQuotedIsNeverItself`).
- A one-character word at the end of the file is taken for the end of the file (`WordLexes`). A complete
  configuration with such a word behind it is accepted without the word (`LastLetterIsLost`); with a
  longer one it is refused (`LastWordIsRefused`).
- A quoted token after a complete statement does not begin a statement but carries on the last one
  (`QuotedCarriesOn`); if a block follows, it takes the place of the block of that statement.
- `request_parser::parse` is described as continuing where it stopped, but each call starts a fresh
  record: a head that arrives in two reads gets a right verdict and wrong data
  (`SplitBeforeHeaders`, `SplitLosesMethod`), and a continuation line at the start of a read is refused
  (`SplitBetweenHeaders`). A head that is cut inside the value of a header makes the second call append
  to a header that does not exist (`CutInsideValueCrashes`, `CrashingInput`). `SplitAgreesExactly` says
  which cuts are harmless.
- A reverse proxy cuts the length of its location off the target as it was written. A target that does not
  begin with a slash can be shorter, and the handler throws (`ShortTargetThrows`).
- A redirect to another host, with two slashes, gets the location in front, although the rewriting of
  pages leaves such links alone (`HostRedirectGetsLocation`).
- The four passes over a page are not independent for every location
  (`NotEveryLocationIsIndependent`); `OrderFreeExactlyIfIndependent` says for which they are.
- The rewriting of `url(` before an escaped slash cannot be undone on every page, unlike the other three
  passes; `UrlRestoredExactly` and `PageReversible` say on which pages it can.

## Model

| member | source | states |
|---|---|---|
| ConfigLexer.ParseToken | src/config_parser.cc:43-181 | A call yields the type and text of the first token of what is left on the stream and leaves the stream right behind it, push-back and end of file included |
| ConfigQuoting.QuotedImage | src/config_parser.cc:118-146 | A text is the content of some double-quoted token iff none of its backslashes is last or in front of t, n or r |
| ConfigQuoting.EncodedLexesBack | src/config_parser.cc:118-146 | On exactly those texts, escaping the quotes and lexing gives the text back, whatever follows |
| ConfigQuoting.EscapesStandFor | src/config_parser.cc:89-146 | `\t`, `\n`, `\r` and the escaped quote stand for a tab, a newline, a carriage return and the quote, in single quotes with the backslash in front |
| ConfigQuoting.FullyEncodedLexesBack | src/config_parser.cc:118-146 | A text in which each of those is written as its escape is lexed back to itself, whatever follows |
| ConfigQuoting.WordLexes | src/config_parser.cc:153-180 | A word in front of an ending character is one token; at the end of the file it is one iff it is longer than one character |
| ConfigQuoting.WordEndsExactlyAt | src/config_parser.cc:153-165 | A word ends at a blank, tab, newline, semicolon or brace, and at no other character |
| ConfigQuoting.SkippedExactly | src/config_parser.cc:56-84 | Blanks, tabs, newlines and carriage returns between tokens are skipped, and no other character is |
| ConfigQuoting.SingleQuotedDoubles | src/config_parser.cc:85-117 | In a single-quoted token without backslashes every character comes twice |
| ConfigQuoting.SingleQuotedIsNeverItself | src/config_parser.cc:85-117 | Escapes or not, no single-quoted token has the text that was read for it as its value |
| ConfigPrinter.LastLetterIsLost | src/config_parser.cc:168-180 | A printed configuration with one more word of one character at the end of the file is accepted without that word |
| ConfigPrinter.LastWordIsRefused | src/config_parser.cc:168-180 | With a longer word there it is refused |
| ConfigPrinter.QuotedCarriesOn | src/config_parser.cc:221-248 | A quoted text behind a complete statement is one more token of that statement, and a block behind it takes the place of the one that the statement had |
| ConfigPrinter.QuotedNeedsSeparator | src/config_parser.cc:221-231 | A quoted text is an argument iff a blank, tab, newline, carriage return, semicolon or opening brace is right behind it |
| ConfigPrinter.UnseparatedIsRefused | src/config_parser.cc:221-231 | With any other character there the file is refused |
| ConfigPrinter.UnclosedIsRefused | src/config_parser.cc:166-169 | A configuration with a quote behind it that is not closed is refused |
| ConfigGrammar.AcceptsExactlyDerivable | src/config_parser.cc:182-278 | The stack machine accepts a token sequence with a tree iff the sequence, comments aside, is the yield of a derivation of the recursive grammar with that tree |
| ConfigGrammar.ItemsRun | src/config_parser.cc:204-257 | At any depth of the stack, the tokens of a derivation leave the machine where it was with the tree of the derivation added to the innermost block |
| ConfigGrammar.ItemsFound | src/config_parser.cc:204-257 | Any accepted rest of a block splits into complete statements and the end of that block |
| ConfigRuns.CompleteStatementsStay | src/config_parser.cc:204-257 | From any point of any run on, every complete statement of every open block stands unchanged in the tree at the end, at the place that the stack gives it, if no quoted token carries one on; if the file is accepted, only then |
| ConfigRuns.QuotedUnsettles | src/config_parser.cc:221-231 | In any run, accepted or not and at any depth, a quoted token right after a complete statement changes it |
| ConfigRuns.HeldStatementsStay | src/config_parser.cc:204-231 | The statements that the caller's configuration held are all unchanged afterwards iff the file does not begin with a quoted token; all but the last are in any case |
| ConfigRuns.RefusedLeavesClosed | src/config_parser.cc:188-277 | A file is refused at the first token that no configuration has there, and leaves the tree of the tokens before it with the open statement ended and the open blocks closed |
| ConfigRuns.UndefinedExactlyIfQuotedStartsBlock | src/config_parser.cc:221-231 | The parser takes the last statement of an empty block iff a quoted token stands at the beginning of one after tokens that begin a configuration |
| ConfigParser.Parse | src/config_parser.cc:182-278 | On any text without such a token and any unshared tree to start from: true iff the machine accepts; afterwards, also after a refusal, the objects form an unshared tree with exactly the statements of the run; throughout, each stacked block is the block of the last statement below it, the counter is the height of the stack less one, and no object is owned twice |
| ConfigParser.BeginStatement | src/config_parser.cc:211-216 | The innermost block gains a statement with the token; all other blocks on the stack keep their statements |
| ConfigParser.ContinueStatement | src/config_parser.cc:216-230 | The last statement of the innermost block gains the token, and nothing else changes |
| ConfigParser.PushBlock | src/config_parser.cc:238-248 | The last statement gets a new empty block in place of any it had, and that block is on top of the stack |
| ConfigParser.PopBlock | src/config_parser.cc:249-257 | The block that is taken off the stack has become part of the last statement below it, with all its statements |
| ConfigPrinter.ParseInvertsPrint | src/config_parser.cc:43-278 | Printing any printable configuration and parsing the text gives exactly that configuration, at every depth, after the statements that were there |
| ConfigPrinter.PrintIsInjective | src/config_parser.cc:43-278 | Two printable configurations with the same text are the same |
| ConfigPrinter.CommentIgnored | src/config_parser.cc:147-152 | A comment changes nothing about the result, whatever it contains, up to the newline or carriage return that ends it |
| ConfigPrinter.LastCommentIgnored | src/config_parser.cc:166-180 | Nor does one that the end of the file ends |
| RequestParser.Parser.Consume | src/request_parser.cc:42-219 | One byte takes the state and the record to those of the transition table and gives its verdict |
| RequestParser.Parser.Parse | src/request_parser.cc:17-30 | A call reads up to and including the byte that brings a verdict, from a fresh record and the state that was left, and tells how many bytes it took |
| RequestParser.CrashesExactlyIfOverruns | src/request_parser.cc:168-206 | A call that starts in any state appends to a header that does not exist iff its bytes go on with the name or the value of one |
| RequestParser.ThreadedNeverCrashes | src/request_parser.cc:152-206 | With one record threaded through, the last header is used only when there is one |
| RequestGrammar.AcceptsExactlyHeads | src/request_parser.cc:42-219 | The machine accepts a text at its last byte iff the text is a request head |
| RequestGrammar.AsksExactlyWhileViable | src/request_parser.cc:42-219 | The machine asks for more iff the text can be completed to a request head |
| RequestGrammar.RefusesFirstBadByte | src/request_parser.cc:42-219 | It refuses right at a byte iff with that byte the text is neither a head nor can be completed to one |
| RequestGrammar.DerivableAccepted | src/request_parser.cc:42-219 | Every head is accepted right at its end with the method, URI, version and headers that it denotes, continuation texts appended without separator |
| RequestGrammar.AcceptedDerivable | src/request_parser.cc:42-219 | Every accepted text is a head and a rest, and the record is what that head denotes |
| RequestGrammar.FoldIsRead | src/request_parser.cc:152-180 | A line that begins with blanks or tabs appends its text to the value before it |
| RequestSerializer.ParserInvertsSerialize | src/request_parser.cc:100-215 | A head written from legal parts is accepted at its last byte and every part is recovered |
| RequestSerializer.TokenBytes | src/request_parser.cc:221-253 | Methods and names consist of letters, digits and fifteen other characters |
| RequestSerializer.TextBytes | src/request_parser.cc:221-227 | In values exactly the bytes below the blank and the delete character are refused |
| RequestSerializer.AgentIsAccepted | src/request_parser.cc:42-219 | A request with a `User-Agent` header is accepted with that header |
| RequestSerializer.DigitsAreDecimal | src/request_parser.cc:109-144 | The ten digits have their values and each counts ten times the next one |
| RequestSerializer.DecimalOfDigits | src/request_parser.cc:109-144 | Accumulating the digits of a number gives the number, however long it is |
| RequestSerializer.ReadWithoutOverflow | src/request_parser.cc:109-144 | No digit of a version number overflows a 32-bit int iff the number is not within 48 of the largest |
| RequestSplit.SplitBeforeHeaders | src/request_parser.cc:17-30 | Cutting the input before the first header begins changes neither verdict nor state nor the number of bytes read |
| RequestSplit.SplitHeadAccepted | src/request_parser.cc:17-30 | Every head that is cut before its first header is accepted by the second of two calls, at its last byte |
| RequestSplit.SplitBetweenHeaders | src/request_parser.cc:152-166 | Cutting it between header lines keeps them iff the next byte is not a blank |
| RequestSplit.SplitAgreesExactly | src/request_parser.cc:17-30 | Two calls agree with one on verdict, state and bytes read iff the first has seen no header, or the second neither goes on with the text of one nor, after the end of a line, with a continuation line |
| RequestSplit.CutInsideValueCrashes | src/request_parser.cc:195-206 | Every head whose last header value arrives in two reads makes the second call append to a header that does not exist |
| RequestSplit.SplitLosesMethod | src/request_parser.cc:17-30 | Of a head that two calls accept, the second hands over the right record, and the right method, iff the first had read nothing |
| ProxyRewrite.ReplacedAbsolutePaths | src/handlers/reverse_proxy_handler.cc:66-84 | The in-place loop terminates and gives the one-pass rewriting of the body |
| ProxyRewrite.RewriteLength | src/handlers/reverse_proxy_handler.cc:66-84 | The output is longer by the length of the location for each non-overlapping match that no slash follows |
| ProxyReversal.RewriteReversible | src/handlers/reverse_proxy_handler.cc:66-84 | Before a slash, taking the location out again gives the body back, for every body, skipped double slashes and earlier mentions of the location included |
| ProxyPages.UrlRestoredExactly | src/handlers/reverse_proxy_handler.cc:114 | Before an escaped slash it does so, for every location, iff nowhere on the body a scan finds what looks like a place where the location has been inserted |
| ProxyPages.UrlReversible | src/handlers/reverse_proxy_handler.cc:114 | For a location in which the pass inserts nothing and whose mentions cannot overlap, those are the bodies that do not have the location there themselves |
| ProxyPages.ExactlyUnbordered | src/handlers/reverse_proxy_handler.cc:114 | Among the locations in which the pass inserts nothing, it is exactly those whose mentions cannot overlap of which that is true |
| ProxyPasses.PreparedBody | src/handlers/reverse_proxy_handler.cc:106-117 | The body that is sent on is the body after the four passes in their order |
| ProxyPasses.OrderFreeExactlyIfIndependent | src/handlers/reverse_proxy_handler.cc:110-114 | The four passes give the same body in every order, for every body, iff none of them inserts in what another one writes for the location |
| ProxyPasses.PlainIsIndependent | src/handlers/reverse_proxy_handler.cc:110-114 | That is so for every location without quotes and brackets |
| ProxyPasses.NotEveryLocationIsIndependent | src/handlers/reverse_proxy_handler.cc:110-114 | For a location that has a link in it two orders give different bodies |
| ProxyPasses.AnyOrderWeaves | src/handlers/reverse_proxy_handler.cc:110-114 | In any order they do what one scan for all four patterns does |
| ProxyPages.PageReversible | src/handlers/reverse_proxy_handler.cc:106-117 | For every location whose passes are independent, a whole page can be restored iff it does not mislead that scan, and always at the root |
| ProxyPages.PageRestoredFromLast | src/handlers/reverse_proxy_handler.cc:106-117 | For every other location, undoing the passes from the last to the first restores the page if what the last pass was given does not mislead it |
| ProxyPasses.LinkGetsLocation | src/handlers/reverse_proxy_handler.cc:110-113 | Every quoted link with a single leading slash has the location in front of it afterwards and is otherwise the same, wherever it stands on the page |
| ProxyPasses.OnlyLinkGetsLocation | src/handlers/reverse_proxy_handler.cc:110-114 | On a page with one link, in any of the four forms, the location comes in front of its path and nothing else changes |
| ProxyPasses.OtherPagesStay | src/handlers/reverse_proxy_handler.cc:110-114 | A page with none of the four patterns is not changed |
| ProxyLoop.ReverseProxyRequestHandler.ProxiedRequest | src/handlers/reverse_proxy_handler.cc:33-51 | The forwarded request has the target behind the location, or the root, and names the proxied host; a target shorter than the location is an exception |
| ProxyLoop.ReverseProxyRequestHandler.PreparedResponse | src/handlers/reverse_proxy_handler.cc:53-63 | The answer is sent on with its status, its body rewritten and an absolute-path redirect put under the location |
| ProxyLoop.ClosedLoop | src/handlers/reverse_proxy_handler.cc:38-60 | A link or redirect under the location is routed back to the same proxy and forwarded as the path that the proxied server wrote, if nothing longer is registered on the way |
| ProxyLoop.TargetsAndRedirects | src/handlers/reverse_proxy_handler.cc:38-60 | The location alone asks for the root; a redirect that does not begin with a slash is not changed |
| ProxyLoop.HostRedirectGetsLocation | src/handlers/reverse_proxy_handler.cc:53-79 | A redirect that begins with two slashes gets the location in front, while a link to the same place on a page does not |
| ProxyLoop.LocationsAreReversible | src/handlers/reverse_proxy_handler.cc:66-84 | Every location that the server can give a proxy is one whose insertion before a slash can be undone |
| Paths.ConvertToAbsolutePath | src/utils.cc:53-85 | The two nested loops give the joined result of working the split components off on a stack |
| Paths.AbsoluteUnlessAboveRoot | src/utils.cc:60-84 | A path has a normal form iff on no part of the way it has more steps up than down |
| Paths.OneMore | src/utils.cc:60-78 | A name goes one directory down, a dot and nothing stay, and two dots take off the last name |
| Paths.UpGoesUpOnce | src/utils.cc:60-84 | The normal form of `/a/b/../c` is `/a/c` |
| Paths.RootedPath | src/utils.cc:53-59 | A path from the root is taken as it is, with quotes on both sides or without; a single quote is part of the path |
| Paths.NormalHasNames | src/utils.cc:60-84 | No component of a normal form is empty, a dot or two dots, or has a slash |
| Paths.NormalIsIdempotent | src/utils.cc:60-84 | Normalising again changes nothing |
| Paths.NormalPrefix | src/utils.cc:60-84 | Normalising a first part of a path beforehand makes no difference, not even to whether the path goes above the root |
| Paths.NormalIsNoLonger | src/utils.cc:60-84 | A path that begins with a slash is not shorter than its normal form, nor than that of any directory above |
| Paths.RelativePath | src/utils.cc:53-59 | A relative path is taken below the working directory however that is written, and quotes around it make no difference |
| Paths.JoinIsInjective | src/utils.cc:79-84 | Different directories have different normal forms, so a table may be keyed by them |
| Router.RouteServes | src/server.cc:207-225 | The walk finds the last registration at the longest registered part of the path, and nothing iff no registered location is a part of it |
| Router.ParentOfJoin | src/server.cc:213-218 | The textual parent of a normal form is the normal form of the directories above, and a slash above the last |
| Router.KnownKinds | src/server.cc:13-15 | There are eight kinds of handlers |
| Router.RegisteredExactly | src/server.cc:59-94 | Registered is exactly what a location statement of three words and a known kind declares in a block that is just `server` |
| Router.RegisteredInOrder | src/server.cc:59-94 | The registrations are in the order of the configuration |
| ConfigValues.ConfigLookup | src/utils.cc:4-38 | The values are those of the first field of that name in the first blocks of those names |
| ConfigValues.GetPortNumber | src/utils.cc:40-51 | The port is what `atoi` reads off the value, and -1 unless there is exactly one |
| ConfigValues.HasPortExactly | src/utils.cc:40-51 | There is a port iff the first block that begins with `server` has a first field `port` with one value that is not read as -1 |
| ConfigValues.PortIsFound | src/utils.cc:4-51 | Wherever it stands, the port is what `atoi` reads off the first field `port` of the first block that begins with `server` |
| ConfigValues.PortIsHidden | src/utils.cc:29-35 | Behind a block that begins with `server` and has no port, none is found |
| Server.Server.constructor | src/server.cc:17-44 | The registrations of the configuration are made iff the directory could be made and there is a port |
| Server.Server.GetHandlers | src/server.cc:59-94 | Exactly the location statements of known kind in the server blocks are registered, in their order, and the tables stay those of the registrations |
| Server.Server.CreateAndAddHandler | src/server.cc:110-146 | A known kind adds one registration to all three tables, with a handler that has its normal location and the fields it needs from its block; an unknown one nothing |
| Server.Server.GetRequestHandler | src/server.cc:207-225 | The handler is the one made for the last registration at the longest registered part of the path; null iff there is none, not even at the root |
| Server.Server.GetHandlerType | src/server.cc:96-108 | The kind of the registration for which a handler was made, also if a later one took its location |
| Server.Server.LogRequest | src/server.cc:181-187 | The count of the key grows by one, from zero if it was not there |
| Server.CountedOnce | src/server.cc:181-187 | The count of one key grows by one and no other changes |
| ServerMain.Start | src/server_main.cc:36-46 | A server is made iff the text is accepted, and has the registrations of the tree that the grammar gives the text if that has a port, else none |
| ServerMain.NothingWithoutPort | src/server.cc:26-30 | A configuration with a location but without a port is accepted, and nothing is registered for it |
| SessionMachine.RunsKeepInv | src/session.cc:50-177 | Over every run of completions: no verdict has two responses, and each has one before the next header is read, but for a last one whose body is still read, whose handler has thrown, or that a failed socket or undefined behaviour cut off; headers are read into no fields and an empty body and buffer; body read and body awaited make up the content length |
| SessionMachine.UndefinedExactly | src/session.cc:50-94 | A header read leads to undefined behaviour iff its bytes go on with a header of an earlier read or complete a head whose target goes above the root |
| SessionMachine.BodyReassembled | src/session.cc:97-129 | In whatever read a head is completed, and however the bytes after it are split over the two reads, the handler gets the first content-length of them as the body; its answer is sent unless it throws |
| SessionMachine.NonsenseIsRefused | src/session.cc:69-77 | Bytes with which the request neither begins with a head nor can be completed to one are answered with the error page, also after earlier reads of which the parser has not lost track |
| SessionMachine.UnfinishedHeadChangesNothing | src/session.cc:131-134 | Where the parser asks for more, the session reads on, and nothing but the state of the parser has changed |
| SessionMachine.ReadsOnWhileViable | src/session.cc:69-134 | The session reads on iff what it has read of a request can be completed to a head |
| SessionMachine.SplitHeadIsCompleted | src/session.cc:50-134 | A head that is cut before its first header is read on, and the next read has its verdict |
| SessionMachine.DeclaredLength | src/session.cc:60-67 | The last header called content-length, in any case, gives the length of the body; it is an error if it is no number |
| SessionMachine.NoDeclaredLength | src/session.cc:60-67 | Without such a header there is no body |
| SessionMachine.OtherFieldsStay | src/request_parser.cc:37-39 | A field is set by the headers of its name only |
| SessionMachine.WrittenStartsAfresh | src/session.cc:163-173 | After a response the session waits for a header with the parser at its start and no fields and body |
| SessionMachine.NextRequestIsServed | src/session.cc:163-173 | The next request on a connection gets to its handler with its own method, version, target, fields and body |
| SessionMachine.FailureEnds | src/session.cc:135-177 | After a failed operation nothing is answered and nothing more happens |
| SessionMachine.UnservableHeadIsRefused | src/session.cc:69-95 | A head, in whatever read it is completed, is refused for its content length before its target, each with the message of its own |
| SessionMachine.LastHeaderWins | src/request_parser.cc:37-39 | Of headers with the same name, in any case, the last is the field |
| SessionWorld.CountsAreConserved | src/session.cc:200-202 | Over every interleaving of all connections the counts add up to the completed calls of log_request, and to the responses once no call is under way |
| EndToEnd.BytesFindHandler | src/session.cc:50-160 | In whatever reads a request is completed, it goes to a handler, with its body, iff that is the last one registered at the longest registered part of the target, and gets the error page iff there is none |
| EndToEnd.ProxyAnswersExactly | src/handlers/reverse_proxy_handler.cc:36-46 | A request that goes to a reverse proxy is answered, if the proxied server does, iff its target is not shorter than the location; else the callback throws |
| EndToEnd.RootedTargetIsLongEnough | src/handlers/reverse_proxy_handler.cc:38 | A target that begins with a slash is never shorter than the location under which it is found |
| EndToEnd.ShortTargetThrows | src/handlers/reverse_proxy_handler.cc:38 | The target `a` is found under a location in the working directory and makes the callback throw |
| EndToEnd.LinkComesBack | src/handlers/reverse_proxy_handler.cc:38-60 | In whatever reads it arrives, a request for a link or redirect that a proxy has written is answered by that proxy, which asks for the path that the proxied server wrote |
| ConnectionSession.Session.HandleReadHeader | src/session.cc:50-140 | The callback takes the fields of the session through the header step of the machine |
| ConnectionSession.Session.HandleReadBody | src/session.cc:143-160 | The callback appends what was read to the body and answers the whole request |
| ConnectionSession.Session.HandleWrite | src/session.cc:163-177 | After a response nothing of the request is left and the parser is at its start |
| ConnectionSession.Session.Translate | src/request_parser.cc:32-40 | The request gets the parsed parts; of headers with the same name the last one stays |
| Multipart.Parse | src/handlers/meme_handler.cc:348-389 | A call succeeds iff it comes to a boundary line, and leaves the stream behind that line |
| Multipart.ReadsExactlySheets | src/handlers/meme_handler.cc:348-393 | A part is read iff the stream begins with header lines, perhaps a blank line and body lines, and a boundary line; header and body are the texts of those lines and nothing else is taken |
| Multipart.BlankLineNeedsReturn | src/handlers/meme_handler.cc:360-388 | A blank line ends the header only behind a line that ends in a carriage return |
| Multipart.SplitForm | src/handlers/meme_handler.cc:86-122 | The form is a boundary line and four parts; each error is reported with the message of its stage |
| Multipart.AcceptsExactlyFourSheets | src/handlers/meme_handler.cc:86-122 | A form is accepted with its parts iff it is the print of four parts with those texts, the last newline being optional |
| Multipart.PrintedFormIsRead | src/handlers/meme_handler.cc:86-122 | Printing four parts with header lines that are not blank and no line that is a boundary, and splitting the text, gives the four pairs of header and body |
| Multipart.RefusesExactly | src/handlers/meme_handler.cc:86-122 | A form is refused with the message of part k iff the boundary line and k parts are in order and no part follows, with the last message iff something follows four parts, and for want of a boundary iff the boundary line is missing |

## Left out

- ConfigParser.Parse: the counter of braces is unbounded, and a file that leads the source into undefined behaviour is excluded.
- RequestParser.Parser.Parse: data that goes on with a header of an earlier call is excluded, since the source then appends to a header that does not exist.
- RequestParser.Parser.Consume: the two version numbers are unbounded; ReadWithoutOverflow says when those of the source are the same. That the last header exists when it is used is required, since the source does not check it.
- Paths.ConvertToAbsolutePath: the working directory is a parameter, and a path that goes above the root is excluded, since the source then takes from an empty vector; that Boost takes a path with two leading slashes for a host name is not modelled.
- ProxyPasses.PreparedBody: the content length and transfer encoding that Beast derives from the body are not modelled.
- ProxyPages.PageReversible: for locations for which the order of the passes matters there is only a sufficient condition, PageRestoredFromLast.
- SessionMachine.RunsKeepInv: why a handler throws is a parameter, of which `EndToEnd` gives the part of the reverse proxy; that the process ends when nothing catches what was thrown is not modelled.
- ConnectionSession.Session.HandleReadHeader: reading the number of the content length and finding the handler are parameters, of which `EndToEnd` gives the second; bytes after the body in the same read are dropped by the source, so nothing is said of them.
- ConnectionSession.Session.Translate: the method is kept as text. Beast documents that setting a method that it does not know throws; Beast is not part of this model.
- SessionWorld.CountsAreConserved: does not say under which key a request is counted, since the source may clear the request before it logs it.
- Multipart.SplitForm: finding the boundary in the request with a regular expression, and everything after the four parts are read.
- Server.Server.CreateAndAddHandler: what the static and the meme handler make of their root; a block without a field that its handler needs is excluded, since the source then takes the first of no values.
- Server.Server.constructor: opening the port and accepting connections.
- Sockets, threads, signals, logging, files and directories: input and output.
- The pages of the status, meme and error handlers, and the echo, health, sleep, dummy and not-found handlers: no property beyond their text.
- The static file handler: it rests on relative paths and extensions computed by Boost.
- Parsing host and target from a URL in the proxy: not used by the server.
