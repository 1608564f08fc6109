# CppTcp in Dafny

This project models the sequential core of CppTcp, a small C++ TCP toolkit. It covers four parts.

- **`TcpClient`.** A connection object with four fields:
  - a socket descriptor, where `INVALID_SOCKET` means "not connected";
  - the host name;
  - the port;
  - a buffer of received characters that have not been read yet.

  It also covers the client's connect, read, put-back and write logic.
- **The echo server (`CppTcpServer.cpp`).**
  - The port check and the default host name.
  - The reply to a message, and how a `recv()` result is classified.
  - The loop that sends all of a reply.
  - The per-connection handler loop.
  - The registry of running handlers.
  - How `globalLogHandler` shapes a log line.
- **`ApplicationUtilities`.**
  - `startsWith`, `endsWith` and `looksLikeFilePath`.
  - The three `split` functions.
  - The positional formatter `TStringFormat`, which replaces the smallest-numbered `{n}` tokens with the next argument and goes round again.
- **`toTimeVal`.** Defined twice, with the same body, in the client and the server.

Every socket call is an input to the model, not something the model performs:
- `getaddrinfo`, `socket`, `setsockopt` and `::connect` are a `ConnectEnv` record of what each call answered;
- `select` plus `recv` are a `Readiness` value;
- each `recv()` of the server is a `Receive`, and each `send()` is a `SendResult`;
- the client's clock is an `elapsed` function of the pass number, with a ghost `deadline` pass by which the write timeout has elapsed.

Exceptions and `exitApplication` become `Result` and `Outcome` values or end states. The C++ classes whose fields change become Dafny classes:
- `TcpClient`;
- the server's `connections` map, as `ConnectionRegistry`;
- the caller's output vector of `split`, as `StringVector`.

The loops of the source are methods, and each is proved equal to a specification function:
- the scanning loop and the replacing loop of `TStringFormat`;
- the `getline` loops and the `find` loop of `split`;
- the send loops;
- the handler's receive loop;
- the line-ending loop of the log handler.

The functions' meaning is then proved in lemmas.

Library behaviour the code leans on is written out:
- C strings end at the first NUL (`strlen`, `c_str()`);
- `size_t` arithmetic wraps modulo 2^64;
- `std::string::substr` throws past the end;
- `std::stoi` throws above `INT_MAX`;
- `std::getline` drops its delimiter and yields no empty last piece;
- `find` returns `npos` when it finds nothing.

The regular expression `\{[0-9]+\}` is a hand-written scanner; the scanner is proved to find exactly the regex's matches. `^(/)?([^/\0]+(/)?)+$` is a pair of predicates characterised in plain words.

Where the code and its description differ, the model follows the code:
- `disconnect()` closes the socket but leaves the read buffer as it is;
- `connect(host, port)` and `setPortNumber` accept ports below 1024, which only the constructor rejects;
- a `connect()` whose `setsockopt` or `::connect` fails after `socket()` succeeded leaves the client connected.

The server's own `startsWith` (CppTcpServer.cpp:481-487) behaves the same as the one in `ApplicationUtilities`. Both are `StringUtil.StartsWith`.

`LOG_WARN` expands to the Debug level (GlobalDefinitions.h:41). `Logging.HandleLog` takes the level as the record carries it.

Files:
- `results.dfy`: Option, Result, Outcome.
- `strings.dfy`: C strings, decimal spelling, prefix and suffix tests, searches, and the file-path regex.
- `split.dfy`: the three splits.
- `format.dfy`: `TStringFormat`.
- `timeval.dfy`: `toTimeVal`.
- `sockets.dfy`: what the socket calls answer.
- `tcp_client.dfy`: `TcpClient`.
- `server.dfy`: the server's echo handler and registry.
- `logging.dfy`: the log handler.

## Model

| member | source | states |
|---|---|---|
| Client.ConnectFailure | TcpClient.cpp:99-161 | connect() fails exactly when one of getaddrinfo, socket, the SO_REUSEADDR setsockopt, ::connect or the two timeout setsockopt calls fails; the first failing call names the error |
| Client.FailureAfterSocketStaysConnected | TcpClient.cpp:119-160 | a failed connect() has stored its descriptor exactly when the failure came after socket(): SO_REUSEADDR, ::connect or a timeout option |
| Client.PortNameRoundTrip | TcpClient.cpp:254-257 | portName() "[host:port]" gives back the host (even one holding ':') and the port: the port follows the last ':' |
| Client.TcpClient.Name | TcpClient.cpp:254-257 | the port name of the client parses back to its own host and port |
| Client.PutBackAllPrepends | TcpClient.cpp:288-291 | put-backs pile up in front of the buffer, the last one first |
| Client.ReadFromBufferTakesPrefix | TcpClient.cpp:181-185 | n reads served from the buffer return its first n characters in order and leave the rest |
| Client.PutBacksReadInReverse | TcpClient.cpp:288-291 | after k put-backs the next k reads return them in reverse push order, and the buffer is then what it was before |
| Client.SendLoopBound | TcpClient.cpp:240-251 | given send() never reports more than it was offered, write() never reports more bytes than numberOfBytes |
| Client.SendLoopShortOnlyOnTimeout | TcpClient.cpp:240-251 | write() returns fewer bytes than asked only when its last pass saw the write timeout elapse |
| Client.TcpClient.IsConnected | TcpClient.cpp:174-177 | the client is connected exactly when its descriptor is not INVALID_SOCKET |
| Client.TcpClient.Init | TcpClient.cpp:19-23 | the member initialisers: unconnected, host and port as given, empty read buffer |
| Client.TcpClient.Create | TcpClient.cpp:19-41 | the constructor throws exactly for a port below 1024; otherwise the new client is unconnected with an empty read buffer |
| Client.TcpClient.Connect | TcpClient.cpp:99-161 | throws and changes nothing while connected; otherwise the calls' first failure is thrown, the descriptor is stored once socket() succeeded and the buffer cleared once ::connect succeeded; success leaves it connected with an empty buffer |
| Client.TcpClient.ConnectTo | TcpClient.cpp:89-97 | throws and changes nothing while connected; otherwise sets host and port, then behaves as connect() |
| Client.TcpClient.Disconnect | TcpClient.cpp:163-172 | always returns true and leaves the client unconnected; host, port and read buffer unchanged |
| Client.TcpClient.OpenPort | TcpClient.cpp:264-269 | connects only when not connected; a connected client is left unchanged |
| Client.TcpClient.ClosePort | TcpClient.cpp:271-276 | disconnects only when connected; afterwards the client is unconnected, the buffer untouched |
| Client.TcpClient.Read | TcpClient.cpp:179-222 | a non-empty buffer yields its front, keeps its tail, no socket call; otherwise received text up to its first NUL refills the buffer and its first character is returned, a zero-byte receive closes the port and throws, would-block and no readiness give '\0', another error throws |
| Client.TcpClient.PutBack | TcpClient.cpp:288-291 | the character goes in front of the read buffer; nothing else changes |
| Client.TcpClient.Write | TcpClient.cpp:232-252 | throws on an unconnected client; otherwise the result is the send loop's: each pass offers the bytes from sentBytes on, a send error throws, the loop ends when all bytes are gone or the timeout elapsed |
| Client.TcpClient.WriteChar | TcpClient.cpp:224-230 | throws on an unconnected client; otherwise write() of the one character |
| Client.TcpClient.SetPortNumber | TcpClient.cpp:301-306 | throws and changes nothing while connected; otherwise changes the port and nothing else |
| Client.TcpClient.SetHostName | TcpClient.cpp:308-313 | throws and changes nothing while connected; otherwise changes the host and nothing else |
| TimeVal.ToTimeVal | CppTcpServer.cpp:323-329 | tv_sec * 1000 + tv_usec / 1000 is the timeout, with tv_usec a multiple of 1000 below one second |
| TimeVal.ToTimeValUnique | TcpClient.cpp:293-299 | it is the only such timeval for the timeout: the conversion loses nothing |
| Server.CheckPort | CppTcpServer.cpp:130-132 | a port is refused exactly when it was given (not -1) and lies below 1024 |
| Server.DefaultHostName | CppTcpServer.cpp:521-529 | the loopback address is chosen exactly when no address starts with "192" |
| Server.DefaultHostNameIsFirstMatch | CppTcpServer.cpp:521-529 | otherwise the first address, in list order, that starts with "192" is chosen |
| Server.StripLineEnding | CppTcpServer.cpp:66 | the result is a prefix of the input; exactly one trailing '\n' is removed when present, else the input is returned unchanged |
| Server.Reply | CppTcpServer.cpp:291-293 | the reply starts with `Message received: "` and ends with the line ending |
| Server.ReplyRoundTrip | CppTcpServer.cpp:291-293 | the quoted text of the reply is exactly the message less its trailing line ending |
| Server.ReplyKeepsUnterminatedMessage | CppTcpServer.cpp:291 | a message without a line ending is quoted whole |
| Server.ClassifyMeaning | CppTcpServer.cpp:284-310 | -1 with EAGAIN and a receive whose first byte is NUL are retried; another -1 exits; a zero-byte receive hangs up; text before the first NUL is answered with its reply |
| Server.SendAllFrom | CppTcpServer.cpp:296-305 | a delivered reply consumes send results only from where it started |
| Server.SendAllDelivers | CppTcpServer.cpp:296-305 | a delivered reply's sends took at least the whole reply, none failed, and the loop stopped at the first send that completed it |
| Server.SendAllFailsOnError | CppTcpServer.cpp:298-302 | a failed reply ends at a send() that returned -1 |
| Server.SendAll | CppTcpServer.cpp:294-305 | the loop ends as the send-all specification says, and the k-th chunk offered is the reply from the byte the first k sends reached |
| Server.Erased | CppTcpServer.cpp:319 | erase removes exactly the key and keeps every other entry |
| Server.Emplaced | CppTcpServer.cpp:257 | emplace inserts only a new key and never replaces an existing entry |
| Server.ConnectionRegistry.CloseConnection | CppTcpServer.cpp:314-321 | closes and forgets the descriptor only when registered; every other entry stays; an absent key changes nothing |
| Server.ConnectionRegistry.Emplace | CppTcpServer.cpp:257 | inserts exactly when the key is new; reports whether it did |
| Server.ConnectionRegistry.AcceptAsWritten | CppTcpServer.cpp:249-259 | the accept loop registers the new handler under the listening descriptor |
| Server.ConnectionRegistry.Accept | CppTcpServer.cpp:257 | the accept loop as intended registers the handler under the accepted descriptor |
| Server.AcceptAsWrittenLeaks | CppTcpServer.cpp:257 | as written, the accepted descriptor is never a key, closing it leaves the registry changed, and a second connection's emplace keeps the first handler |
| Server.AcceptAsWrittenExample | CppTcpServer.cpp:257 | listening on 3 and accepting 4, closing 4 leaves the entry for 3 behind |
| Server.AcceptThenCloseRestores | CppTcpServer.cpp:308 | as intended, registering a connection and closing it when the peer hangs up restores the registry |
| Server.HandleFrom | CppTcpServer.cpp:282-311 | the handler delivers at most one reply per receive |
| Server.HandleFromAnswersInOrder | CppTcpServer.cpp:282-311 | the delivered replies are exactly the replies to the messages received before the receive where the loop stopped, in receive order; every earlier receive was retried or answered in full, none was a hang-up, and the connection closed exactly when the stopping receive is a hang-up |
| Server.ClosesAtHangup | CppTcpServer.cpp:282-311 | when every receive before an empty one was retried or answered in full, the empty receive closes the connection, after the replies to all the messages before it |
| Server.ClosedOnlyOnHangup | CppTcpServer.cpp:306-310 | the handler closes its connection only after a zero-byte receive |
| Server.Handle | CppTcpServer.cpp:274-279 | when setsockopt cannot set the receive timeout the process exits before any receive, with no reply; otherwise at most one reply per receive |
| Server.ReceiveTimeoutValue | CppTcpServer.cpp:274 | the timeval set on each accepted socket is 1 s and 500000 µs, which is RECEIVE_TIMEOUT again in milliseconds |
| Server.HandleConnection | CppTcpServer.cpp:270-312 | the handler loop ends and replies as Handle says, so by HandleFromAnswersInOrder it delivers the replies to the received messages in order; the registry loses the descriptor exactly when the peer hung up |
| Logging.StripQuotes | CppTcpServer.cpp:441-446 | the result is the text less at most one character at each end: a prefix of the text, or of the text after its first character; for text shorter than npos at most two characters go |
| Logging.StripQuotesTrims | CppTcpServer.cpp:441-446 | for any text shorter than npos, the two size_t tests drop one leading quote, then one trailing quote of what is left |
| Logging.StripQuotesOfQuoted | CppTcpServer.cpp:441-446 | a quoted text loses exactly its two enclosing quotes, whatever quotes it holds inside |
| Logging.ReplaceChar | CppTcpServer.cpp:448 | std::replace changes every '-' of the time stamp into ':' and nothing else |
| Logging.LineEndingsAreLineBreaks | CppTcpServer.cpp:457-463 | ending with one of "\r\n", "\r", "\n", "\n\r" is the same as ending with '\r' or '\n' |
| Logging.TerminateLine | CppTcpServer.cpp:457-466 | the line gains "\n" exactly when it ends in none of the four line endings; it always ends in '\r' or '\n' |
| Logging.FormatLine | CppTcpServer.cpp:450-454 | the formatted line, when TStringFormat does not throw, holds no NUL |
| Logging.HandleLog | CppTcpServer.cpp:414-477 | a record is dropped exactly when it is a Debug record and logging is not verbose |
| Logging.HandleLogShape | CppTcpServer.cpp:414-477 | a written line ends in a line break and holds no NUL; Fatal goes to std::cerr only and aborts, the rest also go to the log file |
| Logging.GlobalLogHandler | CppTcpServer.cpp:414-466 | the handler's steps give the record's outcome as the log specification says |
| StringUtil.CString | TcpClient.cpp:211-212 | a C string made from a buffer is its prefix before the first NUL |
| StringUtil.CStringOfNulFree | ApplicationUtilities.h:134 | a string without NUL passes through c_str() unchanged |
| StringUtil.DecimalString | ApplicationUtilities.h:31 | the ostringstream spelling of a number is digits only, without a leading zero |
| StringUtil.DecimalRoundTrip | ApplicationUtilities.h:31 | reading the spelling back gives the number |
| StringUtil.StartsWith | ApplicationUtilities.cpp:62-64 | true exactly when `start` is a prefix of `str` |
| StringUtil.StartsWithChar | ApplicationUtilities.cpp:66-68 | true exactly when the string is non-empty and its first character matches |
| StringUtil.EndsWith | ApplicationUtilities.cpp:54-56 | true exactly when `ending` is a suffix of `str` |
| StringUtil.ReverseComparison | ApplicationUtilities.cpp:55 | comparing over reverse iterators is comparing the suffix |
| StringUtil.EndsWithChar | ApplicationUtilities.cpp:58-60 | true exactly when the string is non-empty and its last character matches |
| StringUtil.AffixesOfConcat | ApplicationUtilities.cpp:54-64 | a concatenation starts with its first part and ends with its last |
| StringUtil.FirstIndexOf | CppTcpServer.cpp:441 | find(c) gives the first index holding `c`, or npos when none does |
| StringUtil.LastIndexOf | CppTcpServer.cpp:444 | find_last_of(c) gives the last index holding `c`, or npos when none does |
| StringUtil.LastIndexOfFinds | CppTcpServer.cpp:444 | an index holding `c` with no `c` after it is what find_last_of returns |
| StringUtil.FindFrom | ApplicationUtilities.cpp:116 | find(pat) from an index gives the least occurrence there or later, or none |
| StringUtil.Find | ApplicationUtilities.cpp:108 | find(pat) gives the least occurrence, or npos when there is none |
| StringUtil.GroupsCharacterized | ApplicationUtilities.cpp:24 | `([^/\0]+(/)?)+` matches exactly the non-empty NUL-free texts not starting with '/' and with no two slashes in a row |
| StringUtil.LooksLikeFilePath | ApplicationUtilities.cpp:23-26 | true exactly for "." or an absolute path of non-empty, slash-free, NUL-free segments joined by single slashes, optionally ending in '/' |
| StringUtil.DirectoryRegexOnAbsolutePath | ApplicationUtilities.cpp:24-25 | for strings starting with '/', the directory regex accepts exactly those well-formed paths |
| Split.StringVector.PushBack | ApplicationUtilities.cpp:98 | push_back appends at the end and keeps the earlier entries |
| Split.IndexOf | ApplicationUtilities.cpp:97 | getline reads up to the first delimiter, or to the end when there is none |
| Split.GetlinePiecesDelimiterFree | ApplicationUtilities.cpp:93-102 | no piece split at a char holds the delimiter |
| Split.GetlineRoundTrip | ApplicationUtilities.cpp:93-102 | the pieces joined with the delimiter give the input back, less a delimiter that ended it |
| Split.GetlinePieceCount | ApplicationUtilities.cpp:93-102 | one piece per delimiter, plus one when text follows the last delimiter: a trailing delimiter yields no empty piece |
| Split.GetlineOfJoin | ApplicationUtilities.cpp:93-102 | splitting a join of delimiter-free pieces whose last is non-empty gives the pieces back |
| Split.GetlineEnd | ApplicationUtilities.cpp:97 | std::getline stops at the first delimiter from its position, or at the end |
| Split.GetlineStep | ApplicationUtilities.cpp:97-99 | one getline extracts the text up to the delimiter and moves past it, keeping the loop's account of the pieces so far |
| Split.GetlineDone | ApplicationUtilities.cpp:97 | at the end of the stream the loop has extracted every piece |
| Split.SplitByChar | ApplicationUtilities.cpp:93-102 | appends the getline pieces to `output` in order, keeps its earlier entries, and returns how many it appended |
| Split.SplitOnStringReassembles | ApplicationUtilities.cpp:105-120 | the pieces each followed by the delimiter, then the text after the last delimiter, rebuild the input; that last text holds no delimiter and is not appended |
| Split.PiecesBeforeDelimiterFree | ApplicationUtilities.cpp:113-118 | no appended piece holds the delimiter |
| Split.PiecesBeforeFound | ApplicationUtilities.cpp:114-116 | at a found delimiter: the text before it, then the pieces of the text after it |
| Split.PiecesBeforeStep | ApplicationUtilities.cpp:113-118 | one pass appends the text before the first delimiter and moves past that delimiter, keeping the loop's account |
| Split.SplitByString | ApplicationUtilities.cpp:105-120 | appends the whole string and returns 1 when the delimiter is absent, else appends the text before each left-to-right occurrence and returns their count; earlier entries stay |
| Split.NonEmpty | ApplicationUtilities.h:39 | only non-empty pieces are kept |
| Split.NonEmptyPiecesFree | ApplicationUtilities.h:33-41 | the kept pieces are non-empty and free of the delimiter |
| Split.SplitNonEmpty | ApplicationUtilities.h:33-41 | split<Delimiter> returns the non-empty getline pieces in order of occurrence, none holding the delimiter |
| Split.SplitNonEmptyOfJoin | ApplicationUtilities.h:33-41 | split<Delimiter> of a join of non-empty, delimiter-free pieces gives them back |
| Format.TokenLengthIsTheMatch | ApplicationUtilities.h:56 | the scanner's token at a position is exactly what `\{[0-9]+\}` matches there, and the match is unique |
| Format.DigitsValueIsDecimal | ApplicationUtilities.h:84 | the token value is the decimal value std::stoi reads from its digits |
| Format.FirstTokenFrom | ApplicationUtilities.h:79 | regex_search finds a token at or after its start |
| Format.FirstTokenFromIsLeftmost | ApplicationUtilities.h:79 | it finds the leftmost one, and finds none only when there is none |
| Format.TokensFromGenuine | ApplicationUtilities.h:79-106 | every token the scanning loop records is a token at its recorded place with its recorded length |
| Format.TokensFromOrdered | ApplicationUtilities.h:79-106 | the loop records tokens left to right, none overlapping the next |
| Format.NoTokenInside | ApplicationUtilities.h:56 | no token starts inside another |
| Format.TokensFromComplete | ApplicationUtilities.h:79-106 | the loop misses no token |
| Format.SmallestGroupIsMinimal | ApplicationUtilities.h:94-104 | the tracked group is exactly the tokens with the smallest number, in string order |
| Format.SmallestGroupMembers | ApplicationUtilities.h:94-104 | a token met is in the group exactly when its number is the smallest |
| Format.GroupIsSmallestTokens | ApplicationUtilities.h:76-106 | a token of the string is in the replaced group if and only if no token has a smaller number |
| Format.ScanStep | ApplicationUtilities.h:79-105 | one pass of the scanning loop records the next token of the string and moves past it |
| Format.ScanDone | ApplicationUtilities.h:79 | when the search fails, the loop has recorded every token |
| Format.ScanFromMeaning | ApplicationUtilities.h:79-106 | the rest of the scan throws exactly when some token number exceeds INT_MAX, else ends with the smallest-numbered group |
| Format.ScanMeaning | ApplicationUtilities.h:79-106 | the whole scan throws std::out_of_range exactly when some token number exceeds INT_MAX, else gives the smallest-numbered group |
| Format.ScanTokens | ApplicationUtilities.h:76-106 | the scanning loop ends as the scan specification says |
| Format.SubstrPrefix | ApplicationUtilities.h:129 | substr(0, n) keeps a prefix of at most n characters and never throws |
| Format.SubstrFrom | ApplicationUtilities.h:131 | substr(p) throws exactly when p is past the end, else gives the text from p |
| Format.SpliceLength | ApplicationUtilities.h:118-133 | replacing k tokens moves the length by k times the argument length minus the tokens' lengths |
| Format.AdjustedPositionExact | ApplicationUtilities.h:126-128 | with equally long tokens and no wrap-around, the adjusted position is the token's place in the text built so far |
| Format.ReplaceGroupStep | ApplicationUtilities.h:129-131 | one pass that does not throw puts the argument between the text before the position and the text after the token |
| Format.ReplaceGroupThrows | ApplicationUtilities.h:131 | a pass whose tail starts past the end throws std::out_of_range |
| Format.ReplaceGroupAgreesFrom | ApplicationUtilities.h:118-133 | the for loop's invariant: with equal spellings, the text built so far then the untouched rest |
| Format.AsWrittenAgreesWithSplice | ApplicationUtilities.h:118-133 | when the group's tokens are spelled alike, the loop replaces each by the argument, keeps the text before, between and after in order, and changes the length by k(len(arg) - len(token)) |
| Format.ReplaceGroup | ApplicationUtilities.h:116-133 | the for loop ends as the replacement specification says |
| Format.Format | ApplicationUtilities.h:52-134 | a successful format holds no NUL |
| Format.FormatIntended | ApplicationUtilities.h:118-134 | the intended formatter also yields NUL-free text |
| Format.FormatRound | ApplicationUtilities.h:107-134 | a round throws when its loop throws, else formats the rewritten string with the remaining arguments |
| Format.FormatThrows | ApplicationUtilities.h:84-110 | with an argument left, a string holding no token throws std::runtime_error and a token above INT_MAX throws std::out_of_range |
| Format.FormatBaseCase | ApplicationUtilities.cpp:123-125 | once the arguments are used up, a NUL-free string is returned unchanged |
| Format.FormatRoundAsIntended | ApplicationUtilities.h:118-134 | with equal spellings and no wrap-around a round of the code and the intended round continue from the same string |
| Format.FormatOneArgumentAsIntended | ApplicationUtilities.h:118-134 | with one argument and equal spellings the code gives the intended result and does not throw |
| Format.TStringFormat | ApplicationUtilities.h:52-134 | the recursive formatter returns or throws as the format specification says |
| Format.FormatTwoTokensExample | ApplicationUtilities.h:116-134 | one argument applied to "{1}{2}" fills `{1}` and leaves `{2}`, whatever the argument's position |
| Format.MixedSpellingAsWritten | ApplicationUtilities.h:126-131 | "{1}{01}" with "x" gives "x}" as written |
| Format.MixedSpellingIntended | ApplicationUtilities.h:118-133 | the intended formatter gives "xx" for the same input |

## Left out

- Real socket and OS calls (`getaddrinfo`, `socket`, `bind`, `listen`, `accept`, `select`, `recv`, `send`, `setsockopt`, `close`): their results are inputs. `getLocalIP` is replaced by the address list it would return.
- Time: `getEpoch`, `readTimeout()` and `writeTimeout()` are inputs, as is the log time stamp from `currentTime()`.
- Concurrency is left out:
  - `std::async` starts one handler per connection;
  - the `std::future` destructor that waits for it;
  - `coutMutex`;
  - the unsynchronised access to `connections`.

  The registry operations are modelled one at a time, with each running handler as an opaque token.
- Printing, `logToFile`, the logger singleton, `abort()` and `exitApplication` become end states or flags of the outcome.
- `looksLikeIP` (a large regex), the command-line scan of argv, `getopt_long`, signal handling, the Windows branches and `getErrorString` are left out.
- The `flushRx`/`flushTx` no-ops, `isOpen` (the same as `isConnected`) and the getters `portNumber()` / `hostName()` are left out. The model's fields are readable directly.
- The destructor is left out.
- The unused `split` template of CppTcpServer.cpp:67-72 is left out.
- `toStdString` is taken as the text of each argument. Only the decimal spelling of numbers is written out.
- Client.TcpClient.Create: the port field that the source sets to 0 before throwing is not visible, because the model returns no object on failure.
- Client.TcpClient.Read: the recv() size limit of TCP_CLIENT_BUFFER_MAX - 1 bytes and the select() timeout are not modelled. Readiness is an input.
- Client.TcpClient.Write: `sentBytes` is unbounded. The source's `unsigned` counter would wrap at 2^32.
- Server.SendAll: `sentBytes` is unbounded. The source's `unsigned` counter would wrap at 2^32. The `Stalled` end stands for a run of send() results that ran out before the reply was sent, which the source does not have.
- Server.HandleConnection: the `OutOfInput` end stands for a run of recv() results that ran out; the source loops for ever.
- Server.HandleFrom: the same `OutOfInput` end.
- Server.ClassifyMeaning: a `Receive` may carry any number of bytes. The server's recv() asks for at most BUFFER_MAX - 1 = 1023 bytes (CppTcpServer.cpp:284), so a longer message arrives over several receives, each answered on its own; the model does not bound the data of one receive.
- Split.SplitByString: requires a non-empty delimiter. With an empty one the source finds it at index 0 forever and never returns.
- Logging.FormatLine: builds the line with `TStringFormat` as written. Its templates hold distinct tokens `{0}` to `{5}`, each spelled once.

## Findings

| source | as written | input that shows it | evidently intended | confidence | as-written member | corrected member |
|---|---|---|---|---|---|---|
| ApplicationUtilities.h:126-131 | the adjusted position of the index-th token treats every earlier token of the group as if it had this token's length | `TStringFormat("{1}{01}", "x")` gives "x}" | every token with the smallest number is replaced whatever its spelling, giving "xx" | not executed | Format.MixedSpellingAsWritten | Format.MixedSpellingIntended |
| CppTcpServer.cpp:257 | the handler is registered under the listening descriptor `socketDescriptor`, so `closeConnection(acceptResult)` never finds it, and later emplaces are ignored | listening on 3, accepting 4: after the handler closes 4 the registry still holds 3 | register under `acceptResult`, so that closing the connection removes its entry | not executed | Server.AcceptAsWrittenExample | Server.AcceptThenCloseRestores |
