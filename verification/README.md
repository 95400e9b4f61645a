# ZmqProxy, modelled and proved in Dafny

The proxy stands between clients and workers on two ROUTER sockets. Three parts of it are modelled
here, each in the form the source has: classes whose methods update a buffer, a deque or a table in
place, proved against functions on values, and lemmas about those functions.

* **The INI reader** (`src/ini.c`). `IniFile.Ini` holds the NUL-terminated image of a file. Splitting
  overwrites it until only NUL-separated strings are left (`[section`, key, value, ...), and a query
  walks those strings without an index. `IniSplit.Split` is what splitting leaves, `IniTokens` the
  strings and the walk over them, `IniReference` an independent line-by-line reading of the file,
  `IniLine` and `IniPairing` the theorems that connect the two, `IniRendering` the round trip,
  `IniQuery` loading and asking end to end. `IniGrammar` and `IniWritten` spell out the format: a
  grammar of lines in which blanks, brackets, quotes and escapes are literal characters, in which every
  file can be derived, with what each line says.
* **Multipart messages** (`src/zmq_addon.hpp`). `Multipart.MultipartMessage` is the frame deque,
  `Multipart.Socket` a pair of frame streams whose send may fail at any frame, `Frames` the framing,
  `Dump` the text dump, `DumpReading` how much of a message it determines and `DumpContents` what it
  shows, told without the functions that produce it.
* **The proxy loop** (`src/zmq_server.cc`). `Proxy` is the loop as a state machine over what the
  environment offers (poll results, messages, clock readings, random numbers); `ProxyTable`,
  `ProxySurvival`, `ProxyRouting` and `ProxyRoundTrips` prove properties of every run;
  `ProxyServer.Server` is the class with its methods and its loop over two sockets, proved to do what
  the state machine does, whether or not sends fail.

Four properties that one would expect are false of the code, and the exact condition is proved instead:

* The walk over a split file recovers the settings of the file unless an entry has an empty key (a line
  that starts with `=`) or a quoted value has a raw NUL inside: `IniPairing.PairingExact`, with the
  smallest such files in `IniExamples`. For a file without NULs inside values the same condition decides
  whether all queries are answered right: `IniPairing.LookupExact`. With such NULs it is about the list of
  settings only, because a setting that goes wrong may be hidden by an earlier one; all queries are then
  right exactly when those are that ask for a setting that was read or recovered:
  `IniPairing.QueriesExact`.
* A file with CR LF line ends reads like the same file with LF unless a line ends in a header without its
  bracket, whose name then takes in the CR: `IniWritten.ReturnsExact`.
* What was sent is received message by message unless some message is empty: `Frames.SelfDelimiting`,
  with an instance in `Frames.EmptyMessageExample`.
* Take a worker that answers every heartbeat round within `d` of its re-arm, and a loop in which at most
  `g` passes from the clock reading that decides on a round (src/zmq_server.cc:100) to the check that ends
  the next iteration (src/zmq_server.cc:157). The worker is never removed exactly when g + d is at most
  two seconds (or g is zero): `ProxySurvival.SurvivalExact`. The run that shows the bound to be the best
  one keeps the proxy busy with a client, as a poll with nothing to read waits for its whole interval
  (`Proxy.Possible`).

Where the code and its own words disagree the model follows the code: the heartbeat interval is
commented as seconds (src/zmq_server.cc:10) but compared with milliseconds, and the repository's
README says that user data is one frame while the loop forwards any number. `std::vector::erase` at
index 0 steps the iterator to before the beginning (src/zmq_server.cc:163); the model counts that as
index -1, which the loop increment undoes.

`dafny verify dfyconfig.toml` checks the project.

## Model

| member | source | states |
|---|---|---|
| IniFile.Ini.constructor | src/ini.c:199-209 | Loading leaves the split of the file, followed by the terminator, for every byte string |
| IniFile.Ini.SplitData | src/ini.c:102-172 | In-place splitting stays within the buffer, ends, keeps the terminator and computes `Split`, item by item, with no hypothesis on the bytes |
| IniFile.Ini.SplitItem | src/ini.c:106-171 | Every turn of the loop moves forward and keeps the final content of the whole buffer, even where the write head goes back |
| IniFile.Ini.SplitKey | src/ini.c:128-169 | A key line becomes its trimmed key and value padded with NULs, or nothing but NULs when the `=` or the value is missing |
| IniFile.Ini.TrimBack | src/ini.c:56-60 | Trimming, which may start before the buffer, stops at the first character of the text it trims and touches nothing else |
| IniFile.Ini.DiscardLine | src/ini.c:62-67 | Exactly the rest of the line is cleared, across NULs, and its end is returned |
| IniFile.Ini.UnescapeQuotedValue | src/ini.c:70-97 | The write head stays strictly behind the read head; the unescaped value lands on its opening quote and everything after it is untouched |
| IniSplit.SplitLocal | src/ini.c:102-172 | For arbitrary A and B, splitting A, a newline, B gives the split of A, a NUL, the split of B: nothing crosses a newline |
| IniSplit.UnescapeLocal | src/ini.c:75-91 | A quoted value and its escapes end at the newline whatever follows it |
| IniLine.LineTokens | src/ini.c:106-171 | The strings left of one line are those of its items as the reference reads them |
| IniPairing.FileTokens | src/ini.c:102-172 | For every file the strings left in the buffer are exactly the headers, keys and values read line by line, in order |
| IniPairing.PairingExact | src/ini.c:228-257 | The walk recovers exactly the settings of the file if and only if no key is empty and no value holds a NUL, for every byte string |
| IniPairing.LookupExact | src/ini.c:228-257 | When no quoted value holds a NUL, every query equals first-match lookup in the reference reading if and only if no key is empty |
| IniPairing.TextLookupExact | src/ini.c:228-257 | The same for every file without NULs |
| IniPairing.QueriesExact | src/ini.c:228-257 | For every byte string: all queries are answered right if and only if those for the settings read, and for the settings that the strings pair into, are |
| IniPairing.NulAnswerWrong | src/ini.c:75-91 | A query whose answer in the file holds a NUL is always answered wrong |
| IniPairing.WalkFinds | src/ini.c:237-254 | The walk never yields an empty key or a value with a NUL |
| IniExamples.EmptyKeyExample | src/ini.c:128-142 | An empty key shifts the pairing of all strings after it |
| IniExamples.EmbeddedNulExample | src/ini.c:75-91 | A raw NUL inside quotes cuts the value into two strings |
| IniRendering.UnescapeEscape | src/ini.c:70-97 | Unescaping undoes escaping for every NUL-free value |
| IniRendering.RoundTrip | src/ini.c:228-257 | Writable sections rendered with quoted, escaped values, split and queried give the original value of the first match |
| IniWritten.PlainLine | src/ini.c:128-169 | Spaces, tabs and CRs around a key and around a plain value do not matter: the split line holds the two bare strings |
| IniWritten.SilentLine | src/ini.c:124-135 | Behind any spaces, tabs and CRs, comments and lines without a `=` leave no string in the buffer |
| IniWritten.QuotedLine | src/ini.c:149-163 | A quoted value leaves the characters that its pieces denote, whatever stands behind the closing quote; empty quotes leave nothing |
| IniGrammar.UnescapePieces | src/ini.c:70-97 | Plain characters and backslash pairs of any kind read as a literal table says (r, n and t special, all others themselves), up to a quote, CR, LF, the end, or a backslash before CR, LF, NUL or the end |
| IniGrammar.EveryQuotedText | src/ini.c:70-97 | Any text behind an opening quote is made up of such pieces and such an end |
| IniGrammar.LineReads | src/ini.c:106-171 | Every line of the grammar reads as what it says: gaps, comments, headers open or closed with more behind them, missing, quoted and plain values, NULs in any place |
| IniGrammar.EveryLine | src/ini.c:106-171 | Every line can be derived in the grammar |
| IniWritten.FileReads | src/ini.c:102-172 | A file reads as what its lines say, in order |
| IniWritten.FileSplits | src/ini.c:102-172 | Splitting it leaves exactly the strings of what its lines say |
| IniWritten.EveryFile | src/ini.c:102-172 | Every file is made up of lines of the grammar |
| IniWritten.ReturnsExact | src/ini.c:106-142 | For every file: CR LF instead of LF changes no item, setting or string, if and only if no line before the last ends in a header without its bracket |
| IniFile.StrCmpCI | src/ini.c:37-45 | Zero exactly when the lengths agree and at every index the characters are equal or one is in 'A'..'Z' and the other 32 above it |
| IniTokens.SameNameExact | src/ini.c:37-45 | Folding identifies exactly the strings that differ in the case of ASCII letters |
| IniFile.Ini.Next | src/ini.c:48-54 | Moves past exactly one string, to the next one or the end |
| IniFile.Ini.Get | src/ini.c:228-257 | Ends, returns an offset inside the buffer, and finds what first-match lookup over the walked strings finds |
| IniTokens.LookupIgnoresCase | src/ini.c:245-247 | The answer stays the same when ASCII letters of section or key change case |
| IniQuery.LookupAnswers | src/ini.c:228-257 | A lookup answers with the first entry whose key, and whose last section named before it, are those asked for up to case; there is no answer exactly when no entry is asked for |
| IniQuery.Ask | src/ini.c:260-274 | Load and query end to end: the reference answer for well-formed files, the first entry asked for among what the lines of the file say, the written value for rendered files; the same answer whatever the case of the question |
| Frames.SelfDelimiting | src/zmq_addon.hpp:193-222 | Receiving as often as was sent returns the same messages and leaves later frames alone, if and only if no message is empty |
| Frames.EmptyMessageExample | src/zmq_addon.hpp:209-222 | An empty message is lost on the way and the receiver gets the next one instead |
| Frames.ReceiveFramed | src/zmq_addon.hpp:193-206 | One framed message is read back whole, whatever follows |
| Frames.PartialSendMerges | src/zmq_addon.hpp:209-222 | What an interrupted send left on the wire becomes the head of the next message |
| Multipart.MultipartMessage.Recv | src/zmq_addon.hpp:193-206 | Takes exactly the first complete message; without one it fails and keeps the frames received |
| Multipart.MultipartMessage.Send | src/zmq_addon.hpp:209-222 | On success all frames are out, the more-flag on all but the last whatever flags are passed; on failure the frames are the accepted ones, one lost, and those still held |
| Multipart.MultipartMessage.Prepend | src/zmq_addon.hpp:225-229 | The other's frames come first, in order, and the other is drained |
| Multipart.MultipartMessage.Append | src/zmq_addon.hpp:232-236 | The other's frames come last, in order, and the other is drained |
| Multipart.MultipartMessage.Clone | src/zmq_addon.hpp:360-366 | A new object with equal frames |
| Multipart.MultipartMessage.Equal | src/zmq_addon.hpp:405-413 | True exactly when the frame lists are equal |
| Multipart.MultipartMessage.Str | src/zmq_addon.hpp:369-402 | The loops produce the dump of all frames, and it shows them: size in decimal, filled to three digits, then the bytes, their hex pairs or the note that there are too many |
| DumpContents.MessageShown | src/zmq_addon.hpp:369-402 | The dump is the one text that shows the frames of the message one after the other |
| DumpContents.FrameShown | src/zmq_addon.hpp:377-399 | The dump of a frame is the one text with its size (digits, at least three, no further leading zero, worth the size) in brackets and a body that is the frame when all bytes are in 32..127, hex that reads as the frame otherwise, and a fixed note from 1000 bytes on |
| DumpContents.BodyIsFrame | src/zmq_addon.hpp:377-396 | The body is the frame itself if and only if it has fewer than 1000 bytes, all in 32..127 |
| DumpContents.HexReads | src/zmq_addon.hpp:398 | Reading hex digits in pairs, the high one first, gives the frame back |
| DumpReading.DumpExact | src/zmq_addon.hpp:369-402 | Two dumps are equal if and only if the frame counts and sizes agree and all frames below 1000 bytes are equal |
| DumpReading.FrameDumpExact | src/zmq_addon.hpp:377-399 | The same for one frame; text and hex are told apart by length |
| DumpReading.HexInjective | src/zmq_addon.hpp:398 | The hex form of equally long frames determines them |
| ProxyTable.BeatExact | src/zmq_server.cc:121-143 | A heartbeat changes the entry of its own identity only and keeps identities unique |
| ProxyTable.BeatOrder | src/zmq_server.cc:124-142 | Workers keep their order and a new one goes to the end |
| ProxyTable.CheckExact | src/zmq_server.cc:155-165 | A check keeps exactly the entries that are not past their expiry, each once |
| ProxyTable.CheckConcat | src/zmq_server.cc:158-165 | No entry is skipped or kept because of its neighbours |
| ProxyTable.TableExact | src/zmq_server.cc:43-117 | After every run the table holds exactly the workers whose last heartbeat outlived all checks since, with that expiry, without assumptions on the clock |
| ProxyTable.KnownByHeartbeat | src/zmq_server.cc:51-67 | Over every run an identity is in the table only if some iteration read exactly `[id, "HEARTBEAT"]` from the backend |
| ProxyTable.TableStep | src/zmq_server.cc:51-73 | In every run an iteration that reads `[id, "HEARTBEAT"]` renews or adds that identity alone, for three seconds of the clock; one that reads anything else or nothing leaves the table as the check alone does |
| ProxyTable.TableAtLastCheck | src/zmq_server.cc:43-117 | With a clock that does not go back only the last check matters |
| ProxyTable.ExpiryBounds | src/zmq_server.cc:17-23 | In real time: in the table exactly before the fourth whole second after the last heartbeat's second; kept for 3 s, gone after 4 s |
| ProxySurvival.RoundExact | src/zmq_server.cc:100-111 | A round fires exactly from the second whole second after the last re-arm's second on |
| ProxySurvival.Survival | src/zmq_server.cc:43-117 | A worker that answers within d, with at most g from one round reading to the end of the next iteration and g + d at most 2 s, is in the table after every iteration |
| ProxySurvival.SurvivalExact | src/zmq_server.cc:43-117 | That bound is exact: beyond it some run that the poll and the sockets can produce removes a worker that keeps up |
| ProxyRouting.AnswersConserved | src/zmq_server.cc:51-73 | Over every run the answers to the front are the backend messages with at least two payload frames, identity stripped, in order |
| ProxyRouting.RequestsConserved | src/zmq_server.cc:74-97 | Over every run each client message gives exactly one output, in order: itself for a worker then known, or the error to its own sender when there is none |
| ProxyRouting.StaleReadiness | src/zmq_server.cc:45-89 | The no-worker reply happens exactly when the table is empty and the last two-item poll found the front readable; every poll since saw an empty table, and that iteration's check emptied it |
| ProxyRouting.StaleReads | src/zmq_server.cc:45-76 | While the front bit is stale every iteration reads one front message |
| ProxyRouting.ClearedNeverReplies | src/zmq_server.cc:45-89 | With the bits cleared before each poll no run reaches the no-worker reply |
| ProxyRouting.WireStep | src/zmq_server.cc:51-113 | What an iteration of any run puts on the two sockets, byte for byte: stripped answers, the reply `[client, "", "not have woker!"]`, requests behind a worker's identity, and `[w, "HEARTBEAT"]` for each worker when the round is due |
| ProxyRouting.PingsSent | src/zmq_server.cc:103-110 | A round goes out as exactly one `[w, "HEARTBEAT"]` per worker, in table order |
| ProxyRouting.WireReadsBack | src/zmq_server.cc:71-94 | Both receivers read off exactly the messages that a run emits |
| ProxyRoundTrips.EnvelopeRoundTrip | src/zmq_server.cc:51-97 | In every run a forwarded request is the client message just read, leaves the back socket next in line with the identity of a known worker, and an answer under its client frame leaves the front socket next in line, worker's frames unchanged, if and only if it has a frame |
| ProxyRoundTrips.RoundPings | src/zmq_server.cc:100-113 | In every run an iteration that fires pings each known worker exactly once, in table order, and no other; one that does not fire pings nobody |
| ProxyRoundTrips.HeartbeatRoundTrip | src/zmq_server.cc:51-67 | In every run a ping goes out to a worker that has sent a heartbeat; its echo is relayed to nobody, becomes the worker's last heartbeat and keeps it in the table unless already expired |
| ProxyServer.Server.MakeNewWorker | src/zmq_server.cc:121-143 | The search loop updates the matching entry or appends one |
| ProxyServer.Server.GetWorker | src/zmq_server.cc:145-154 | Fails exactly on an empty table, otherwise picks an entry of it |
| ProxyServer.Server.CheckWorker | src/zmq_server.cc:155-167 | The erase-and-step-back loop ends and is the order-preserving filter, also for neighbouring removals and at index 0 |
| ProxyServer.Server.ServeBackend | src/zmq_server.cc:51-73 | One backend message is consumed and recorded if it is `[id, "HEARTBEAT"]`, relayed or dropped otherwise; a failed send leaves a prefix of its frames |
| ProxyServer.Server.ServeFrontend | src/zmq_server.cc:74-97 | One front message is consumed and forwarded or refused; a failed send leaves a prefix of its frames |
| ProxyServer.Server.SendMessage | src/zmq_server.cc:71 | The socket takes a prefix of the message's frames, all of them exactly when the send succeeds |
| ProxyServer.Server.SendHeartbeats | src/zmq_server.cc:103-110 | One `[w, "HEARTBEAT"]` per worker goes out, in table order, each whole or cut short where its send failed |
| ProxyServer.Server.Iterate | src/zmq_server.cc:43-117 | One turn of the loop on the sockets takes the step of the state machine; each socket takes a prefix of the frames of each message emitted, in order, and all of them when sends succeed |
| ProxyServer.Server.Start | src/zmq_server.cc:27-119 | The loop over any run ends in the state of that run, consumes exactly the messages it reads and emits its trace, each message whole or cut short where its send failed |

## Left out

- ProxyServer.Server.Start: runs are finite prefixes of the endless loop; the exits on a poll error and on the running flag are not modelled, since the wrapper throws on the one and nothing clears the other. A turn that waits for good in a receive, which the stale front bit can bring about, has no run in the model.
- IniQuery.Ask: stands for a query with no scan format; `sscanf` belongs to the C library.
- IniRendering.RoundTrip: keys and names must be writable (no `=`, `]`, newline or NUL, no blank at the ends of a key, no `[` or `;` in front), as the format has no escapes for them.
- Multipart.MultipartMessage.Prepend: the argument is another object; with itself as argument the loop of the source never ends.
- Multipart.MultipartMessage.Append: the same.
- The work of `split_data` on one key line is spread over six methods (`SplitKey`, `SplitPair`, `ClearKey`, `SkipToValue`, `SplitValue`, `SplitQuotedValue`) instead of one switch branch; missing values and empty quotes share the discard that both lead to. Reading one escape is a method of its own, `ReadChar`.
- Opening, sizing and reading the file, and freeing it.
- Case folding outside ASCII and the sign of characters in `tolower`.
- Real sockets: binding, timeouts, what a ROUTER does with an unknown identity. The environment decides which sockets are readable and which message is read next; a message from a ROUTER socket has at least the identity frame.
- Overflow of the 64-bit clock and of sizes.
- Typed push and pop, iterators and the self test of the multipart class; the sockets carry bytes and the proxy uses none of these.
- Logging, signal handling and `main`.
