# A verified model of Kruda

Kruda is a Go web framework with its own HTTP/1.1 transport on epoll, called Wing. This project models the parts of it
that hold the hardest state and parsing logic, in Dafny 4.11, and proves what they are for. It is checked by
`dafny verify dfyconfig.toml`, in a few minutes.

## What is modelled

**Reading requests** (`wing_http.go`). `HttpParser` is the request parser and `HttpClassifier` the second, independent
reader that looks at what the parser has rejected. `HttpPipelining` shows that a request does not depend on what follows
it; `HttpVerdicts`, that the two readers agree on what more input can change; `HttpFraming` says, without following the
parser's pass over the lines, which bytes start with a request, where its body ends and whether the connection persists,
and `HttpReasons` the same for the classifier and each of its verdicts. `HttpLexis` spells out the words, the classes of
bytes and the case of letters that both look for, and `HttpRoundTrip` proves that a request written from its parts is
read back as these parts.

**One connection of the event loop** (`wing_transport.go`, `wing_engine_linux.go`). `WingConnection` is a class with the
source's fields: a read buffer, a send queue with its offset, body accumulation, the pending handler and the flags.
`WingSocket` is the other side: everything the peer will ever send is fixed but unknown; it arrives at any time, reads
and writes are cut anywhere, may find nothing or fail, and readiness is edge-triggered. Handlers run inline, in a pool
or in a goroutine of their own. What a handler may answer is a relation between request and response that the connection
is given and that nothing is assumed about. Every event and completion keeps one invariant, `Quiet`; `WingResults` says
what that means over whole runs: every byte is accounted for, requests are dispatched in stream order however the stream
is cut, the k-th answer on the wire is a response to the k-th request, unsent output is scheduled, no readiness is lost,
and no connection is closed without a reason. `WingErrors` reads the error responses as a client does. `WingRuns` has
concrete runs, on the requests of `HttpSamples`, in which the source does what one would not expect. `EpollBatch` is the
translation of one batch of kernel events, in which the listener's one event may become many.

**Protocols between goroutines.** Four transition systems, each with an invariant that every step keeps and a theorem
about every run: `FdOwnership` (who closes which descriptor, while the kernel and the rest of the process use numbers
again), `Admission` (the shared counter taken by compare and swap, and counts for each address), `BodyBudget` (add
first, check afterwards, and a refund of its own on every exit), `Hijack` (any number of callers of Close against the
server's shutdown).

**Routing** (`router.go`, `ctx_lifecycle.go`). `RouterTree` is the radix tree: heap nodes split and extended in place,
searched with captures that are set and taken back. Every node carries as a ghost the trie that it stands for
(`RouterTrie`, `RouterKids`), and each operation is proved against the operation of the same name on tries.
`RouterRoutes` defines what a plain list of routes should give, `RouterLookup` proves that the tree gives exactly this,
and `RouterMatches` what it means: a route is found exactly if one fits, and then the best. `RouterShapes` says which
lists of routes can be registered. `RouterCompile` and `RouterStatic` show that sorting, merging and the static map
change nothing; `Router` puts it together.

**WebSocket** (`contrib/ws`). `WsFrame` and `WsCodec`: reading and writing frames are inverse to each other, in both
directions; masking is exclusive or, bit by bit, and `WsExamples` has the examples of RFC 6455. `WsMessages`, `WsPing`
and `WsConn`: messages are put together from fragments with control frames in between, pings are answered within a
limit, and after a close frame nothing reaches the wire.

**Token buckets, dependency container, generated binders.** `TokenBuckets` bounds what two buckets let through, over
real numbers, and says what they do let through. `Container` is the resolution of types whose factories ask for each
other, in any graph, and the warming up of lazy types; `ContainerHooks`, the lifecycle hooks in the order that results.
`Binder` is the generic binder, `BinderQuery` the two ways to read a query, `BinderGen` the generator, the meaning of
what it writes, and the proof that both binders give the same; `BinderMeaning` says what that is, field by field.

## How it is modelled

Code that works in place is a class or an array method proved against a function, and the properties are proved about
the function; code made of expressions is functions. Bytes are numbers below 256. A panic at registration is a refusal.
Clocks, scheduling, the kernel, handlers and factories are open choices: what is proved holds for every one of them.
Numbers are unbounded except where the source's own code cuts them off (`Btoi`, whose accumulator is an integer of 64
bits).

Assumptions visible as `requires` clauses:

- Names of parameters are not empty and differ within a route, and a route has at most eight captures. Request paths
  other than the root have no empty segments.
- `BinderGen.GeneratedIsGeneric` takes a transport whose query lookup is `QueryParam` (or that gives no raw query at
  all), and `Binder.SameDefault` a platform on which a number that fits 32 bits is read alike at the native width.

Assumptions in how the model reads the source:

- Readiness claims are about Linux: `EPOLL_CTL_MOD` reports waiting input again.
- Routes are ASCII text split into segments. The index of a node holds first bytes; the source makes a string of each,
  which is one byte only below 128.
- A default that the generator writes into a program as a literal is compiled to the value that it was written for. That
  this value is the generic binder's is `Binder.SameDefault`.

## What the proofs show about the source

Each point names the lemma or the run that shows it.

- Need-body may be the answer for bytes that no continuation turns into a request, because the classifier does not apply
  all of the parser's rules. `HttpVerdicts.NeedBodyServedExactly` gives the exact condition, and
  `HttpVerdicts.SignedLengthNeverServed` an input: `Content-Length: +5`.
- `beginBodyAccum` looks for the end of the header in the raw buffer (`wing_transport.go:1191`), while parser and
  classifier skip leading empty lines first. Behind two or more of them the snapshot is too short: the completed bytes
  are never accepted (`WingStream.AwaitedBehindEmptyLines`), although the stream may start with a request
  (`WingRuns.EmptyLinesLoseRequest`). Behind at most one, they are accepted exactly if it does
  (`WingStream.AwaitedRequestAccepted`). Nothing wrong is ever dispatched.
- `handleRecv` does not look at `keepAlive`. While the response to a last request is blocked, a request behind it is
  dispatched when it arrives (`WingRuns.BehindLast`). No event but a read event does that (`WingResults.Step`), and a
  read event does it for a complete request only (`WingConnection.Conn.OnReadable`). Order and completeness of the
  responses hold all the same.
- `handleRecv` indexes `readBuf[readN]` without a check (`wing_transport.go:791`). It panics exactly if the buffer is
  full and no handler is running (`WingConnection.Conn.OnReadable`), which happens while an error response is blocked
  (`WingRuns.FullBuffer`), and not on an idle connection unless a collected request has been answered without bytes
  (`WingResults.IdleIsPersistent`).
- The flag that remembers a read event during a handler (`readSuppressed`) is not cleared when a body is drained, so a
  later completion may read on an empty socket. `handleRecv` closes the connection then, although nothing is wrong with
  it (`WingRuns.Startled`). `WingConnection.Conn.OnDone` says exactly when; `WingResults.StartledByBoth` proves that it
  takes a handler in another goroutine and a body that is not there at once, both on this connection.
- An empty response may leave nothing to send, and then `tryParse` ends without anything that reads on
  (`wing_transport.go:1146`). If also the read before filled the buffer (`WingResults.LeftUnread`), what waits in the
  socket stays there until more arrives; otherwise no readiness is lost (`WingResults.NoLostEdge`). Every connection
  with nothing under way comes to that, whatever came before, when requests that fill its buffer exactly are answered
  without bytes (`WingRuns.Stalls`). If the last of them was to end the connection, it stays open all the same.
- A completion that finds nothing to send and nothing buffered does not read on (`wing_transport.go:1390-1398`),
  although the read before may have filled the buffer: what waits behind it stays there (`WingRuns.Rests`). A write
  event uses up a report of input that comes with it (`wing_engine_linux.go:160-165`), and reads on only where nothing
  else is under way. Over all connections nothing else is forgotten (`WingResults.NothingElseIsForgotten`).
- `beginBodyAccum` waits for a body without sending what is queued in front of it (`wing_transport.go:1182-1236`). A
  client that sends the body only after that response waits for ever (`WingRuns.HeldBehindBody`). Everywhere else unsent
  output is registered for sending (`WingResults.UnsentIsScheduled`).
- Behind an empty response to a last request, or to one whose body was collected, nothing more is parsed either until
  something is read: a whole request behind it stays in the buffer (`WingRuns.LeavesBehindLast`,
  `WingRuns.LeavesBehindBody`). These are the only requests that are not dispatched when nothing is under way
  (`WingResults.EverythingReceivedIsDispatched`).
- The accept bucket forgets the time that its clock goes back, and refills for it again. Its bound holds for the time
  gone forward (`TokenBuckets.AcceptBound`). It holds for the span of the readings, whatever the bucket and the calls,
  if and only if that time is within the span (`TokenBuckets.AcceptSpanExactly`), as it is while the clock does not go
  back; `TokenBuckets.AcceptClockMustNotGoBack` exceeds it with one token a second. The rate limiter's bucket needs no
  such assumption (`TokenBuckets.RequestBound`).
- The limit on pings a second is one on windows: in less than a second up to twice the limit less one are answered, and
  no more (`WsPing.InLessThanASecond`, `WsPing.ReachedForEveryLimit`).
- `Warmup` resolves an entry without putting it on the stack that detects cycles (`container.go:507`). A factory that
  leads back to the entry asks for a mutex that its own goroutine holds, and never returns, where `Use` would report the
  cycle (`Container.RingHangs`). `Container.Registry.Warmup` says exactly when.
- The first route through a parameter name decides its constraint (`RouterTree.Node.InsertParam`).

## Model

| member | source | states |
|---|---|---|
| `Bytes.TrimHTTPSpaces` | wing_http.go:834-846 | trims exactly the spaces and tabs at both ends: what is left is a slice with nothing else around it, and with none of them at its ends |
| `Bytes.TrimExactly` | wing_http.go:834-846 | a text is the trimmed one exactly if it is the part between blanks that neither begins nor ends with one |
| `Bytes.BlankPrefixExactly` | wing_http.go:48-60 | the empty lines that are skipped are all CR LF pairs from the front, and no pair follows them |
| `Bytes.DecimalPlaces` | wing_http.go:815-832 | every digit of a number counts by its place, the first one most |
| `HttpParser.ParseHTTPRequest` | wing_http.go:48-479 | the loop over the buffer computes Parse, whose accepted inputs, length, body, framing and persistence HttpFraming.ParseExactly characterises without it |
| `HttpParser.ReadFields` | wing_http.go:155-393 | the loop over the header lines computes the fold of the lines, including every reason to reject one |
| `HttpParser.ReadField` | wing_http.go:156-392 | one header line: rejected, or stored under the field that its name means, whatever the case of its letters |
| `HttpParser.FinishRequest` | wing_http.go:394-479 | the checks across fields: Host, transfer coding, body limits, and whether the connection persists |
| `HttpParser.Btoi` | wing_http.go:815-832 | the decimal value of an all-digit text, as long as it is within the maximum; larger ones are cut off above it |
| `HttpParser.ScanConnectionTokens` | wing_http.go:795-813 | close and keep-alive are found exactly if they are elements of the comma-separated list |
| `HttpClassifier.ClassifyIncomplete` | wing_http.go:609-746 | the second reader of the same bytes computes Classify; the lemmas of HttpVerdicts say how it agrees with the parser |
| `HttpClassifier.ReadLines` | wing_http.go:657-729 | its loop over the lines stops at the first line that decides, with the reason |
| `HttpReasons.VerdictExactly` | wing_http.go:609-746 | every verdict on a complete head has its exact condition over the list of lines, without the reader's pass: the first fault decides and names the status, else a missing Host, else chunked, too large, need-body with the announced length, or nothing more; and a 100 response is asked for exactly there and exactly if some field expects it |
| `HttpReasons.LinesExactly` | wing_http.go:657-729 | reading on stops at the first line with a fault, and otherwise has seen exactly what the lines say |
| `HttpReasons.AtoiExactly` | wing_http.go:705-714 | which texts are read as a length: an optional sign, digits, and a value within 63 bits |
| `HttpPipelining.ParseStable` | wing_http.go:48-479 | a parsed request depends only on the bytes it consumed: those bytes followed by anything parse to the same request and length |
| `HttpPipelining.ParseExtends` | wing_http.go:48-479 | appending bytes to data that parses changes nothing |
| `HttpPipelining.ParseAllExtends` | wing_http.go:48-479 | parsing a stream from the start equals parsing a prefix of it and then going on where that stopped |
| `HttpPipelining.ParseAllMonotone` | wing_http.go:48-479 | the requests of a prefix of the stream are a prefix of the requests of the stream |
| `HttpPipelining.ParsePipelined` | wing_http.go:48-479 | concatenated requests are parsed to exactly those requests, with nothing left over |
| `HttpVerdicts.HeadAgrees` | wing_http.go:609-746 | on a head that the parser accepts, the classifier sees the same Content-Length, and asks for a body exactly if it is positive |
| `HttpVerdicts.HeadExact` | wing_http.go:609-746 | the parser accepts a head with a body exactly if the classifier asks for it, the head passes the parser's stricter rules, and the length is within its maximum |
| `HttpVerdicts.NeedHeaderMoreExactly` | wing_http.go:609-623 | more header is asked for exactly if the bytes hold no empty line after the leading ones |
| `HttpVerdicts.OnlyBodyMissing` | wing_http.go:609-746 | if some continuation is accepted though the header is complete, then the verdict was need-body with exactly the length of that request's body |
| `HttpVerdicts.VerdictsAreFinal` | wing_http.go:609-746 | if the parser rejects and the verdict is neither need-header-more nor need-body, no continuation is ever accepted |
| `HttpVerdicts.NeedBodyServedExactly` | wing_http.go:609-746 | need-body can be followed by an accepted request if and only if the head is strict and the length within the parser's maximum |
| `HttpVerdicts.SignedLengthNeverServed` | wing_http.go:705-714 | a concrete head with Content-Length +5: the classifier asks for five bytes, and no continuation is ever accepted |
| `HttpFraming.FoldAccepts` | wing_http.go:155-393 | the header block is accepted exactly if every line is well formed, lengths are digits and agree, and counts are within the limit |
| `HttpFraming.HeadExactly` | wing_http.go:48-479 | a head is accepted if and only if it is well framed, and then method, path, query, length, persistence and every remembered field are those its lines declare (sections 5, 6.3 and 9.3 of RFC 9112); which lines are which field, HttpLexis says |
| `HttpFraming.RequestLineExactly` | wing_http.go:75-93 | a request line splits into three parts exactly if they are joined by single spaces and the first two are not empty and hold none |
| `HttpFraming.ParseExactly` | wing_http.go:48-479 | which bytes start with a request, where it ends, what its body is, and whether the connection goes on after it |
| `HttpRoundTrip.ReadsBack` | wing_http.go:48-479 | round trip: what a client writes, in parts of any content, is read back as exactly those parts, with the body its one length declares, and consumed to its end; it is refused if and only if a part is not acceptable or the body is not there; all said about the parts as written |
| `HttpRoundTrip.HeadReadsBack` | wing_http.go:48-479 | the same for the head alone: any list of fields, names in any case, values with any blanks around them |
| `HttpLexis.FoldIsSameLetters` | wing_http.go:773-790 | comparing without case: equal lengths, and at each place equal bytes or the two cases of one letter, 32 apart |
| `HttpLexis.KnownHeaderExactly` | wing_http.go:549-588 | each kind of field is recognised by its one name, in any case of letters, and by nothing else; names given as text |
| `HttpLexis.LowerExactly` | wing_http.go:374-381 | the lower-case form of a name is the one text of the same letters without a capital |
| `HttpLexis.ListTokenExactly` | wing_http.go:795-813 | a token is found exactly if some element of the list, wherever it is between commas, says it in any case and with blanks around it |
| `HttpLexis.BytesExactly` | wing_http.go:850-861 | digits, blanks and the bytes of a token, as the characters that they are (section 5.6 of RFC 9110) |
| `HttpLexis.HostBytesExactly` | wing_http.go:928-946 | a Host is acceptable exactly if it holds letters, digits and the listed marks only |
| `HttpLexis.VersionExactly` | wing_http.go:908-926 | a version is HTTP/ with a digit, a point and a digit; Host is asked for from 1.1 on, and keep-alive counts at 1.0 |
| `HttpLexis.FieldLineExactly` | wing_http.go:194-215 | the name of a field line is what stands before the first colon, the value the rest without blanks at its ends |
| `HttpLexis.CaseOfNamesIsIgnored` | wing_http.go:155-393 | two heads that differ only in the case of field names give the same request and length, or are both refused |
| `WingSocket.Socket.Read` | wing_transport.go:788-795 | a read gives some part of what has arrived, in order; fewer bytes than asked for mean that nothing more is there |
| `WingSocket.Socket.Write` | wing_transport.go:1404-1414 | a write takes a non-empty prefix, or nothing; bytes may arrive meanwhile |
| `WingSocket.Socket.ReadNow` | wing_transport.go:788-795 | what a read finds is what has arrived by then; it finds nothing exactly if nothing has and the peer is still there |
| `WingSocket.Socket.SubmitSend` | wing_engine_linux.go:87-90 | registering for write readiness reports waiting input again |
| `WingSocket.Socket.SubmitRecv` | wing_engine_linux.go:81-85 | so does registering for read readiness only |
| `WingConnection.Conn.constructor` | wing_transport.go:732-751 | a new connection has consumed, answered and buffered nothing |
| `WingConnection.Conn.Open` | wing_transport.go:755-768 | the connection is registered, and the speculative read after that leaves it in a state between events: nothing lost, nothing unanswered, no readiness lost |
| `WingConnection.Conn.OnReadable` | wing_transport.go:770-827 | a read event panics exactly if no handler is running and the buffer is full, and otherwise keeps the invariant; under a handler it is only remembered; a complete request in the buffer is dispatched; while a last output is blocked nothing else is |
| `WingConnection.Conn.HandleRecv` | wing_transport.go:770-827 | the same without the event, as a completion calls it; it closes the connection exactly where its read finds nothing |
| `WingConnection.Conn.OnWritable` | wing_transport.go:1861-1880 | a write event keeps the invariant; with a last output queued it dispatches and adds nothing, and the connection is closed with its last byte |
| `WingConnection.Conn.OnDone` | wing_transport.go:1357-1398 | a completion keeps the invariant: the unsent part of the response is queued behind what is queued and registered for sending, buffered requests go on, a deferred close happens now; and it reads on an empty socket exactly where a suppressed event has already been served, and then closes |
| `WingConnection.Conn.FinishJob` | wing_transport.go:394-439 | a handler's goroutine answers the request that was dispatched last with a response to it, puts it on the wire only if it may, with one write if there is anything to write, and reports exactly the part it has not written |
| `WingConnection.Conn.Expire` | wing_transport.go:645-665 | a deadline that has passed closes a connection without a pending handler, and consumed bytes stay whole requests |
| `WingConnection.Conn.TryParse` | wing_transport.go:829-1153 | every complete request in the buffer is dispatched, in order and once, and what can be none is answered; at the end nothing that was received is undispatched unless a handler, unsent output or an unfinished body will come back to it |
| `WingConnection.Conn.Refill` | wing_transport.go:837-868 | an unfinished header is read on unless the socket is known to be empty, and never before queued responses are sent |
| `WingConnection.Conn.Reject` | wing_transport.go:869-912 | bytes that can never be a request are answered with the one error response for their verdict, as the last output, and a body over the budget with 503; nothing is dispatched |
| `WingConnection.Conn.WriteAndClose` | wing_transport.go:1156-1164 | exactly one error response is queued behind everything owed, and the connection is not kept alive |
| `WingConnection.Conn.StatusClose` | wing_http.go:1319-1331 | an error response is never empty, so it always gets sent |
| `WingErrors.ErrorSaysItself` | wing_http.go:1319-1331 | read as a message, an error response is its status line and two fields and ends with them; they say that it has no body and that the connection ends |
| `WingConnection.Conn.TakeRequest` | wing_transport.go:944-950 | the bytes of the request move from the buffer to the consumed ones, and the rest of the stream is as it was |
| `WingConnection.Conn.DispatchInline` | wing_transport.go:952-996 | for a route that asks for it, one more request is dispatched, the handler's response to it is queued last, and the connection persists as that request has it, and it is recorded if the queue is empty then |
| `WingConnection.Conn.DispatchAsync` | wing_transport.go:998-1083 | one more request is dispatched to another goroutine, exactly one handler is pending, and it may write itself only if nothing is queued |
| `WingConnection.Conn.CompleteHere` | wing_transport.go:1011-1028 | with a full pool the response goes through the completion channel in its turn |
| `WingConnection.Conn.DirectSend` | wing_transport.go:1401-1478 | queued output is written in order; afterwards the connection is closed, waits to send, or has been read and parsed on, and never closed under a pending handler |
| `WingConnection.Conn.WriteOut` | wing_transport.go:1402-1417 | partial writes: what has been written and what is queued are always together the outputs |
| `WingConnection.Conn.FailSend` | wing_transport.go:1480-1493 | after a failed write the connection closes at once or, with a handler pending, not before its completion |
| `WingConnection.Conn.CloseConn` | wing_transport.go:1932-1936 | closing requires that no handler is pending, and refunds what a body has reserved |
| `WingConnection.Conn.AccumBody` | wing_transport.go:1171-1178 | bytes move from the buffer to the body, at most as many as it needs, and none is lost or reordered |
| `WingConnection.Conn.BeginBodyAccum` | wing_transport.go:1182-1236 | the header block is set aside and the body begun with its need reserved, exactly if it fits the budget; otherwise nothing has changed and nothing is reserved; and the next output is a 100 response exactly if the client asks for one and the body is not all there |
| `WingConnection.Conn.SendContinue` | wing_transport.go:1216-1226 | the interim response is put out behind everything owed, and what is queued is written at once, or registered for sending |
| `WingConnection.Conn.ChargeBody` | wing_transport.go:1182-1190 | the need is reserved exactly if no budget is set or all that is reserved, and this, fits it; otherwise it is rolled back |
| `WingConnection.Conn.SetHeaderAside` | wing_transport.go:1199-1222 | header snapshot, body and buffer hold exactly the bytes the buffer held |
| `WingConnection.Conn.DrainBodyAccum` | wing_transport.go:1240-1273 | the body is read until it is complete and dispatched, with what has come behind it picked up, or the socket is empty; the end of the input closes the connection |
| `WingConnection.Conn.FinishBodyAccum` | wing_transport.go:1297-1322 | the reservation is refunded once, and header block and body together are dispatched only as the next request of the stream; else the connection closes |
| `WingConnection.Conn.DispatchAccumulated` | wing_transport.go:1327-1355 | an accumulated request is answered on the event loop in its turn |
| `WingConnection.Conn.ServeAccumulated` | wing_transport.go:1332-1348 | a route that only upgrades refuses a request with a body and does not keep the connection |
| `WingStream.AwaitedRequest` | wing_transport.go:1191-1309 | nothing shorter than header block and body is ever a request, and if both are one it is exactly them; also when empty lines came first |
| `WingStream.AwaitedBehindEmptyLines` | wing_transport.go:1191-1199 | behind two or more empty lines the block set aside is too short, and the completed bytes are never accepted |
| `WingStream.AwaitedRequestAccepted` | wing_transport.go:1191-1309 | behind at most one empty line the completed bytes are accepted if and only if the stream starts with a request |
| `WingOutputs.AnswersAreOrdered` | wing_transport.go:829-1153 | in an ordered output list the j-th answer is counted for request j; that its bytes answer that request is WingResults.ResponsesInRequestOrder |
| `WingOutputs.Append` | wing_transport.go:1156-1164 | appending the next output keeps the order and appends its bytes |
| `WingOutputs.RenderIsJoined` | wing_transport.go:1401-1478 | where nothing but answers is put out, the bytes put out are the answers joined |
| `WingResults.EveryByteIsAccountedFor` | wing_transport.go:1171-1322 | received bytes are the consumed ones, then header snapshot and body, then the buffer: nothing lost, repeated or reordered |
| `WingResults.DispatchedInStreamOrder` | wing_transport.go:829-1322 | however the stream is cut into reads and whenever the connection ends, what was dispatched is a prefix of the requests of the whole stream |
| `WingResults.EverythingReceivedIsDispatched` | wing_transport.go:829-1322 | between events, with no handler and no unsent output, what was dispatched is exactly the requests in the bytes received, if and only if parsing has not been left off in front of one: behind an empty response to a last request or to a collected one, and only until the next read |
| `WingResults.NothingHopelessWaits` | wing_transport.go:869-912 | between events, with nothing under way, the buffer holds the beginning of a header at most: bytes that can never be a request have been answered, unless parsing has been left off behind an empty response |
| `WingResults.SegmentationIndependence` | wing_transport.go:829-1322 | two connections that have received the same bytes in different portions, and have not left off in front of a request, have dispatched the same requests |
| `WingResults.ResponsesInRequestOrder` | wing_transport.go:394-439 | the wire has a prefix of the outputs, and the k-th answer among them is a response to the k-th request dispatched, or the refusal of its body (section 9.3.2 of RFC 9112); at most one request is unanswered, the handler works on exactly that one, and nothing is queued while it may write directly |
| `WingResults.WireIsAnswers` | wing_transport.go:394-439 | without errors and interim responses the wire is a prefix of the responses, joined in request order |
| `WingResults.AllAnswersSent` | wing_transport.go:1401-1478 | with nothing queued and nothing pending every response is on the wire in full |
| `WingResults.NoLostEdge` | wing_transport.go:770-1152 | for bodiless requests handled inline: bytes waiting in the socket imply a pending read report, or unsent output whose write report leads to a read, except where the last answer left nothing to send after a read that filled the buffer; there exactly what arrives later is reported |
| `WingResults.UnsentIsScheduled` | wing_transport.go:1395-1397 | between events every connection with unsent output is registered for sending, whatever its requests and handlers, unless it collects a body behind it |
| `WingResults.NothingElseIsForgotten` | wing_transport.go:770-1152 | no readiness is lost on any connection, whatever its requests and handlers: waiting bytes without a report are read after the registered write event or the completion to come; else the last answer was empty or the last completion found nothing to do, and the read before filled the buffer or a write event used up the report; and while a body is collected, only a write event may have |
| `WingResults.IdleIsPersistent` | wing_transport.go:1447-1455 | an idle connection has room to read, unless a collected request has been answered emptily and nothing has been read since; and unless its last response was empty, it was told to persist by its last request |
| `WingResults.StartledByBoth` | wing_transport.go:770-794 | a reported read finds nothing only if a request went to another goroutine and one had a body that was not there at once |
| `WingResults.AnsweredBeforeClosing` | wing_transport.go:1452-1455 | without a network failure, a timeout, bytes that rule a request out, or handlers elsewhere together with such bodies, a connection closes only after the last request or an error has asked for it, and then every answer is on the wire in full |
| `WingResults.GoodPeerIsNotDropped` | wing_transport.go:829-1322 | then a peer that sends nothing but requests that all persist is never dropped without an error response, and that one stands where a request has a body, if there is a budget for bodies, or where a head is longer than the buffer |
| `WingResults.NextInGoodStream` | wing_http.go:48-479 | behind some requests of a stream of requests the next one is what is parsed |
| `WingResults.RefusedForSize` | wing_transport.go:869-912 | what may be refused at the front of a stream of requests has a body and is under a budget, or has a head longer than the buffer |
| `WingResults.GoodStreamServes` | wing_http.go:48-479 | in a stream of requests, no bytes from the end of one on rule out a request |
| `WingStream.RejectedForGood` | wing_transport.go:869-911 | bytes that get an error response or a close for their verdict can never become a request |
| `WingStream.AwaitedInVain` | wing_transport.go:1306-1310 | where an accumulated body does not complete a request, the bytes received rule a request out, or two empty lines came first |
| `WingConnection.Conn.MayRefuse` | wing_transport.go:869-911 | what is refused starts where the last request ended, and is an unfinished body under a budget, an unfinished header that fills the buffer, or can never be a request |
| `WingConnection.Conn.Shut` | wing_transport.go:1895-1936 | a connection closes only for a reason: the network, a deadline, a last request or error with everything sent, or a stream that can not go on with a request |
| `WingResults.Run` | wing_transport.go:667-685 | any sequence of events, arrivals and completions keeps all of this and the registration, up to a panic of a read event on a full buffer |
| `WingResults.Step` | wing_transport.go:667-685 | while a last output is queued, every step but a read event leaves what has been dispatched and put out as it was, and closes or waits on; a write event comes only where one is registered |
| `WingRuns.BehindLast` | wing_transport.go:770-827 | a run: a request behind one that asked to close is dispatched while the response is blocked |
| `WingRuns.FullBuffer` | wing_transport.go:788-791 | a run: an error response blocked behind a full buffer, and the read event that panics |
| `WingRuns.Startled` | wing_transport.go:770-794 | a run without any failure: after three good answers a persistent connection closes because a remembered event had been served |
| `WingRuns.Stalls` | wing_transport.go:1138-1153 | for any connection with nothing under way, any requests that fill its buffer exactly, and any handlers that may answer each of them without bytes: a run to a state where whatever waits behind them has no report pending and nothing to send |
| `WingRuns.StallsAtOnce` | wing_transport.go:1138-1153 | the same on a new connection, with one request that persists |
| `WingRuns.Rests` | wing_transport.go:1357-1398 | a run: a request handled elsewhere fills the buffer and is answered there in full; its completion leaves what waits behind it unread, with no report pending |
| `WingRuns.HeldBehindBody` | wing_transport.go:1182-1236 | a run: a response is queued in front of a request whose body has not come, and nothing is registered to send it while the connection waits for the body |
| `WingRuns.LeavesBehindLast` | wing_transport.go:1142-1152 | for any connection with nothing under way and any handler that may answer a last request without bytes: a run to a state in which what has come behind that request, whole requests or not, is in the buffer and not dispatched |
| `WingRuns.LeavesBehindBody` | wing_transport.go:1327-1355 | a run: a request that persists has a body, which is collected, and is answered without bytes; the request behind it is in the buffer and not dispatched |
| `WingRuns.EmptyLinesLoseRequest` | wing_transport.go:1191-1199 | a stream that starts with a request behind two empty lines, whose collected bytes are none |
| `HttpSamples.LastRequestParses` | wing_http.go:48-479 | a request of HTTP/1.0 without fields is accepted whole, and does not persist |
| `HttpSamples.LostBehindEmptyLines` | wing_http.go:609-746 | behind two empty lines a head with a body of one byte is classified as need-body |
| `EpollBatch.Translate` | wing_engine_linux.go:125-177 | every kernel event of a batch that is not the listener's and that reports anything is delivered as what it reports, in order, however many connections the listener accepts; every answer of accept4 is heard of, in order; and a listener is always asked |
| `EpollBatch.DrainAccept` | wing_engine_linux.go:179-210 | only the slots given are filled, with exactly what accept4 has answered; it is asked until the slots are full or an answer is not a connection |
| `EpollBatch.DeliversExactly` | wing_engine_linux.go:125-177 | which reports a kernel event becomes, in which order, from its readable, writable and hang-up bits, told from the bits alone |
| `FdOwnership.ClosedExactlyOnce` | wing_transport.go:1357-2024 | in every run no descriptor number is closed, written, shut down or matched to a completion for the wrong connection; while running every open one has one owner; after the cleanup every connection ever accepted has been closed |
| `FdOwnership.NextKeeps` | wing_transport.go:1357-2024 | every step of event loop, handlers, cleanup and the rest of the process keeps the ownership invariant |
| `FdOwnership.HandlerDoneKeeps` | wing_transport.go:1357-1398 | a completion finds its own connection under its number, with exactly it pending |
| `FdOwnership.FileDoneKeeps` | wing_transport.go:1357-1367 | a finished takeover leaves the table before its file is closed, and nobody else has closed it |
| `FdOwnership.DeferredCloseKeeps` | wing_transport.go:1372-1378 | a deferred close happens once, at the completion |
| `FdOwnership.DrainKeeps` | wing_transport.go:1971-2004 | completions drained in the cleanup close exactly the takeover files |
| `FdOwnership.CloseRestKeeps` | wing_transport.go:2005-2020 | the rest of the table is closed except what a takeover's file has closed |
| `FdOwnership.CleanupGoesOn` | wing_transport.go:1971-2024 | in the cleanup some step always leaves less to do, until everything is closed and the worker has ended |
| `Admission.AdmissionIsExact` | wing_transport.go:687-768 | over all interleavings: with a cap the counter is exactly the connections admitted and being admitted and never above the cap; address counts are exact and within theirs |
| `Admission.NextKeeps` | wing_transport.go:687-768 | every step of every worker keeps the accounting |
| `Admission.SwapKeeps` | wing_transport.go:713-726 | a compare and swap that succeeds takes a place that is free, whatever happened since the load |
| `Admission.RegisterKeeps` | wing_transport.go:751-754 | a registered connection is counted for its address, where there was room since the check |
| `Admission.ReleaseKeeps` | wing_transport.go:1895-1912 | release gives back one place and one count, deletes counts at zero, and does nothing the second time |
| `Admission.RefusedExactly` | wing_transport.go:687-726 | a descriptor is turned away at a step exactly if its address is full, or the counter read then is at the cap; else it goes on |
| `Admission.FreePlaceIsGiven` | wing_transport.go:687-754 | where there is a place and room for the address, an undisturbed worker lets the connection in, in these steps, counts it for its address, and takes one place |
| `BodyBudget.BudgetIsKept` | wing_transport.go:1182-1198 | over all interleavings of event loop and takeovers, each with its separate exits: the counter is exactly what is reserved, bodies being collected are within the budget, every reservation is refunded exactly once, and with no holder left the counter is zero |
| `BodyBudget.ChargeKeeps` | wing_transport.go:1182-1190 | adding first and checking afterwards never lets the reservations that pass exceed the budget, although the counter may |
| `BodyBudget.RefundKeeps` | wing_transport.go:1297-1305 | a refund of what its holder owes, on any exit, keeps the accounting |
| `BodyBudget.LoopKeeps` | wing_transport.go:1182-1198 | the event loop's steps keep it: charge, check, roll back, no end of the header, completion, and closing in any state |
| `BodyBudget.TaskKeeps` | wing_transport.go:1681-1740 | a takeover's steps keep it: charge, check, roll back, a failed interim response, a failed read, completion, and leaving |
| `BodyBudget.PassesExactly` | wing_transport.go:1182-1190 | a body passes exactly if all that is owed at the moment of its charge and its own need fit the limit, whatever happens before the check |
| `BodyBudget.TaskPassesExactly` | wing_transport.go:1681-1700 | the same for a takeover, which answers with 100 first exactly if that is expected |
| `BodyBudget.FittingIsCollected` | wing_transport.go:1182-1305 | a body that fits is collected by an undisturbed connection, in these steps, and its need given back |
| `BodyBudget.FittingIsServed` | wing_transport.go:1681-1740 | and by an undisturbed takeover, which then goes on to its next request |
| `BodyBudget.OwedCanBeGivenBack` | wing_transport.go:1182-1305 | whoever owes anything, in whatever state, gives it back by one or two steps of its own that leave the others as they are |
| `Hijack.CloseIsSafe` | wing_ws.go:72-83 | for any number of callers and a racing shutdown: at most one raw shutdown, only while the descriptor is this connection's; no Close returns before it; the message that gives the descriptor back comes after it |
| `Hijack.NextKeeps` | wing_ws.go:170-233 | every step of callers, takeover goroutine and event loop keeps the invariant |
| `Hijack.SomeCloseGoesOn` | wing_ws.go:72-83 | while a Close has not returned some caller can take a step: no deadlock on the done channel |
| `Hijack.StepsEnd` | wing_ws.go:72-83 | each step brings its caller closer to returning and moves no other |
| `Hijack.ServerGoesOn` | wing_ws.go:170-233 | once a Close is over or the server shuts down, the takeover goroutine can go on or waits in a Close that can, until the descriptor has been given back and closed |
| `RouteParams.Params.Set` | ctx_lifecycle.go:59-71 | overwrites the value of a known key, adds a new one while there is room, and otherwise changes nothing |
| `RouteParams.Params.Get` | ctx_lifecycle.go:74-81 | the value of the first item with the key, or empty |
| `RouteParams.Params.Del` | ctx_lifecycle.go:84-95 | removes one key; the last item takes its place, and its slot is cleared |
| `RouterTrie.SetThenDel` | ctx_lifecycle.go:59-95 | setting a new key and deleting it again restores the captures exactly: the undo of the search |
| `RouterTree.Node.FindInNode` | router.go:758-885 | the search over compressed nodes, with captures set and taken back in place, gives the handler and the captures of the search in the trie, which knows no nodes |
| `RouterTree.Node.FindInStatic` | router.go:759-806 | the static child is found through the index byte, its text is consumed as a whole; the text-with-slash branch never yields a handler without optional parameters |
| `RouterTree.Node.FindInParam` | router.go:808-871 | a parameter takes one non-empty segment that meets its constraint, and its capture is undone if nothing below matches |
| `RouterTree.Node.InsertRoute` | router.go:505-596 | in-place insertion succeeds exactly if wildcards come last and the route is not there already, under its own parameter names; then the tree stands for the trie with the route in it; otherwise the source panics |
| `RouterTrie.InsertSucceeds` | router.go:505-596 | insertion in the trie succeeds exactly if wildcards come last and no route has the same items |
| `RouterTrie.InsertAdds` | router.go:505-596 | afterwards exactly the routes from before are in it, with their handlers, and the new one with its own |
| `RouterTree.Node.InsertParam` | router.go:546-585 | the first child of the name takes the rest of the route and keeps its constraint; else a new last child |
| `RouterTree.Node.InsertStatic` | router.go:600-629 | text goes to the one child that starts with its first byte |
| `RouterTree.Node.SplitAndInsert` | router.go:632-688 | splitting a node at the common prefix and inserting below keeps every other route: the edge stands for the old trie with this route added |
| `RouterTree.Node.Split` | router.go:636-651 | a node cut in two means what it meant |
| `RouterTree.LongestPrefix` | router.go:691-701 | the longest common prefix |
| `RouterLookup.FindIsLookup` | router.go:758-885 | for any registered routes the search gives what the plain list gives: static, then parameters in order of registration, then the wildcard, with full backtracking; captures are the winner's, and unchanged where nothing matches |
| `RouterRoutes.BelowText` | router.go:505-688 | below a segment's text lies exactly the trie of the routes that go on after it |
| `RouterLookup.EdgesOf` | router.go:546-585 | parameter edges are the parameters in order of first registration, each above the trie of its own routes |
| `RouterMatches.FoundFits` | router.go:758-885 | what is found is a registered route that fits the path, with exactly its own captures, and the best one: at the first segment where another fitting route differs it has text, or an earlier parameter, or no wildcard |
| `RouterMatches.FittingIsFound` | router.go:758-885 | if any registered route fits the path, one is found |
| `RouterMatches.AddIsLocal` | router.go:363-404 | a later registration changes nothing for paths it does not fit |
| `RouterCompile.OptimizeNode` | router.go:301-329 | afterwards the children of every node are in order, and every trie is as it was |
| `RouterCompile.SortChildren` | router.go:301-326 | the children end up in the required order and stand for the same trie, because parameters without hits never change places |
| `RouterCompile.FlattenNode` | router.go:333-357 | merging chains of text terminates, leaves no text node that is nothing but the beginning of a longer text, and leaves every trie as it was |
| `RouterCompile.Merge` | router.go:338-352 | one merge: same meaning, one node less |
| `RouterStatic.CollectStaticRoutes` | router.go:220-249 | the map gets exactly the handlers at the ends of texts, under their full paths, without doubled slashes |
| `RouterStatic.FindText` | router.go:707-756 | a path that is all text is found before any parameter or wildcard, and captures nothing |
| `Router.Router.AddRoute` | router.go:363-404 | the route is added to the method's list if and only if the router is not compiled, the wildcards of the list are last segments and no two of its routes have the same shape |
| `RouterShapes.BuildsExactly` | router.go:363-404 | a list of routes can be registered, in this or any order, if and only if every wildcard is the last segment of its route and no two routes have one shape: equal length, texts and parameter names, and a wildcard against a wildcard |
| `Router.Router.Compile` | router.go:176-216 | every tree is sorted and then flattened to the end, and keeps its meaning; map and cache agree with the trees, and the cache has exactly the given paths under which anything is allowed |
| `Router.Router.FindRoute` | router.go:707-752 | through map or tree, before or after Compile, find gives what the routes registered for the method give |
| `Router.Router.FindAllowedMethods` | router.go:889-911 | cached or not, the Allow list is that of asking every method in order, with the captures reset in between |
| `Router.AllowedExactly` | router.go:889-911 | the list has exactly the methods under which a registered route fits the path, each once, in the order of the slots |
| `Router.SearchFits` | router.go:707-752 | what find gives for a path is a registered route that fits it, and nothing only where none does |
| `Router.SearchIsLookup` | router.go:707-752 | for every request path without empty segments, what find gives is the answer of the list of routes |
| `WsFrame.MaskBytes` | contrib/ws/frame.go:161-165 | in place, every byte becomes the exclusive or of it and its byte of the key, bit by bit |
| `WsFrame.XorExactly` | contrib/ws/frame.go:161-165 | the byte computed is the one in which bit j is set exactly if bit j of one operand is, and not of the other |
| `WsFrame.MaskedExactly` | contrib/ws/frame.go:161-165 | masked data is exactly the data whose byte i is the exclusive or with byte i modulo 4 of the key (section 5.3 of RFC 6455) |
| `WsFrame.NetworkOrder` | contrib/ws/frame.go:44-75 | a length on the wire is its bytes with the most significant one first |
| `WsExamples.HeaderBits` | contrib/ws/frame.go:21-60 | which bits of the two header bytes say final, reserved, masked, opcode and length |
| `WsExamples.HelloIsMasked` | contrib/ws/frame.go:161-165 | the masked Hello of section 5.7 of RFC 6455, byte for byte |
| `WsExamples.SingleFrame` | contrib/ws/frame.go:21-116 | 81 05 48 65 6c 6c 6f, and the masked frame of section 5.7, are read as the text Hello |
| `WsExamples.Fragments` | contrib/ws/frame.go:21-116 | so are the two fragments of that section, as its parts |
| `WsExamples.ControlFrames` | contrib/ws/frame.go:21-116 | and its ping and its masked pong |
| `WsExamples.LongFrames` | contrib/ws/frame.go:21-116 | and its frames of 256 and 65536 bytes, with 16- and 64-bit lengths |
| `WsExamples.CloseCodes` | contrib/ws/frame.go:191-226 | the close codes that may be received are those of section 7.4 of RFC 6455 and the private ranges, as numbers |
| `WsFrame.MaskedTwice` | contrib/ws/frame.go:161-165 | masking twice with one key is the identity; that it masks at all is WsFrame.MaskedExactly |
| `WsFrame.ReadFrame` | contrib/ws/frame.go:21-116 | reading from the stream computes Decode and leaves what follows the frame |
| `WsFrame.WriteFrame` | contrib/ws/frame.go:120-158 | the buffer filled and written is the one encoding of the frame, with the low bits of any opcode |
| `WsFrame.Writer.Flush` | contrib/ws/conn.go:194-196 | what was buffered goes out in order, whole or up to a failure, after which nothing does |
| `WsCodec.ReadsWhatWasWritten` | contrib/ws/frame.go:21-158 | every legal frame that is written is read back, and trailing bytes are untouched |
| `WsCodec.ReadsWhatWasMasked` | contrib/ws/frame.go:21-165 | the same for masked frames of a client, with any key and the payload combined with it as WsFrame.MaskedExactly says |
| `WsCodec.AcceptsOnlyWhatIsWritten` | contrib/ws/frame.go:21-158 | accepted bytes are exactly the encoding of the frame they are read as: minimal lengths, known opcodes, short unfragmented control frames (section 5.2 of RFC 6455) |
| `WsConn.ValidateClosePayload` | contrib/ws/frame.go:191-226 | a close payload is good exactly if empty, or a registered code and valid text; bad text has its own code |
| `WsMessages.AssemblyIsJoin` | contrib/ws/conn.go:111-175 | the assembled data is the join of the data frames and the type that of the first |
| `WsMessages.MessageExactly` | contrib/ws/conn.go:111-175 | which frames, with control frames anywhere, make a message: one final data frame, or a first one that goes on, continuations, and a final one, within the size limit; with the join of their data and the type of the first |
| `WsMessages.TookPrefix` | contrib/ws/frame.go:21-116 | reading is deterministic: frames taken from a stream are the beginning of any others that can be taken from it |
| `WsMessages.ClientStreamIsTaken` | contrib/ws/conn.go:66-76 | whatever legal frames a client sends are the frames read |
| `WsConn.Conn.ReadMessage` | contrib/ws/conn.go:81-178 | if the stream begins with a message, however fragmented and with pings and pongs anywhere in it, this message is returned and what follows is left, unless one of its pings stops the reader: only with a limit on pings that the count up to it exceeds, or with a failed write. Whatever the stream, a message is what its frames make, within the size limit and with its pings echoed in order, and an error says what stopped the reader, behind which frames, with every ping before that echoed (sections 5.4 and 5.5 of RFC 6455) |
| `WsConn.Conn.ReadContinuations` | contrib/ws/conn.go:129-176 | the same from the first fragment on, for the frames taken and what stops the reader behind them: the ping limit only if it is set and exceeded by the count before the message together with the message's pings, a failed write only at a ping and if a write has failed; what is put together of a message is within the size limit, also when it is given up |
| `WsConn.Conn.RefuseFrame` | contrib/ws/conn.go:87-94 | a frame that cannot be read closes the connection, with its own code, exactly if it is too big; anything else changes nothing |
| `WsConn.OnlyPingsStop` | contrib/ws/conn.go:81-178 | behind the first frames of a message that the stream begins with, nothing but a ping can stop the reader, and it is a ping of that message |
| `WsConn.Conn.ReadClientFrame` | contrib/ws/conn.go:66-76 | an unmasked frame of a client is refused and closes the connection |
| `WsConn.Conn.HandlePing` | contrib/ws/conn.go:264-294 | a ping on an open connection is answered with its payload unless the window's count is exceeded, which closes the connection, or the write fails; once closed, the answer fails and nothing is sent |
| `WsConn.Conn.HandleControl` | contrib/ws/conn.go:262-324 | a pong is passed over; a ping is echoed and counted at most once, and ends the connection's reading only if the limit is set and exceeded or a write has failed; a close frame closes the connection, with an error exactly if its payload is bad |
| `WsConn.Conn.HandleClose` | contrib/ws/conn.go:299-321 | a good close frame is echoed once, a bad one answered with the code of its fault; the connection underneath is closed, and later frames are not sent |
| `WsConn.Conn.Close` | contrib/ws/conn.go:210-227 | one close frame, unless a write has failed or one was tried before; the connection underneath is closed, whoever calls |
| `WsConn.Conn.CloseFrameIsLast` | contrib/ws/conn.go:210-227 | a close frame is the last frame, and the end of what the peer is sent |
| `WsConn.Conn.Send` | contrib/ws/conn.go:193-196 | a frame is on the wire whole, in part, or not at all; only the first is a success, and after a failure or once closed nothing more gets through |
| `WsConn.Conn.WriteMessage` | contrib/ws/conn.go:181-197 | one frame with the whole message, of any type as its low bits; once the connection is closed nothing is touched, and after a failed write nothing gets through |
| `WsPing.InLessThanASecond` | contrib/ws/conn.go:266-274 | on a connection that starts as the source's does, whatever pings came before, less than a second sees at most twice the limit less one answered |
| `WsPing.ReachedForEveryLimit` | contrib/ws/conn.go:266-274 | for every limit a run of a new connection reaches that number, within a nanosecond |
| `TokenBuckets.AcceptBucket.constructor` | wing_accept_limits.go:56-61 | a full bucket whose burst is at least one second's worth of tokens |
| `TokenBuckets.AcceptBucket.Allow` | wing_accept_limits.go:67-80 | one call refills for the time gone forward, up to the burst, and spends a token if there is one |
| `TokenBuckets.AcceptBound` | wing_accept_limits.go:67-80 | over any calls, no more is let through than the tokens and the rate over all time gone forward |
| `TokenBuckets.AscentExactly` | wing_accept_limits.go:67-80 | the time gone forward is the span between the first and the last reading if the clock has not gone back, and more otherwise |
| `TokenBuckets.AcceptBoundOverSpan` | wing_accept_limits.go:67-80 | with such a clock, calls in a span are let through at most burst plus rate times span often |
| `TokenBuckets.AcceptSpanExactly` | wing_accept_limits.go:56-80 | for readings of a clock, every new bucket keeps burst plus rate times span for all calls at them if and only if the time gone forward is within the span |
| `TokenBuckets.AcceptClockMustNotGoBack` | wing_accept_limits.go:67-80 | a new bucket of one token a second lets three through within a second in which the clock goes back twice |
| `TokenBuckets.RequestEntry.Allow` | contrib/ratelimit/token_bucket.go:8-67 | the first request is let through; later ones refill by the elapsed time, negative too, and spend a token if there is one; with what remains, when the window ends, and how long to wait |
| `TokenBuckets.RemainingIsKept` | contrib/ratelimit/token_bucket.go:55-66 | the number said to remain is the number that the same moment still lets through |
| `TokenBuckets.RetryExactly` | contrib/ratelimit/token_bucket.go:43-52 | a refused client is let through after a wait exactly if the wait earns the missing part of a token: any time longer than the one named is enough, any shorter one is not |
| `TokenBuckets.RequestBalance` | contrib/ratelimit/token_bucket.go:27-59 | admissions and tokens left are paid for by the time between first and last call, whatever the clock did between |
| `TokenBuckets.RequestBound` | contrib/ratelimit/token_bucket.go:27-59 | so up to any admitted call the bound holds without an assumption on the clock |
| `TokenBuckets.LimitsAreEarned` | contrib/ratelimit/token_bucket.go:27-59 | a whole window earns exactly the limit, and a second exactly the rate the accept bucket is made for |
| `TokenBuckets.WindowRestores` | contrib/ratelimit/token_bucket.go:27-59 | after a window without a call a client may make exactly as many requests at once as the limit |
| `TokenBuckets.BurstAtOnce` | wing_accept_limits.go:56-80 | a new accept bucket lets exactly its burst through at once |
| `TokenBuckets.DeriveMaxConns` | wing_accept_limits.go:86-96 | never zero, never above the ceiling, and with headroom the whole rest of the descriptors |
| `Container.Registry.Use` | container.go:287-347 | resolution terminates for every graph; it reports a cycle exactly if an unresolved registered type is on the stack; the stack is restored; a resolved lazy is returned unchanged; with factories that only pass on failures it succeeds exactly if the type can be built, and then every lazy type behind it is there; it never waits for a mutex for ever unless an entry is being warmed up |
| `Container.Registry.BuiltExactly` | container.go:287-347 | a type can be built exactly if no chain of dependencies leads from it to a missing provider or around a cycle |
| `Container.Registry.UseLazy` | container.go:320-345 | a lazy gets its instance once and enters the order once, at its end; after a failure it can be tried again |
| `Container.Registry.PushResolving` | container.go:239-262 | refused if and only if the type is on the stack, with the chain that leads back to it |
| `Container.Registry.ReportedIsCycle` | container.go:239-262 | what is reported is a real cycle of dependencies |
| `Container.Registry.Resolve` | container.go:390-403 | the factory runs under the mutex of its entry, which is free again afterwards; an entry whose mutex is held blocks for ever |
| `Container.Registry.RunFactory` | container.go:320-345 | whatever of its dependencies a factory asks for, in whatever order, and however it reacts, stack, mutexes and earlier instances are as before |
| `Container.Registry.DependenciesFirst` | container.go:320-345 | with such factories every lazy type stands in the order behind all lazy types that it depends on, at whatever distance |
| `Container.Registry.Warmup` | container.go:481-521 | Warmup waits for ever if and only if it tries an entry from which the first dependencies that cannot be built lead back to it, as its entry is on no stack; otherwise everything tried is there exactly if it can be built, and reported exactly if not; with any factories it takes a cycle through an entry |
| `Container.RingHangs` | container.go:481-521 | two lazy types that ask for each other: Use reports the cycle, Warmup never returns |
| `ContainerHooks.Start` | container.go:419-449 | every OnInit in order; at the first service before which the context is cancelled or whose OnInit fails, exactly those before it that have OnShutdown are shut down, backwards |
| `ContainerHooks.Shutdown` | container.go:451-468 | every OnShutdown, backwards, whatever fails, and exactly the failures reported |
| `ContainerHooks.InitsExactly` | container.go:419-449 | the initialisations are the services with OnInit, each once, upwards |
| `ContainerHooks.ShutsExactly` | container.go:451-468 | the shutdowns are the services with OnShutdown, each once, downwards |
| `ContainerHooks.HooksFollowDependencies` | container.go:419-468 | a lazy service is initialised after, and shut down before, every lazy service that it depends on |
| `BinderQuery.QueryParam` | wing_http.go:1137-1153 | the value of the first pair with the name |
| `BinderQuery.QueryExactly` | wing_http.go:1137-1153 | the value is that of the first pair of the query with exactly the name, pairs being what is between ampersands; empty where there is none |
| `BinderQuery.Scan` | cmd/bindgen/query.go:27-40 | one pass with seen flags and an early end gives every tag the value that a search of its own would give |
| `BinderGen.CollectTags` | cmd/bindgen/query.go:8-26 | every query tag gets one variable, and the map finds it |
| `BinderGen.Generate` | cmd/bindgen/main.go:134-188 | the statements written: defaults, the collection, query fields, path fields, each in the order of the struct |
| `Binder.SameConversion` | cmd/bindgen/main.go:280-295 | the expression written from a kind's name is the conversion that reflection chooses for the kind |
| `Binder.NameIsSpelled` | cmd/bindgen/main.go:280-295 | the names of kinds that the generator compares are those of the Go types, as text |
| `Binder.SameDefault` | cmd/bindgen/main.go:297-336 | a default that the generator accepts has the value that the generic binder gives it, although the generator reads native widths as 32 bits |
| `Binder.BuildInputParser` | bind.go:46-113 | the parser's lists are the fields with a default or a tag, in order, each with its conversion |
| `Binder.Parse` | bind.go:165-222 | the loops over defaults, query fields and path fields compute the binding whose meaning BinderMeaning.ParseExactly gives |
| `BinderMeaning.ParseExactly` | bind.go:165-222 | without the loops: on success a field has its converted path parameter if that is not empty, else its converted query parameter if that is not, else its default, else its zero value, and no other field is touched; it fails exactly if some non-empty parameter does not convert, and names the first such field, query before path |
| `BinderMeaning.Bind` | bind.go:165-222 | the generic binder itself, with that as its contract |
| `BinderGen.GeneratedIsGeneric` | cmd/bindgen/main.go:147-190 | for every list of fields and every request the generated binder returns the same struct as the generic one, or the same first error |
| `BinderMeaning.GeneratedExactly` | cmd/bindgen/main.go:147-190 | so the generated binder binds the same values, field by field, and fails with the same error |
| `BinderGen.RunCollect` | cmd/bindgen/query.go:27-40 | the scanner fills the variables as the meaning of the generated program has it |

## Left out

- WingResults.NoLostEdge: only while all requests are bodiless and inline, and an end of input is not a byte; WingResults.NothingElseIsForgotten has all connections, with the cases in which the source does not read on.
- WingResults.UnsentIsScheduled: not while a body is collected, where the source does not send (`WingRuns.HeldBehindBody`).
- WingResults.GoodPeerIsNotDropped: not on connections where a handler in another goroutine comes together with a body that is not there at once (`WingRuns.Startled`), and not behind two empty lines (`WingRuns.EmptyLinesLoseRequest`).
- WingConnection.Conn.ChargeBody: what other connections have charged is left open here; BodyBudget has all of them.
- WingResults.SegmentationIndependence: not where parsing has been left off in front of a request, behind an empty response (`WingRuns.LeavesBehindLast`, `WingRuns.LeavesBehindBody`), which depends on how the bytes came.
- WingSocket.Socket.Read: the peer's half-close is an ordinary end of input; the special answer to it while responses are queued (`wing_transport.go:854-862`) cannot be reached without sendfile, because the queue has been flushed before.
- Router.Router.FindAllowedMethods: the list of methods, not the string it is joined to, and any choice of paths for the cache; `collectPaths`, which makes that choice, is not part of this model.
- Router.Router.AddRoute: standard methods only, as `methodIndex` (`router.go:94-125`) gives some custom methods the slot of a standard one; splitting route text into segments and compiling constraints is not part of this model.
- RouterTree.Node.FindInNode: optional parameters, `routePattern`, hit counts and routes outside ASCII; siblings have no hits when they are sorted.
- WsConn.Conn.ReadMessage: deadlines and clocks are left open, a write may fail at any time, which is then the condition for the error of a pong, and what the buffered reader holds after the connection is closed may still be read.
- WsConn.Conn.Interfere: other goroutines write anything but pongs of their own, which would mix with the answers to pings.
- WsConn.Conn.CloseFrameIsLast: only where the application has not written a close frame as a message of its own (`forged`); that nothing is sent once the connection is closed holds in any case.
- WsFrame.WriteFrame: the write buffer takes everything and passes it on when it is flushed; the source's passes on long frames earlier.
- WsFrame.MaskBytes: exclusive or is written out bit by bit on numbers.
- TokenBuckets.AcceptBucket.Allow: over reals; float64 rounding is not modelled.
- TokenBuckets.RequestEntry.Allow: over reals; the limit and the window are positive, as `config.go:54-59` sees to.
- Container.Registry.Warmup: the entries in one given order, where the source takes that of a map; a factory that does not return on its own is none.
- Container.Registry.Use: one goroutine, whose identity is known; singletons and named instances are registered before anything is resolved, and type mismatches are left out. What a factory may ask for is a given list; when it succeeds is said for factories that ask for all of it and fail only if an answer is a failure.
- BinderGen.GeneratedIsGeneric: text of literals and imports, body and form fields, the validator and the shape check are left out; conversions are an abstract function of kind and text.
- FdOwnership.ClosedExactlyOnce: that the event loop closes only when nothing is pending is a guard here; WingConnection.Conn.CloseConn demands it of every caller.
- Takeover and Persist dispatch inside a connection: the blocking keep-alive loop of a takeover parses with the same parser, but its own buffers are not modelled; ownership, budget and hijack protocols include it.
- sendfile: a paused file body is not ordered against later output by the source.
- Response serialisation, header maps, cookies, remote addresses, buffer pools and strings that alias the read buffer.
- The classifier's and the worker's timeouts: a sweep may close any connection without a handler at any time.
- kqueue, the macOS engine, CPU pinning, path cleaning, overflow of 64-bit counters.
- Handshakes, compression, CORS, CSRF, sessions, JWT, metrics, static files, the other adapters, the CLI and the MCP server.
