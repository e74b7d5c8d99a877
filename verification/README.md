# disco: multicast service discovery, modelled in Dafny

This project models the protocol core of the `disco` package
(`vendor/github.com/djavorszky/disco/disco.go`). Processes announce named services on a
multicast group. They query for names and answer queries and liveness reports. Every
datagram is one text record, `srvc;<type>;<srcAddr>;<name>`.

The model has six modules, one file each:

- `wrappers.dfy` (`Wrappers`): `Option` and `Result`.
- `transport.dfy` (`Transport`): `Inbound`, one received datagram as the receive loop hands it on (`MulticastMsg`).
- `fields.dfy` (`Fields`): `Split`, a pure model of Go's `strings.Split` for a
  one-character separator, and its inverse `Join`.
- `codec.dfy` (`Codec`): the message record `Srvc`, the encoder `Encode` (`srvc.String`),
  the decoder `Decode` (`srvcFrom`) and the four type constants.
- `listener.dfy` (`Listener`): the `listenfor` loop. It is a fold `Run` over a finite
  sequence of received datagrams. Its state `Filter` holds the set of names still
  awaited, the services handed out so far and whether the output channel is closed.
  `ListenFor` instantiates it for announcements. The fold is generic in the set of
  accepted message types, so that the corrected `Query` below can reuse it.
- `responder.dfy` (`Responder`): the decision in `respondToQueries` (`Triggers`) and the
  sequence of `Respond` payloads it produces over a run of datagrams.
- `protocol.dfy` (`Protocol`): the empty-name guard of `Announce` and the terminal outcome
  of `Query`.

Sockets and timers are parameters. Whether a subscription or a first send succeeded is a
boolean argument. The datagrams that reach a query before its deadline are a finite
sequence.

## Model

| member | source | states |
|---|---|---|
| Fields.Split | vendor/github.com/djavorszky/disco/disco.go:48 | the number of fields is one more than the number of separators, and no field contains the separator |
| Fields.SplitJoin | vendor/github.com/djavorszky/disco/disco.go:44-48 | splitting a joined list of separator-free fields gives the fields back |
| Fields.JoinSplit | vendor/github.com/djavorszky/disco/disco.go:48 | joining the fields of a split gives the original string back, so splitting loses nothing |
| Codec.Encode | vendor/github.com/djavorszky/disco/disco.go:43-45 | the record `srvc;<type>;<srcAddr>;<name>`; its partners Codec.SplitEncode and Codec.DecodeOfEncode state what splitting and decoding recover from it |
| Codec.EncodeIsJoin | vendor/github.com/djavorszky/disco/disco.go:43-45 | the record is the tag, type, address and name joined by `;`, the inverse of the split the decoder performs |
| Codec.SplitEncode | vendor/github.com/djavorszky/disco/disco.go:44-48 | when no field contains `;`, splitting a record recovers exactly the tag and the three fields |
| Codec.EncodeCount | vendor/github.com/djavorszky/disco/disco.go:43-45 | an encoded record has exactly three delimiters of its own plus any inside its fields |
| Codec.Decode | vendor/github.com/djavorszky/disco/disco.go:47-60 | an accepted payload yields a record with non-empty, delimiter-free fields whose encoding is exactly the payload; a payload without exactly three delimiters, or with four fields whose first is not `srvc`, is a protocol error |
| Codec.DecodeOfEncode | vendor/github.com/djavorszky/disco/disco.go:43-58 | decoding an encoded record returns it exactly when it is well formed; a delimiter inside a field breaks framing and gives a protocol error; an empty delimiter-free field gives a missing-field error |
| Codec.RoundTrip | vendor/github.com/djavorszky/disco/disco.go:43-58 | a record with non-empty, delimiter-free fields decodes back to itself |
| Codec.DecodeEncoded | vendor/github.com/djavorszky/disco/disco.go:47-58 | a payload that encodes a well-formed record decodes to that record |
| Codec.DecodeSucceedsIff | vendor/github.com/djavorszky/disco/disco.go:47-58 | a payload is accepted if and only if it is the encoding of some well-formed record |
| Codec.DecodedStartsWithTag | vendor/github.com/djavorszky/disco/disco.go:50-52 | every accepted payload starts with the `srvc;` tag |
| Codec.DecodeTooFewFields | vendor/github.com/djavorszky/disco/disco.go:50-52 | `srvc;a;b` is rejected as a protocol error |
| Codec.DecodeWrongTag | vendor/github.com/djavorszky/disco/disco.go:50-52 | `x;a;b;c` is rejected |
| Codec.DecodeEmptyType | vendor/github.com/djavorszky/disco/disco.go:54-56 | `srvc;;b;c` is rejected as a missing field |
| Codec.DecodeReportWithoutName | vendor/github.com/djavorszky/disco/disco.go:54-56 | a report with an empty name, such as `srvc;report;addr;`, is rejected as a missing field |
| Codec.DecodeUnknownType | vendor/github.com/djavorszky/disco/disco.go:58 | a type outside the four known constants (`srvc;hello;a;b`) decodes successfully |
| Listener.Accepted | vendor/github.com/djavorszky/disco/disco.go:166-173 | a payload passes the filter exactly when it encodes a well-formed message of an accepted type, and then that message passes |
| Listener.AcceptedEncoded | vendor/github.com/djavorszky/disco/disco.go:166-173 | every well-formed message of an accepted type passes the filter, whatever the datagram's sender or error flag |
| Listener.FirstAddr | vendor/github.com/djavorszky/disco/disco.go:175-176 | reference definition: there is no first address for a name exactly when no accepted message names it |
| Listener.Step | vendor/github.com/djavorszky/disco/disco.go:165-183 | a skipped message leaves the filter unchanged, and the awaited set never grows |
| Listener.StepInv | vendor/github.com/djavorszky/disco/disco.go:175-183 | one iteration keeps the filter invariant: awaited = requested minus handed out, handed-out names requested and distinct, closed only when nothing is awaited |
| Listener.RunInv | vendor/github.com/djavorszky/disco/disco.go:157-184 | the filter invariant holds after any run of datagrams |
| Listener.Run | vendor/github.com/djavorszky/disco/disco.go:164-184 | the loop over a run of datagrams: the awaited set only shrinks, and services already handed out stay handed out, in order |
| Listener.RunAppend | vendor/github.com/djavorszky/disco/disco.go:164-184 | reading two runs in turn is reading their concatenation |
| Listener.NothingAfterClose | vendor/github.com/djavorszky/disco/disco.go:180-183 | once the output is closed, later datagrams change nothing |
| Listener.ClosesOnAccepted | vendor/github.com/djavorszky/disco/disco.go:166-183 | the output closes only on an accepted message, and only with nothing left awaited; malformed and skipped messages never close it |
| Listener.RemainingIff | vendor/github.com/djavorszky/disco/disco.go:164-178 | an awaited name remains awaited exactly when no accepted message in the run names it |
| Listener.EmittedFromFirst | vendor/github.com/djavorszky/disco/disco.go:175-177 | every service handed out during a run was awaited and carries the address of the first accepted message naming it |
| Listener.ListenFor | vendor/github.com/djavorszky/disco/disco.go:157-184 | handed-out names were requested and appear at most once; awaited = requested minus handed out; closed only when nothing is awaited, and for a non-empty request exactly then |
| Listener.ListenForRemaining | vendor/github.com/djavorszky/disco/disco.go:175-178 | a requested name is still awaited if and only if no announcement of it was read |
| Listener.ListenForFirstAnnouncement | vendor/github.com/djavorszky/disco/disco.go:175-177 | each handed-out service has the address in the payload of the first announcement of its name |
| Listener.ListenForNoNames | vendor/github.com/djavorszky/disco/disco.go:158-183 | with no names requested nothing is handed out, and the output closes exactly when some announcement has been read |
| Listener.NoNamesRun | vendor/github.com/djavorszky/disco/disco.go:171-183 | with an empty awaited set, any accepted message closes the output and nothing is handed out |
| Listener.PayloadOnly | vendor/github.com/djavorszky/disco/disco.go:165-176 | the outcome depends only on payloads, never on the datagram's sender or error flag |
| Listener.ListenForTwoNames | vendor/github.com/djavorszky/disco/disco.go:164-183 | announcing A then B to a listener for {A, B} hands out A then B and closes |
| Listener.ListenForRepeatIgnored | vendor/github.com/djavorszky/disco/disco.go:175-178 | a second announcement of A is ignored, and B stays awaited |
| Responder.Triggers | vendor/github.com/djavorszky/disco/disco.go:83-88 | the respond decision; its partner Responder.TriggersOnEncoded proves it holds of an encoded message exactly for a well-formed report or a well-formed query for this name |
| Responder.ResponsePayload | vendor/github.com/djavorszky/disco/disco.go:132-133 | the payload `Respond` broadcasts; it decodes to a response with this address and name when they are well formed |
| Responder.Answers | vendor/github.com/djavorszky/disco/disco.go:81-94 | exactly as many responses as triggering datagrams, each naming this responder's address and name, and none exactly when nothing triggered |
| Responder.RespondToQueries | vendor/github.com/djavorszky/disco/disco.go:75-94 | a failed subscription answers nothing; otherwise one response per triggering datagram, each naming this responder |
| Responder.AnswersAppend | vendor/github.com/djavorszky/disco/disco.go:81-94 | the responder is stateless: answering two runs in turn is answering their concatenation |
| Responder.TriggersOnEncoded | vendor/github.com/djavorszky/disco/disco.go:83-88 | an encoded message triggers a response if and only if it is well formed and is a report, or a query for this name |
| Responder.ResponsesNotAnswered | vendor/github.com/djavorszky/disco/disco.go:88-89 | a response never triggers another response |
| Responder.ReportWithoutNameNotAnswered | vendor/github.com/djavorszky/disco/disco.go:83-88 | a report with an empty name is never answered |
| Protocol.Announce | vendor/github.com/djavorszky/disco/disco.go:65-73 | rejected if and only if the name is empty; otherwise starts a responder for this address and name and sends a payload that decodes to the announcement |
| Protocol.AnnounceHeard | vendor/github.com/djavorszky/disco/disco.go:72 | a listener for the announced name hands out exactly that name and address, then closes |
| Protocol.AnnounceDelimiterInName | vendor/github.com/djavorszky/disco/disco.go:66-72 | a name containing `;` passes the guard, but its announcement can never be decoded |
| Protocol.QueryPayload | vendor/github.com/djavorszky/disco/disco.go:100-112 | the query record `Query` broadcasts; it decodes to a query from this address for this name when they are well formed |
| Protocol.Await | vendor/github.com/djavorszky/disco/disco.go:107-128 | a failed listen or first send ends the query at once; otherwise the outcome is found or timed out, found exactly when some accepted message names the target, and a found service carries the target name and the address of the first such message |
| Protocol.QueryAsWritten | vendor/github.com/djavorszky/disco/disco.go:99-129 | as written: with listen and send succeeding, the query is found exactly when an announcement of the name arrives, else it times out; the service found has the address of the first one |
| Protocol.Query | vendor/github.com/djavorszky/disco/disco.go:99-129 | corrected: with listen and send succeeding, the query is found exactly when an announcement of, or response for, the name arrives, else it times out; the service found has the address of the first one |
| Protocol.QueryEmptyNameTimesOut | vendor/github.com/djavorszky/disco/disco.go:99-128 | a query for the empty name always times out |
| Protocol.QueryAsWrittenIgnoresAnswers | vendor/github.com/djavorszky/disco/disco.go:107-128 | as written, whatever a responder answers, its answers never complete the query |
| Protocol.AnswerToQueryIsOneResponse | vendor/github.com/djavorszky/disco/disco.go:88-89 | a responder answers a query for its own name with exactly one response |
| Protocol.QueryAnsweredByResponder | vendor/github.com/djavorszky/disco/disco.go:107-128 | given a responder's answer, the query as written times out, while the corrected query finds the responder's name and address |
| Protocol.QueryFindsAnnouncedService | vendor/github.com/djavorszky/disco/disco.go:65-128 | `svc1` announced at `10.0.0.1:9000` is found by the corrected query from `10.0.0.2:1` |

## Left out

- `Broadcast`, `Subscribe`, `resolve` and `listen`: UDP socket I/O. Their success is a boolean parameter. Received datagrams are an `Inbound` sequence. The `MaxDatagramSize` read buffer and truncation are not modelled.
- Goroutines and channels: `listenfor` and `respondToQueries` are folds over a finite sequence of datagrams. The end of the sequence means "still waiting".
- The error paths of `listen` are not modelled. After a failed multicast join it closes the channel and then calls `SetReadBuffer` on a nil connection (disco.go line 244). After a read error it closes the channel and then reads the address of a nil sender (line 256). Either way the process panics, so no consumer ever sees a closed channel. In the model, the `failed` flag of `Inbound` only records that an error was reported; the listener ignores it, as the source does.
- With a failed `Subscribe`, `respondToQueries` blocks forever receiving from a nil channel (lines 76-82). The model's `RespondToQueries` therefore answers nothing when the subscription failed.
- Query timing: the 500 ms retry ticker and the deadline. The model takes the datagrams that arrive before the deadline as given. It does not count retry broadcasts.
- Protocol.Query: the outcome model has no `srcAddr` argument and does not include the broadcast payload; the first send is only its success flag. `Protocol.QueryPayload` stands in for the sent query in the scenario lemmas, which feed it to a responder.
- Protocol.Announce: the result of its broadcast is not modelled; the function returns what it sends instead.
- Responder.RespondToQueries: send failures are not modelled. The source logs them and carries on.
- Go's error texts and logging: errors are abstract variants (`MissingProtocol`, `MissingField`, `InvalidName`, `ListenFailed`, `SendFailed`, `Timeout`).
- Fields.Split: it models `strings.Split` only for a one-character separator, which is all the source uses.
- Strings are sequences of characters, not UTF-8 bytes.
- `logger/logger_test.go`: a test of a logger whose implementation is not part of this model.
- Where the code and its documentation disagree, the model follows the code. A report with an empty name is rejected by the decoder, as in the code. The claim that a query is answered by a responder holds only for the corrected `Query` (see Findings).

## Findings

| source | as written | input that shows it | evidently intended | confidence | as-written member | corrected member |
|---|---|---|---|---|---|---|
| vendor/github.com/djavorszky/disco/disco.go:107 | `Query` waits on `ListenFor`, which keeps only `announce` messages; `Respond` broadcasts type `response`, so a responder's answer never completes a query | a responder for `svc1` at `10.0.0.1:9000` answers a query with `srvc;response;10.0.0.1:9000;svc1`; the query skips it and times out | `Query`, whose documentation says it waits for a response, also accepts `response` messages for the queried name | medium, not executed | Protocol.QueryAsWritten (shown by Protocol.QueryAnsweredByResponder, Protocol.QueryAsWrittenIgnoresAnswers) | Protocol.Query (proved by Protocol.QueryAnsweredByResponder, Protocol.QueryFindsAnnouncedService) |
