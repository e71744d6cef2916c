# cli-capture, modelled and proved in Dafny

This project models the parts of cli-capture in which a stateful, chunked or
concurrent implementation has a simple meaning, and proves that it has it:

- **Pausing and resolving** (`Tokens`, `PauseTable`, `PauseMachine`, `Engine`,
  `Prompt`, `PauseProtocol`). Proxy goroutines pause a message under a 64-bit
  token and block; the operator resolves one pause at a time. `PauseMachine` is
  the engine with any callers, panicking callbacks and counter wrap-around;
  `Engine` is the object itself; `Prompt` is the operator's state as pure
  functions and as the object that updates it; `PauseProtocol` puts engine,
  pause channel and operator together.
- **Streams and replay** (`BigEndian`, `GrpcFrames`, `GrpcReaders`,
  `ContentCoding`, `CapturedBody`, `H2Capture`, `WsFrame`, `WsSession`). gRPC
  and WebSocket framing, the two streaming gRPC readers for every way of cutting
  the input, the interleaving of pumped and injected WebSocket frames, and what
  a captured upload can be replayed as.
- **The terminal's reply queue** (`ReplyFifo`): producer, pump, forwarder and
  `Close` in every interleaving.
- **Printers, parsers, compilers** (`Attack`, `RawRequest`, `ContentLength`,
  `Shell`, `Scope`, over `Text` and `Sorting`): the attack iterator, the raw
  request editor, the Content-Length fixer, shell quoting against a lexer, and
  globs against a regular-expression matcher.

A class stands for each object the source updates in place; its methods are
proved against functions, and what those functions mean is proved as lemmas.
Concurrency is a step relation: every lemma about `Run` holds in every
interleaving. Bytes are integers below 256. Strings are Unicode texts, one
character a code point; only in `ContentLength`, where lengths count, does a
character stand for a byte.

Four statements one might expect turn out to hold only under a condition, which
is then proved both ways:

- A tampered gRPC upload replays exactly only if every edited message fits a
  frame's length field; a longer edit is recorded although it was never sent
  (`H2Capture.TamperedReplayIsExact`).
- After fixing, a reader that ends lines at any line feed and its head at the
  first blank line is told the length of its own body if and only if the request
  begins with a line that can be a request line (neither empty nor a length
  line), the reader's head ends at the fixer's boundary, and the first length
  line it sees is one the fixer sees or already states the right number; or,
  where its head ends earlier, if a line the fixer missed happens to state the
  length of its longer body. Each part is a condition on the request as it was
  before fixing (`ContentLength.ReaderToldTrulyIff`,
  `ContentLength.ReaderMessage`). Requests with one kind of line end need only
  the request line (`ContentLength.UniformLineEnds`). A blank line with bare line
  feeds before a CRLF boundary, as in
  `P\nContent-Length: 0\n\nhello\r\n\r\nworld`, a blank line `\n\r\n` before a
  bare-LF one, and a length line behind a bare line feed break it
  (`ContentLength.BlankLineMisleads`, `ContentLength.EarlierBlankLineMisleads`,
  `ContentLength.HiddenLengthLineStays`).
- The command string for the interactive shell runs its first argument if and
  only if that argument, when left bare, is neither an assignment nor a word the
  standard or the shell reserves, which includes `select` and names that end in
  a colon. Words only some shells reserve are a parameter, so the statement is
  about whichever shell runs the string (`Shell.CommandLineRunsIff`,
  `Shell.AssignmentIsNotRun`).
- The curl export reads back if and only if the method, the one word written
  without quotes, consists of characters that need none where they stand, and
  nothing holds a NUL (`Shell.CurlReadsIff`); with an operator in the method,
  such as `A|B`, the text is no plain single command (`Shell.OperatorSplitsCommand`).

Where the code and its comments differ the code is followed. The editor's
comment (internal/tui/editor.go:28-32) promises a Content-Length that matches
the body without the condition above, and the runner's
(internal/runner/runner.go:95-99) takes a bare first word to be a command name.

## Model

| member | source | states |
|---|---|---|
| `Tokens.NextExistsIffSomeUsable` | internal/intercept/intercept.go:173-184 | The token loop stops with a result if and only if some nonzero 64-bit value is free, whatever the counter, wrap-around included |
| `Tokens.LeastUsable` | internal/intercept/intercept.go:173-184 | From any counter the first usable value is reached within the cyclic distance to any usable one |
| `Tokens.NextUnique` | internal/intercept/intercept.go:173-184 | The token a counter and a set of held tokens lead to is determined |
| `Tokens.FewPausesLeaveATokenFree` | internal/intercept/intercept.go:173-184 | With fewer than 2^64 - 1 pending pauses a usable token exists, so the loop ends |
| `PauseMachine.StepKeepsInv` | internal/intercept/intercept.go:166-235 | Every step of any goroutine or caller keeps the engine's invariant: entries belong to live unresolved pauses, claims are unique, counts and statuses are exact, no pause is stranded |
| `PauseMachine.RunKeepsInv` | internal/intercept/intercept.go:166-235 | The invariant holds in every state of every run, token reuse and panicking callbacks included |
| `PauseMachine.SendNeverBlocks` | internal/intercept/intercept.go:221-235 | Between claiming an entry and sending, the one-slot channel is always empty, so Resolve never blocks |
| `PauseMachine.NeverReopens` | internal/intercept/intercept.go:190-206 | A pause that is no longer unresolved never becomes so again, even when its token is handed out anew |
| `PauseMachine.CarriedResolution` | internal/intercept/intercept.go:221-235 | Whatever resolution is on its way to a pause was presented by a Resolve with the pause's own token while the pause held it |
| `PauseMachine.ResolvedOnce` | internal/intercept/intercept.go:221-235 | No two Resolve steps of a run resolve the same pause |
| `PauseMachine.OneResolutionFromItsToken` | internal/intercept/intercept.go:212-235 | A pause's outcome is exactly the resolution of the single Resolve that presented its token while it held it |
| `PauseMachine.FinishedHasOutcome` | internal/intercept/intercept.go:208-217 | Unless its callback panicked, a pause that no longer waits has received a resolution |
| `PauseMachine.RegisteredAs` | internal/intercept/intercept.go:171-188 | A pause keeps the flow, token and message its goroutine registered it with |
| `PauseMachine.WholeLife` | internal/intercept/intercept.go:166-235 | From any state, registering, announcing, resolving by the token, waking and cleaning up can follow each other and end with exactly that resolution, the token free again |
| `PauseMachine.PanickedLife` | internal/intercept/intercept.go:193-206 | The callback may panic instead; the pause then ends without a resolution and leaves nothing behind |
| `PauseMachine.ResolveReleasesExactlyOne` | internal/intercept/intercept.go:219-235 | A Resolve of a held token releases exactly one pause; of any other token it changes nothing |
| `PauseMachine.CleanUpRemovesOnlyItsOwn` | internal/intercept/intercept.go:193-206 | A pause's deferred cleanup closes that pause and leaves every other one open or closed as it was, even one that reuses its token |
| `PauseMachine.CountsAndStatus` | internal/intercept/intercept.go:184-206 | The per-flow count is the number of that flow's pauses between registration and cleanup, with no zero entries; and, as long as nothing but the engine writes the status, a flow that was ever paused is Pending exactly while it is positive |
| `PauseMachine.AllDoneLeavesNothing` | internal/intercept/intercept.go:193-206 | Once every pause has finished, both maps are empty |
| `PauseMachine.NoPauseStranded` | internal/intercept/intercept.go:208-235 | A waiting goroutine is unresolved, or its resolution is in a caller's hand, or it can wake: a claim is never lost |
| `Engine.Engine.AllocateToken` | internal/intercept/intercept.go:173-183 | The loop terminates and returns the first usable token after the counter, nonzero and not pending |
| `Engine.Engine.Register` | internal/intercept/intercept.go:171-188 | Registration adds exactly one entry, under the next usable token, counts the flow up and marks it pending |
| `Engine.Engine.Claim` | internal/intercept/intercept.go:222-229 | Claiming removes exactly the token's entry, and its channel is then in no entry |
| `Engine.Engine.Resolve` | internal/intercept/intercept.go:221-235 | Resolve reports whether the token was pending, removes exactly that entry and leaves the resolution in its channel |
| `Engine.Engine.Finish` | internal/intercept/intercept.go:193-217 | A drop verdict gives a dropped message, any other the message forwarded with its edit, as received; the entry goes only if it is still this pause's, the count goes down, the status returns to active with the last pause |
| `Engine.Engine.CleanUp` | internal/intercept/intercept.go:193-206 | The cleanup of an unwinding goroutine, which a panicking callback runs as well |
| `Engine.Channel.Send` | internal/intercept/intercept.go:233-233 | The one-slot channel takes a value only when empty, and holds it |
| `Engine.Channel.Receive` | internal/intercept/intercept.go:212-212 | Receiving gives the value that was sent and empties the channel |
| `Prompt.EventKeepsInv` | internal/tui/model.go:734-833 | Every key and notification keeps: injecting implies editing, and an open editor that is not injecting belongs to the active pause |
| `Prompt.EditorBelongsToActivePause` | internal/tui/model.go:734-790 | After any sequence of keys and notifications, edited bytes that are sent descend from the message of the very pause they are sent for |
| `Prompt.NotificationsOnlyQueue` | internal/tui/model.go:790-798 | Later notifications change neither the active pause nor the open editor; they queue in arrival order |
| `Prompt.QueueServedInOrder` | internal/tui/model.go:814-833 | Completing pauses shows the queued ones first in, first out |
| `Prompt.KeysThatDecide` | internal/tui/model.go:604-613 | Which keys decide the pause on show and what: forward unchanged, drop, or send the editor's text; no other key, and none while an overlay, input, leader or the terminal has the keyboard |
| `Prompt.ShownPauseGetsTheKeys` | internal/tui/model.go:800-812 | A pause that is shown takes the keyboard from inputs, leader and terminal, so the next key can decide it |
| `Prompt.NextPauseGetsTheKeys` | internal/tui/model.go:814-833 | So does the next one in the queue after a decision, with the editor closed and empty |
| `Prompt.EditorKeys` | internal/tui/model.go:734-775 | What each key of an open editor that decides nothing does to editor and text |
| `Prompt.TrafficKeys` | internal/tui/model.go:571-631 | What each key of the traffic pane that decides nothing does: the editor opens on the text of the pause on show |
| `Prompt.LeaderKeys` | internal/tui/model.go:502-515 | The key after the leader switches panes, opens the help, or does nothing |
| `Prompt.OverlayKeys` | internal/tui/model.go:355-360 | An overlay keeps the keyboard until it is closed |
| `Prompt.InputKeys` | internal/tui/model.go:364-372 | A text input keeps the keyboard until it is closed, the command line opening the help if asked to |
| `Prompt.Model.EnqueuePause` | internal/tui/model.go:790-798 | The method's new state: queued behind an active pause, otherwise activated |
| `Prompt.Model.ActivatePause` | internal/tui/model.go:800-812 | The method's new state: the item is active and text inputs that would swallow its keys are closed |
| `Prompt.Model.CompletePause` | internal/tui/model.go:814-833 | The method's new state: editor cleared before the oldest queued pause is promoted |
| `Prompt.Model.Decide` | internal/tui/model.go:604-613 | The engine is told the active pause's token with the resolution, then the pause is completed |
| `Prompt.Model.EnterEdit` | internal/tui/model.go:777-788 | The editor opens on the active pause's own bytes |
| `Prompt.Model.OnEditKey` | internal/tui/model.go:734-775 | The editor's keys: send, fix the length, cancel and type, with the inject cases apart |
| `Prompt.Model.OnPaneKey` | internal/tui/model.go:571-631 | The traffic pane's keys, leader included: edit, forward, drop, inject and the overlays |
| `Prompt.Model.OnOverlayKey` | internal/tui/model.go:355-360 | While an overlay is open its keys decide nothing and change no pause |
| `Prompt.Model.OnInputKey` | internal/tui/model.go:364-372 | While a text input is open its keys decide nothing and change no pause |
| `Prompt.Model.OnTrafficKey` | internal/tui/model.go:571-631 | The traffic actions: edit, forward, drop, inject and the panes that take keys, with exactly the pure decision told to the engine |
| `Prompt.Model.OnKey` | internal/tui/model.go:502-631 | The key dispatcher does what the pure transition does; the channel of the pause on show receives forward, drop or the editor's text on exactly their keys, and every other key leaves the engine alone |
| `PauseProtocol.StepKeepsInv` | cmd/cli-capture/main.go:275-278 | Every step of goroutines, the 16-slot pause channel, the program loop and the operator keeps the joint invariant |
| `PauseProtocol.UnresolvedInExactlyOnePlace` | internal/tui/model.go:790-833 | An unresolved pause is in exactly one place - its goroutine's unsent notification, the channel, in flight, the queue or the active slot - and a resolved one in none |
| `PauseProtocol.OperatorResolveSucceeds` | internal/tui/model.go:734-753 | Whenever the operator decides, the engine holds the token on show, for the pause on show: every Resolve the UI issues succeeds |
| `PauseProtocol.ShownInArrivalOrder` | internal/tui/model.go:790-833 | Pauses are shown in the order they were announced and none is lost or skipped |
| `PauseProtocol.DecisionsReachTheirPauses` | internal/tui/model.go:734-753 | The k-th decision goes to the k-th announced pause and to no other, and is what its goroutine has received when it goes on |
| `PauseProtocol.WhatTheOperatorDecides` | internal/tui/model.go:604-613 | A decision is to drop on the drop key, to forward unchanged on the forward key, and the editor's text on send |
| `PauseProtocol.OperatorCanDecide` | internal/tui/model.go:604-613 | With a pause on show and the traffic pane listening both keys decide it |
| `PauseProtocol.OperatorIsThePrompt` | internal/tui/model.go:734-833 | In the whole system the operator's side moves as the prompt alone does, by keys, notifications and decisions |
| `PauseProtocol.ShownIsWhatWasPaused` | internal/intercept/intercept.go:171-188 | What is on show for a pause is the message, flow and token its goroutine paused with |
| `PauseProtocol.PauseIsShown` | cmd/cli-capture/main.go:275-278 | In an idle system a new pause can be announced, received and shown, and then decided by the next key |
| `PauseProtocol.ShownPauseIsDecided` | internal/tui/model.go:604-613 | From any reachable state with a pause on show, its decision can be taken, sent, received and end the pause with that outcome |
| `PauseProtocol.OnlyTheOperatorIsAwaited` | internal/intercept/intercept.go:208-212 | If no goroutine, channel or program step is possible, every pause has finished or one is on show: the protocol never deadlocks |
| `PauseProtocol.MachineRunsOut` | internal/intercept/intercept.go:208-217 | Between the operator's actions and new pauses only boundedly many steps of goroutines, channel and program are possible, however they are chosen: as long as possible steps are taken, a state that awaits the operator is reached |
| `BigEndian.GetPut` | internal/protocol/grpc.go:37-37 | A number below the field's limit is read back from its bytes |
| `BigEndian.PutGet` | internal/protocol/grpc.go:56-56 | Bytes are written back from the number they hold, which is below the limit |
| `BigEndian.GetTwo` | internal/protocol/wsframe.go:51-57 | Two bytes, most significant first |
| `BigEndian.GetFour` | internal/protocol/grpc.go:56-56 | Four bytes, most significant first |
| `BigEndian.GetEight` | internal/protocol/wsframe.go:58-64 | Eight bytes, most significant first |
| `GrpcFrames.SplitContinues` | internal/protocol/grpc.go:97-110 | Cutting a stream into frames can stop and go on anywhere: frames already complete never change with more input |
| `GrpcFrames.FrameLayout` | internal/protocol/grpc.go:29-43 | A written frame: flag 1 or 0, the length in four bytes, the message |
| `GrpcFrames.FirstFrameLayout` | internal/protocol/grpc.go:97-110 | A frame read from a stream: its size from bytes 1 to 4, compressed if the lowest flag bit is set |
| `GrpcFrames.DecodeExactly` | internal/protocol/grpc.go:45-68 | The strict decoder accepts exactly whole frames with flags 0 or 1, and then agrees with the streaming splitter |
| `GrpcFrames.DecodeRefused` | internal/protocol/grpc.go:47-68 | Which refusal a short header, a flag above 1 and a short message give |
| `GrpcFrames.DecodeFront` | internal/protocol/grpc.go:47-68 | A whole frame in front of a body adds its message in front of the rest's |
| `GrpcFrames.DecodeEncoded` | internal/protocol/grpc.go:19-68 | Encoding then decoding gives back the messages |
| `GrpcFrames.EncodeDecoded` | internal/protocol/grpc.go:19-68 | A body that decodes is byte for byte the encoding of what it decodes to |
| `GrpcFrames.EncodeGRPCFrames` | internal/protocol/grpc.go:19-43 | The loop over a growing buffer computes the frames of all messages or fails on one of 2^32 bytes or more |
| `GrpcFrames.DecodeGRPCFrames` | internal/protocol/grpc.go:47-68 | The loop over a shrinking body computes the strict decode, first error included |
| `GrpcReaders.TakeFrame` | internal/protocol/grpc.go:98-108 | A frame is taken off the buffer exactly when it is complete |
| `GrpcReaders.GrpcFramer.Read` | internal/protocol/grpc.go:88-95 | The observer passes on exactly the source's bytes; the messages reported so far are those complete in what was passed on |
| `GrpcReaders.GrpcFramer.Drain` | internal/protocol/grpc.go:97-110 | The loop reports each complete frame once, in order, and leaves the unfinished rest |
| `GrpcReaders.GrpcTamperReader.Read` | internal/protocol/grpc.go:135-143 | For any caller buffer, output is served in order; the source's error comes alone and only after everything owed was served |
| `GrpcReaders.GrpcTamperReader.ReadAll` | internal/protocol/grpc.go:135-159 | For every way the source cuts its bytes and every choice of buffer sizes, the total output is each complete frame transformed once, in order, then the trailing partial bytes unchanged |
| `GrpcReaders.GrpcTamperReader.Fill` | internal/protocol/grpc.go:145-159 | One read is split and transformed, or the rest is flushed; the source gets nearer to its end |
| `GrpcReaders.GrpcTamperReader.Drain` | internal/protocol/grpc.go:161-182 | Each complete frame is put to the transform once and its re-framed result appended |
| `GrpcReaders.WhatAnAnswerSends` | internal/protocol/grpc.go:161-182 | An edit, the empty one included, is sent with the message's own flag, no edit as the message was, an omission not at all; 2^32 bytes or more are not sent |
| `GrpcReaders.WhatAnAnswerRecords` | internal/protocol/grpc.go:161-182 | What is recorded is what was forwarded, edited or not; omitted messages are not recorded |
| `GrpcReaders.WriteFrame` | internal/protocol/grpc.go:29-43 | One frame, or a refusal of a message of 2^32 bytes or more |
| `GrpcReaders.NoEditIsIdentityIffPlain` | internal/protocol/grpc.go:161-182 | A transform that edits nothing is the identity on exactly the streams whose complete frames carry flag 0 or 1 |
| `GrpcReaders.ConcatFrames` | internal/protocol/grpc.go:97-110 | Cutting a stream into frames and an unfinished rest loses nothing |
| `ContentCoding.ChainRoundTrip` | internal/capture/decode.go:35-51 | Decoding undoes encoding through any chain of codings in reverse order, failing exactly when some intermediate exceeds the 64 MiB cap |
| `ContentCoding.DecodeEncoded` | internal/capture/decode.go:88-104 | For any accepted header, encode then strict decode gives the body back if it is empty or within the cap, and the size error otherwise |
| `ContentCoding.DecodeChainSplit` | internal/capture/decode.go:35-51 | Codings are undone from the last: decoding a longer list decodes its end first (RFC 9110 section 8.4) |
| `ContentCoding.HeaderNamesCodings` | internal/capture/decode.go:138-156 | The k-th comma-separated part of the header is the k-th coding, by its trimmed, lowered name, the six names spelled out |
| `ContentCoding.HeaderRefused` | internal/capture/decode.go:138-156 | The first blank or unknown part decides the refusal |
| `ContentCoding.OneCoding` | internal/capture/decode.go:53-136 | What one coding does each way, identity, corrupt input and the 64 MiB cap included; an empty body stays empty |
| `ContentCoding.DecodeUndoesLastFirst` | internal/capture/decode.go:35-51 | A header "a,b" is decoded by undoing b and then a |
| `ContentCoding.EncodeAppliesFirstFirst` | internal/capture/decode.go:88-104 | A header "a,b" is encoded by applying a and then b |
| `ContentCoding.NoCompressionIsIdentity` | internal/capture/decode.go:35-104 | Without a compressing coding both directions are the identity |
| `ContentCoding.AbsentHeaderHasNoCompression` | internal/capture/decode.go:138-156 | A message without the header has no compressing coding |
| `ContentCoding.ParseContentEncodings` | internal/capture/decode.go:138-156 | The loop over the header's parts gives the codings in order, or the first blank or unknown one's error |
| `ContentCoding.EncodeContentEncoding` | internal/capture/decode.go:88-104 | The loop applies the codings first to last; an empty body stays empty |
| `ContentCoding.DecodeContentEncodingStrict` | internal/capture/decode.go:35-51 | The loop undoes the codings last to first and stops at the first failure |
| `CapturedBody.CollectMessages` | internal/protocol/request_body.go:251-313 | The loop collects the client's messages in order, or fails as the first bad one does |
| `CapturedBody.HTTP2NeverInvents` | internal/protocol/request_body.go:152-221 | Whatever an HTTP/2 record holds, what it gives back is its body or the decoding of its bytes, both agreeing where it claims both, and an empty body only if headers or bytes vouch for it |
| `CapturedBody.HTTP2AmbiguousIsRefused` | internal/protocol/request_body.go:196-229 | An unmarked body beside other bytes is refused when a compression is named |
| `CapturedBody.HTTP2PlainBody` | internal/protocol/request_body.go:152-201 | Without compression every recorded body is given back unless the recorded bytes contradict it |
| `CapturedBody.HTTP2MissingBody` | internal/protocol/request_body.go:171-186 | Without compression a missing body is empty when the headers allow it, and unavailable when only the headers were dumped |
| `CapturedBody.GRPCNeverInvents` | internal/protocol/request_body.go:251-313 | The messages given back are those recorded or those decoded, agreeing where both count, usable if compressed, and none at all only if credible |
| `CapturedBody.GRPCUnmarked` | internal/protocol/request_body.go:251-313 | Without a mark the recorded messages are given back, or what the recorded body decodes to |
| `CapturedBody.JoinedHeader` | internal/protocol/request_body.go:247-249 | The Content-Encoding values are joined in order by commas |
| `CapturedBody.CredibleIff` | internal/protocol/request_body.go:377-391 | Which lengths and transfer codings make a missing body credible |
| `CapturedBody.UsableIff` | internal/protocol/request_body.go:364-375 | Which Grpc-Encoding makes compressed messages usable |
| `CapturedBody.NamesCompressionIff` | internal/protocol/request_body.go:339-347 | On accepted ASCII headers, naming a compression is the same whether asked of the text or of the parsed codings |
| `H2Capture.HTTP2BodyIsDecodedWire` | internal/proxy/http2.go:272-287 | After finishing on any wire bytes and any codings, the captured body is the strict decode of the wire or a refusal; every non-empty logical body is returned |
| `H2Capture.HTTP2ReplayKeepsLogicalBody` | internal/protocol/request_body.go:56-87 | Re-encoding a captured body succeeds, and decoding it again gives the same logical body exactly when it is empty or within the cap |
| `H2Capture.ReconciledAfterFinish` | internal/protocol/request_body.go:251-313 | What a finished gRPC capture is reconciled to: the decoded wire, a mismatch only with other recorded messages |
| `H2Capture.ReplayIsExactIff` | internal/protocol/request_body.go:251-313 | With any recorded messages, a capture replays its wire bytes exactly if and only if they are whole valid frames with usable compression, an empty body is credible and the records agree |
| `H2Capture.ObservedReplayIsExact` | internal/proxy/http2.go:129-143 | An observed upload replays exactly if and only if its wire is whole valid frames with usable compression and, when empty, credible from the headers; the records never trip the mismatch error |
| `H2Capture.TamperedStreamSplits` | internal/proxy/http2.go:244-257 | The tampered wire splits into the recorded messages that fit a frame, and the original's unfinished rest |
| `H2Capture.TamperedReplayIsExact` | internal/proxy/http2.go:85-102 | A tampered upload replays exactly if and only if, besides, every recorded edit fits a frame |
| `H2Capture.LongEditIsNotReplayed` | internal/protocol/grpc.go:161-182 | One frame and an edit of 2^32 bytes or more: nothing goes upstream, the edit is recorded and the flow is not replayed |
| `H2Capture.FinishH2RequestCapture` | internal/proxy/http2.go:272-287 | The method overwrites raw bytes, body and representation mark, all three branches |
| `H2Capture.CapturedUpload.Read` | internal/proxy/http2.go:315-332 | Every byte passed upstream is in the captured wire; the record is finished once, at end of file |
| `H2Capture.CapturedUpload.ReadToEnd` | internal/proxy/http2.go:289-332 | Read to end of file in any pieces, the record replays exactly the bytes that went upstream if and only if the conditions of the observed or tampered case hold; an upload not at end of file, or ended by another error, leaves the record as it was, marked unavailable, and refused |
| `H2Capture.ObservedReplaysOn` | internal/proxy/http2.go:129-143 | The record an observed upload leaves replays its wire on the observed conditions, with its messages recorded in any order among the responses |
| `H2Capture.TamperedReplaysOn` | internal/proxy/http2.go:85-102 | The same for a tampered upload, whose recorded edits must fit a frame |
| `H2Capture.CapturedUpload.Close` | internal/proxy/http2.go:334-343 | Closing early finishes the record, at most once, only when a known length was reached, and it then replays on the same conditions; otherwise it stays marked unavailable and is refused |
| `WsFrame.MaskTwice` | internal/protocol/wsframe.go:121-125 | Masking is its own inverse (RFC 6455 section 5.3) |
| `WsFrame.WsMask` | internal/protocol/wsframe.go:121-125 | The loop masks the buffer in place, each byte differing in exactly the bits of its key byte |
| `WsFrame.MaskIsMaskedBy` | internal/protocol/wsframe.go:121-125 | Bit for bit, byte i of the masked payload differs from the original exactly where byte i mod 4 of the key has a one |
| `WsFrame.HelloFrame` | internal/protocol/wsframe.go:36-81 | The masked "Hello" frame of RFC 6455 section 5.7 is read as its five letters |
| `WsFrame.DecodedIsLaidOut` | internal/protocol/wsframe.go:36-81 | Whatever is read stands in the bytes as RFC 6455 section 5.2 lays it out, field by field |
| `WsFrame.EncodedIsLaidOut` | internal/protocol/wsframe.go:83-119 | So does whatever is written |
| `WsFrame.DataOpcodes` | internal/protocol/wsframe.go:127-129 | Opcodes 0, 1 and 2 are data; 8 is the close frame |
| `WsFrame.DecodeEncoded` | internal/protocol/wsframe.go:36-119 | Reading a written frame followed by anything gives the frame and leaves exactly what followed, in all three length forms, masked or not (RFC 6455 section 5.2) |
| `WsFrame.EncodeDecodedIff` | internal/protocol/wsframe.go:36-119 | Writing a frame that was read gives the same bytes if and only if its reserved bits were zero and its length minimal |
| `WsFrame.DecodeAllEncoded` | internal/protocol/wsframe.go:36-119 | Repeated reading of frames written one after another gives them back in order |
| `WsFrame.PartIsNoFrame` | internal/protocol/wsframe.go:36-81 | No proper prefix of a written frame reads as a frame |
| `WsFrame.BufReader.ReadWSFrame` | internal/protocol/wsframe.go:36-81 | The reader consumes exactly the first frame, laid out field by field as in RFC 6455 section 5.2, or fails as the stream does; lengths below 2^63, see Left out |
| `WsSession.StepKeepsInv` | internal/protocol/websocket.go:25-55 | Every step of the pump and of injectors, with writes in pieces and failures anywhere, keeps the wire made of the logged frames |
| `WsSession.WireReadsBack` | internal/protocol/websocket.go:25-55 | In every interleaving what the peer has received reads back as the frames written in full, in lock order: no frame is split by another |
| `WsSession.MergeOfPumpedAndInjected` | internal/protocol/websocket.go:239-278 | Those frames are a merge of the pumped ones, edited or dropped as decided and ending at the first close, with the injected ones, each in its own order |
| `WsSession.InjectedInOrder` | internal/protocol/websocket.go:43-55 | The injected frames on the wire are exactly the accepted Inject calls, in order |
| `WsSession.OnlyDataIsAskedAbout` | internal/protocol/websocket.go:249-270 | Control frames, and without tampering all frames, are forwarded as they are |
| `WsSession.DataIsAskedAbout` | internal/protocol/websocket.go:249-260 | While tampering the hook is asked about every data frame read; other frames go on at once |
| `WsSession.AnswerIsTheVerdict` | internal/protocol/websocket.go:260-268 | The hook's answer is the verdict, and an edit replaces the payload and nothing else |
| `WsSession.WhatIsOwed` | internal/protocol/websocket.go:259-272 | For every decided frame: an edit owes the frame with that payload, no edit the frame itself, an omission nothing |
| `WsSession.WhatStopsThePump` | internal/protocol/websocket.go:244-277 | A read failure, a broken connection or its own close frame stops the pump, and nothing else does |
| `WsSession.InjectedInPieces` | internal/protocol/websocket.go:25-55 | A frame can be injected whenever the lock is free, its bytes cut anywhere; a write that breaks off leaves its first piece and a broken connection |
| `WsSession.PumpedFirst` | internal/protocol/websocket.go:239-278 | Frame by frame what an undisturbed pump writes and records: control frames as they are, data as the hook says with its original payload recorded, the close frame last |
| `WsSession.StoppedPumpIsComplete` | internal/protocol/websocket.go:239-278 | Once the pump has stopped on an unbroken connection it has sent all it owes for the peer's whole stream, or for the stream up to the close frame it sent |
| `WsSession.RecordsOriginalPayloads` | internal/protocol/websocket.go:249-258 | The flow records the original payload of every data frame read, whatever the hook made of it |
| `WsSession.PumpWS` | internal/protocol/websocket.go:239-278 | The loop, undisturbed, writes what the stream's frames come to under the hook and stops at the close frame or a read failure |
| `ReplyFifo.ChunksArriveInOrder` | internal/terminal/vt.go:134-194 | The queue never exceeds 64; what is written is an in-order prefix of what was accepted, which is a subsequence of what was produced |
| `ReplyFifo.DropsNewestExactlyWhenFull` | internal/terminal/vt.go:141-148 | A chunk is dropped exactly when the queue is full, and nothing queued is displaced |
| `ReplyFifo.PumpNeverBlocked` | internal/terminal/vt.go:134-157 | In any reachable state with the pump reading, while the forwarder takes no step, the pump takes in any list of chunks without waiting; the queue then holds the first 64 of what waited followed by the new chunks |
| `ReplyFifo.ChunkIsReceived` | internal/terminal/vt.go:134-176 | In an idle terminal a chunk read is queued and received |
| `ReplyFifo.ChunkIsWritten` | internal/terminal/vt.go:176-194 | A received chunk is written, and the forwarder goes on or, if the write fails, ends |
| `ReplyFifo.StopsOnce` | internal/terminal/vt.go:164-194 | However often Close runs, stop is closed at most once and at most one write starts after it |
| `ReplyFifo.ClosedByClose` | internal/terminal/vt.go:218-231 | The terminal is closed exactly when some Close has run |
| `ReplyFifo.ShutdownTerminates` | internal/terminal/vt.go:233-248 | After Close every further step brings both goroutines nearer to their end, and only a write in progress can hold the forwarder |
| `ReplyFifo.ReplyQueue.Offer` | internal/terminal/vt.go:139-148 | The non-blocking send: kept at the end, or dropped when full |
| `ReplyFifo.ReplyQueue.Take` | internal/terminal/vt.go:175-176 | The receive takes the oldest chunk |
| `ReplyFifo.VT.Close` | internal/terminal/vt.go:218-231 | Close is idempotent and every call returns the first one's error |
| `Attack.ClusterBombIsMixedRadix` | internal/repeater/attack.go:121-153 | A cluster bomb sends as many jobs as the product of the list lengths, and the k-th gives each distinct position the digit of k in their mixed radix, other keys as in Base |
| `Attack.ClusterBombNeverRepeats` | internal/repeater/attack.go:142-151 | Different job numbers differ in some digit, so no combination is sent twice |
| `Attack.ClusterBombOfNone` | internal/repeater/attack.go:121-131 | Without positions or lists a cluster bomb is Base alone |
| `Attack.ClusterBombLastFastest` | internal/repeater/attack.go:133-151 | One position more multiplies the jobs by its list and varies fastest: job q·l + r is job q of the others with payload r |
| `Attack.IndicesAreDigits` | internal/repeater/attack.go:133-151 | The index vector is always the vector of digits of the job number it spells |
| `Attack.SniperIsOneAtATime` | internal/repeater/attack.go:61-78 | The sniper sends as many jobs as the lists that have a position hold payloads; the jobs of one position come together in order, each Base with that position replaced |
| `Attack.SingleIsBase` | internal/repeater/attack.go:115-118 | A single request is Base alone |
| `Attack.PitchforkIsLockstep` | internal/repeater/attack.go:93-110 | The pitchfork sends as many jobs as the shortest list, the k-th of every list together, and none when a position has no list |
| `Attack.BatteringRamIsEverywhere` | internal/repeater/attack.go:80-91 | The battering ram sends one job for each payload of the first list, with that payload at every position and other keys as in Base |
| `Attack.AssignedExactly` | internal/repeater/attack.go:135-137 | Distinct positions receive their own payloads and every other key keeps its value |
| `Attack.Advance` | internal/repeater/attack.go:142-151 | The odometer, in place: the number it spells grows by one, or it was the last |
| `Attack.Assign` | internal/repeater/attack.go:135-137 | Assigning position after position, the later winning |
| `Attack.Consumer.Yield` | internal/repeater/attack.go:138-140 | The consumer sees the jobs in order and may stop at any one |
| `Attack.IterateClusterBomb` | internal/repeater/attack.go:121-153 | One shared map mutated between jobs yields exactly the listed jobs, up to where the consumer stops |
| `Attack.IterateSniper` | internal/repeater/attack.go:61-78 | The same for the sniper, Base restored between positions |
| `Attack.IterateRam` | internal/repeater/attack.go:80-91 | The same for the battering ram |
| `Attack.IteratePitchfork` | internal/repeater/attack.go:93-110 | The same for the pitchfork, whose first loop finds the shortest list or a position without one |
| `Attack.Jobs` | internal/repeater/attack.go:56-119 | In every mode the iteration yields the attack's jobs, and stopping early yields a prefix |
| `Sorting.SortedIsUnique` | internal/repeater/raw.go:22-26 | Sorted lists of the same keys are equal, so what is printed does not depend on the map's order |
| `Sorting.ByFirstDifference` | internal/repeater/raw.go:22-26 | The order is decided by the first difference, a prefix coming first |
| `Sorting.SortedKeys` | internal/export/export.go:67-74 | Keys collected in any order and sorted are the one sorted list of the map's keys |
| `RawRequest.Raw` | internal/repeater/raw.go:17-36 | The builder's loops print the request line, the host unless given, every header value by sorted name, a blank line and the body |
| `RawRequest.ParseRaw` | internal/repeater/raw.go:42-117 | The parser with its header loop computes the parsing function, each refusal included |
| `RawRequest.PrintedLayout` | internal/repeater/raw.go:17-36 | The printed text, piece by piece: request line, Host line when the address names a host and the header none, header lines, blank line, body |
| `RawRequest.HeaderLayout` | internal/repeater/raw.go:22-32 | The header lines: each value of each name on a line of its own, in order |
| `RawRequest.WhatIsParsed` | internal/repeater/raw.go:42-120 | Where each part of a parsed template comes from: method and target, scheme and host of the base or the defaults, body and protocol |
| `RawRequest.WhatIsRefused` | internal/repeater/raw.go:46-55 | An empty or one-word first line is refused, each in its way |
| `RawRequest.WhatAnEditMeans` | internal/repeater/raw.go:84-108 | What an edited gRPC body becomes: the one plain message, or a refusal for a compressed one or several |
| `RawRequest.SplitAtFirstBlank` | internal/repeater/raw.go:182-193 | Any text is cut at its first blank line of either kind, body unchanged |
| `RawRequest.WhatALineAdds` | internal/repeater/raw.go:57-68 | A header line adds the trimmed value under the canonical, trimmed name |
| `RawRequest.LinePassedOver` | internal/repeater/raw.go:57-68 | A blank line and one without a colon add nothing |
| `RawRequest.SplitPrinted` | internal/repeater/raw.go:182-193 | The head and body of a printed request are cut apart exactly, whatever blank lines the body holds |
| `RawRequest.RequestLineFields` | internal/repeater/raw.go:51-55 | A request line of a plain method and target gives back both |
| `RawRequest.HeaderRead` | internal/repeater/raw.go:57-68 | Printed header lines read back as the header without Host and without names that have no value |
| `RawRequest.EditedBodyReadBack` | internal/repeater/raw.go:42-127 | With the body replaced by any text, method, address and header survive and the body arrives byte for byte, as the body or in the one plain gRPC frame; a compressed frame or several refuse an edit |
| `RawRequest.RawReadBack` | internal/repeater/raw.go:17-127 | Printing and parsing against itself gives the template back, gRPC messages included, but for Host and valueless headers |
| `RawRequest.ReadIsPrintable` | internal/repeater/raw.go:42-68 | Whatever text it came from, a parsed template meets the conditions of the round trip on method and header |
| `RawRequest.ReadPrintedReadAgain` | internal/repeater/raw.go:17-117 | A template that was read from any text is a fixed point of printing and reading |
| `ContentLength.FixContentLength` | internal/tui/editor.go:33-64 | The loop over the slice of lines rewrites the first length line or appends one |
| `ContentLength.LengthLineText` | internal/tui/editor.go:54-56 | The line written, in decimal |
| `ContentLength.BoundaryKept` | internal/tui/editor.go:33-64 | The fixed text has its header boundary where the fixed head ends; the separator and every byte after it are the original's |
| `ContentLength.FixedTwiceIsFixedOnce` | internal/tui/editor.go:28-64 | Fixing is idempotent on every text, with CRLF, LF or mixed line ends; a text without a boundary is unchanged |
| `ContentLength.HeadFixed` | internal/tui/editor.go:46-63 | A fixed head is not changed again, and its first length line, by the fixer's own line split, states exactly the body's length |
| `ContentLength.EolOfFixed` | internal/tui/editor.go:46-49 | Fixing keeps the line ending the head is split at, except for one shape of head ending in a carriage return |
| `ContentLength.HowRewritten` | internal/tui/editor.go:50-63 | The head is unchanged around the one line that is written in place of another or appended |
| `ContentLength.BareLinesAreLost` | internal/tui/editor.go:50-57 | A length line in a head with a CRLF is replaced up to the next CRLF: lines behind bare line feeds in it are deleted |
| `ContentLength.ReaderToldTrulyIff` | internal/tui/editor.go:33-64 | A reader of the whole fixed request (RFC 9112 section 2.2: a bare line feed ends a line, the first blank line ends the head) is told, as a number, the length of its own body if and only if the request has a request line, the reader's boundary is the fixer's, and the first length line it sees is one the fixer sees or states the right number; or, if its boundary comes earlier, a missed line states the length of its longer body |
| `ContentLength.SameBodyIff` | internal/tui/editor.go:33-64 | The reader's body is the fixer's, or has its length, if and only if neither the text before the written line nor that after it holds an earlier blank line |
| `ContentLength.ReaderMessage` | internal/tui/editor.go:33-64 | What such a reader takes for head and body of any fixed request, or that it finds no request line: both cuts are given by the text around the written line, before fixing |
| `ContentLength.MessageShape` | internal/tui/editor.go:33-64 | That message is the fixer's head and body, or a shorter head and a longer body |
| `ContentLength.UniformLineEnds` | internal/tui/editor.go:28-64 | In a request whose line feeds are all bare, or all behind a carriage return, the reader is told the length of its own body if and only if the request begins with a line that is neither empty nor a length line |
| `ContentLength.BareBlankLineMisleads` | internal/tui/editor.go:33-64 | A head without carriage returns that holds a blank line, before a CRLF boundary, always misleads, although the fixer sees every length line |
| `ContentLength.EarlierBlankLineMisleads` | internal/tui/editor.go:33-64 | With a blank line of either kind inside a head that has no length line, the reader is told nothing true |
| `ContentLength.BlankLineMisleads` | internal/tui/editor.go:33-64 | One family of such inputs: a bare-LF head with a blank line in it before a CRLF boundary |
| `ContentLength.HiddenLengthLineStays` | internal/tui/editor.go:46-63 | A length line behind a bare line feed in a head with a CRLF is passed over: the reader is told the number it stated before, whatever the body's length |
| `ContentLength.LowerCaseStates` | internal/tui/editor.go:53-54 | A lower-case line is a length line and states its number |
| `Shell.ReplacedIsRequoted` | internal/shellquote/shellquote.go:9-11 | Replacing every quote acts on each character on its own |
| `Shell.SingleRead` | internal/shellquote/shellquote.go:6-11 | A shell reads a quoted NUL-free string as one word with exactly its characters (POSIX Shell Command Language sections 2.2.1 and 2.2.2) |
| `Shell.SingleReads` | internal/shellquote/shellquote.go:6-11 | The same inside any line, and a string with a NUL makes the line unreadable |
| `Shell.ShellCommand` | internal/runner/runner.go:88-109 | The loop builds the login shell's argument list, or the bare login shell for no arguments |
| `Shell.BareCharacters` | internal/runner/runner.go:95-109 | Which characters a first argument may stay bare with |
| `Shell.CommandLineReads` | internal/runner/runner.go:92-109 | The command string is read as exactly the argument list if and only if no argument holds a NUL |
| `Shell.CommandLineRunsIff` | internal/runner/runner.go:79-113 | Whatever further words the shell reserves: it runs the first argument as the command if and only if that is not a bare assignment nor a word reserved by the standard (its unspecified words and names with a colon included) or by the shell |
| `Shell.AssignmentIsNotRun` | internal/runner/runner.go:92-113 | Four argument lists whose first word is left bare and not run: an assignment, `if`, `select` and a name with a colon |
| `Shell.Curl` | internal/export/export.go:46-65 | The nested loops write the text: every header but Host by sorted name, then the body; flows that cannot be exported are refused |
| `Shell.AddressOfFlow` | internal/export/export.go:25-37 | The address: scheme by the connection, default port left out, path appended |
| `Shell.MethodOfFlow` | internal/export/export.go:39-44 | The recorded method, or GET |
| `Shell.WhatCanBeExported` | internal/export/export.go:16-23 | HTTP/1.1, HTTP/2 and gRPC flows with a request |
| `Shell.HostNames` | internal/export/export.go:54-56 | Which header names are taken for Host |
| `Shell.ArgumentsOfRequest` | internal/export/export.go:53-64 | The arguments are the headers' by sorted name, then the body if there is one |
| `Shell.HeadersInTurn` | internal/export/export.go:53-60 | Each header but Host in turn |
| `Shell.HeaderArgumentsAre` | internal/export/export.go:57-59 | Each value as "name: value" |
| `Shell.CurlReadsGivenMethod` | internal/export/export.go:46-65 | For a method whose characters need no quoting where they stand the text is read, through quotes and line continuations, as exactly the intended words, unless something holds a NUL |
| `Shell.CurlReadsIff` | internal/export/export.go:52-52 | The text is read as intended, the method a bare word, if and only if no character of the method needs quoting where it stands and nothing holds a NUL |
| `Shell.MethodExamples` | internal/export/export.go:52-52 | `A#B` needs no quoting, `#A` and the tokens `A|B` and `A&B` do |
| `Shell.OperatorSplitsCommand` | internal/export/export.go:52-52 | A method with an operator in it after plain characters, such as `A&B`, is cut there - the command ends or, at `<` and `>`, is redirected - so the text is no plain single command |
| `Scope.GlobToRegexp` | internal/scope/scope.go:219-234 | The loop over the builder computes the compiled expression |
| `Scope.PiecesOfCharacters` | internal/scope/scope.go:219-234 | What each character of a glob becomes: wildcards their expressions, every special character escaped, all others themselves |
| `Scope.CompiledParses` | internal/scope/scope.go:219-234 | Every compiled expression is well formed, one node for each character of the glob, however its characters quote |
| `Scope.CompiledMatchesExactly` | internal/scope/scope.go:216-234 | The expression compiled from any glob is found in exactly the texts the glob matches, neither wildcard crossing a newline |
| `Scope.CanonicalDNSCase` | internal/scope/scope.go:236-253 | Lowering a copy in place from the first capital on is ASCII folding of the whole text |
| `Scope.FoldedGlob` | internal/scope/scope.go:91-115 | Folding pattern and text before matching is matching that ignores ASCII case |
| `Scope.Condition.Compile` | internal/scope/scope.go:91-113 | A compiled glob holds exactly the texts its pattern, folded on the host, matches; only a bad regular expression fails |
| `Scope.FieldsOfTarget` | internal/scope/scope.go:62-79 | Which part of the target each field is, Any all five joined by spaces |
| `Scope.Condition.Match` | internal/scope/scope.go:116-139 | On the host, substring, exact and glob conditions ignore ASCII case; elsewhere case counts; negation flips; an uncompiled glob matches nothing |
| `Scope.HostVerdictIgnoresCase` | internal/scope/scope.go:116-139 | A host condition decides the same for every ASCII spelling of pattern and host |

## Left out

- Sockets, TLS, certificates, PTY and process launch, netfilter rules and files: their outcome is decided outside the code modelled here.
- `capturedHTTP1Body` and `HTTP1.handle`: their meaning is `net/http`'s parsing, which is not part of this model.
- gzip, deflate, br and zstd: abstract functions (`ContentCoding.Codecs`) that are assumed to invert each other and to encode non-empty input to non-empty output (`Lawful`).
- `url.Parse` and `net.SplitHostPort`: parameters of `RawRequest` and `Shell`; the round trip asks that the printed target is read as a relative one and, for the same address, that parsing takes the address apart as it was put together.
- `regexp`: `Scope` gives a meaning to the part of its syntax that globs compile to, and assumes an engine that agrees with it there (`Faithful`); regular expressions written by the user are an abstract function.
- Flow history, identities, summaries, timestamps, Store notifications, status texts, rendering, mouse and counts typed before a key: display only.
- Typing in the editor: any key may turn the text into any other, which covers what the text area does.
- Injecting through the UI: `Prompt` opens and closes the composer; the frame itself goes through `WsSession`.
- `Engine` models the body of each critical section; that the mutex makes them atomic is what `PauseMachine` takes as its steps.
- The wait with a timer at the end of `VT.Close`: `ReplyFifo.ShutdownTerminates` says what it waits for.
- nil and empty byte slices are told apart for a hook's answer and a resolution's edit, where nil means unchanged, and not elsewhere.
- Invalid UTF-8: headers, request texts, globs, hosts and shell words are sequences of code points.
- Unicode case folding beyond what can meet an ASCII name, and Unicode white space outside the basic plane (there is none).
- A token loop with all 2^64 - 1 values pending, which does not end: `Engine` asks for a usable token, and `Tokens.NextExistsIffSomeUsable` shows that this is the exact condition.
- Panicking callbacks in `PauseProtocol`, whose callback is the installed one, a channel send: they are in `PauseMachine`.
- Brace and history expansion, a tilde after `=` or `:` in an assignment, and double-quoted expansions of a shell; aliases and job names are among what `Shell.CommandLineRunsIff` takes as a parameter.
- `PauseMachine.CountsAndStatus`: the HTTP/2 proxy also writes a flow's status (internal/proxy/http2.go:112, 157 and 165, among others), so its status half, like that of `Engine`, is about flows nothing else marks meanwhile; counts and tables are not affected.
- `WsFrame.BufReader.ReadWSFrame`: for a frame announcing 2^63 bytes or more, or more than can be allocated, the allocation at internal/protocol/wsframe.go:70 panics, where the model gives an error value or reads on.
- `ContentLength.ReaderToldTrulyIff`: the reader knows no line folding (RFC 9112 section 5.2) and no Transfer-Encoding, and goes by its first Content-Length line. It does not skip empty lines before the request line, and takes any first line that is neither empty nor a length line for one.
- Rule precedence, `Set.Eval`, configuration, variable substitution and key tables: short, or without a strong law.
