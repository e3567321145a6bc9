# espcan_br in Dafny

A Dafny 4.11 model of the espcan_br firmware (an ESP32 bridge between a CAN bus and several SLCAN
hosts over UART, TCP and TLS) and of the host tool that reads its streams, with proofs of what the
pieces promise together. `dafny verify dfyconfig.toml` checks everything.

## What is modelled

**The bridge as a concurrent protocol.** `Can` is the reference-counted `CanManager` with its bounded
transmit; `Protocol` is `dispatch` with the protocol table it implements; `LineAssembly` and `Port` are
`run_port` cut at its `await` points; `PortTask` is the same code as an imperative class and is proved to
be one run of those cuts. `Bridge` is the step system: any number of port tasks, one manager, one 16-slot broadcast queue, the TWAI driver
as an adversary. `BridgeTheorems` states, for every state of every interleaving, what a user relies on:
the count is the set of open ports, nobody loses the bus to someone else, bitrate and mode are fixed for
an on-bus epoch, frames arrive in order and are all accounted for, transmissions are conserved, every
command is answered in its turn as the table says, the bytes on a link give the host exactly what was sent,
and the ports' dialogues tell exactly what was done to the manager and which frames went on the bus.
`BridgeTraces` ties the states to the environment's actions: which frames were polled, where a subscription
starts, which bytes arrived, and what each step writes.

**The codec and its two implementations.** `Slcan` proves that `parse_tx` accepts exactly the printed
forms of canonical frames up to the case of hex digits; round trips, canonicalisation and gateway
transparency (`Can`) follow. `HostTool` models `tools/slcan_tool.py` independently (Python `int`,
`bytes.fromhex`, slicing) and proves that it reads back any stream a port can write.

**The streaming algorithms around it.** `Base64` (32-bit accumulator against the group-of-four decoding
of section 4 of RFC 4648), `HttpRead` (segmentation independence, section 6 of RFC 9112), `Auth` (form,
stored credentials, Basic authentication, section 2 of RFC 7617), `Mdns` (section 3.1 and section 4.1 of
RFC 1035, with a record reader for the answers), `Pinning` (captured key to pin), `Flash` (four record slots, and the credential and pin chains
across a reboot), `Led` (sliding window over wrapping counters). `Text` holds the string operations they
share; `Unicode` relates its byte-level UTF-8 check and trimming to code points.

Modelling choices: one step of the bridge is a stretch of a task between two `await` points, or one polled
frame, so a lock region is atomic and everything else interleaves; sending the token on a new auto-connect link
touches nothing shared and is part of the step that brings the link up. `select`, the mutex and the broadcast
channel are taken at their documented behaviour; a broadcast frame is an index into the log of polled
frames and each subscriber has a cursor, which `Port.PublishIsEnqueue` and `Port.ReceiveIsDequeue` relate
to a 16-slot drop-oldest queue. Writes to a link are reliable, since the code ignores their errors. Driver
answers, status flags, the clock, TCP segmentation, the salt, the hash function and the signature check are
parameters, and the theorems hold for all of them.

Where documentation and code differ the model follows the code: the longest formatted frame is 31 bytes, not
the 30 of the comment in src/slcan.rs:15-17; `F` reports live flags although README.md:314 still says `00`;
the firmware is a set of async tasks and not the single loop of README.md:297.

Five promises hold only under a condition, which is proved to be exact: request reading is independent of
segmentation if and only if nothing follows the request (`HttpRead.IndependentIffNoExcess`, with an input where
it is not in `HttpRead.ExcessExample`); the controller carries a frame unchanged if and only if its identifier
is in range, the 16-bit truncation aliasing others (`Can.EspRoundTrip`, `Can.TruncationAliases`); a saved Wi-Fi
or device record is loaded back if and only if its key field is not empty (`Flash.LoadSaved`,
`Flash.SettersValid`); the firmware's parser reads a line of the host's encoder as the frame that was meant if and only
if the payload has at most 8 bytes, and refuses a longer one if and only if the leading hex digit of its length
is above 8, so that 9 to 15 bytes are refused but every payload of 16 bytes is taken for a one-byte frame
(`HostTool.EncodedAcceptedIff`, `HostTool.SixteenBytesMisread`); the token line that an auto-connect link
carries first leaves the host's statistics alone if and only if it holds no BEL and completes only lines the
host ignores, which a token with a CR in it need not do (`HostTool.GreetingHeard`, `HostTool.LoudToken`).

## Model

| member | source | states |
|---|---|---|
| BridgeTheorems.RunInv | src/transport.rs:59-122 | every state of every run of any number of tasks keeps the bridge invariant: counts, session histories, manager log and counter totals |
| BridgeTheorems.CountIsOpenPorts | src/can.rs:84-99 | in every reachable state `open_count` is the number of ports whose own flag is set, so it cannot under- or overflow, and the controller is on exactly while that set is non-empty |
| BridgeTheorems.OthersKeepTheBus | src/transport.rs:161-174 | no step of another task, including repeated `O`/`L`/`C` and link loss, changes a port or takes the bus from it |
| BridgeTheorems.TransmitHasController | src/can.rs:102-105 | a port waiting to transmit is open and finds a controller, so the "no controller" branch is never taken |
| BridgeTheorems.ControllerFollowsLog | src/can.rs:70-89 | whenever the controller is on, its bitrate is that of the last accepted `Sn` (500 kbit if none) and its mode that of the `O`/`L` that found the bus closed |
| BridgeTheorems.EpochFixed | src/can.rs:84-99 | bitrate and mode do not change over any stretch of a run in which the controller stays on |
| BridgeTheorems.PortHistory | src/transport.rs:124-198 | in every run, what each task did to the manager and the bus, in order, is exactly what its dialogues tell: references taken and given back, bitrates set, frames sent |
| BridgeTheorems.FramesAndRates | src/transport.rs:153-195 | per port, the frames put on the bus are the parsed frames of its confirmed lines and the bitrates set are those of its `Sn` lines answered with CR, in order |
| BridgeTheorems.LockRegion | src/can.rs:70-114 | in every run, `Sn` is acknowledged exactly for S2-S8 while no port is open, a frame is confirmed exactly if its id is in range and the driver takes it, the first opener sets the mode, and the controller stops exactly with the last port |
| BridgeTheorems.HostSeesPort | tools/slcan_tool.py:153-189 | for every run, the bytes on a port's link fed to the host reader give nak = BELs, ack = bare CRs plus z/Z, rx = forwarded frames, and the decoded frames in order, with nothing left half-read, on top of what the reader makes of an auto-connect greeting; that is nothing exactly if the greeting is silent |
| BridgeTheorems.DeliveryIsOrdered | src/transport.rs:105-114 | forwarded frames are an order-preserving, duplicate-free selection of those polled since subscription; forwarded + discarded while closed + overwritten + still queued = published |
| BridgeTheorems.NoFrameWhileClosed | src/transport.rs:105-114 | no frame stands in a stream between the answer to `C` and the answer to the next `O`/`L`; timestamps likewise follow `Z0`/`Z1` |
| BridgeTheorems.CommandsFollowBytes | src/transport.rs:75-104 | the commands a port acts on are a function of the bytes received, however split or interleaved; the n-th reply answers the n-th of them as the protocol table says for the channel state the stream shows, and an overflow gets BEL; at most the last is unanswered |
| BridgeTheorems.TransmissionsConserved | src/transport.rs:175-195 | successful transmissions = frames in the bus history = confirmations sent + ports between transmit and reply; valid frames arrived = transmitted + refused + waiting for the lock; SER_IN and TCP_IN are the valid frames among the commands of the serial and of the other ports, the out counters the frames written |
| BridgeTheorems.SubscribersFit | src/main.rs:265-298 | with the firmware's four tasks live subscribers never exceed 4, a task about to subscribe finds a slot, and TCP_CLIENTS is the number of connected TCP/auto-connect tasks, between 0 and 3 |
| BridgeTheorems.NeverStuck | src/transport.rs:66-122 | at the `select` a task can take exactly any chunk of 1 to 64 bytes, a queued frame, or the end of its link; wherever else it is suspended inside `run_port` its next step is possible |
| BridgeTraces.SubscribedFrom | src/main.rs:286-298 | from the step that brings a link up until it goes down, the subscription starts at what had been published at that step, and every frame forwarded was polled after it |
| BridgeTraces.Provenance | src/transport.rs:59-104 | in every state the frames published are those polled, and each task's life, subscription, token and input are what the environment's actions say: every byte delivered was taken in order |
| BridgeTraces.FrameTaken | src/transport.rs:105-114 | taking a broadcast frame issues the front of the queue exactly if the stream shows the channel open, stamped with the time of the step exactly if it shows timestamps on |
| BridgeTraces.UnitWritten | src/transport.rs:105-114 | a write puts exactly the issued unit on the link; a stamped frame ends in four hex digits that denote the time it was taken, and CR |
| BridgeTraces.GreetingOnLink | src/autoconnect.rs:298-306 | an outbound stream starts with `H`, the token and CR, any other with the port's own units |
| BridgeTraces.LinkSteps | src/autoconnect.rs:357-390 | client counter and subscriptions change exactly when a link comes up, is left, and has cooled down |
| BridgeTraces.OutsideMoves | src/autoconnect.rs:309-398 | exactly which steps are possible outside `run_port`, and frames are polled exactly while some port is open |
| Bridge.StepKeeps | src/can.rs:54-149 | every enabled step preserves the invariant |
| Bridge.LogKeeps | src/can.rs:70-99 | open, close and an accepted bitrate change keep the manager equal to what its history says |
| Bridge.MoveRecorded | src/transport.rs:59-122 | every step of a task extends what its dialogues tell by exactly what the step did to the manager and the bus |
| Protocol.SendsIffConfirmed | src/transport.rs:184-194 | a z/Z confirmation is given exactly when the frame was put on the bus |
| Protocol.ServeTold | src/transport.rs:131-197 | line, channel state and reply together tell exactly what a lock region did |
| Protocol.SayTold | src/transport.rs:131-197 | a line answered without the lock gets the table's reply, which tells that nothing was done |
| Protocol.AnsweredByTable | README.md:236-256 | every line, in every state, gets exactly one reply and it is one the protocol table allows for that line and channel state |
| Protocol.TableInBytes | README.md:233-256 | the table's replies byte by byte |
| Port.ByteKeeps | src/transport.rs:75-104 | one byte of input preserves a session's histories |
| Port.ServeKeeps | src/transport.rs:131-197 | one lock region preserves them |
| Port.FrameKeeps | src/transport.rs:105-114 | taking one broadcast frame preserves them |
| Port.FramesAccountedFor | src/can.rs:28-29 | the accounting identity for one subscriber of the 16-slot queue |
| Port.PublishIsEnqueue | src/can.rs:153-173 | publishing is an append to a 16-slot queue that drops its oldest frame when full |
| Port.ReceiveIsDequeue | src/transport.rs:66-71 | receiving takes the front of that queue and forwards exactly that frame if the port is open |
| Port.QueueHolds | src/can.rs:28-29 | nothing is lost while at most 16 frames are outstanding; beyond that the last 16 remain |
| PortTask.Task.Dispatch | src/transport.rs:124-198 | the dispatcher as imperative code computes the planned reply, flags, manager state and counters |
| PortTask.Task.DispatchTx | src/transport.rs:175-195 | the transmit arm |
| PortTask.Task.DispatchControl | src/transport.rs:131-174 | every other arm |
| PortTask.Task.HandleByte | src/transport.rs:78-98 | one iteration of the byte loop on the 64-byte line array: line, flags, manager, bytes written, and both counters modulo 2^32 |
| PortTask.Task.HandleBytes | src/transport.rs:75-104 | a whole chunk is its bytes in order; the in counter grows by the valid frames among the commands the assembler completes, the transmit counter by the confirmations given |
| PortTask.Task.HandleFrame | src/transport.rs:105-114 | forwards exactly the formatted line when open and counts it |
| PortTask.Task.HandleStop | src/transport.rs:118-121 | gives the bus back exactly if this port held it |
| PortTask.TurnIsMoves | src/transport.rs:75-104 | the imperative turn equals the atomic steps taken back to back: same flags, manager, units and bytes |
| Protocol.ChannelCommands | README.md:238-241 | `O`, `L`, `C` of the protocol table: final state, mode, and no effect when repeated |
| Protocol.SettingCommands | README.md:238-249 | `Sn` is accepted exactly for S2-S8 with the channel closed everywhere; `Z0`/`Z1` set the timestamp mode |
| Protocol.FrameCommands | README.md:242-245 | a transmit command is confirmed exactly under the five conditions, with the letter of its id width, and otherwise gets BEL |
| Protocol.OtherCommands | README.md:246-256 | version, serial, status byte in hex, tolerated no-ops, BEL for the rest |
| LineAssembly.SegmentClosedForm | src/transport.rs:60-104 | a CR-terminated segment of m non-LF bytes causes m/65 overflow BELs and dispatches its last m mod 65 bytes, or nothing if that is 0 |
| LineAssembly.StreamClosedForm | src/transport.rs:60-104 | the same for whole streams of segments |
| LineAssembly.TakeAllConcat | src/transport.rs:66-78 | splitting the input into reads makes no difference |
| LineAssembly.BufferFits | src/transport.rs:60-61 | the line buffer never outgrows 64 bytes and never holds a terminator |
| Can.TryTransmit | src/can.rs:262-278 | at most 51 attempts whatever the driver answers; success exactly if it takes the frame within the budget after only blocking |
| Can.CanManager.Open | src/can.rs:84-89 | starts the controller with the current bitrate and requested mode exactly on the first open |
| Can.CanManager.Close | src/can.rs:92-99 | stops it exactly on the last close |
| Can.CanManager.SetBitrate | src/can.rs:70-81 | changes the bitrate exactly for a supported digit while fully closed |
| Can.CanManager.Transmit | src/can.rs:102-114 | succeeds exactly with a controller, a sendable frame and a willing driver, and counts it |
| Can.CanManager.PollRound | src/can.rs:153-173 | one poll round publishes the first at most 16 received frames in order, and counts them |
| Can.BitrateTable | src/can.rs:176-205 | the supported digits and the bitrates their timings give |
| Can.EspRoundTrip | src/can.rs:225-255 | the controller carries a frame unchanged if and only if its identifier is in range |
| Can.EspFields | src/can.rs:225-236 | the controller is given identifier, width, remote flag, length and every payload byte in place |
| Can.FrameFields | src/can.rs:238-255 | a received frame has them in place, padded with zeros |
| Can.TruncationAliases | src/can.rs:229-229 | a frame whose identifier the 16-bit truncation aliases |
| Can.TruncationLossless | src/can.rs:225-236 | on everything the parser produces the truncation is lossless and the range check exact |
| Can.ReceivedIsOnBus | src/can.rs:238-255 | every received frame is canonical and in range |
| Can.GatewayTransparent | src/can.rs:225-255 | an accepted line with an in-range id, sent through the controller and formatted again, is its consumed prefix with hex digits upper-cased, plus CR |
| Slcan.ParseIffSpells | src/slcan.rs:71-112 | a line is parsed to f if and only if f is canonical and the line starts with the printed form of f up to hex case |
| Slcan.ParsePrinted | src/slcan.rs:71-164 | parsing a printed frame gives it back with bytes past its payload zeroed, whatever follows |
| Slcan.ParseFormatted | src/slcan.rs:71-164 | the round trip for formatted lines with any timestamp |
| Slcan.FrameLineLength | src/slcan.rs:15-17 | the exact formatted length, at most 31 of the 32 bytes |
| Slcan.StampDenotes | src/slcan.rs:154-159 | the four digits after the body denote the timestamp |
| Slcan.KnownLines | src/slcan.rs:119-164 | one line of each kind, field by field |
| Slcan.FrameIsOneLine | src/slcan.rs:119-164 | a formatted line contains no CR, LF or BEL before its final CR |
| Slcan.ParseTx | src/slcan.rs:71-112 | the imperative parser computes the specified result |
| Slcan.FormatFrame | src/slcan.rs:119-164 | the in-place printer writes exactly the line, which `ParseFormatted`, `StampDenotes` and `KnownLines` characterise, and nothing past it |
| Hex.ParseHex | src/slcan.rs:55-61 | succeeds exactly on hex digits, with the value modulo 2^32 |
| Hex.DigitTable | src/slcan.rs:37-53 | the sixteen digits, printed in upper case and read in either |
| Hex.ValueOfPrinted | src/slcan.rs:45-61 | printed digits denote the number |
| Hex.PrintedOfValue | src/slcan.rs:45-61 | the digits of a parsed number are the upper-cased input |
| HostTool.HostRecovers | tools/slcan_tool.py:153-189 | any sequence of valid units is recovered by the reader between lines: counters, frames and order |
| HostTool.DecodePrinted | tools/slcan_tool.py:65-94 | the host decodes a formatted line to the frame, with or without timestamp |
| HostTool.KnownFrames | tools/slcan_tool.py:50-94 | encoded and decoded lines with every field in place |
| HostTool.ParseEncoded | tools/slcan_tool.py:50-62 | the firmware parser inverts the host encoder for payloads of at most 8 bytes: the identifier read is the one given if that is in range, and otherwise congruent to it modulo 2^11 or 2^29 |
| HostTool.EncodedAcceptedIff | tools/slcan_tool.py:50-62 | for every payload, the firmware parser accepts an encoded line if and only if the leading hex digit of the payload length is at most 8, and reads the frame that was meant if and only if the payload has at most 8 bytes |
| HostTool.SixteenBytesMisread | tools/slcan_tool.py:114-121 | every 16-byte payload, which the tool lets through, is taken for a one-byte frame, and for which one |
| HostTool.GreetingHeard | src/autoconnect.rs:298-306 | the `H<token>` line leaves nothing half-read and is unnoticed by the reader if and only if it is silent, as it is for every token without CR, LF and BEL |
| HostTool.LoudToken | src/autoconnect.rs:298-306 | a token for which it is not |
| HostTool.SilentIff | tools/slcan_tool.py:153-189 | a stream leaves the reader's statistics untouched if and only if it has no BEL and completes only ignored lines |
| HostTool.Reader.Chunk | tools/slcan_tool.py:153-171 | the reader's byte loop computes the specified state |
| HostTool.Reader.Dispatch | tools/slcan_tool.py:173-189 | the line handler computes the specified state |
| Base64.Decode | src/http.rs:170-191 | succeeds exactly when all n letters before the first `=` are valid and 6n/8 bytes fit; the 32-bit accumulator yields the group-of-four decoding and leaves the rest of `dst` alone |
| Base64.RoundTrip | src/http.rs:168-202 | decoding inverts encoding for every payload that fits, padded or not |
| Base64.GroupIsNumber | src/http.rs:168-191 | four letters and the three bytes they decode to are the same 24-bit number (section 4 of RFC 4648) |
| Base64.KnownText | src/http.rs:168-202 | a test vector of section 10 of RFC 4648 |
| Base64.DecodedLength | src/http.rs:170-191 | n letters give 6n/8 bytes |
| HttpRead.ReadRequest | src/http.rs:49-80 | the read loop with its buffer, `pos` and `need` computes the specified buffer, end-of-stream and error outcomes |
| HttpRead.ExactRequestRead | src/http.rs:52-80 | a request that is its headers plus its Content-Length body and fits is read whole under every split |
| HttpRead.AnnouncedRequestRead | src/http.rs:224-233 | the same for a request that announces its body length in a Content-Length line after any other lines |
| HttpRead.AnnouncedEnd | src/http.rs:70-75 | where a request ends whose headers announce a body: after it, or at 1024 bytes |
| HttpRead.SilentEnd | src/http.rs:224-233 | headers that are not UTF-8 or give no length announce no body |
| HttpRead.LineLengthIff | src/http.rs:226-232 | a line gives a length if and only if it is Content-Length in any case, a colon and a number below 2^32, with any white space around both |
| HttpRead.IndependentIffNoExcess | src/http.rs:57-80 | all splits end with the same full buffer if and only if the bytes sent do not run past the request |
| HttpRead.SplitsDisagree | src/http.rs:57-80 | otherwise one segment and byte-by-byte delivery already differ |
| HttpRead.ExcessExample | src/http.rs:57-80 | a five-byte input for which they do |
| HttpRead.NeedStable | src/http.rs:70-75 | the first blank line, and so `need`, is stable on growing prefixes |
| HttpRead.GatherBounds | src/http.rs:57-80 | the loop reads a prefix, never stops before the target while there is more, and never overruns the buffer |
| Text.FindSubslice | src/http.rs:219-221 | the first position of the needle |
| Unicode.Utf8Iff | src/http.rs:143-145 | the UTF-8 check accepts exactly the encodings of sequences of scalar values |
| Unicode.TrimBlanks | src/http.rs:160-161 | trimming removes all surrounding characters with the White_Space property |
| Unicode.TrimSound | src/http.rs:160-161 | and nothing else |
| Auth.UrlDecodeInto | src/http.rs:674-691 | the in-place form decoder computes the specified bytes and leaves the rest alone |
| Auth.DecodeEncodes | src/http.rs:674-691 | every form encoding decodes to its payload, cut to the room there is |
| Auth.StrayPercent | src/http.rs:678-687 | a percent sign without two hex digits stands for itself |
| Auth.FormFields | src/http.rs:668-672 | both fields of the login form are found |
| Auth.CtEq | src/config.rs:455-461 | the constant-time comparison decides equality |
| Auth.AuthConfig.Set | src/config.rs:392-412 | stores or clears credentials |
| Auth.AuthConfig.Verify | src/config.rs:417-426 | accepts exactly the stored user and a password with the stored hash, or anything if unset |
| Auth.SaveAuthOutcome | src/http.rs:612-640 | a form is rejected exactly if the user name, cut to 32 bytes, holds a colon; otherwise the login is set exactly if neither field is blank, and off for everybody if one is |
| Auth.NothingKept | src/config.rs:392-401 | switching the login off leaves no user, salt or hash behind |
| Auth.TokenOfLine | src/http.rs:153-166 | an authorization line in any case, with either spelling of Basic and any white space, gives its token |
| Auth.TokenIsFromLine | src/http.rs:153-166 | and only such a line does |
| Auth.TokenOfRequest | src/http.rs:153-166 | the first such line decides, and none is looked for after a blank line |
| Auth.ClaimShape | src/http.rs:136-149 | a request claims at most 128 bytes of UTF-8, cut at the first colon |
| Auth.CredentialsAccepted | src/http.rs:128-150 | credentials posted through the form are accepted when sent with Basic authentication, for any encoding, salt, hash, preceding headers and spelling of the authorization line |
| Auth.OnlyStoredCredentials | src/http.rs:128-150 | for any salt and hash, once credentials are set a request is accepted if and only if it claims the stored user and a password with the stored hash |
| Auth.StoredCredentialsExactly | src/http.rs:128-150 | so unless the claimed password collides with the stored one, exactly the stored credentials are accepted |
| Mdns.BuildResponse | src/mdns.rs:103-161 | over all byte strings, answers exactly the queries for `host.local` A/ANY IN, with exactly 34 + host bytes, which a reader of section 4.1 of RFC 1035 takes for an authoritative response with the echoed id and the one record `host.local` A IN (cache-flush) 120 s with the address |
| Mdns.AsksIff | src/mdns.rs:103-150 | the responder's condition is what a reader sees: a query with a question whose first name has the two labels in any case, type A or ANY, class IN |
| Mdns.WalkIffWireName | src/mdns.rs:115-144 | the label walk succeeds exactly on the wire form of the two labels in any case |
| Mdns.BuildAnnouncement | src/mdns.rs:90-100 | the announcement exists exactly if it fits 512 bytes, and a reader takes it for the same record with id 0 |
| Mdns.AppendARecord | src/mdns.rs:164-176 | appends the whole record or fails; a reader at its start gets name, type, class, TTL and address |
| Mdns.RecordRead | src/mdns.rs:164-176 | the record built after any bytes is read back with every field in place |
| Mdns.OwnNameAsked | src/mdns.rs:164-176 | the name, type and class printed in an answer are a question the responder answers |
| Pinning.ParsePubkey | src/autoconnect.rs:271-284 | accepts exactly 130 hex digits of a point starting with 04, as its bytes |
| Pinning.PubkeyIff | src/autoconnect.rs:271-284 | a text is accepted as a key exactly if it is its 130 hex digits in either case |
| Pinning.ExtractIff | src/autoconnect.rs:98-105 | a key is extracted if and only if the certificate carries it: 04, X and Y right after the first bit-string header that a 04 follows |
| Pinning.ParseUrl | src/autoconnect.rs:221-259 | the URL parser computes the specified fields |
| Pinning.UrlIff | src/autoconnect.rs:221-259 | a URL is accepted if and only if it is `tls` or `tcp`, `://`, a host, `:`, a port below 65536, any slashes and perhaps a query; the fields are those |
| Pinning.LastWins | src/autoconnect.rs:239-251 | the last pair of a key wins |
| Pinning.ParseQuery | src/autoconnect.rs:239-251 | later query pairs overwrite earlier ones |
| Pinning.WrittenParses | src/autoconnect.rs:221-259 | a URL written with a key, host, port and token is parsed to those fields |
| Pinning.PortReadsBack | src/autoconnect.rs:233-234 | a port written in decimal is read back |
| Pinning.ShownKeyParses | src/autoconnect.rs:98-105 | the key a certificate carries, shown as hex, parses back to itself |
| Pinning.ShownKeyPins | src/autoconnect.rs:327-338 | written into a URL with any host, port and token, the shown key becomes exactly the pin |
| Pinning.Verifier.VerifySignature | src/autoconnect.rs:142-178 | accepts exactly an unreadable key without pin, or a key that equals the pin if any and verifies the signature; flags a mismatch exactly when the keys differ |
| Pinning.PinSession | src/autoconnect.rs:126-156 | after copying the key of one connection, the next passes exactly if its certificate carries the same key and the signature verifies, and is flagged exactly if it carries another |
| Flash.LoadSaved | src/config.rs:102-130 | a load after a save returns the record if and only if it is valid |
| Flash.LoadedIff | src/config.rs:90-99 | which partition contents load at all: the magic number in its place, and a network or device name that is not empty |
| Flash.SavedPlaces | src/config.rs:33-45 | where every field of every saved record is in the partition |
| Flash.LoadOther | src/config.rs:17-31 | a save disturbs no other slot |
| Flash.LoadAfterHistory | src/config.rs:204-232 | after any history of saves each load returns the last record of its own kind |
| Flash.ReadImage | src/config.rs:87-99 | the C layout of every record is read back exactly |
| Flash.Nvs.Save | src/config.rs:116-130 | writes exactly the slot image |
| Flash.Nvs.Load | src/config.rs:102-114 | reads exactly the slot |
| Flash.SettersValid | src/config.rs:57-85 | a record built by its setter is valid exactly if its key field is not empty |
| Flash.FieldsReadBack | src/config.rs:61-85 | network, password, name and baud rate read back as set, cut to their size, with the defaults for an empty name and a zero rate |
| Flash.UrlReadsBack | src/config.rs:262-290 | the outbound link is on exactly if enabled with a URL, and a URL of at most 256 bytes reads back |
| Flash.LoginSurvivesReboot | src/config.rs:463-491 | posted credentials still open the interface after save and load |
| Flash.PinSurvivesReboot | src/config.rs:272-332 | a shown key in a URL of at most 256 bytes still pins after save and load |
| Led.WindowExact | src/main.rs:236-245 | the ring's sum is the frames of the last ten ticks across wrap-around, exactly when that is below 2^32 |
| Led.RingSum | src/main.rs:231-261 | the ten buckets are the differences of the last ten ticks |
| Led.Window.Tick | src/main.rs:236-261 | one tick of the loop extends the history by one sample and returns the ring's sum |

## Left out

- TWAI, UART, RMT, Wi-Fi, DHCP, DNS, the TLS record layer, P-256 and SHA-256: foreign code, present only through the interfaces above.
- Can.BitrateTable: states the resulting bitrates; the resynchronisation width and the split of the bit time are copied constants.
- The bits of the `F` status byte: computed from controller counters; the model takes the byte as given.
- HTML and JSON pages, escaping, the status script, `src/led.rs` and `src/uart_poll.rs`: user interface and hardware timing.
- `tools/slcan_router_tool.py` and `tools/slcan_tls_proxy.py`: they repeat the codec and URL parser around sockets and threads.
- Timers, backoff durations, reboot after save, partition lookup and flash write errors: environment.
- The timing behaviour of the constant-time comparison: only that it decides equality.
- The split of a POST request into headers and body, and the Wi-Fi, device and auto-connect form handlers: they repeat the form decoding of the login handler.
- Bridge.Bridge counters: unbounded totals; the 32-bit wrap of the real counters is in `Can.CanManager`, `PortTask.Task` and `Led`.
- The four configuration structs other than the login are copied values in the source and are modelled as values with setter functions.
- HostTool.PyInt16: blanks are the six ASCII ones; the reader strips no others from an ASCII line.
