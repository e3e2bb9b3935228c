# Noisy Shuttle, modelled and proved in Dafny

Noisy Shuttle hides a proxy inside what looks like a TLS connection. This project models the parts
of it that carry state over many steps and proves what they keep over whole runs:

- **the tunnel** (`Noise`, `SnowyStream`, `Tunnel`, `Pair`): a poll-driven byte pipe that cuts plaintext into
  sealed TLS records and reassembles them. Two of them joined by sockets that may take or give any
  number of bytes at a time are an exact FIFO, with no false end of stream, both as a transition system
  and as two objects driven by any schedule;
- **the session pool** (`Pool`, `PoolRuns`): every interleaving of its critical sections, with
  cancellation, dropped handles and retries. The books balance, closing is final, draining is safe;
- **reusable sessions** (`Relay`, `Bracketing`, `SessionLoop`, `ClientRelay`): the server's loop over
  requests, the relay inside it and the client's relay. No frame crosses from one request into
  another, no byte is lost, and every finished run says goodbye exactly once;
- **admission** (`Totp`, `ReplayFilter`, `Admission`, `Handshake`): the window of accepted signatures,
  the LRU replay filter against the plain history of a run, and the TLS 1.2 handshake relay;
- **ClientHello rewriting** (`Fingerprint`, `Grease`, `HelloCodec`, `Overwrite`): extension order, GREASE shared
  between groups and key shares, padding to an exact size;
- **codecs** (`Frames`, `Trojan`): frames, request headers and datagrams, and that the reusable path
  means the same as the one-shot path.

`Basics` has bytes, big-endian integers, `Option` and `Result`. `dafny verify dfyconfig.toml` checks
everything.

## How it is modelled

Objects the program updates in place are classes (`Socket`, `SnowyStream`, `SessionPool`, `Session`,
`Server`, `Message`). Each method is proved against a predicate or function on values, and the claims
about runs are lemmas over those values. `select!` and the scheduler are nondeterministic choices,
clocks and randomness are parameters. Sockets answer as they like and keep a tally of it; in the relays
and the session loop a function says which read, write or connection fails, so a contract can say that
nothing is given up without cause. A loop that may run for ever takes a bound `steps`, and its contract
holds for every bound and says what was done with it.

Noise is any pair of functions indexed by a counter such that opening a sealed message gives it back
and sealing adds 16 bytes (`Noise.Sound`, section 5.1 of the Noise Protocol Framework). The keyed hash
of the time signatures is any function; where distinct steps of 64-bit times must not sign alike, a
lemma says so (`Totp.CollisionFree`). Both assumptions are shown to be met by some function. The record
parser and its length bound are those of rustls, which is not part of this repository. Frame reads are
atomic.

Some claims one would like are false of the code. They are kept as the code has them, with the exact
condition:

- a `poll_write` that returns an error may already have sealed chunks of its buffer, which are then in
  the stream although no caller was told. Before the call: this can happen exactly when the stream is
  writeable and there is something to write. Within it: exactly when the socket took everything
  buffered before (`SnowyStream.WriteCanSealAndFailExactly`, `SnowyStream.FailedWriteSealsExactly`,
  `Tunnel.FailingWriteCanSeal`, `Tunnel.ReportedExactlyWhenNothingLost`);
- a task that drops a checked-out session without returning it stays counted for ever; a graceful
  drain is still possible exactly when no task has done so (`PoolRuns.DroppedHandleIsLost`,
  `PoolRuns.LeakedForEver`, `PoolRuns.DrainsExactlyWhenNoneLost`);
- the client's relay panics exactly when more than 65535 bytes follow the header in the request's
  buffer (`ClientRelay.SendFirst`);
- a GREASE key share can be for a group that is not offered. It never is exactly when the fingerprint
  leaves the key shares alone, or has no more GREASE key shares than GREASE curves, or, having no JA3,
  has no GREASE key share or meets a message that offers all GREASE values
  (`Grease.SharedGreaseExactly`);
- the rewriting panics exactly when it must add extensions and ALPN is listed more often than it is
  present (`Fingerprint.PanicsExactly`);
- a datagram survives exactly when it is shorter than 65536 bytes and strictly shorter than the
  receiver's buffer (`Trojan.DatagramRoundTrip`, `Trojan.LongDatagramIsLost`);
- the one-shot path looks at the CRLF after a header and the reusable path does not, so they agree
  exactly on headers that end in it (`Trojan.PathsAgree`, `Trojan.CrlfOnlyMattersOneShot`).

## Model

| member | source | states |
|---|---|---|
| `Noise.ReadRecord` | tunnel/src/common.rs:140-170 | an accepted record lies inside the bytes read, is shorter than the receive buffer, and its payload is exactly the bytes after its header |
| `Noise.RecordsExactly` | tunnel/src/common.rs:140-170 | which byte strings begin with a record, in numbers: content type, version, length, and what its payload then is |
| `Noise.IncompleteIsSmallerThanBuffer` | tunnel/src/common.rs:56-61 | bytes that are still an incomplete record never fill the receive buffer, so the socket is never polled with no room |
| `Noise.ReadRecordStable` | tunnel/src/common.rs:140-195 | a verdict other than "incomplete" does not depend on the bytes that follow |
| `Noise.NextRecordStable` | tunnel/src/common.rs:140-232 | removing and opening the first record gives the same result however much has arrived behind it |
| `Noise.DrainStable` | tunnel/src/common.rs:120-232 | what k opened records gave does not change when more bytes arrive |
| `Noise.DrainDecode` | tunnel/src/common.rs:120-232 | opening k records and decoding the remainder is decoding the whole |
| `Noise.ReadSealedRecord` | tunnel/src/common.rs:401-421 | a sealed chunk is a record the parser reads back whole, leaving exactly what follows |
| `Noise.SealedRecordLayout` | tunnel/src/common.rs:401-421 | the bytes on the wire: 23, 3, 3, the big-endian length of plaintext and tag, the sealed chunk |
| `Noise.ChunksExactly` | tunnel/src/common.rs:396-421 | a buffer is cut into one record for each 16368 bytes or part of them |
| `Noise.DecodeRecords` | tunnel/src/common.rs:351-428 | for data of any length, the records it is cut into decode to exactly that data, on a record boundary, with both counters equal |
| `Noise.RecordsSplit` | tunnel/src/common.rs:351-421 | sealing up to a chunk boundary and then the remainder puts the same bytes on the wire as sealing at once |
| `Noise.DecodeAppend` | tunnel/src/common.rs:108-322 | decoding a stream that ended on a boundary continues with what is appended, under the advanced counter |
| `Noise.DecodeFailureIsFinal` | tunnel/src/common.rs:160-232 | once a record is malformed or does not open, no later bytes repair the stream |
| `Noise.SoundCipherExists` | tunnel/src/common.rs:401-421 | what is asked of the cipher can be met |
| `SnowyStream.SnowyStream.constructor` | tunnel/src/common.rs:56-74 | a new stream is readable and writeable, holds no bytes, and has both counters at zero |
| `SnowyStream.SnowyStream.PushOut` | tunnel/src/common.rs:358-393 | what the socket took followed by what is left is what was buffered; done exactly when nothing is left, and stopped short only because the socket blocked, failed or took nothing |
| `SnowyStream.SnowyStream.PollWrite` | tunnel/src/common.rs:326-429 | Pending has sealed nothing of this buffer, Ready(n) exactly the first n bytes; bytes to the socket and buffered bytes are together exactly the old buffer and the records of what was sealed; bytes stay behind exactly when the socket blocked or failed in this call; the loop terminates |
| `SnowyStream.SnowyStream.SealNext` | tunnel/src/common.rs:401-421 | the write buffer becomes exactly one sealed record of the next chunk and the counter advances by one |
| `SnowyStream.SnowyStream.PollFlush` | tunnel/src/common.rs:431-448 | seals nothing, loses nothing; Ready exactly when every sealed byte is with the socket, Pending exactly when the socket blocked, an error exactly when it failed |
| `SnowyStream.SnowyStream.PollShutdown` | tunnel/src/common.rs:450-464 | writing is over at once, reading is not affected; until every sealed byte is on the socket it is a flush and answers as one, and only then is the socket shut down |
| `SnowyStream.SnowyStream.PopRecord` | tunnel/src/common.rs:140-232 | one record leaves the receive buffer and its plaintext appears; an incomplete one changes nothing, a malformed one ends reading |
| `SnowyStream.SnowyStream.DrainBuffered` | tunnel/src/common.rs:120-232 | plaintext is handed over in order until the caller's buffer is full or no complete record is left, and which of the two is reported truly |
| `SnowyStream.SnowyStream.Fill` | tunnel/src/common.rs:240-278 | a socket read appends to the receive buffer; with room, zero bytes mean end of stream |
| `SnowyStream.SnowyStream.Refill` | tunnel/src/common.rs:233-278 | either new bytes arrived and every byte is still accounted for, or poll_read's answer is known: Pending or failure exactly as the socket said, half frame, or end of stream on a record boundary |
| `SnowyStream.SnowyStream.PollRead` | tunnel/src/common.rs:108-322 | Pending exactly when the socket was asked and blocked, with nothing delivered; delivered and unread plaintext are exactly what the consumed records decode to; Ready means a full buffer or no whole record left, and with nothing, given room, only end of stream on a record boundary; every error leaves the state it names; both loops terminate |
| `Tunnel.WriteExtendsDecoding` | tunnel/src/common.rs:326-429 | a write makes the undelivered stream decode to the same plaintext followed by exactly the bytes it sealed |
| `Tunnel.ReadIsDecoding` | tunnel/src/common.rs:108-322 | decoding before a read is the bytes it opened followed by decoding after it |
| `Tunnel.HonestBytesOpen` | tunnel/src/common.rs:160-232 | bytes of an honest peer are never refused as malformed or forged, however they were split |
| `Tunnel.WriteKeepsFifo` | tunnel/src/common.rs:326-429 | the FIFO law survives any write poll |
| `Tunnel.ReadKeepsFifo` | tunnel/src/common.rs:108-322 | the FIFO law survives any read poll |
| `Tunnel.RunsAreFifo` | tunnel/src/common.rs:108-464 | in every run, delivered bytes, unread bytes and the decoding of everything under way are exactly the bytes sealed, and the two counters differ by exactly the records in between |
| `Tunnel.DeliveredIsPrefix` | tunnel/src/common.rs:108-464 | a reader has only ever been given a first part of what was sealed, and if no failing write lost a chunk, of what the writer was told was accepted |
| `Tunnel.NoFalseEof` | tunnel/src/common.rs:240-261 | in every run, zero bytes on a readable stream means the peer closed and everything it put on the wire was delivered; if it had flushed, everything it accepted |
| `Tunnel.ReadGetsOn` | tunnel/src/common.rs:233-278 | in every run a read with room whose socket neither blocked nor failed delivers something, or the peer has closed and nothing more can come |
| `Tunnel.ReadKeepsNothingBack` | tunnel/src/common.rs:120-232 | in every run a read that does not fill its buffer leaves no whole record behind |
| `Tunnel.WriteGetsOn` | tunnel/src/common.rs:351-428 | in every run a write whose socket neither blocked, failed nor took nothing is accepted whole and is all on the wire |
| `Tunnel.HalfFrameMeansUnflushed` | tunnel/src/common.rs:240-261 | the half-frame error happens only if the peer closed with sealed bytes unsent |
| `Tunnel.ReportedExactlyWhenNothingLost` | tunnel/src/common.rs:351-428 | what callers were told was accepted equals what was sealed exactly when no write failed after the socket took everything buffered before it |
| `SnowyStream.FailedWriteSealsExactly` | tunnel/src/common.rs:351-428 | a failing write has sealed part of its buffer exactly when the socket took all that was buffered before the call, so always on a flushed stream |
| `SnowyStream.WriteCanSealAndFailExactly` | tunnel/src/common.rs:326-429 | before the call: a write can fail with part of its buffer sealed exactly when the stream is writeable and the buffer is not empty |
| `Tunnel.FailingWriteCanSeal` | tunnel/src/common.rs:358-393 | a run in which a write returns an error and yet a full chunk was sealed |
| `Tunnel.DrainedMeansDelivered` | tunnel/src/common.rs:431-448 | once nothing is buffered or in flight, the reader has exactly the accepted bytes and the counters agree |
| `Pair.Write` | tunnel/src/common.rs:326-429 | a write poll on the sending object is a step of the joint system |
| `Pair.Flush` | tunnel/src/common.rs:431-464 | so is a flush or a shutdown |
| `Pair.Read` | tunnel/src/common.rs:108-322 | so is a read poll on the receiving object; its socket sees the end only after every byte |
| `Pair.Drive` | tunnel/src/common.rs:56-464 | two fresh stream objects under any schedule of writes, flushes, shutdown, reads, a sender that goes away and a channel that carries any number of bytes: what they do is a run, the FIFO law holds, and unless a write failed the reader has a first part of exactly the bytes reported as accepted |
| `Pool.LastReusable` | shuttle/src/client/pool.rs:134-156 | the session found is reusable and none returned after it is |
| `Pool.ReusableExactly` | shuttle/src/client/pool.rs:308-312 | reusable exactly while uses, age and idle time are below the three limits |
| `Pool.EnterPool` | shuttle/src/client/pool.rs:127-156 | a hit is the newest reusable session; only unusable newer ones are evicted; older ones stay |
| `Pool.CheckoutExactly` | shuttle/src/client/pool.rs:127-156 | refused exactly when closed; a hit exactly when some idle session is within its limits, and which one, with its counts; otherwise a miss |
| `Pool.AdmitExactly` | shuttle/src/client/pool.rs:161-172 | a fresh connection is let in exactly while the pool is open and not shutting down |
| `Pool.KeptExactly` | shuttle/src/client/pool.rs:186-227 | a returned session is kept exactly when healthy, within uses and age, the pool open and not shutting down, and there is room or nothing else is checked out |
| `Pool.ReturnThenCheckout` | shuttle/src/client/pool.rs:120-227 | a session the pool kept is the very next one handed out while it stays reusable, with its use counted |
| `Pool.ReturnEvictsOldest` | shuttle/src/client/pool.rs:213-226 | a return costs the pool at most its oldest idle session, only when full with nothing else checked out, and keeps the order of the others |
| `Pool.SessionPool.EnterSection` | shuttle/src/client/pool.rs:127-156 | the popping loop does what the newest-reusable description says |
| `Pool.SessionPool.AdmitSection` | shuttle/src/client/pool.rs:161-172 | a fresh connection is counted, unless the pool closed or is shutting down meanwhile |
| `Pool.SessionPool.ReturnSection` | shuttle/src/client/pool.rs:186-227 | new pool state and whether the session was kept, in all cases |
| `Pool.SessionPool.CloseSection` | shuttle/src/client/pool.rs:233-240 | the pool is closed and empty; the outstanding count is reported |
| `Pool.SessionPool.DiscardSection` | shuttle/src/client/pool.rs:272-280 | one checkout fewer, never below zero |
| `PoolRuns.EnterBalanced` | shuttle/src/client/pool.rs:127-156 | the first critical section moves sessions between idle, holder and closed and loses none |
| `PoolRuns.ReturnBalanced` | shuttle/src/client/pool.rs:186-227 | a return moves its session and any evicted one and loses none |
| `PoolRuns.StepBalanced` | shuttle/src/client/pool.rs:120-280 | no step of any task duplicates or loses a session, and the checked-out count follows its holders |
| `PoolRuns.StepBounds` | shuttle/src/client/pool.rs:134-226 | every step keeps the idle bound, the use counts and the reuse statistics |
| `PoolRuns.RunsKeepInv` | shuttle/src/client/pool.rs:120-312 | under every interleaving, with any accepted configuration: each session is in exactly one place, checked_out is exactly the tasks holding or having lost one, idle never exceeds max_idle, handed-out sessions have 1 to max_requests uses and one more use than reuses, checkouts are reuses plus fresh sessions |
| `PoolRuns.ReturnNeverUnderflows` | shuttle/src/client/pool.rs:190-195 | in every run a return or discard finds something checked out, so both "none were checked out" branches are dead |
| `PoolRuns.ClosingIsFinal` | shuttle/src/client/pool.rs:158-172 | after closing, whatever happens: nothing idle, checked_out never rises, and no checkout succeeds, not even one already connecting |
| `PoolRuns.DrainIsSafe` | shuttle/src/client/pool.rs:230-269 | once GracefulDrain is emitted no task holds, is returning or has lost a session, then or ever after |
| `PoolRuns.DroppedHandleIsLost` | shuttle/src/client/pool.rs:355-368 | a run in which a handle is dropped with its session checked out |
| `PoolRuns.LeakedForEver` | shuttle/src/client/pool.rs:120-280 | a task that lost its session stays counted, whatever happens next |
| `PoolRuns.LostNeverDrains` | shuttle/src/client/pool.rs:230-269 | after any run with a lost session no continuation emits GracefulDrain |
| `PoolRuns.OthersDrain` | shuttle/src/client/pool.rs:186-280 | after any run without one, some continuation does: every holder returns or discards, and the pool is closed |
| `PoolRuns.DrainsExactlyWhenNoneLost` | shuttle/src/client/pool.rs:230-269 | after any run a graceful drain is still possible exactly when no task has lost a session |
| `PoolRuns.DroppedIsGone` | shuttle/src/client/pool.rs:134-226 | a session that was closed is not idle and no task has it |
| `PoolRuns.UnhealthyNeverHeldAgain` | shuttle/src/client/pool.rs:199-206 | in every run a session returned unhealthy is closed there and no task ever has it again |
| `PoolRuns.StepKeepsSpent` | shuttle/src/client/pool.rs:355-368 | a session is given up for a retry only while held through a handle, before any payload and before any other retry |
| `PoolRuns.NoSecondRetry` | shuttle/src/client/pool.rs:355-368 | a task that has retried never does so again, whatever happens |
| `PoolRuns.ShutdownMintsNothing` | shuttle/src/client/pool.rs:120-172 | while shutting down, however long, no fresh session is handed out and none goes idle |
| `PoolRuns.CheckoutWorks` | shuttle/src/client/pool.rs:120-173 | in an open pool a task at the gate gets an idle session exactly if one is reusable, and otherwise a fresh one if connecting works |
| `Frames.RoundTrip` | shuttle/src/session/frame.rs:86-221 | every frame with a payload of at most 65535 bytes decodes back whatever follows, and reading it consumes exactly its bytes |
| `Frames.Layout` | shuttle/src/session/frame.rs:86-196 | the bytes on the wire: type, big-endian length and payload of each kind of frame |
| `Frames.Canonical` | shuttle/src/session/frame.rs:96-163 | bytes that decode re-encode to exactly the bytes used |
| `Frames.PrefixFree` | shuttle/src/session/frame.rs:86-94 | no frame's encoding is a prefix of another's |
| `Frames.StreamRoundTrip` | shuttle/src/session/frame.rs:210-231 | any list of frames written to a stream is read back as exactly that list |
| `Trojan.AddrRoundTrip` | shuttle/src/trojan.rs:81-90 | every address that can be written reads back, leaving what follows |
| `Trojan.RequestRoundTrip` | shuttle/src/trojan.rs:197-219 | every encoded request reads back with exactly the payload left |
| `Trojan.RequestLayout` | shuttle/src/trojan.rs:81-90 | the bytes on the wire: command, address of each kind, port, CR, LF |
| `Trojan.SameAddress` | shuttle/src/client/plain.rs:428-456 | the header-to-frame translation and the address reader find the same address at the same place, on every buffer |
| `Trojan.PathsAgree` | shuttle/src/server/session_loop.rs:397-421 | on every buffer, the one-shot server accepts a Connect exactly when both translations of the reusable path succeed and the header ends in CRLF, and then address and payload are the same |
| `Trojan.CrlfOnlyMattersOneShot` | shuttle/src/client/plain.rs:518-533 | a header without its CRLF that the reusable path opens and the one-shot server refuses |
| `Trojan.OpenRequestSurvives` | shuttle/src/session/frame.rs:116-135 | the OpenRequest made from any header fits a frame and arrives unchanged |
| `Trojan.ReusablePathMeansOneShot` | shuttle/src/client/plain.rs:518-533 | for every address the client can encode and any payload, the reusable path opens that address and splits off exactly that payload |
| `Trojan.DatagramRoundTrip` | shuttle/src/trojan.rs:165-194 | a datagram arrives intact with the stream in step exactly when it is shorter than 65536 bytes and than the receiver's buffer |
| `Trojan.LongDatagramIsLost` | shuttle/src/trojan.rs:165-170 | a datagram of 65536 bytes arrives as an empty one and its bytes as what follows |
| `Relay.RelayFramedTcp` | shuttle/src/server/session_loop.rs:423-490 | Ok means: consumed exactly through the first EndRequest, target given exactly the Data before it, client sent exactly the response and then one EndRequest, Pings answered in order, both totals right; in every outcome both directions carried only a first part of the right bytes; given up only on an unexpected frame, a failed read or write or the drain timer of a server shutting down; some alternative is always enabled, so the source's `else` arm is dead |
| `Relay.ClientTurn` | shuttle/src/server/session_loop.rs:447-462 | one client frame: passed on, answered, taken as the end, or cause to give up |
| `Relay.TargetTurn` | shuttle/src/server/session_loop.rs:463-472 | one read from the target: passed on as one Data frame, or the EndRequest at its end |
| `Relay.RelayFinishes` | shuttle/src/server/session_loop.rs:423-490 | a whole request, no failure and no shutdown: given enough turns the relay finishes exactly there, under every schedule |
| `Bracketing.ItemsSnoc` | shuttle/src/server/session_loop.rs:163-288 | serving one more whole request or Ping extends the bracketing and the list of deliveries by exactly it |
| `Bracketing.SameTail` | shuttle/src/server/session_loop.rs:445-489 | a stream determines where a request ends |
| `Bracketing.BracketingIsUnique` | shuttle/src/server/session_loop.rs:163-288 | requests served are the first requests of the client's own division of its stream: the k-th target got the k-th request's Data |
| `SessionLoop.Session.CloseSession` | shuttle/src/server/session_loop.rs:306-321 | one Close, last, and state Closed; or Closing if the write failed |
| `SessionLoop.Session.ResetSession` | shuttle/src/server/session_loop.rs:345-358 | Poisoned either way; if written, one Reset, last |
| `SessionLoop.Session.GracefulShutdown` | shuttle/src/server/session_loop.rs:323-343 | a session already over is left alone; any other that is not in a request gets one Close, last, and is Closed |
| `SessionLoop.Session.RelayOpenRequest` | shuttle/src/server/session_loop.rs:375-395 | relayed exactly when the request is a Connect to an address that translates and the target is reached; otherwise given up, for the reason that holds, with nothing read, written or delivered; what the relay did is what was done to the client, the target and the books |
| `SessionLoop.Session.RelayConnected` | shuttle/src/server/session_loop.rs:391-395 | a finished request extends the bracketing by its own frames, delivers their Data to its own address and its answer to the client; one cut short delivered only a first part of its own Data to its own address |
| `SessionLoop.Session.HandleOpen` | shuttle/src/server/session_loop.rs:225-270 | going on means back at Idle within all limits with one more delivery; a request is refused before anything is read only for itself or because its target was not reached; stopping means one farewell, last: Reset(2) for a failed request, otherwise Close with the byte of shutdown or of the limit that was met |
| `SessionLoop.Session.AfterRequest` | shuttle/src/server/session_loop.rs:258-270 | goes on exactly below all three limits and without a shutdown; otherwise one Close with byte 9 for shutdown, 5 for requests, 4 for age, 3 for idling |
| `SessionLoop.Session.GiveUp` | shuttle/src/server/session_loop.rs:252-256 | a failed request ends the session with one Reset, last |
| `SessionLoop.Session.HandleFrame` | shuttle/src/server/session_loop.rs:213-288 | only a Ping and a servable OpenRequest continue the session; a Ping always gets its own token back unless the write fails; a Close is answered by Close(1) and anything else by Reset(7) |
| `SessionLoop.LimitExactly` | shuttle/src/server/session_loop.rs:290-304 | which limit is reported, as inequalities, and its byte |
| `SessionLoop.ReasonCodesDistinct` | shuttle/src/server/session_loop.rs:492-509 | reasons share a byte only with their own synonym |
| `SessionLoop.Session.Turn` | shuttle/src/server/session_loop.rs:173-210 | one turn: shutdown and limits come first, each with its own Close; otherwise a frame is read, with the time of it noted, or the watch looked at |
| `SessionLoop.Session.ServeLoop` | shuttle/src/server/session_loop.rs:163-211 | every loop head is Idle, so the Active arm of the shutdown is dead; the bracketing and the request limit are kept; returning Ok means one farewell, last, and an error that a write just failed; it is unfinished only inside a relay or when its turns are used up |
| `SessionLoop.Session.NegotiateFrame` | shuttle/src/server/session_loop.rs:131-161 | serving starts exactly on a ClientHello of the right version; a wrong version gets Close(VersionMismatch) and nothing else; if the farewell could not be written, nothing was |
| `SessionLoop.Session.Negotiate` | shuttle/src/server/session_loop.rs:111-129 | serving can start, right after the first frame, or one farewell was written, or nothing was |
| `SessionLoop.Session.RunSession` | shuttle/src/server/session_loop.rs:85-109 | every run that returns Ok wrote exactly one Close or Reset, as its last frame, and is Closed or Poisoned, and a run returns an error only if a write just failed; serving begins right after the ClientHello, and at any point of any run the k-th delivery is the k-th request of the client's own division of its stream, a Connect with that request's address and Data; the client was sent each one's own answer, in order; a request cut short delivered only part of its own Data to its own target; the request limit holds; a run is unfinished only inside a relay, before the first frame or when its turns are used up |
| `SessionLoop.ServedInOrder` | shuttle/src/server/session_loop.rs:163-288 | whole requests served from the right place are the first ones of every division the client can have meant, also of a stream not sent to its end |
| `ClientRelay.SendFirst` | shuttle/src/client/plain.rs:458-490 | the first frame carries exactly the bytes after the header and those topped up from the inbound connection; it panics exactly when more bytes follow the header than a frame can hold |
| `ClientRelay.RelayTcpFrames` | shuttle/src/client/plain.rs:458-516 | Ok means: sent exactly payload and inbound bytes read, ended only at the end of the inbound stream, wrote back exactly the Data up to the server's EndRequest, Pings answered, totals right; in every outcome both directions carried only a first part of the right bytes; panics exactly on an over-long payload and gives up only on a bad header, an unexpected frame or a failed read or write |
| `ClientRelay.ClientFinishes` | shuttle/src/client/plain.rs:458-516 | if the server answers with a whole request's frames and nothing fails, the relay completes, given enough turns, under every schedule |
| `ClientRelay.EndToEnd` | shuttle/src/client/plain.rs:458-516 | client and server relay together: the target received exactly the client's bytes, the client exactly the response, both agree on the totals, and every frame survived its encoding |
| `ClientRelay.SameAsOneShot` | shuttle/src/client/plain.rs:428-533 | a request carried over a reusable session reaches the same address with the same bytes as the same buffer sent one-shot |
| `Totp.Verify` | tunnel/src/totp.rs:63-78 | the loop with early return answers as the search over steps does, overflow included |
| `Totp.VerifyFromIsSearch` | tunnel/src/totp.rs:63-78 | the search accepts exactly when some step in its range signs the same, and does not overflow if the last step does not |
| `Totp.VerifyIsWindow` | tunnel/src/totp.rs:63-78 | in range, verify accepts exactly the signatures of the 2*skew+1 steps around now; out of range it still accepts nothing else |
| `Totp.RecentSignatureVerifies` | tunnel/src/totp.rs:37-78 | anything signed within skew*step seconds, before or after, verifies |
| `Totp.StaleSignatureFails` | tunnel/src/totp.rs:37-78 | if distinct steps of 64-bit times sign differently, nothing signed (skew+1)*step or more seconds away verifies |
| `Totp.VerifiedTimesAreClose` | tunnel/src/totp.rs:63-78 | under the same assumption, one signature verifies only at times less than (2*skew+1)*step seconds apart |
| `Totp.CollisionFreeExists` | tunnel/src/totp.rs:24-40 | for any step and skew, what is asked of the hash can be met, for every nonce at once |
| `Totp.NonceMatters` | tunnel/src/totp.rs:37-40 | a signature binds its nonce: for some hash no other short nonce verifies with it |
| `Totp.KeyMatters` | tunnel/src/totp.rs:24-40 | and its key: for some hash no other key verifies it |
| `ReplayFilter.TouchReflects` | tunnel/src/server.rs:116-128 | a lookup that inserts on a miss keeps the cache equal to the most recent distinct nonces of the history, and hits exactly on those |
| `ReplayFilter.RememberedExactly` | tunnel/src/server.rs:116-128 | a nonce is among the last N distinct ones exactly when it was presented and fewer than N distinct others were since |
| `Admission.Server.Get` | tunnel/src/server.rs:119-126 | a hit is reported and becomes the most recent entry; a miss changes nothing |
| `Admission.Server.Put` | tunnel/src/server.rs:127-127 | the nonce becomes the most recent entry and only the least recent is evicted, only when full |
| `Admission.Server.Admit` | tunnel/src/server.rs:110-128 | unauthenticated hellos leave the filter alone; authenticated ones are admitted or reported with who was first |
| `Admission.OnlyGenuineGetIn` | tunnel/src/server.rs:110-128 | a hello gets past authentication exactly when its Noise message opens and its signature verifies, that is, is in the window; any other is turned away and leaves the filter as it was; a panic exactly on overflow |
| `Admission.HistoryIsGenuine` | tunnel/src/server.rs:110-128 | the history of a run is exactly the nonces that came with a Noise message that opened and a signature that verified |
| `Admission.FilterIsRecentAuthenticated` | tunnel/src/server.rs:110-128 | after any run the filter is the N most recent distinct nonces that authenticated, and depends on nothing else |
| `Admission.ReplayExactly` | tunnel/src/server.rs:110-128 | in any run an authenticated hello is a replay exactly when its nonce was presented before and fewer than N distinct others authenticated since; otherwise it is admitted |
| `Admission.AdmittedTwice` | tunnel/src/server.rs:110-128 | the same ClientHello admitted twice needs N other authenticated nonces in between, within less than (2*skew+1)*step seconds |
| `Admission.AdmittedAgain` | tunnel/src/server.rs:110-128 | the bound is met: with room for one nonce, a ClientHello is admitted again after one other |
| `Admission.ReplayNamesFirst` | tunnel/src/server.rs:119-127 | in any run a replay is reported with the peer of the last hello that was admitted with that nonce |
| `Handshake.ReaderAcceptsRecords` | tunnel/src/utils.rs:91-155 | the message reader accepts exactly the records the parser accepts that are shorter than 2^14, and hands over exactly that record |
| `Handshake.ReaderRejectsWithParser` | tunnel/src/utils.rs:91-155 | given a header it rejects what the parser rejects, for the same reason, and on its own only over-long records |
| `Handshake.ReaderEofExactly` | tunnel/src/utils.rs:91-155 | it runs into the end of the stream exactly when the header is cut short, or the header is fine and the data is |
| `Handshake.ForwardRecord` | tunnel/src/server.rs:246-260 | one turn takes and forwards exactly one record; or takes all there is and forwards at most its header, if the record is cut short; or forwards part of what it took, if writing fails |
| `Handshake.CopyUntilFinished` | tunnel/src/server.rs:234-279 | on success and on a record of another type, bytes written and bytes left are exactly the stream: not a byte more was read; on a stream that ends inside a record all of it was read and everything but that last piece written; in every outcome only bytes read were written, in order |
| `Handshake.CopyStopsThere` | tunnel/src/server.rs:234-279 | on a finished handshake the copy ends right after the record behind the first ChangeCipherSpec, whatever follows |
| `Handshake.CopyFinds` | tunnel/src/server.rs:234-279 | if the copy ends well, the bytes forwarded are the records of a finished handshake |
| `Handshake.CopySucceedsExactly` | tunnel/src/server.rs:234-279 | the copy ends well exactly on streams that begin with those records |
| `Handshake.InvalidStateForwardsAll` | tunnel/src/server.rs:258-272 | on a record of another type, everything up to and including it was forwarded |
| `Handshake.CopyInvalidExactly` | tunnel/src/server.rs:258-272 | the copy fails as invalid exactly when an unfinished handshake is followed by a record of another type; whatever else does not succeed ended too early |
| `Fingerprint.Reorder` | tunnel/src/fp.rs:177-243 | the loop over the list and the hash map gives the listed extensions in list order and then, unless dropped, each remaining one once |
| `Fingerprint.LastOfTypeCounts` | tunnel/src/fp.rs:185-189 | of several extensions of one type the last is kept |
| `Fingerprint.AddingMatchesList` | tunnel/src/fp.rs:187-232 | when missing extensions are added, the types are exactly the list, in order |
| `Fingerprint.AddingKeepsContents` | tunnel/src/fp.rs:187-232 | at each place of the list stands the message's own extension where its type comes first, and otherwise the dummy of that type |
| `Fingerprint.ListedOnce` | tunnel/src/fp.rs:187-232 | a type that is listed a second time comes as a dummy, never as the same extension again |
| `Fingerprint.PanicsExactly` | tunnel/src/fp.rs:207-212 | the panic happens exactly when extensions are added and ALPN is listed more often than present |
| `Fingerprint.KeepingFollowsList` | tunnel/src/fp.rs:187-232 | without adding, the result is the listed extensions of the message, each once, in list order |
| `Fingerprint.PlainReorderIsPermutation` | tunnel/src/fp.rs:177-243 | with nothing added or dropped and distinct types, the result is a permutation, listed ones first and in list order |
| `Grease.RewriteGroups` | tunnel/src/fp.rs:251-288 | the loop over curves, pushing or popping GREASE values, computes the group list |
| `Grease.RewriteShares` | tunnel/src/fp.rs:326-382 | the loop over key-share curves, reusing old shares, computes the share list that `Grease.SharesMean` describes |
| `Grease.GroupsMean` | tunnel/src/fp.rs:251-288 | every curve stands in its place in the groups, GREASE ones with a value that was drawn |
| `Grease.SharesMean` | tunnel/src/fp.rs:326-382 | where a wanted group comes first and the message has a share for it, that share stands unchanged, key included; everywhere else the key is one zero byte, with the wanted group or, for GREASE, a value that was drawn |
| `Grease.ShareMapIsLast` | tunnel/src/fp.rs:328-331 | of several shares for one group the last is kept |
| `Grease.RewriteExtension` | tunnel/src/fp.rs:245-392 | one extension gets the fingerprint's value, with GREASE values pushed or popped as described |
| `Grease.RewriteValues` | tunnel/src/fp.rs:245-392 | every extension keeps its place and type and has exactly the fingerprint's value: groups, formats, protocols, versions, algorithms and key shares; others are untouched; padding is asked for exactly when there is a padding extension |
| `Grease.RewriteAllMeans` | tunnel/src/fp.rs:245-392 | the second pass extension by extension, in the terms of the fingerprint |
| `Grease.GreaseSharesOffered` | tunnel/src/fp.rs:250-382 | with no more GREASE key shares than GREASE curves, every GREASE key share is an offered group, whichever extension comes first |
| `Grease.ExcessGreaseNotOffered` | tunnel/src/fp.rs:355-366 | with more, for every message some choice of GREASE values leaves a key share whose group is not offered |
| `Grease.WithoutJa3` | tunnel/src/fp.rs:326-382 | without a JA3, GREASE key shares are offered if there are none or the message offers every GREASE value |
| `Grease.WithoutJa3NotOffered` | tunnel/src/fp.rs:326-382 | and otherwise some choice of values leaves one that is not |
| `Grease.SharedGreaseExactly` | tunnel/src/fp.rs:250-382 | for every fingerprint, with or without JA3 and key shares: GREASE stays consistent for every choice of values exactly when the fingerprint fits the message |
| `Overwrite.Pad` | tunnel/src/fp.rs:394-415 | the encoding becomes exactly max(512, length with empty padding) bytes long, and nothing but one padding payload changes |
| `HelloCodec.EncodingLength` | tunnel/src/fp.rs:394-401 | the encoded message is as long as its parts add up to |
| `HelloCodec.DummiesSayLittle` | tunnel/src/fp.rs:205-230 | the dummies are well-formed: empty renegotiation info, h2 for ALPS, brotli for certificate compression, nothing otherwise |
| `Overwrite.RewrittenPadding` | tunnel/src/fp.rs:383-389 | after the second pass every padding extension is empty and there is one exactly if there was one before |
| `Overwrite.Message.Overwrite` | tunnel/src/fp.rs:144-429 | the whole rewriting, in all four modes: which extension of the message or which dummy stands where, listed ones first and in list order, the others behind unless dropped, a permutation when neither adding nor dropping; every extension with the fingerprint's value; the stored bytes are the message's encoding, of exactly the padded length whenever there is padding; GREASE offered when the fingerprint fits; untouched messages that are no ClientHello; and exactly when it panics |
| `Overwrite.FirstPassMeans` | tunnel/src/fp.rs:177-243 | the first pass in terms of the message passed in: types and contents place by place when adding, the listed extensions it has when not, then the unlisted ones |
| `Overwrite.OneOfEachGetsThrough` | tunnel/src/fp.rs:177-243 | from a message with distinct types, its groups and its key shares get through the first pass once each, exactly unless one of them is dropped |
| `Overwrite.GreaseEndToEnd` | tunnel/src/fp.rs:177-392 | both passes from the message passed in: if neither extension is dropped and the fingerprint fits, every GREASE key share is offered |

## Left out

- A `read_frame` dropped half way by `select!`: frame reads are atomic here.
- Negotiation end to end: the client waits for a ClientHello that the server's negotiation never sends, so no agreement is claimed.
- The choice between Trojan requests and frames when a connection arrives.
- Whether the session loop follows the transition table of `shuttle/src/session/lifecycle.rs`: it goes from Idle to Active and back directly, which that table does not allow.
- A client that leaves on the server's EndRequest before sending its own: bracketing speaks of whole requests, and `ClientRelay.EndToEnd` of clients that ended their side.
- Liveness: that `close_all` is woken up, and the 30-second timeout after which it gives up.
- SnowyStream.SnowyStream.PollFlush: a socket reports "zero bytes written" only finitely often; with one that does so for ever the source does not return.
- SnowyStream.SnowyStream.PollShutdown: the same assumption.
- SnowyStream.SnowyStream.PollRead: after a record that does not open, 16368 unread bytes of unspecified content are left, as the source leaves them; what reading on then gives is not followed further.
- The kernel's socket: it reads and writes any number of bytes it may, and which of its errors are fatal is its choice.
- Totp.Verify: arithmetic that wraps in a release build is the outcome Overflow, and so is a zero step; `check` is the same loop over tokens and is not repeated.
- Admission.Server.Put: a cache of capacity zero, which the cache library refuses to make.
- Handshake.CopyUntilFinished: one direction of the relay; joining the two halves and what follows is not modelled.
- Noise.ReadRecord: record types, versions and the 2^14+2048 bound are rustls's.
- Overwrite.Message.Overwrite: the order in which a hash map yields its values (any order is allowed for), and the returned list of allowed unsolicited extensions.
- Pool.SessionPool.ReturnSection: the reasons logged for each session closed.
- Cryptography, counters of 64 bits running out, allocation, logging, the camouflage connection itself.
- Preflight connections, command line, HTTP and SOCKS5 front ends, UDP sockets, name resolution: out of scope.
