# covert-connect: a verification model

The model covers the parts of covert-connect in which two programs, or two
moments of one program, have to agree without telling each other anything:

- **The encrypted tunnel.** `EncryptedStream` cuts what is written into frames
  (length, padding, data), seals some of them and says nowhere on the wire which
  frames are sealed or under which nonce. Both ends infer that from counters.
  `Ciphers`, `Frames`, `Readers`, `Streams` model the stream itself, as a class with the
  source's fields and poll methods over a transport that takes and gives any number
  of bytes, stalls or fails at will. `LockStep` and `Sessions` prove that the two ends
  agree in every run; `WireTheorems` says what a cut wire means and `Endings` what the
  receiving caller hears of it; `Limits` counts bytes and nonces.
- **What comes before the first frame.** `Handshake` (the first packet and the
  connect window), `Tunnels` (handshake and streams put together), `ConfigExchange` (the
  special request for the protocol configuration), `Upgrade` and `UpgradeSessions` (the
  HTTP upgrade shim on both sides), `UpgradedTunnels` (the upgrade in front of the
  handshake). Each must consume exactly its own bytes.
- **Routing.** `Domains`, `Routing`, `Selection` and `Pac`: suffix rules, sorted lists, the
  weighted draw and the index of the proxy auto-configuration script, each against plain
  membership, and what an assignment of a domain means for script and selection together.
- **The reverse log reader.** `RevLines` against "split at line feeds, reversed".

`Bytes` holds numbers and options, `Library` the laws assumed of the AEAD (sections
2.1 and 2.2 of RFC 5116: opening undoes sealing, the tag adds 16 bytes), with two instances
that obey them, one of which also keeps the keys of different times, purposes and salts apart
(`Handshake.SomeLibrarySeparates`, `Library.KeyedSeparatesKeys`), `Transports` the transport. Pending is the value `Stuck`; inner reads and
writes are nondeterministic; what the random number generator gives is a parameter of each operation that draws.

To verify: `dafny verify dfyconfig.toml`.

## How the main results hang together

1. `Streams.EncryptedStream.PollRead` and its parts tie the reading class to the machine
   `Feed`/`ReadStep`; `Readers.RunMeans` shows that any schedule of such polls delivers what
   the recursive decoder `Decode` gives on the whole wire.
2. `Streams.EncryptedStream.PollWrite` and `PollFlush` tie the writing class to `Encode`;
   `WireTheorems.RoundTrip` and `Truncation` say what `Decode` makes of `Encode`, whole or cut.
3. `LockStep.ReadKeepsStep` is the relational invariant between the two machines, and
   `Sessions.Session` carries it through every schedule of events in both directions.
4. `Endings` turns it to the caller: a read of no bytes where there was room is an end of
   stream to whoever polls. `ZeroByteRead` says exactly when it happens, `CutIsHeard` what has
   been delivered and what is heard when a wire is cut, and `Sessions.Link.Promises` carries
   both to every session: no end is heard on an uncut connection unless there was an empty
   write, and after a cut what is heard is right.
5. That these promises are not kept by doing nothing: a write or flush fails only when the transport
   does, and `Sessions.Drain` and `Settle` flush, carry and read until everything is received, unless a
   transport has said Pending, has failed or has taken nothing of what it was offered.
6. `Tunnels.Tunnel` starts from the first packet and ends with the identity on bytes;
   `Tunnels.DrainedTunnel` with all of them.

Where the code does not do what one might expect of it, the model keeps the code
and the exact condition is proved:

- A host name of fewer than 4 or more than 259 bytes does not fit the header
  (`Handshake.PacketRoundTrip` is an if-and-only-if).
- A write of no bytes makes an empty frame, and the receiver's poll that completes it returns no bytes,
  which a caller takes for the end of an open stream (`Endings.EmptyWriteReadsAsEnd`; exactly then or at
  an end of the transport, `Endings.ZeroByteRead`).
- The quotient that bounds the padding is cast to 16 bits; with rates of up to 100 nothing is lost
  (`Frames.PaddingDraws`), with larger ones multiples of 65536 are (`Frames.PaddingDrawsCut`).
- The two seals of the first packet use the same nonce if and only if the drawn padding length is 0, so
  they differ for every draw if and only if the configured range does not begin at 0
  (`Handshake.HeaderNonces`); nothing refuses such a range.
- A cut that takes nothing but the tag of an empty encrypted frame is reported as
  invalid data, not as an end of the stream, because the check after the read compares with
  the data size without the tag (`WireTheorems.Truncation`, `Readers.EndOfWire`).
- A special request is granted if and only if the first read brought its header and did not reach beyond it
  (`ConfigExchange.RequestRoundTrip`).
- The server answers an upgrade request if and only if host and path are together shorter than 188
  bytes (`Upgrade.AnswerRequest`); the client accepts a block of 255 bytes, the server only of 254.
- With a given chunk size the reader's lines are the LF-separated ones if and only if every carriage
  return before a line feed is at the front of a chunk (`RevLines.LinesAreExpected`); with every chunk
  size if and only if there is no such carriage return, but for one at the very front
  (`RevLines.ChunkSizeIndependence`).
- `set_domain` to a host leaves the domain with any server that had it
  (`Routing.NotExclusive`, `Routing.ExclusiveIff`).
- The weighted draw can be impossible, and can fall through to the first server
  (`Selection.CannotDrawIff`, `FallsThroughIff`, `AllEnabledReach`), and then chooses it even if it is disabled
  (`Selection.DisabledUsed`). `conf/template_client.yaml:14-16` says that a server of weight zero is not
  used; some draw picks it if and only if it is the first enabled one (`Selection.ZeroWeightUsed`).
- `docs/protocol.md:25-26` lists the AES tag of the special request before the ChaCha tag; the
  code seals with ChaCha first. The model follows the code.

## Model

| member | source | states |
|---|---|---|
| Bytes.PutUintDigits | crates/crypto/src/stream.rs:169-169 | the bytes of a written number are its digits to the base 256, the most significant first |
| Ciphers.LittleEndianDigits | crates/crypto/src/cipher.rs:97-101 | the bytes of the nonce are the digits of its number, the least significant first |
| Ciphers.AddNonceAdds | crates/crypto/src/cipher.rs:93-103 | adding a value to the nonce word by word is addition modulo 256^length of its little-endian number |
| Ciphers.AddNonceWithCarry | crates/crypto/src/cipher.rs:93-103 | nothing is lost in the carry chain but what leaves the last word |
| Ciphers.Cipher.AddToWord | crates/crypto/src/cipher.rs:97-101 | one round of the loop changes one word in place and hands on the carry |
| Ciphers.Cipher.IncNonce | crates/crypto/src/cipher.rs:93-103 | the loop over the nonce array leaves exactly `AddNonce` of the old nonce |
| Ciphers.Cipher.Encrypt | crates/crypto/src/cipher/ring_like_crypto.rs:95-103 | seals from a position on, leaves what is before it, appends the tag |
| Ciphers.Cipher.Decrypt | crates/crypto/src/cipher/ring_like_crypto.rs:105-108 | succeeds exactly when the AEAD opens, keeps the buffer's length, plaintext in front |
| Frames.PaddingDraws | crates/crypto/src/stream.rs:173-180 | a padding length can be drawn if and only if it is 0, or less than the maximum and with one byte more still within rate percent of the data; so for every rate of up to 100 and wherever the 16-bit cast cuts nothing |
| Frames.PaddingDrawsCut | crates/crypto/src/stream.rs:173-180 | the same where the cast does cut: by a multiple of 65536 hundreds |
| Frames.DrawnIff | crates/crypto/src/stream.rs:178-180 | each of these lengths comes out of the generator for some number, and no other does |
| Frames.FrameOnTheWire | crates/crypto/src/stream.rs:151-207 | a frame byte by byte: big-endian data length, padding length only where padding is configured, padding, data; what is sealed, under which nonce, and how far the nonce moves |
| Frames.EncodeAppend | crates/crypto/src/stream.rs:151-207 | the wire of two batches of writes is the first batch's wire, then the second's at the cursor the first leaves |
| Frames.AfterAppend | crates/crypto/src/stream.rs:186-206 | counters and nonce after two batches do not depend on where they are divided |
| WireTheorems.HeaderReads | crates/crypto/src/stream.rs:169-182 | a header of any drawable frame reads back as its data and padding lengths, no 16-bit field wraps |
| WireTheorems.FrameRoundTrip | crates/crypto/src/stream.rs:223-305 | decoding one frame gives its data, the sender's next cursor and exactly the bytes behind it |
| WireTheorems.DecodeEncode | crates/crypto/src/stream.rs:223-305 | decoding undoes encoding for every sequence of writes with anything behind it |
| WireTheorems.RoundTrip | crates/crypto/src/stream.rs:151-305 | a whole wire decodes to its payload and a clean end |
| WireTheorems.CutFrame | crates/crypto/src/stream.rs:104-109 | how a frame cut at any offset ends: cleanly, as unexpected end, or as invalid data |
| WireTheorems.Truncation | crates/crypto/src/stream.rs:235-290 | the decoder on a wire cut in any frame gives exactly the frames before it and ends cleanly on a segment boundary only, except where only an empty frame's tag is lost |
| WireTheorems.LocateCut | crates/crypto/src/stream.rs:151-207 | every cut of a wire lies in one frame at one offset |
| WireTheorems.TruncationOfNonEmptyFrames | crates/crypto/src/stream.rs:235-290 | without empty frames the decoder ends cleanly if and only if the cut is on a segment boundary; `Endings.CutIsHeard` says the same of the polls |
| Readers.FeedSettles | crates/crypto/src/stream.rs:99-113 | after any bytes the reader waits for more of a segment or holds data from its start |
| Readers.FeedAppend | crates/crypto/src/stream.rs:90-116 | how the bytes are cut into reads makes no difference |
| Readers.AdvanceMeans | crates/crypto/src/stream.rs:240-305 | completing a segment changes nothing of what is still to be delivered |
| Readers.FeedMeans | crates/crypto/src/stream.rs:223-305 | taking bytes changes nothing of what wire and reader together still deliver |
| Readers.DeliverMeans | crates/crypto/src/stream.rs:308-322 | output handed over, with what is left, is what was due before |
| Readers.ReadStepMeans | crates/crypto/src/stream.rs:215-325 | one poll, whatever it took and however it ended, keeps the meaning of the wire; an error of the stream is the decoder's ending |
| Readers.RunGoesOn | crates/crypto/src/stream.rs:215-325 | every poll in front of a run makes a run, so runs are what any sequence of polls does |
| Readers.RunMeans | crates/crypto/src/stream.rs:215-325 | every run of polls with any chunks and any room delivers a prefix of what the decoder gives, and the rest is what remains |
| Readers.DeliversDecoded | crates/crypto/src/stream.rs:215-325 | from a fresh reader on any wire: a prefix of the decoder's payload; after an unexpected end, invalid data, or no bytes with room on an ended transport, all of it, and the decoder's ending is that one |
| Readers.Progress | crates/crypto/src/stream.rs:307-322 | an answered poll with room on an open transport has taken bytes or handed some over |
| Readers.HandsOver | crates/crypto/src/stream.rs:308-322 | an answered poll fills the room or hands over all that is left of the frame |
| Readers.EmptyHanded | crates/crypto/src/stream.rs:308-324 | a poll with room returns no bytes if and only if the frame it completed is empty or it met the end of the transport |
| Readers.HeardOutcome | crates/crypto/src/stream.rs:104-109 | a clean end, an unexpected one or invalid data is what remains of the wire when it is heard |
| Readers.EndOfWire | crates/crypto/src/stream.rs:235-290 | what each state makes of an end of the wire |
| Streams.EncryptedStream.FromStream | crates/crypto/src/stream.rs:51-73 | a new stream is at frame 0 in both directions and has nothing buffered |
| Streams.EncryptedStream.PollReadExact | crates/crypto/src/stream.rs:90-116 | takes only the bytes missing; is done only when full, or ended on an empty buffer |
| Streams.EncryptedStream.CollectHeader | crates/crypto/src/stream.rs:223-262 | is the machine's header phase for every stall, failure and end |
| Streams.EncryptedStream.CollectPadding | crates/crypto/src/stream.rs:264-275 | is the machine's padding phase |
| Streams.EncryptedStream.CollectData | crates/crypto/src/stream.rs:277-305 | is the machine's data phase, truncating away the tag |
| Streams.EncryptedStream.OpenData | crates/crypto/src/stream.rs:292-304 | opens the segment, moves nonce and counter and truncates, exactly as the machine's step; fails exactly when it does not open |
| Streams.EncryptedStream.DeliverReady | crates/crypto/src/stream.rs:308-322 | hands over what fits and goes back to a header when the frame is used up |
| Streams.EncryptedStream.Collect | crates/crypto/src/stream.rs:223-305 | the phases in sequence take exactly the bytes that lead to the state reached |
| Streams.EncryptedStream.PollRead | crates/crypto/src/stream.rs:215-325 | one call is one step of the reading machine; an error of the transport leaves a valid reader |
| Streams.EncryptedStream.PollWriteBuffer | crates/crypto/src/stream.rs:118-149 | bytes taken plus bytes buffered stay the same sequence through partial writes, stalls and errors; done leaves nothing unless stalling is allowed; fails exactly when the transport fails or takes nothing |
| Streams.EncryptedStream.AssembleHeader | crates/crypto/src/stream.rs:156-189 | the header of a write, sealed if due, with the padding length that the generator's number gives in the range of `Frames.PaddingDraws` |
| Streams.EncryptedStream.AssembleDataToBuffer | crates/crypto/src/stream.rs:151-207 | the buffer is the encoding (`Frames.FrameOnTheWire`) of the frame of the written data with drawn length and bytes of padding; counter and nonce move as the decoder expects |
| Streams.EncryptedStream.AppendData | crates/crypto/src/stream.rs:197-206 | the data follows the frame's front, sealed while the limit is not exceeded, and the counter grows by its length |
| Streams.EncryptedStream.PollWrite | crates/crypto/src/stream.rs:333-353 | sent plus buffered is the encoding of all accepted writes; Pending accepts nothing and only on a stalled transport, Ready accepts exactly the first 65535 bytes or fewer, with the padding the generator gives; failure exactly with the transport |
| Streams.EncryptedStream.PollFlush | crates/crypto/src/stream.rs:355-360 | a completed flush has sent the whole encoding and leaves nothing buffered; Pending and failure exactly with the transport |
| Streams.AcceptOne | crates/crypto/src/stream.rs:343-352 | a frame more extends wire, cursor and payload at their ends |
| LockStep.InsideAdvances | crates/crypto/src/stream.rs:240-305 | a receiver that knows what the sender put into the frame opens each segment and goes to the next |
| LockStep.FeedInside | crates/crypto/src/stream.rs:223-305 | state and buffer pin down the wire offset; no bytes of the frame ever fail to open |
| LockStep.Agreement | crates/crypto/src/stream.rs:162-206 | at a frame boundary the receiver's count and nonce are the sender's for that frame, and within it the decision to decrypt is the sender's to encrypt |
| LockStep.GrowKeepsStep | crates/crypto/src/stream.rs:333-353 | frames written later do not disturb a receiver in step |
| LockStep.TakesNoMore | crates/crypto/src/stream.rs:99-113 | the reader never consumes past the current frame |
| LockStep.FeedInStep | crates/crypto/src/stream.rs:223-305 | whatever prefix of the wire arrives, the receiver stays in step and nothing fails to open |
| LockStep.DeliverInStep | crates/crypto/src/stream.rs:308-322 | handing over keeps the delivered bytes the payload of the received frames plus the part handed over |
| LockStep.ReadKeepsStep | crates/crypto/src/stream.rs:215-325 | every poll keeps the two machines in step; no error of the stream is returned unless the transport has ended, and then the reader stopped inside the sender's frame |
| LockStep.Drained | crates/crypto/src/stream.rs:215-325 | whole wire taken and nothing held back means all payload delivered and the receiver at the sender's cursor |
| Endings.ZeroByteRead | crates/crypto/src/stream.rs:308-324 | in step, a poll with room answers no bytes if and only if the frame just completed is the sender's empty write or the transport ended before the next segment |
| Endings.EmptyWriteReadsAsEnd | crates/crypto/src/stream.rs:339-352 | the frame of an empty write, polled on an open transport, answers no bytes and nothing else |
| Endings.HeardOnlyAtEnd | crates/crypto/src/stream.rs:215-325 | without empty frames, in any run, an end is heard only of a transport that has ended |
| Endings.FrontIsHeard | crates/crypto/src/stream.rs:215-325 | on any front of an encoded wire, what was delivered and heard is what the decoder gives |
| Endings.CutIsHeard | crates/crypto/src/stream.rs:104-109 | truncation as observed: a cut wire of non-empty frames, polled until an end is heard, has delivered exactly the complete frames; no bytes are heard if and only if the cut is on a segment boundary, unexpected end otherwise |
| Endings.ReadReceives | crates/crypto/src/stream.rs:215-325 | every poll keeps: in step, failed only at the end and off a boundary, answered no bytes only at the end on a boundary or after an empty write |
| Endings.EndIsTold | crates/crypto/src/stream.rs:104-109 | when an end is heard the payload is that of the frames come whole, and it was a failure if and only if the cut shows |
| Endings.ToldIsDecoded | crates/crypto/src/stream.rs:215-325 | so what was delivered and heard is what the decoder makes of the wire that came |
| Sessions.Link.Write | crates/crypto/src/stream.rs:333-353 | keeps the two-ended invariant; accepted bytes are recorded exactly, empty writes noted; fails exactly when the transport does |
| Sessions.Link.Flush | crates/crypto/src/stream.rs:355-360 | keeps it, a completed flush empties the buffer, and only the transport can prevent one |
| Sessions.Link.Read | crates/crypto/src/stream.rs:215-325 | keeps it; a failure of the stream, and without empty writes a read of no bytes with room, only on a connection that was cut and is drained; on an open one every answered poll with room makes progress |
| Sessions.Link.Promises | crates/crypto/src/stream.rs:215-325 | delivered is a prefix of accepted; who heard an end has exactly the payload of the frames carried whole and heard a failure if and only if the cut shows |
| Sessions.Link.HeardIsDecoded | crates/crypto/src/stream.rs:215-325 | who heard an end, by an error of the stream or by no bytes where there was room, got the decoder's payload of the bytes carried, and an error if and only if the decoder ends uncleanly |
| Sessions.Link.QuietIsComplete | crates/crypto/src/stream.rs:355-360 | flushed, carried and drained: everything accepted is delivered |
| Sessions.PerformBeside | crates/crypto/src/stream.rs:15-37 | an event in one direction leaves the other direction's invariant alone |
| Sessions.Session | crates/crypto/src/stream.rs:210-368 | any schedule in both directions: received is a prefix of written, all of it when quiet; without an empty write no end is heard, by failure or by a read of no bytes, unless the connection was cut, and then it is told right |
| Sessions.Drain | crates/crypto/src/stream.rs:210-368 | flush, carry and reads with any room end with everything delivered, or a transport has said Pending, failed or taken nothing |
| Sessions.Settle | crates/crypto/src/stream.rs:210-368 | the same in both directions of one tunnel |
| Limits.CountIsPayload | crates/crypto/src/stream.rs:206-206 | the counter is the payload written |
| Limits.EncryptedFramesArePrefix | crates/crypto/src/stream.rs:162-201 | no frame is encrypted after a plain one |
| Limits.LimitIsCovered | crates/crypto/src/stream.rs:186-204 | every payload byte at an index up to the limit is in an encrypted frame |
| Limits.EncryptedPayloadBound | crates/crypto/src/stream.rs:186-204 | encrypted payload is at most the limit plus 65535 |
| Limits.WireLength | crates/crypto/src/stream.rs:151-207 | wire length is payload, padding, a header per frame and two tags per encrypted frame |
| Limits.PaddingRate | crates/crypto/src/stream.rs:173-180 | padding is at most rate percent of the payload, even where the cast to 16 bits cuts the quotient |
| Limits.NoncesOfFrame | crates/crypto/src/stream.rs:186-204 | the nonces used are, frame by frame, those that header and data are sealed under |
| Limits.NoncesAtDistances | crates/crypto/src/stream.rs:186-204 | each nonce used is the first one plus the distance come so far |
| Limits.DistancesGrow | crates/crypto/src/stream.rs:186-204 | distances strictly grow and by less than 2^16 a frame |
| Limits.NoncesAreFresh | crates/crypto/src/stream.rs:186-204 | in up to 2^80 frames no two segments are sealed under the same nonce |
| Limits.StepMoves | crates/crypto/src/cipher.rs:93-103 | a step of up to 65535 leaves a nonce unchanged if and only if it is 0 |
| Handshake.BuildPacket | crates/client/src/protocol.rs:215-244 | byte by byte: nonce; salt, padding length and host length sealed under the key of the configured derivation and cipher for this time bucket; the host sealed under the nonce moved by the padding length; padding |
| Handshake.UnlockHeader | crates/cc-server/src/server.rs:85-112 | opens under the current time bucket's key, else the previous one's, and keeps the cipher that did |
| Handshake.AcceptBody | crates/cc-server/src/server.rs:114-153 | each error exit for its own reason; on success exactly the announced bytes are consumed |
| Handshake.AcceptHeader | crates/cc-server/src/server.rs:67-153 | the whole parser equals `Parse`; success consumes exactly the packet, rejection passes on exactly the bytes read |
| Handshake.MainReads | crates/cc-server/src/server.rs:114-120 | salt and padding read back as written, host length modulo 256 |
| Handshake.PacketRoundTrip | crates/cc-server/src/server.rs:67-153 | in the window the server recovers salt, padding and host if and only if the host has 4 to 259 bytes |
| Handshake.PacketOutcomes | crates/cc-server/src/server.rs:67-153 | every other outcome for a packet in time: too short a first read is no tunnel, bytes missing are a wrong size, a packet shorter than the first read panics, a host that is no text is refused |
| Handshake.SpoiltHost | crates/cc-server/src/server.rs:138-145 | a sealed host that does not open is a bad host |
| Handshake.ShortestPacket | crates/cc-server/src/server.rs:51-65 | the first read is as long as the shortest packet, of a 4-byte host and the smallest padding, and only this one |
| Handshake.HeaderNonces | crates/client/src/protocol.rs:225-237 | main header and host are sealed under different nonces for every padding that can be drawn if and only if the range does not begin at 0 |
| Handshake.WindowDecides | crates/cc-server/src/server.rs:82-112 | turned away, with exactly the bytes read, if and only if sealed in neither accepted bucket |
| Handshake.Window | crates/client/src/protocol.rs:217-218 | ages up to the delay are in an accepted bucket, ages from twice the delay never |
| Tunnels.NewClientServer | crates/crypto/src/cipher.rs:41-56 | both ciphers of the configured kind, the client's under the key derived for the client's stream and the server's under that for the server's, from the same salt, with nonces from the salt's two ends; the keys differ wherever the derivation separates purposes |
| Tunnels.StreamKeysApart | crates/crypto/src/kdf.rs:56-66 | under a derivation that separates purposes and salts two streams share a key only if both are the same, and none has a header's; `Library.KeyedSeparatesKeys` exhibits one |
| Tunnels.OpenTunnel | crates/client/src/protocol.rs:199-259 | sends the packet and leaves a stream that writes what the server will read and reads what it will write |
| Tunnels.AcceptTunnel | crates/cc-server/src/server.rs:67-171 | a stream exactly if the header is accepted, with ciphers mirrored and the wire at frame 0 |
| Tunnels.HeaderArrives | crates/cc-server/src/server.rs:67-153 | of packet and frames in one piece the server takes the packet and leaves the frames |
| Tunnels.WriteEarly | crates/client/src/protocol.rs:246-263 | writing before the server has answered keeps the writer's invariant, and only an empty write makes an empty frame |
| Tunnels.Connect | crates/cc-server/src/server.rs:67-171 | after the handshake both directions are links in step with nothing delivered yet |
| Tunnels.Tunnel | crates/client/src/protocol.rs:183-263 | from the first packet on, every schedule keeps the tunnel the identity on bytes both ways, and without empty writes no end is heard before a cut |
| Tunnels.DrainedTunnel | crates/client/src/protocol.rs:183-263 | an uncut tunnel, drained at the end, has delivered everything written in both directions unless a transport was in trouble |
| UpgradedTunnels.AcceptUpgraded | crates/cc-server/src/server.rs:36-171 | of one connection holding upgrade request, packet and frames the request is answered, the packet accepted and exactly the frames left for a stream at frame 0, if and only if host and path are short enough |
| ConfigExchange.BuildRequest | crates/client/src/protocol.rs:72-96 | byte by byte: nonce; salt and padding length sealed by ChaCha and then AES under the Argon2 key of the half-minute; padding |
| ConfigExchange.AcceptRequest | crates/cc-server/src/server.rs:193-260 | the special-request parser equals `ParseRequest`, of which `RequestWindowDecides` and `RequestOutcomes` say what it grants and what it refuses; when granted exactly the announced request is consumed |
| ConfigExchange.OpenRequest | crates/cc-server/src/server.rs:222-248 | AES with the key of this bucket or the one before and no other (`RequestWindowDecides`), then ChaCha with the key that worked |
| ConfigExchange.BuildResponse | crates/cc-server/src/server.rs:262-313 | header and payload are each sealed twice, the payload under advanced nonces |
| ConfigExchange.ResponseKeysApart | crates/cc-server/src/server.rs:267-271 | answers under different salts have different keys, none of them a request's, where the derivation separates keys |
| ConfigExchange.ReadResponse | crates/client/src/protocol.rs:101-181 | the client's reader equals `ParseResponse`, the rest coming as late as it may, and takes exactly the response |
| ConfigExchange.ReadPayload | crates/client/src/protocol.rs:150-181 | opens twice and reads the configuration behind the first padding; the tag left behind does not matter |
| ConfigExchange.ConfigRoundTrip | crates/client/src/protocol.rs:162-180 | every configuration reads back as itself, whatever follows it |
| ConfigExchange.ConfigUnique | crates/client/src/protocol.rs:162-180 | bytes read as a configuration if and only if they are that configuration's form: nothing else is accepted, and nothing of that form refused |
| ConfigExchange.ConfigBytes | crates/cc-server/src/server.rs:294-302 | the form byte by byte, with its codes and field order |
| ConfigExchange.ResponseRoundTrip | crates/client/src/protocol.rs:101-181 | for all paddings the client gets the server's configuration, and takes the response to be as long as it is |
| ConfigExchange.RequestRoundTrip | crates/cc-server/src/server.rs:193-260 | a timely request is granted if and only if the first read brought its header and did not run past it, and is taken to be as long as it is |
| ConfigExchange.RequestWindowDecides | crates/cc-server/src/server.rs:205-240 | a request whose header came whole and with nothing behind it is granted if and only if sealed in this half-minute or the one before, and does not open otherwise |
| ConfigExchange.RequestWindow | crates/cc-server/src/server.rs:205-240 | granted up to an age of 30000 ms, refused from 60000 ms on |
| ConfigExchange.RequestOutcomes | crates/cc-server/src/server.rs:217-259 | every outcome for a request in time: too few bytes, bytes missing, bytes too many, granted |
| ConfigExchange.Exchange | crates/cc-server/src/server.rs:71-112 | main parser to special parser to client: the whole exchange yields the server's configuration |
| Upgrade.CountsEndsLine | crates/client/src/upgrade_stream.rs:87-91 | the line-feed counter is positive exactly at the end of a line |
| Upgrade.ScannerFindsBlock | crates/client/src/upgrade_stream.rs:66-94 | the scanner stops exactly at the end of the first blank line |
| Upgrade.UpgradeStream.PollWrite | crates/client/src/upgrade_stream.rs:107-135 | the request goes out whole and once before any payload, through partial writes and stalls; fails only when the transport does |
| Upgrade.UpgradeStream.ScanByte | crates/client/src/upgrade_stream.rs:66-93 | one byte at a time, counted against the limit, nothing skipped or kept |
| Upgrade.UpgradeStream.PollRead | crates/client/src/upgrade_stream.rs:54-100 | consumes through the blank line and passes everything behind it unchanged; no bytes with room only at the transport's end, Pending and failure only with the transport |
| Upgrade.ReadRequest | crates/cc-server/src/server.rs:353-372 | reads exactly the header block of fewer than 255 bytes; gives up only if what arrives begins with none |
| Upgrade.ProcessHttpUpgrade | crates/cc-server/src/server.rs:353-393 | switches if and only if what arrives begins with a short enough block that names the path; replies only then, and takes only the block |
| Upgrade.AnswerRequest | crates/cc-server/src/server.rs:353-393 | the client's request, with anything behind it, is answered and exactly consumed if and only if host and path have fewer than 188 bytes together |
| Upgrade.BlockIsBlock | crates/cc-server/src/server.rs:381-389 | non-blank lines and a blank line are their own header block whatever follows |
| Upgrade.ReplyIsScanned | crates/cc-server/src/server.rs:381-389 | the server's answer is a block that fits the client's limit |
| Upgrade.ReplyText | crates/cc-server/src/server.rs:381-389 | the reply text, beginning with the status line of code 101 |
| Upgrade.HandOff | crates/client/src/upgrade_stream.rs:66-99 | whatever answer the other side gives, a finished scan has consumed its header block and not a byte more |
| Upgrade.RequestIsScanned | crates/client/src/upgrade_stream.rs:39-45 | the client's request is consumed exactly and accepted if and only if host and path are short enough |
| Upgrade.RequestText | crates/client/src/upgrade_stream.rs:39-45 | the request text, path in the first line and host in the second |
| UpgradeSessions.FitsBlock | crates/client/src/upgrade_stream.rs:66-94 | while any answer is scanned, the scan has not got beyond its header block |
| UpgradeSessions.WhyItFails | crates/client/src/upgrade_stream.rs:77-80 | the limit is exceeded only if the first 255 bytes hold no block or the connection was cut |
| UpgradeSessions.ReadOnce | crates/client/src/upgrade_stream.rs:54-100 | with any answer, a read moves bytes from the transport to scanned or delivered; it fails only after a cut or without a block, and brings nothing only at the end or when the transport stalls or fails |
| UpgradeSessions.Converse | crates/client/src/upgrade_stream.rs:50-135 | every schedule and every answer: request, then payload sent; upgraded only behind a block of at most 255 bytes, everything behind it delivered in order; without such a block never upgraded and nothing delivered; an end is heard only after a cut and after everything that arrived |
| UpgradeSessions.ServerAnswers | crates/cc-server/src/server.rs:381-389 | with the server's own answer that block is the answer itself |
| RevLines.LastLfMeans | flutter/covert_connect_ui/rust/src/api/rev_lines_ex.rs:105-107 | the recursive search is the last line feed |
| RevLines.SplitJoin | flutter/covert_connect_ui/rust/src/api/rev_lines_ex.rs:87-142 | the segments joined by line feeds are the text |
| RevLines.SegmentsHaveNoLf | flutter/covert_connect_ui/rust/src/api/rev_lines_ex.rs:87-142 | no segment has a line feed in it |
| RevLines.RevLines.ReadToBuffer | flutter/covert_connect_ui/rust/src/api/rev_lines_ex.rs:74-85 | reads the bytes before the position and steps back over them; fails behind the end of the file |
| RevLines.RevLines.ScanChunk | flutter/covert_connect_ui/rust/src/api/rev_lines_ex.rs:105-127 | collects a chunk backwards down to its last line feed |
| RevLines.RevLines.TakeChunk | flutter/covert_connect_ui/rust/src/api/rev_lines_ex.rs:99-131 | one chunk either finishes the line or strictly moves the position back |
| RevLines.RevLines.StepForward | flutter/covert_connect_ui/rust/src/api/rev_lines_ex.rs:107-119 | from the chunk's start to where the line before ends, with or without its carriage return |
| RevLines.RevLines.NextLine | flutter/covert_connect_ui/rust/src/api/rev_lines_ex.rs:87-142 | the line before the position if it is text, an error in its place if not, and either way on to where the line before ends; the end at the front, an error behind the file, for every chunk size |
| RevLines.Collect | flutter/covert_connect_ui/rust/src/api/rev_lines_ex.rs:64-69 | repeated calls end and yield as many results as there are lines: each line that is text, an error for each that is not |
| RevLines.Restart | flutter/covert_connect_ui/rust/src/api/rev_lines_ex.rs:45-62 | starting from a returned position yields exactly the remaining lines |
| RevLines.ChunkStartIs | flutter/covert_connect_ui/rust/src/api/rev_lines_ex.rs:99-103 | where the chunk begins that holds a line feed: a whole number of chunks before the line's end, or at the front of the file |
| RevLines.LinesAreExpected | flutter/covert_connect_ui/rust/src/api/rev_lines_ex.rs:99-119 | for each chunk size: the lines are the reversed segments if and only if no carriage return before a line feed is inside its chunk |
| RevLines.ChunkSizeDoesNotMatter | flutter/covert_connect_ui/rust/src/api/rev_lines_ex.rs:87-142 | without CRLF every chunk size yields the reversed segments, an empty first one left out |
| RevLines.BigChunkStrips | flutter/covert_connect_ui/rust/src/api/rev_lines_ex.rs:110-113 | with a CRLF a chunk as large as the file yields other lines |
| RevLines.ChunkSizeIndependence | flutter/covert_connect_ui/rust/src/api/rev_lines_ex.rs:99-113 | all chunk sizes yield the reversed segments if and only if there is no CRLF past the first byte |
| Domains.LastLabels | crates/client/src/proxy.rs:415-424 | the last labels joined are a dot-suffix with just these labels |
| Domains.SuffixIsLastLabels | crates/client/src/proxy.rs:415-424 | every dot-suffix is made of the last labels |
| Domains.DotSuffixMeans | crates/client/src/proxy.rs:415-424 | a dot-suffix is the name itself or what stands at its end behind a dot |
| Domains.LabelsHaveNoDots | crates/client/src/proxy.rs:417-417 | no label has a dot |
| Domains.PortGoes | crates/client/src/proxy.rs:409-413 | of host, colon and port the host is left, and a target without colon stays as it is |
| Domains.DomainVariants | crates/client/src/proxy.rs:409-424 | the accumulating loop lists the names of the last two labels, three, and so on, of the host without its port (`PortGoes`) |
| Domains.VariantsAreSuffixes | crates/client/src/proxy.rs:415-424 | exactly the dot-suffixes of two or more labels are listed |
| Domains.BinarySearch | crates/client/src/proxy.rs:457-457 | membership on sorted lists, never an invented member on others |
| Domains.SortSorts | crates/client/src/config.rs:114-120 | sorting sorts |
| Domains.InsertKeepsSorted | crates/client/src/proxy.rs:135-136 | a sorted list with one element more, sorted again, is sorted |
| Domains.RemoveKeepsSorted | crates/client/src/proxy.rs:159-160 | removal of the first occurrence keeps a list sorted |
| Domains.RemovesFirst | crates/client/src/proxy.rs:159-160 | the first occurrence goes and the others keep their order |
| Domains.LeqMeans | crates/client/src/proxy.rs:136-136 | strings are ordered by the first character that differs, a front before the whole |
| Domains.SortedByNeighbours | crates/client/src/proxy.rs:136-136 | sorted as soon as no neighbours are out of order |
| Pac.DotsAndLabels | crates/client/src/pac_file_service.rs:104-104 | a name has one label more than dots, so script and service bucket alike |
| Pac.CountDots | crates/client/src/pac_file_service.rs:104-104 | the counting loop counts the dots |
| Pac.UpdateContent | crates/client/src/pac_file_service.rs:101-113 | the loop builds an index: each bucket holds exactly the domains of its number of labels |
| Pac.FindProxyForUrl | crates/client/src/pac_file_service.rs:35-48 | the script's loop says direct exactly if some bucket has the host's last labels |
| Pac.IndexMeansSuffix | crates/client/src/pac_file_service.rs:35-48 | over any index that is exactly: some listed domain is a dot-suffix of the host |
| Routing.HostIndex | crates/client/src/proxy.rs:131-131 | the first server of that host, or none |
| Routing.Proxy.SetDomain | crates/client/src/proxy.rs:126-153 | all lists and the outcome, in every branch, as the operation's meaning `Apply` says, which `SetDomainAtServer`, `DirectDomainOrder`, `ClearDomainLists`, `Outcomes` and `Frame` describe without it |
| Routing.Proxy.RemoveDomainFromServers | crates/client/src/proxy.rs:155-166 | the loop takes one occurrence from every server's list and changes nothing else |
| Routing.Proxy.RemoveDomain | crates/client/src/proxy.rs:168-171 | an error that changes nothing unless the domain is direct |
| Routing.Proxy.SetApp | crates/client/src/proxy.rs:173-200 | the same for applications, described by `SetAppAtServer`, `DirectAppOrder`, `ClearAppLists`, `Outcomes` and `Frame` |
| Routing.Proxy.RemoveAppFromServers | crates/client/src/proxy.rs:202-213 | the loop takes one occurrence from every server's list |
| Routing.Proxy.RemoveApp | crates/client/src/proxy.rs:215-228 | an error that changes nothing unless the application is direct |
| Routing.ApplyKeepsSorted | crates/client/src/proxy.rs:126-228 | no operation unsorts any server's list |
| Routing.RunKeepsSorted | crates/client/src/proxy.rs:126-228 | nor does any run of operations, so binary search stays membership |
| Routing.SetDomainAtServer | crates/client/src/proxy.rs:131-142 | only the first server of the host changes, only its domains, and only if it does not list the domain: then by exactly one entry, into a sorted list |
| Routing.SetAppAtServer | crates/client/src/proxy.rs:178-189 | the same of an application |
| Routing.Outcomes | crates/client/src/proxy.rs:126-228 | an assignment fails exactly if it names a host that no server has, a removal exactly if the entry is not direct |
| Routing.Frame | crates/client/src/proxy.rs:126-228 | host, weight and enabling of a server never change, nor the applications by what is done to domains, nor the reverse |
| Routing.DirectDomainOrder | crates/client/src/proxy.rs:128-149 | the direct domains entry by entry: a new one at the end if it is not there, a removed one by its first occurrence |
| Routing.DirectAppOrder | crates/client/src/proxy.rs:173-228 | the same of the direct applications |
| Routing.RunKeepsDistinct | crates/client/src/proxy.rs:126-228 | no run of operations lists anything twice that was listed once |
| Routing.MadeDirect | crates/client/src/proxy.rs:146-166 | after any run from lists without duplicates a domain made direct is with no server and direct exactly once |
| Routing.AppMadeDirect | crates/client/src/proxy.rs:193-213 | the same of an application |
| Routing.SetDomainLists | crates/client/src/proxy.rs:127-145 | membership changes for that domain at that server only |
| Routing.ClearDomainLists | crates/client/src/proxy.rs:146-166 | a domain made direct leaves every server that lists it once, and only then |
| Routing.DirectDomains | crates/client/src/proxy.rs:127-149 | of the direct domains only the assigned one can go, and stays if it was listed twice |
| Routing.RemoveDomainLists | crates/client/src/proxy.rs:155-171 | a removed domain is gone from every list that had it once, an unlisted one changes nothing |
| Routing.SetAppLists | crates/client/src/proxy.rs:174-192 | membership changes for that application at that server only |
| Routing.ClearAppLists | crates/client/src/proxy.rs:193-213 | an application made direct leaves every server that lists it once, and only then |
| Routing.DirectApps | crates/client/src/proxy.rs:174-196 | of the direct applications only the assigned one can go |
| Routing.RemoveAppLists | crates/client/src/proxy.rs:202-228 | a removed application is gone from every list that had it once, an unlisted one changes nothing |
| Routing.NotExclusive | crates/client/src/proxy.rs:127-142 | assigned to two servers in turn, a domain is with both |
| Routing.ExclusiveIff | crates/client/src/proxy.rs:127-142 | the assigned server is the only one if and only if no other had the domain before |
| Selection.AnyDomain | crates/client/src/proxy.rs:455-461 | finds a variant exactly if the sorted list has one |
| Selection.ListMatches | crates/client/src/proxy.rs:455-461 | a list has a variant exactly if it lists a suffix of the target of two or more labels |
| Selection.SelectServer | crates/client/src/proxy.rs:379-493 | direct application, no servers, first server by application, first by domain, then by weight, in this order, exact as soon as the domain lists of enabled servers are sorted; for host and port, where no application rule decides, the first enabled server listing a suffix of the host with a dot |
| Selection.RulesMean | crates/client/src/proxy.rs:397-444 | direct exactly if a named process has a direct application in its name; otherwise the first enabled server that lists such an application |
| Selection.DisabledOnlyLast | crates/client/src/proxy.rs:446-492 | a disabled server is chosen only where no rule decides and the draw falls through to the first server |
| Selection.ContainsMeans | crates/client/src/proxy.rs:401-401 | an application matches if its name stands anywhere in the process name |
| Selection.SelectByDomain | crates/client/src/proxy.rs:446-469 | the first enabled server listing a suffix; else sums and counts of all enabled servers go into the draw |
| Selection.SelectByWeight | crates/client/src/proxy.rs:471-492 | from the sums and counts: a draw below average times servers and the walk's pick for it, or a panic exactly when no draw is possible |
| Selection.Walk | crates/client/src/proxy.rs:479-492 | the first enabled server whose cumulative weight reaches the draw, else the first server |
| Selection.PicksShare | crates/client/src/proxy.rs:479-490 | a positive draw picks the one server whose share of the cumulative weights it falls in |
| Selection.PicksZero | crates/client/src/proxy.rs:479-490 | the draw zero picks the first enabled server |
| Selection.ZeroWeight | crates/client/src/proxy.rs:479-492 | which draws pick a server of weight zero |
| Selection.ZeroWeightUsed | crates/client/src/proxy.rs:477-492 | some draw picks it if and only if it is the first enabled server |
| Selection.DisabledUsed | crates/client/src/proxy.rs:477-492 | some draw picks a disabled server if and only if it is the first of all and the shares fall short of the range |
| Selection.ShareSum | crates/client/src/proxy.rs:479-485 | the shares add up to the explicit weights plus an average for each server without one |
| Selection.AverageFits | crates/client/src/proxy.rs:471-485 | the cast of the average to a byte loses nothing |
| Selection.AverageBounds | crates/client/src/proxy.rs:471-475 | the average is the explicit weights' rounded down, or what 100 gives for each server if no weight is given |
| Selection.CannotDrawIff | crates/client/src/proxy.rs:471-477 | exactly when the division or the empty range panics |
| Selection.FallsThroughIff | crates/client/src/proxy.rs:477-492 | some draw falls through if and only if the shares fall short of the range |
| Selection.AllEnabledReach | crates/client/src/proxy.rs:477-492 | with all servers enabled none does, if and only if some weight is positive or the average times the number of weighted servers is at most 1 (so always where no weight is given) |
| Selection.AssignedDomainMatches | crates/client/src/proxy.rs:126-461 | after an assignment the server's rule matches a target under the domain if and only if it is enabled, and the domain has a dot or the rule matched before |
| Selection.AssignedDomainRoutes | crates/client/src/proxy.rs:126-461 | after an assignment that server is chosen, where no application rule decides, if and only if no enabled server before it lists a suffix of the target |
| Selection.RunKeepsSearch | crates/client/src/proxy.rs:126-228 | lists sorted at the start are searched exactly after every run of operations |
| Selection.ScriptAfterAssignment | crates/client/src/proxy.rs:127-128 | after it the script answers DIRECT exactly for what is under another direct domain, or under this one if it was direct twice |

## Left out

- Streams.EncryptedStream.PollRead: after an error of the stream itself (unexpected end, invalid data) the model says nothing about further polls; `poll_shutdown` differs from `poll_flush` only in the inner call and is not modelled.
- Streams.EncryptedStream.PollWrite: `written` and `readed` are unbounded, so the wrap of a machine word after 2^64 payload bytes is not modelled.
- Ciphers.Cipher.Decrypt: the build on `ring` or `aws-lc` is modelled; the `rust_crypto` build subtracts the tag size from the buffer's length first, which underflows on a buffer shorter than a tag (an end of the stream where only an empty encrypted frame's tag is missing), where the modelled build reports invalid data. The bytes of a failed decryption are unspecified in the library and left as they were here.
- Handshake.BuildPacket: a host of fewer than 4 bytes wraps its length as in a release build; with overflow checks the program stops there.
- Handshake.AcceptHeader: a read takes what has arrived up to its limit, and readiness (`WouldBlock`) is a short read; DNS lookup and the outgoing connection are not modelled.
- Handshake.PacketRoundTrip: that the key of another time bucket does not open the packet is a hypothesis about the library, stated for the packet concerned; `Handshake.SomeLibrarySeparates` exhibits a library that meets it.
- Handshake.WindowDecides: rests on the same hypothesis for both buckets the server tries.
- ConfigExchange.RequestRoundTrip: rests on the same hypothesis for the request, as do `RequestOutcomes` and `RequestWindowDecides`; `ConfigExchange.SomeLibrarySeparatesRequests` exhibits a library that meets it.
- Tunnels.Tunnel: the first packet arrives in one piece, as the server's own error text demands, and key derivation succeeds.
- Upgrade.RequestIsScanned: a reverse proxy between client and server may rewrite the request; the block rule covers whatever arrives, the length bound only the request as sent.
- Upgrade.ProcessHttpUpgrade: the search for the path is on bytes; the lossy UTF-8 conversion before it is not modelled.
- RevLines.RevLines.NextLine: a chunk size of 0 (with which the loop would not end) is excluded, and the file does not change while it is read.
- Selection.SelectServer: on an unsorted domain list of an enabled server, where the library's binary search promises nothing, only soundness of a domain match is stated; finding the process name is the system's business.
- Routing.RunKeepsSorted: lists start sorted by `init` (crates/client/src/config.rs:114-120); adding, changing and deleting servers is not modelled, and app and domain locks taken one after the other are one step.
- Pac.FindProxyForUrl: the address and plain-host rules before the lookup and the text of the script are left out.
- AEAD, key derivation and random number internals; strength of the encryption. Only the laws in `Library` are used.
- Sockets, TLS, DNS, wakers and pinning, `terminate_slowly`, the HTTP proxy front end.
- `ttfb_stream.rs` and `monitor_stream.rs`: a probe and counters around the stream.
- `crates/sys-proxy`, `crates/sys-connections`, the Flutter user interface and its generated bindings.
- Loading and saving of configuration; the loader's refusal of a padding rate above 100 is not needed by any result.
