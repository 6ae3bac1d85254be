# webrtc-murmur-proxy in Dafny

A model of the voice bridge at the heart of `webrtc-murmur-proxy.js`. The
proxy sits between a browser, reached over WebRTC, and a Mumble (Murmur)
voice server, reached over a TLS socket. Each event callback of the proxy
runs to completion, so each one is modelled as a pure step function over an
explicit state record:

- **Frames**: the TCP framing of the voice protocol. A frame is a 16-bit type,
  a 32-bit big-endian payload length, then the payload. Type 1 is the audio
  tunnel. `Frames.Parse` is the reference reading of a byte stream as frames.
- **Varint**: the voice protocol's variable-length integers, for the
  non-negative forms. The encoding table is Mumble's published one, because
  `PacketDataStream` is not part of this model.
- **Reassembly**: the socket `data` handler. It cuts the server's byte stream,
  which arrives in arbitrary chunks, back into frames.
  - Audio tunnel frames are handed to the audio handler.
  - All other bytes are passed to the browser's data channel unparsed.
  - Between chunks the handler keeps at most one of: a short leftover (fewer than six
    bytes), a count of bytes to skip, or the head of a split audio frame.
  - `Step` is the handler with its split-frame branch doing what the code's
    comments describe. `StepAsWritten` is the handler as written.
- **Tunnel**: the audio packet inside a tunnel frame.
  - `DecodeTunnel` is the header check of `handleAudioFromMurmur`: the
    type/target byte, three varints, the last-packet flag and the length.
  - `BuildClientPacket` is the frame `processAudioData` writes to the server.
  - Each has a partner: `EncodeServerAudio` for decoding, and
    `ParseClientPayload` with `Frames.Parse` for building.
- **SpeakerRing**: the three-slot playback ring of each speaker.
  - `Place` stores a decoded packet.
  - `Tick` is the 10 ms upload timer.
  - `Queue` and `Pending` give the FIFO view that both preserve.
- **Bridge**: the server-to-browser half of a connection.
  - It joins the reassembler, the tunnel decoder and the per-speaker rings.
  - The first packet from a speaker creates that speaker's ring and sends a
    "user" notice.
  - It also holds two small streams that show how the code as written
    differs from the corrected model.
- **Outbound**: `processAudioData`, the browser-to-server half.
  - It gathers microphone frames in a 2400-sample buffer.
  - When exactly 1920 samples (40 ms) are pending, it Opus-encodes them and
    sends one tunnel frame. Packets are numbered by a per-call counter.

The Opus codec, the clock and all I/O are parameters of the model or are
left out (see below).

## Model

| member | source | states |
|---|---|---|
| Bytes.Uint32Bytes | webrtc-murmur-proxy.js:361 | a 32-bit big-endian store reads back as the value modulo 2^32 |
| Bytes.Uint32BytesOfRead | webrtc-murmur-proxy.js:220 | storing a read 32-bit field gives back the four bytes it was read from |
| Varint.PutVarint | webrtc-murmur-proxy.js:358-359 | an integer takes one to nine bytes, and one below 0x80 is the single byte itself |
| Varint.GetVarint | webrtc-murmur-proxy.js:131-134 | an empty input is truncated, a first byte below 0x80 is the whole value, a first byte of 0xF8 or more is a negative form and rejected; an accepted integer is below 2^64 and takes one to nine bytes of the input |
| Varint.VarintRoundTrip | webrtc-murmur-proxy.js:131-134 | whatever follows an encoded integer below 2^64, decoding gives back the value and the width that was written |
| Varint.GetVarintPrefix | webrtc-murmur-proxy.js:131-134 | bytes after a complete integer do not change how it decodes |
| Frames.ParseSerialized | webrtc-murmur-proxy.js:208-221 | valid frames written one after another, then an incomplete tail, read back as exactly those frames and that tail |
| Frames.ParseCovers | webrtc-murmur-proxy.js:208-221 | the reading loses no byte: its frames, written again, followed by its remainder, are the stream |
| Frames.ParseAppend | webrtc-murmur-proxy.js:183-190 | when the stream grows at its end, the frames already read stay, and reading resumes from the old remainder |
| Reassembly.Scan | webrtc-murmur-proxy.js:208-254 | whatever the chunk holds, the loop leaves a state the next chunk can start from: a leftover shorter than a header, a skip count, or a split audio frame, never two at once |
| Reassembly.ScanHandoffsInView | webrtc-murmur-proxy.js:222-240 | every audio frame the loop hands over ends inside the view it is handed with |
| Reassembly.ScanFrames | webrtc-murmur-proxy.js:208-254 | over complete frames and a tail: forwarded bytes are the prefix, the non-audio frames and a non-audio head; audio frames are handed over in order at their payload; the tail decides the kept state |
| Reassembly.CompleteFramesChunk | webrtc-murmur-proxy.js:208-254 | a chunk of complete frames forwards exactly its non-audio frames in order, hands over each audio frame just past its header, and keeps no state |
| Reassembly.ShortTailCarried | webrtc-murmur-proxy.js:183-190 | fewer than six bytes after the last frame are not forwarded; they are kept and scanned in front of the next chunk |
| Reassembly.StepFromSkip | webrtc-murmur-proxy.js:205-206 | after the head of a non-audio frame was forwarded with its chunk, the next chunk skips the rest of that frame, and what follows is read as the reference reading of the joined bytes says |
| Reassembly.Step | webrtc-murmur-proxy.js:192-203 | a split audio frame is handed over first, as the saved payload followed by exactly the bytes of the next chunk it still needs, with the length its saved header declares |
| Reassembly.StepAsWritten | webrtc-murmur-proxy.js:192-205 | with a split audio frame pending, the handler raises and keeps its state; otherwise it scans as the corrected handler does |
| Reassembly.StepReadsAhead | webrtc-murmur-proxy.js:181-255 | from any state the handler can be in, one chunk forwards, hands over and keeps what the reference reading of the held bytes plus the chunk, less the skipped bytes, says |
| Reassembly.StepRefinesParse | webrtc-murmur-proxy.js:181-255 | one chunk after any kept state forwards, hands over and keeps what the reference reading of the kept bytes plus the chunk says |
| Reassembly.FeedRefinesParse | webrtc-murmur-proxy.js:181-255 | any run of chunks forwards the non-audio frames, hands over the audio payloads, and ends in the state the reference reading of the joined bytes gives |
| Reassembly.ChunkingInvariant | webrtc-murmur-proxy.js:181-255 | how the stream is cut into chunks changes neither the forwarded bytes, nor the audio payloads, nor the kept state |
| Tunnel.DecodeTunnel | webrtc-murmur-proxy.js:125-142 | an empty view or a type/target byte other than 128 is rejected; an accepted packet's Opus data sits at the end of the view, alone or before 12 bytes |
| Tunnel.MaskLastFlag | webrtc-murmur-proxy.js:135-137 | the result never has the flag bit set; a length without the flag is unchanged; with the flag only the low 13 bits are kept |
| Tunnel.MaskLastFlagOf | webrtc-murmur-proxy.js:135-137 | for every length: with the last-packet flag set the low 13 bits remain, and without it every bit above the flag is kept |
| Tunnel.DecodeLayout | webrtc-murmur-proxy.js:131-142 | after a well-formed header, the body is accepted exactly when it is the Opus length, or that length plus 12 |
| Tunnel.ServerAudioRoundTrip | webrtc-murmur-proxy.js:125-142 | a server audio packet decodes to its session, sequence and Opus data, with or without the flag and position data |
| Tunnel.TrailingBytesRejected | webrtc-murmur-proxy.js:138-142 | bytes after a packet that do not make exactly 12 bytes of position data get the packet rejected as a length mismatch |
| Tunnel.BuildClientPacket | webrtc-murmur-proxy.js:353-361 | the packet starts with type 1, its length field is the number of bytes after the six-byte header, and it fits the buffer the source allocates |
| Tunnel.ClientPacketRoundTrip | webrtc-murmur-proxy.js:353-364 | the packet reads as one audio tunnel frame, whose payload parses back to the sequence number and Opus data |
| SpeakerRing.FreeOffset | webrtc-murmur-proxy.js:164-170 | the offset found is the first free slot from the current one; none is found exactly when all slots are full |
| SpeakerRing.Place | webrtc-murmur-proxy.js:164-173 | a packet is stored exactly when some slot is free, in the first free slot from the current one, without moving the read point; a dropped packet leaves the ring unchanged |
| SpeakerRing.PlaceKeepsFifo | webrtc-murmur-proxy.js:164-173 | placing keeps filled slots contiguous from the current one; the packet joins the end of the queue when fewer than 3 are queued; otherwise nothing changes |
| SpeakerRing.PlaceAppendsPending | webrtc-murmur-proxy.js:164-173 | the samples still to play grow by the placed packet, or stay as they were when it is dropped |
| SpeakerRing.Tick | webrtc-murmur-proxy.js:103-123 | a well-formed ring stays well-formed: filled slots stay contiguous from the current one and the read position stays within its buffer; a frame handed to the audio source is exactly 480 samples |
| SpeakerRing.TickKeepsFifo | webrtc-murmur-proxy.js:103-123 | a tick plays the next 480 pending samples, or does nothing when there is no buffer or fewer than 480 samples are left in it |
| SpeakerRing.TickFinishesBuffer | webrtc-murmur-proxy.js:115-119 | the tick that plays a buffer's last samples frees its slot, moves to the next slot, and restarts at position 0 |
| SpeakerRing.DrainPlaysPending | webrtc-murmur-proxy.js:103-123 | with every buffer a whole number of 10 ms frames, as many ticks as pending frames play exactly the pending samples, in order, and empty the ring |
| Bridge.HandleAudio | webrtc-murmur-proxy.js:125-173 | a rejected packet changes nothing; an accepted one adds its speaker, announces that speaker only if new, and leaves the other speakers' rings alone |
| Bridge.HandleAudioKeepsAnnounced | webrtc-murmur-proxy.js:143-173 | every speaker with a ring was announced exactly once, and the speaker's ring takes the decoded packet at the end of its queue |
| Bridge.HandleAllKeepsAnnounced | webrtc-murmur-proxy.js:143-160 | any sequence of packets keeps every speaker announced exactly once |
| Bridge.Deliver | webrtc-murmur-proxy.js:181-255 | corrected, from any state: the speakers take the audio frames of the bytes read after the chunk, in stream order; the data channel gets the skipped bytes, the non-audio frames and a non-audio head; the kept state is the one for the incomplete tail; speakers that were each announced once stay so |
| Bridge.DeliverAsWritten | webrtc-murmur-proxy.js:181-255 | as written: once a split audio frame is pending, every later chunk leaves the whole connection unchanged |
| Bridge.DeliverAllIsFeed | webrtc-murmur-proxy.js:181-255 | a run of chunks does to the speakers what the handed-over audio payloads do, in order, and sends what the reassembler forwards |
| Bridge.SpeakersIndependentOfChunking | webrtc-murmur-proxy.js:181-255 | how the server's stream is chunked changes neither the rings, nor the notices, nor the bytes sent to the data channel |
| Bridge.SplitFrameLostAsWritten | webrtc-murmur-proxy.js:192-205 | as written, an audio frame split over two chunks is never delivered, and the handler stays stuck on it |
| Bridge.SplitFrameDelivered | webrtc-murmur-proxy.js:192-203 | corrected, the split frame announces its speaker and queues its decoded audio |
| Bridge.SecondSpeakerOnlyAsWritten | webrtc-murmur-proxy.js:234-240 | as written, of two audio frames in one chunk only the second speaker is announced |
| Bridge.BothSpeakersDelivered | webrtc-murmur-proxy.js:234-240 | corrected, both speakers of a two-frame chunk are announced in stream order |
| Outbound.Initial | webrtc-murmur-proxy.js:319-322 | a fresh connection has nothing pending and a well-formed buffer |
| Outbound.ProcessAudio | webrtc-murmur-proxy.js:324-370 | no effect when disconnected; more than 480 samples raise; a larger frame discards pending samples; over 1920 discards; exactly 1920 encodes and sends; the count grows by one |
| Outbound.ProcessAll | webrtc-murmur-proxy.js:324-370 | a run of frames keeps the buffer well-formed and sends at most one packet per frame |
| Outbound.OversizedFrameIgnored | webrtc-murmur-proxy.js:329-331 | a frame of more than 480 samples, wherever it comes in the run, changes neither the final state nor the packets sent |
| Outbound.SteadyState | webrtc-murmur-proxy.js:333-369 | after steady 10 ms frames, the count equals the frames seen, one packet per four frames was sent, and the frames since the last packet are pending |
| Outbound.SteadyPackets | webrtc-murmur-proxy.js:347-369 | the k-th packet holds the k-th group of four frames, numbered 4k+3 |
| Outbound.FiveFrames | webrtc-murmur-proxy.js:342-369 | five 10 ms frames send one packet, numbered 3, holding the first four, and leave the fifth pending |
| Outbound.UnevenFramesNeverSend | webrtc-murmur-proxy.js:342-347 | frames of a fixed size that does not divide 1920 never send a packet; the pending count overshoots 1920 and is discarded |

## Left out

- Server setup, argument parsing, process fault handlers, WebSocket
  signalling, TLS and the data-channel wiring (lines 18-100 and 262-311).
  These are I/O. Data-channel sends appear only as the `forwarded` output.
- `EstablishPeerConnection`, `RTCAudioSink`/`RTCAudioSource`, track creation
  and the "start" message. Their source is not part of this model. The
  "user" notice is modelled as the `notices` sequence.
- Opus encoding and decoding are foreign code. They are parameters
  (`encode`, `decode`) and are taken as given.
- `HighResolutionTimer` is replaced by explicit `Tick` calls. The relative
  order of ticks and incoming packets is left to the caller.
- The once-only `shutdown` flag, the `maybeOpenMurmur` gate and `sendCount`
  only wrap I/O calls or are never read. The connection check of
  `processAudioData` is modelled as the `connected` parameter.
- `generateId` (lines 389-411) is peripheral to the bridge and is not
  modelled. Note that `counter3++` at line 405 has no wrap to 0, unlike
  lines 400-401 and 403-404, so it can index `digit3` out of range.
- `PacketDataStream` is not part of this model. Its reads and writes are
  taken to be big-endian fixed-width fields, and its varints follow Mumble's
  published table.
  - Negative varint forms are rejected rather than decoded.
  - A varint cut short by the end of the buffer is a rejection.
- The typed-array view arithmetic of line 161 is left out. The Opus bytes
  are the `opusLength` bytes after the header.
- Reassembly.Scan, Frames.Len: the source reads frame lengths with the
  signed `getInt32` (lines 193 and 220). The model reads them unsigned.
  - In the source, a length field of 2^31 or more is negative. With
    0xFFFFFFFA (-6) on a non-audio frame, `pds.skip(-6)` at lines 245-246
    moves back onto the same header, so the loop at line 208 never ends.
    An audio frame with that length does the same through line 239.
  - The model does not loop. A non-audio frame with such a length sends the
    whole chunk and records a skip of the length minus the bytes left in the
    chunk. An audio frame with such a length is kept as a split audio frame.
- Reassembly.Step: requires that a split frame ends within the next chunk.
  The source does not handle longer frames: `startIndex` can exceed the next
  chunk at line 250, and `bytesNeeded` can exceed it at lines 194-195.
- Bridge.Deliver: carries the same two-chunk precondition as
  `Reassembly.Step`.
- Outbound.ProcessAudio: the packet counter is an unbounded integer. The
  source's counter is a JavaScript number, and the varint written for it is
  taken modulo 2^64.
- Outbound.ProcessAudio: the `RangeError` a write past the 2400-sample
  buffer would raise is not modelled. Under `Valid` the write always fits:
  fewer than 1920 pending plus at most 480 new.
- Samples are 16-bit unsigned values, the element type of the source's
  `Uint16Array`. The signed reading of the same bits is not modelled.

## Findings

| source | as written | input that shows it | evidently intended | confidence | as-written member | corrected member |
|---|---|---|---|---|---|---|
| webrtc-murmur-proxy.js:193 | The split-audio branch reads `pds`, whose `const` declaration comes later in the callback (line 205). The read raises a ReferenceError. `audioPacket` is never cleared, so every later chunk raises too. | The 13-byte audio frame of session 5 cut after 9 bytes (`SPLIT_HEAD`, then `SPLIT_TAIL`). | Read the frame length from `audioPacket`'s own header, as the comments at lines 177 and 192 say. Then complete the frame from the next chunk and hand it over. | not executed | Reassembly.StepAsWritten, Bridge.SplitFrameLostAsWritten | Reassembly.Step, Bridge.SplitFrameDelivered |
| webrtc-murmur-proxy.js:235 | The audio handler gets the stream over the whole chunk (lines 205, 240). So `remaining()` at line 138 also counts every frame after this one, and an audio frame followed by further frames fails the length check and is dropped. | One chunk holding the audio frames of sessions 5 and 9. | Give the handler only the frame's own payload, so that both packets are accepted. | not executed; depends on `PacketDataStream.remaining()` counting to the end of the buffer | Tunnel.TrailingBytesRejected, Bridge.DeliverAsWritten, Bridge.SecondSpeakerOnlyAsWritten | Reassembly.FramePayload, Bridge.Deliver, Bridge.BothSpeakersDelivered |
