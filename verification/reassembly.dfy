/** The proxy's handler for bytes arriving from the voice server socket
    (webrtc-murmur-proxy.js, the `murmurSocket.on("data")` callback). It cuts
    the TCP byte stream back into frames: audio tunnel frames are handed to the
    audio decoder, every other byte is passed through to the browser's data
    channel unparsed. Between two chunks it carries at most one of
      - `leftover`: fewer than six bytes that could not yet be read as a header,
      - `startIndex`: how many bytes of the next chunk still belong to a
        non-audio frame that was already forwarded whole,
      - `audioPacket`: the header and first part of an audio frame whose
        payload continues in the next chunk. */
module Reassembly {
  import opened Bytes
  import opened Frames

  datatype State = State(leftover: seq<byte>, startIndex: nat, audioPacket: Option<seq<byte>>)

  /** An audio frame handed to the decoder: the stream is positioned at the
      frame's payload and extends to the end of the current chunk view;
      `frameLength` is the length the frame header declared. */
  datatype Handoff = Handoff(view: seq<byte>, frameLength: nat)

  /** One chunk's effect: the data-channel sends, in order, the audio
      hand-offs, in order, and the state kept for the next chunk. */
  datatype ScanOut = ScanOut(forwarded: seq<seq<byte>>, handoffs: seq<Handoff>, next: State)

  function Initial(): State {
    State([], 0, None)
  }

  /** The head of an audio frame whose payload is not complete yet. */
  predicate PartialAudio(frame: seq<byte>) {
    |frame| >= HEADER_SIZE && Kind(frame) == AUDIO_TUNNEL && Incomplete(frame)
  }

  /** The states the handler can be in between two chunks. */
  predicate Valid(st: State) {
    && |st.leftover| < HEADER_SIZE
    && (|st.leftover| > 0 ==> st.startIndex == 0 && st.audioPacket.None?)
    && (st.startIndex > 0 ==> st.audioPacket.None?)
    && (st.audioPacket.Some? ==> PartialAudio(st.audioPacket.value))
  }

  /** The bytes of the frame itself, without whatever follows it in the view. */
  function FramePayload(h: Handoff): (p: seq<byte>)
    ensures p <= h.view
    ensures h.frameLength <= |h.view| ==> |p| == h.frameLength
  {
    if h.frameLength <= |h.view| then h.view[..h.frameLength] else h.view
  }

  function Payloads(hs: seq<Handoff>): (r: seq<seq<byte>>)
    ensures |r| == |hs|
  {
    if |hs| == 0 then [] else [FramePayload(hs[0])] + Payloads(hs[1..])
  }

  /** The scanning loop over the current chunk view `data`, with the stream
      cursor at `off`. */
  function Scan(data: seq<byte>, off: nat): (r: ScanOut)
    requires off <= |data|
    ensures Valid(r.next)
    decreases |data|, |data| - off
  {
    if |data| - off < HEADER_SIZE then
      // not enough left for a header: send what was scanned, keep the rest
      ScanOut(if off > 0 then [data[..off]] else [], [], State(data[off..], 0, None))
    else
      var kind := Kind(data[off..]);
      var length := Len(data[off..]);
      var p := off + HEADER_SIZE;
      if kind == AUDIO_TUNNEL then
        var before := if p > HEADER_SIZE then [data[..p - HEADER_SIZE]] else [];
        if p + length > |data| then
          // the audio payload continues in the next chunk
          ScanOut(before, [], State([], 0, Some(data[p - HEADER_SIZE..])))
        else
          var h := Handoff(data[p..], length);
          if p + length == |data| then ScanOut(before, [h], Initial())
          else
            var rest := Scan(data[p + length..], 0);
            ScanOut(before + rest.forwarded, [h] + rest.handoffs, rest.next)
      else
        var remaining := |data| - p;
        if length < remaining then Scan(data, p + length)
        else
          // the frame runs to or past the end of the chunk: send the chunk
          ScanOut([data], [], State([], length - remaining, None))
  }

  /** Every audio frame the scanning loop hands over lies wholly inside the
      view it is given: the frame's own payload is the front of that view. */
  lemma {:induction false} ScanHandoffsInView(data: seq<byte>, off: nat)
    requires off <= |data|
    ensures forall i :: 0 <= i < |Scan(data, off).handoffs| ==>
              Scan(data, off).handoffs[i].frameLength <= |Scan(data, off).handoffs[i].view|
    decreases |data|, |data| - off
  {
    if |data| - off >= HEADER_SIZE {
      var length := Len(data[off..]);
      var p := off + HEADER_SIZE;
      if Kind(data[off..]) == AUDIO_TUNNEL {
        if p + length < |data| {
          ScanHandoffsInView(data[p + length..], 0);
        }
      } else if length < |data| - p {
        ScanHandoffsInView(data, p + length);
      }
    }
  }

  /** The split frame ends within the next chunk: the handler does not cope
      with a frame spread over three or more chunks. */
  predicate Resumable(st: State, chunk: seq<byte>)
    requires Valid(st)
  {
    match st.audioPacket
    case Some(frame) => Len(frame) - (|frame| - HEADER_SIZE) <= |chunk|
    case None => st.startIndex <= |st.leftover + chunk|
  }

  /** One chunk through the handler, with the split-audio branch doing what
      its comments describe: the frame's length is read from the saved
      header, the missing payload bytes are taken from the front of the chunk
      and the completed frame is handed over. */
  function Step(st: State, chunk: seq<byte>): (r: ScanOut)
    requires Valid(st) && Resumable(st, chunk)
    ensures Valid(r.next)
    ensures st.audioPacket.Some? ==>
              |r.handoffs| > 0 && |r.handoffs[0].view| == r.handoffs[0].frameLength
              && st.audioPacket.value[HEADER_SIZE..] <= r.handoffs[0].view
    ensures st.audioPacket.Some? ==>
              var frame := st.audioPacket.value;
              && r.handoffs[0].frameLength == Len(frame)
              && r.handoffs[0].view == frame[HEADER_SIZE..] + chunk[..Len(frame) - (|frame| - HEADER_SIZE)]
  {
    var data := st.leftover + chunk;
    match st.audioPacket
    case None => Scan(data, st.startIndex)
    case Some(frame) =>
      var need := Len(frame) - (|frame| - HEADER_SIZE);
      var packet := frame + data[..need];
      var h := Handoff(packet[HEADER_SIZE..], Len(frame));
      if need == |data| then ScanOut([], [h], Initial())
      else
        var rest := Scan(data[need..], st.startIndex);
        ScanOut(rest.forwarded, [h] + rest.handoffs, rest.next)
  }

  /** What a chunk does to the handler as the source is written. */
  datatype Delivery =
    | Delivered(out: ScanOut)
    | Threw(kept: State)   // the callback raised; its state is left as it was

  /** The handler as written: its split-audio branch reads the chunk stream
      `pds` before that constant is declared further down the callback, which
      raises a ReferenceError, so the branch never completes a frame. */
  function StepAsWritten(st: State, chunk: seq<byte>): (r: Delivery)
    requires Valid(st)
    requires st.audioPacket.None? ==> st.startIndex <= |st.leftover + chunk|
    ensures r.Threw? <==> st.audioPacket.Some?
    ensures r.Threw? ==> r.kept == st
    ensures r.Delivered? ==> r.out == Step(st, chunk)
  {
    if st.audioPacket.Some? then Threw(st)
    else Delivered(Scan(st.leftover + chunk, st.startIndex))
  }

  //
  // Reference behaviour, in terms of the frames of the byte stream
  //

  /** Bytes of an incomplete tail that are forwarded in the chunk where they
      arrive: only the head of a non-audio frame that runs past the chunk. */
  function TailForward(rest: seq<byte>): (r: seq<byte>)
    ensures r == [] || r == rest
  {
    if |rest| >= HEADER_SIZE && Kind(rest) != AUDIO_TUNNEL then rest else []
  }

  /** The state kept after a chunk whose frames end with the incomplete `rest`. */
  function TailState(rest: seq<byte>): (st: State)
    requires Incomplete(rest)
    ensures Valid(st)
  {
    if |rest| < HEADER_SIZE then State(rest, 0, None)
    else if Kind(rest) == AUDIO_TUNNEL then State([], 0, Some(rest))
    else State([], HEADER_SIZE + Len(rest) - |rest|, None)
  }

  /** The hand-off for each audio frame of `fs` followed in the chunk by the
      later frames and `rest`. */
  function AudioHandoffs(fs: seq<Frame>, rest: seq<byte>): (r: seq<Handoff>)
  {
    if |fs| == 0 then []
    else
      (if fs[0].kind == AUDIO_TUNNEL
       then [Handoff(fs[0].payload + SerializeAll(fs[1..]) + rest, |fs[0].payload|)]
       else [])
      + AudioHandoffs(fs[1..], rest)
  }

  lemma {:induction false} PayloadsAppend(a: seq<Handoff>, b: seq<Handoff>)
    ensures Payloads(a + b) == Payloads(a) + Payloads(b)
  {
    if |a| == 0 {
      assert a + b == b;
    } else {
      assert (a + b)[1..] == a[1..] + b;
      PayloadsAppend(a[1..], b);
      AppendAssoc([FramePayload(a[0])], Payloads(a[1..]), Payloads(b));
    }
  }

  /** The hand-offs of a chunk carry, frame by frame, the audio payloads. */
  lemma {:induction false} AudioHandoffPayloads(fs: seq<Frame>, rest: seq<byte>)
    ensures Payloads(AudioHandoffs(fs, rest)) == AudioPayloads(fs)
  {
    if |fs| > 0 {
      var head: seq<Handoff> :=
        if fs[0].kind == AUDIO_TUNNEL
        then [Handoff(fs[0].payload + SerializeAll(fs[1..]) + rest, |fs[0].payload|)]
        else [];
      AudioHandoffPayloads(fs[1..], rest);
      PayloadsAppend(head, AudioHandoffs(fs[1..], rest));
      if fs[0].kind == AUDIO_TUNNEL {
        assert FramePayload(head[0]) == fs[0].payload;
      }
    }
  }

  lemma AllValidTail(fs: seq<Frame>)
    requires AllValid(fs) && |fs| > 0
    ensures ValidFrame(fs[0]) && AllValid(fs[1..])
  {
    forall i | 0 <= i < |fs| - 1 ensures ValidFrame(fs[1..][i]) {
      assert fs[1..][i] == fs[i + 1];
    }
  }

  /** The scanning loop meets an audio frame that ends exactly where the view ends. */
  lemma ScanAudioAtEnd(data: seq<byte>, off: nat, n: nat)
    requires off + HEADER_SIZE <= |data|
    requires Kind(data[off..]) == AUDIO_TUNNEL && Len(data[off..]) == n
    requires off + HEADER_SIZE + n == |data|
    ensures Scan(data, off) ==
              ScanOut(if off > 0 then [data[..off]] else [],
                      [Handoff(data[off + HEADER_SIZE..], n)], Initial())
  {
  }

  /** The scanning loop meets an audio frame that other bytes follow in the view. */
  lemma ScanAudioThen(data: seq<byte>, off: nat, n: nat)
    requires off + HEADER_SIZE <= |data|
    requires Kind(data[off..]) == AUDIO_TUNNEL && Len(data[off..]) == n
    requires off + HEADER_SIZE + n < |data|
    ensures Scan(data, off) ==
              ScanOut((if off > 0 then [data[..off]] else [])
                      + Scan(data[off + HEADER_SIZE + n..], 0).forwarded,
                      [Handoff(data[off + HEADER_SIZE..], n)]
                      + Scan(data[off + HEADER_SIZE + n..], 0).handoffs,
                      Scan(data[off + HEADER_SIZE + n..], 0).next)
  {
  }

  /** The scanning loop skips a non-audio frame that other bytes follow in the view. */
  lemma ScanSkip(data: seq<byte>, off: nat, n: nat)
    requires off + HEADER_SIZE <= |data|
    requires Kind(data[off..]) != AUDIO_TUNNEL && Len(data[off..]) == n
    requires off + HEADER_SIZE + n < |data|
    ensures Scan(data, off) == Scan(data, off + HEADER_SIZE + n)
  {
  }

  /** The scanning loop meets a non-audio frame that reaches the end of the view. */
  lemma ScanOverrun(data: seq<byte>, off: nat, n: nat)
    requires off + HEADER_SIZE <= |data|
    requires Kind(data[off..]) != AUDIO_TUNNEL && Len(data[off..]) == n
    requires off + HEADER_SIZE + n >= |data|
    ensures Scan(data, off) == ScanOut([data], [], State([], off + HEADER_SIZE + n - |data|, None))
  {
  }

  /** The bytes up to the end of a run `b` that starts at `off`. */
  lemma TakeJoin(data: seq<byte>, off: nat, b: seq<byte>)
    requires off + |b| <= |data| && data[off..][..|b|] == b
    ensures data[..off + |b|] == data[..off] + b
  {
    assert data[..off + |b|] == data[..off] + data[off..][..|b|];
  }

  /** The scanning loop meets the incomplete tail of its view. */
  lemma ScanTail(data: seq<byte>, off: nat, rest: seq<byte>)
    requires off <= |data| && data[off..] == rest
    requires Incomplete(rest)
    ensures Flatten(Scan(data, off).forwarded) == data[..off] + TailForward(rest)
    ensures Scan(data, off).handoffs == []
    ensures Scan(data, off).next == TailState(rest)
  {
    if |rest| >= HEADER_SIZE {
      assert data[off..][..2] == rest[..2];
      assert data[off..][2..6] == rest[2..6];
      if Kind(rest) != AUDIO_TUNNEL {
        assert data == data[..off] + rest;
      }
    }
  }

  /** The scanning loop over a chunk view whose bytes from the cursor on are
      complete frames `fs` and then an incomplete tail `rest`: the forwarded
      bytes are those before the cursor, the non-audio frames and the head of a
      non-audio frame that runs past the chunk; each audio frame is handed over
      in order, positioned at its payload; the tail decides the state kept. */
  lemma {:induction false} ScanFrames(data: seq<byte>, off: nat, fs: seq<Frame>, rest: seq<byte>)
    requires off <= |data| && data[off..] == SerializeAll(fs) + rest
    requires AllValid(fs) && Incomplete(rest)
    ensures Flatten(Scan(data, off).forwarded)
            == data[..off] + SerializeAll(NonAudio(fs)) + TailForward(rest)
    ensures Scan(data, off).handoffs == AudioHandoffs(fs, rest)
    ensures Scan(data, off).next == TailState(rest)
    decreases |fs|, 2
  {
    if |fs| == 0 {
      assert SerializeAll(fs) + rest == rest;
      ScanTail(data, off, rest);
    } else if fs[0].kind == AUDIO_TUNNEL {
      ScanAudioFirst(data, off, fs, rest);
    } else {
      ScanOtherFirst(data, off, fs, rest);
    }
  }

  /** Where the first of the frames at the cursor lies in the view. */
  lemma FrameAt(data: seq<byte>, off: nat, fs: seq<Frame>, rest: seq<byte>)
    requires off <= |data| && data[off..] == SerializeAll(fs) + rest
    requires AllValid(fs) && |fs| > 0
    ensures AllValid(fs[1..])
    ensures off + HEADER_SIZE + |fs[0].payload| <= |data|
    ensures Kind(data[off..]) == fs[0].kind && Len(data[off..]) == |fs[0].payload|
    ensures data[off + HEADER_SIZE..] == fs[0].payload + (SerializeAll(fs[1..]) + rest)
    ensures data[off + HEADER_SIZE + |fs[0].payload|..] == SerializeAll(fs[1..]) + rest
    ensures data[off..][..|Serialize(fs[0])|] == Serialize(fs[0])
  {
    hide Scan, ReadUint16, ReadUint32, Uint16Bytes, Uint32Bytes;
    AllValidTail(fs);
    var later := SerializeAll(fs[1..]) + rest;
    assert data[off..] == Serialize(fs[0]) + later;
    HeaderOfSerialized(fs[0], later);
  }

  /** `ScanFrames` when the first frame is an audio frame. */
  lemma {:induction false} ScanAudioFirst(data: seq<byte>, off: nat, fs: seq<Frame>, rest: seq<byte>)
    requires off <= |data| && data[off..] == SerializeAll(fs) + rest
    requires AllValid(fs) && Incomplete(rest)
    requires |fs| > 0 && fs[0].kind == AUDIO_TUNNEL
    ensures Flatten(Scan(data, off).forwarded)
            == data[..off] + SerializeAll(NonAudio(fs)) + TailForward(rest)
    ensures Scan(data, off).handoffs == AudioHandoffs(fs, rest)
    ensures Scan(data, off).next == TailState(rest)
    decreases |fs|, 1
  {
    hide Scan, ReadUint16, ReadUint32, Uint16Bytes, Uint32Bytes;
    FrameAt(data, off, fs, rest);
    var n := |fs[0].payload|;
    var p := off + HEADER_SIZE;
    if p + n == |data| {
      ScanAudioOnly(data, off, fs, rest);
    } else {
      ScanAudioAmid(data, off, fs, rest);
    }
  }

  /** `ScanAudioFirst` when more bytes follow the audio frame in the view. */
  lemma {:induction false} ScanAudioAmid(data: seq<byte>, off: nat, fs: seq<Frame>, rest: seq<byte>)
    requires off <= |data| && data[off..] == SerializeAll(fs) + rest
    requires AllValid(fs) && Incomplete(rest)
    requires |fs| > 0 && fs[0].kind == AUDIO_TUNNEL
    requires off + HEADER_SIZE + |fs[0].payload| < |data|
    ensures Flatten(Scan(data, off).forwarded)
            == data[..off] + SerializeAll(NonAudio(fs)) + TailForward(rest)
    ensures Scan(data, off).handoffs == AudioHandoffs(fs, rest)
    ensures Scan(data, off).next == TailState(rest)
    decreases |fs|, 0
  {
    hide Scan, ReadUint16, ReadUint32, Uint16Bytes, Uint32Bytes;
    FrameAt(data, off, fs, rest);
    var n := |fs[0].payload|;
    var p := off + HEADER_SIZE;
    var before: seq<seq<byte>> := if off > 0 then [data[..off]] else [];
    assert Flatten(before) == data[..off];
    assert NonAudio(fs) == NonAudio(fs[1..]);
    assert AudioHandoffs(fs, rest)
           == [Handoff(fs[0].payload + (SerializeAll(fs[1..]) + rest), n)] + AudioHandoffs(fs[1..], rest) by {
      AppendAssoc(fs[0].payload, SerializeAll(fs[1..]), rest);
    }
    ScanAudioThen(data, off, n);
    ScanFrames(data[p + n..], 0, fs[1..], rest);
    hide NonAudio, AudioHandoffs, SerializeAll;
    var inner := Scan(data[p + n..], 0);
    FlattenAppend(before, inner.forwarded);
    DropEmpty(Flatten(before + inner.forwarded), data[..off], data[p + n..][..0],
              SerializeAll(NonAudio(fs[1..])), TailForward(rest));
  }

  /** `ScanAudioFirst` when the audio frame is the last thing in the view. */
  lemma ScanAudioOnly(data: seq<byte>, off: nat, fs: seq<Frame>, rest: seq<byte>)
    requires off <= |data| && data[off..] == SerializeAll(fs) + rest
    requires AllValid(fs) && Incomplete(rest)
    requires |fs| > 0 && fs[0].kind == AUDIO_TUNNEL
    requires off + HEADER_SIZE + |fs[0].payload| == |data|
    ensures Flatten(Scan(data, off).forwarded)
            == data[..off] + SerializeAll(NonAudio(fs)) + TailForward(rest)
    ensures Scan(data, off).handoffs == AudioHandoffs(fs, rest)
    ensures Scan(data, off).next == TailState(rest)
  {
    hide Scan, ReadUint16, ReadUint32, Uint16Bytes, Uint32Bytes;
    FrameAt(data, off, fs, rest);
    var n := |fs[0].payload|;
    var before: seq<seq<byte>> := if off > 0 then [data[..off]] else [];
    assert Flatten(before) == data[..off];
    assert |SerializeAll(fs[1..]) + rest| == 0;
    assert |fs[1..]| == 0 && rest == [];
    assert fs[0].payload + (SerializeAll(fs[1..]) + rest) == fs[0].payload;
    assert AudioHandoffs(fs, rest) == [Handoff(fs[0].payload, n)];
    assert NonAudio(fs) == [];
    ScanAudioAtEnd(data, off, n);
    assert data[..off] + SerializeAll(NonAudio(fs)) + TailForward(rest) == data[..off];
  }

  /** `ScanFrames` when the first frame is not an audio frame. */
  lemma {:induction false} ScanOtherFirst(data: seq<byte>, off: nat, fs: seq<Frame>, rest: seq<byte>)
    requires off <= |data| && data[off..] == SerializeAll(fs) + rest
    requires AllValid(fs) && Incomplete(rest)
    requires |fs| > 0 && fs[0].kind != AUDIO_TUNNEL
    ensures Flatten(Scan(data, off).forwarded)
            == data[..off] + SerializeAll(NonAudio(fs)) + TailForward(rest)
    ensures Scan(data, off).handoffs == AudioHandoffs(fs, rest)
    ensures Scan(data, off).next == TailState(rest)
    decreases |fs|, 1
  {
    hide Scan, ReadUint16, ReadUint32, Uint16Bytes, Uint32Bytes;
    FrameAt(data, off, fs, rest);
    var f := fs[0];
    var n := |f.payload|;
    var p := off + HEADER_SIZE;
    if p + n == |data| {
      ScanOtherOnly(data, off, fs, rest);
    } else {
      assert NonAudio(fs) == [f] + NonAudio(fs[1..]);
      assert SerializeAll(NonAudio(fs)) == Serialize(f) + SerializeAll(NonAudio(fs[1..])) by {
        assert NonAudio(fs)[1..] == NonAudio(fs[1..]);
      }
      assert AudioHandoffs(fs, rest) == AudioHandoffs(fs[1..], rest);
      ScanSkip(data, off, n);
      ScanFrames(data, p + n, fs[1..], rest);
      TakeJoin(data, off, Serialize(f));
      Regroup(Flatten(Scan(data, p + n).forwarded), data[..p + n], data[..off], Serialize(f),
              SerializeAll(NonAudio(fs[1..])), TailForward(rest));
    }
  }

  /** `ScanOtherFirst` when the non-audio frame is the last thing in the view:
      the view is sent whole and nothing is left to skip. */
  lemma ScanOtherOnly(data: seq<byte>, off: nat, fs: seq<Frame>, rest: seq<byte>)
    requires off <= |data| && data[off..] == SerializeAll(fs) + rest
    requires AllValid(fs) && Incomplete(rest)
    requires |fs| > 0 && fs[0].kind != AUDIO_TUNNEL
    requires off + HEADER_SIZE + |fs[0].payload| == |data|
    ensures Flatten(Scan(data, off).forwarded)
            == data[..off] + SerializeAll(NonAudio(fs)) + TailForward(rest)
    ensures Scan(data, off).handoffs == AudioHandoffs(fs, rest)
    ensures Scan(data, off).next == TailState(rest)
  {
    hide Scan, ReadUint16, ReadUint32, Uint16Bytes, Uint32Bytes;
    FrameAt(data, off, fs, rest);
    var f := fs[0];
    assert |SerializeAll(fs[1..]) + rest| == 0;
    assert |fs[1..]| == 0 && rest == [];
    assert fs == [f];
    assert NonAudio(fs) == [f];
    assert SerializeAll(NonAudio(fs)) == Serialize(f);
    assert AudioHandoffs(fs, rest) == [];
    ScanOverrun(data, off, |f.payload|);
    assert data == data[..off] + Serialize(f);
    assert Flatten([data]) == data;
    assert data[..off] + Serialize(f) + [] == data[..off] + Serialize(f);
  }

  /** A chunk made only of complete frames, arriving with nothing pending:
      the forwarded bytes are the chunk with every audio frame cut out, each
      audio frame is handed over in order just past its header, and nothing is
      kept for the next chunk. */
  lemma CompleteFramesChunk(fs: seq<Frame>)
    requires AllValid(fs)
    ensures Flatten(Step(Initial(), SerializeAll(fs)).forwarded) == SerializeAll(NonAudio(fs))
    ensures Step(Initial(), SerializeAll(fs)).handoffs == AudioHandoffs(fs, [])
    ensures Step(Initial(), SerializeAll(fs)).next == Initial()
  {
    var data := SerializeAll(fs);
    assert [] + data == data && data[0..] == SerializeAll(fs) + [];
    ScanFrames(data, 0, fs, []);
    assert data[..0] + SerializeAll(NonAudio(fs)) + [] == SerializeAll(NonAudio(fs));
  }

  /** A chunk that ends with fewer than six bytes after its last complete
      frame keeps exactly those bytes, and they are put in front of the next
      chunk before it is scanned. */
  lemma ShortTailCarried(fs: seq<Frame>, tail: seq<byte>, chunk: seq<byte>)
    requires AllValid(fs)
    requires |tail| < HEADER_SIZE
    ensures Flatten(Step(Initial(), SerializeAll(fs) + tail).forwarded) == SerializeAll(NonAudio(fs))
    ensures Step(Initial(), SerializeAll(fs) + tail).next == State(tail, 0, None)
    ensures Step(State(tail, 0, None), chunk) == Step(Initial(), tail + chunk)
  {
    var data := SerializeAll(fs) + tail;
    assert [] + data == data && data[0..] == data;
    ScanFrames(data, 0, fs, tail);
    assert data[..0] + SerializeAll(NonAudio(fs)) + [] == SerializeAll(NonAudio(fs));
    assert [] + (tail + chunk) == tail + chunk;
  }

  /** One chunk, starting from the state a previous chunk left behind, does
      what the reference reading of the joined bytes says: the forwarded bytes
      complete the non-audio frames, the audio payloads are those of the audio
      frames, and the new state is the one for the new incomplete tail. */
  lemma StepRefinesParse(rest: seq<byte>, chunk: seq<byte>)
    requires Incomplete(rest)
    requires Resumable(TailState(rest), chunk)
    ensures TailForward(rest) + Flatten(Step(TailState(rest), chunk).forwarded)
            == SerializeAll(NonAudio(Parse(rest + chunk).0)) + TailForward(Parse(rest + chunk).1)
    ensures Payloads(Step(TailState(rest), chunk).handoffs) == AudioPayloads(Parse(rest + chunk).0)
    ensures Step(TailState(rest), chunk).next == TailState(Parse(rest + chunk).1)
  {
    if |rest| < HEADER_SIZE {
      StepFromLeftover(rest, chunk);
    } else if Kind(rest) == AUDIO_TUNNEL {
      StepFromAudio(rest, chunk);
    } else {
      StepFromSkip(rest, chunk);
    }
  }

  /** `StepRefinesParse` when fewer than six bytes were kept. */
  lemma StepFromLeftover(rest: seq<byte>, chunk: seq<byte>)
    requires Incomplete(rest) && |rest| < HEADER_SIZE
    ensures TailForward(rest) + Flatten(Step(TailState(rest), chunk).forwarded)
            == SerializeAll(NonAudio(Parse(rest + chunk).0)) + TailForward(Parse(rest + chunk).1)
    ensures Payloads(Step(TailState(rest), chunk).handoffs) == AudioPayloads(Parse(rest + chunk).0)
    ensures Step(TailState(rest), chunk).next == TailState(Parse(rest + chunk).1)
  {
    hide Scan, Parse, ReadUint16, ReadUint32, Uint16Bytes, Uint32Bytes;
    var data := rest + chunk;
    var P := Parse(data);
    ParseCovers(data);
    assert data[0..] == data;
    ScanFrames(data, 0, P.0, P.1);
    assert Step(TailState(rest), chunk) == Scan(data, 0);
    AudioHandoffPayloads(P.0, P.1);
    EmptyPrefix(Flatten(Scan(data, 0).forwarded), data[..0], SerializeAll(NonAudio(P.0)), TailForward(P.1));
    assert TailForward(rest) == [];
  }

  /** `StepRefinesParse` when the head of an audio frame was kept: the frame
      completed from the front of the chunk is the first frame of the joined
      bytes. */
  lemma StepFromAudio(rest: seq<byte>, chunk: seq<byte>)
    requires Incomplete(rest) && |rest| >= HEADER_SIZE && Kind(rest) == AUDIO_TUNNEL
    requires Resumable(TailState(rest), chunk)
    ensures TailForward(rest) + Flatten(Step(TailState(rest), chunk).forwarded)
            == SerializeAll(NonAudio(Parse(rest + chunk).0)) + TailForward(Parse(rest + chunk).1)
    ensures Payloads(Step(TailState(rest), chunk).handoffs) == AudioPayloads(Parse(rest + chunk).0)
    ensures Step(TailState(rest), chunk).next == TailState(Parse(rest + chunk).1)
  {
    if Len(rest) - (|rest| - HEADER_SIZE) == |chunk| {
      StepAudioEndsChunk(rest, chunk);
    } else {
      StepAudioThenFrames(rest, chunk);
    }
  }

  /** `StepFromAudio` when the completed frame ends the chunk. */
  lemma StepAudioEndsChunk(rest: seq<byte>, chunk: seq<byte>)
    requires Incomplete(rest) && |rest| >= HEADER_SIZE && Kind(rest) == AUDIO_TUNNEL
    requires Resumable(TailState(rest), chunk)
    requires Len(rest) - (|rest| - HEADER_SIZE) == |chunk|
    ensures TailForward(rest) + Flatten(Step(TailState(rest), chunk).forwarded)
            == SerializeAll(NonAudio(Parse(rest + chunk).0)) + TailForward(Parse(rest + chunk).1)
    ensures Payloads(Step(TailState(rest), chunk).handoffs) == AudioPayloads(Parse(rest + chunk).0)
    ensures Step(TailState(rest), chunk).next == TailState(Parse(rest + chunk).1)
  {
    hide Scan, Parse, ReadUint16, ReadUint32, Uint16Bytes, Uint32Bytes;
    var r := Step(TailState(rest), chunk);
    var need := Len(rest) - (|rest| - HEADER_SIZE);
    var g := Frame(AUDIO_TUNNEL, (rest + chunk[..need])[HEADER_SIZE..]);
    var Q := Parse(chunk[need..]);
    CompletedAudioFrame(rest, chunk);
    var h := Handoff((rest + chunk[..need])[HEADER_SIZE..], Len(rest));
    assert ([] + chunk)[..need] == chunk[..need];
    assert r == ScanOut([], [h], Initial());
    assert chunk[need..] == [];
    ParseSerialized([], []);
    assert SerializeAll([]) + [] == [];
    assert Q == ([], []);
    assert Flatten(r.forwarded) == [];
    EmptyFront(TailForward(rest), Flatten(r.forwarded));
  }

  /** `StepFromAudio` when frames follow the completed one in the chunk. */
  lemma StepAudioThenFrames(rest: seq<byte>, chunk: seq<byte>)
    requires Incomplete(rest) && |rest| >= HEADER_SIZE && Kind(rest) == AUDIO_TUNNEL
    requires Resumable(TailState(rest), chunk)
    requires Len(rest) - (|rest| - HEADER_SIZE) < |chunk|
    ensures TailForward(rest) + Flatten(Step(TailState(rest), chunk).forwarded)
            == SerializeAll(NonAudio(Parse(rest + chunk).0)) + TailForward(Parse(rest + chunk).1)
    ensures Payloads(Step(TailState(rest), chunk).handoffs) == AudioPayloads(Parse(rest + chunk).0)
    ensures Step(TailState(rest), chunk).next == TailState(Parse(rest + chunk).1)
  {
    StepCompletesAudio(rest, chunk);
    hide Step, Scan, Parse, ReadUint16, ReadUint32, Uint16Bytes, Uint32Bytes;
    var r := Step(TailState(rest), chunk);
    var need := Len(rest) - (|rest| - HEADER_SIZE);
    var Q := Parse(chunk[need..]);
    CompletedAudioFrame(rest, chunk);
    var h := Handoff((rest + chunk[..need])[HEADER_SIZE..], Len(rest));
    var data := chunk[need..];
    ParseCovers(data);
    assert data[0..] == data;
    ScanFrames(data, 0, Q.0, Q.1);
    var inner := Scan(data, 0);
    assert r == ScanOut(inner.forwarded, [h] + inner.handoffs, inner.next);
    AudioHandoffPayloads(Q.0, Q.1);
    PayloadsAppend([h], inner.handoffs);
    EmptyPrefix(Flatten(inner.forwarded), data[..0], SerializeAll(NonAudio(Q.0)), TailForward(Q.1));
    EmptyFront(TailForward(rest), Flatten(r.forwarded));
  }

  /** The split-audio branch when frames follow the completed one: the
      completed frame is handed over first, then the rest of the chunk is
      scanned. */
  lemma StepCompletesAudio(rest: seq<byte>, chunk: seq<byte>)
    requires Incomplete(rest) && |rest| >= HEADER_SIZE && Kind(rest) == AUDIO_TUNNEL
    requires Resumable(TailState(rest), chunk)
    requires Len(rest) - (|rest| - HEADER_SIZE) < |chunk|
    ensures var need := Len(rest) - (|rest| - HEADER_SIZE);
            var inner := Scan(chunk[need..], 0);
            Step(TailState(rest), chunk)
            == ScanOut(inner.forwarded, [Handoff((rest + chunk[..need])[HEADER_SIZE..], Len(rest))] + inner.handoffs,
                       inner.next)
  {
    var need := Len(rest) - (|rest| - HEADER_SIZE);
    assert ([] + chunk)[..need] == chunk[..need];
    assert ([] + chunk)[need..] == chunk[need..];
  }

  /** The audio frame whose head was kept, completed from the front of the
      chunk, is the first frame of the joined bytes. */
  lemma CompletedAudioFrame(rest: seq<byte>, chunk: seq<byte>)
    requires Incomplete(rest) && |rest| >= HEADER_SIZE && Kind(rest) == AUDIO_TUNNEL
    requires Resumable(TailState(rest), chunk)
    ensures var need := Len(rest) - (|rest| - HEADER_SIZE);
            var g := Frame(AUDIO_TUNNEL, (rest + chunk[..need])[HEADER_SIZE..]);
            var Q := Parse(chunk[need..]);
            && NonAudio(Parse(rest + chunk).0) == NonAudio(Q.0)
            && AudioPayloads(Parse(rest + chunk).0) == [g.payload] + AudioPayloads(Q.0)
            && Parse(rest + chunk).1 == Q.1
            && TailForward(rest) == []
            && Payloads([Handoff((rest + chunk[..need])[HEADER_SIZE..], Len(rest))]) == [g.payload]
  {
    hide Scan, Parse, ReadUint16, ReadUint32, Uint16Bytes, Uint32Bytes;
    var need := Len(rest) - (|rest| - HEADER_SIZE);
    var g := Frame(AUDIO_TUNNEL, (rest + chunk[..need])[HEADER_SIZE..]);
    ParseCompleting(rest, chunk);
    var Q := Parse(chunk[need..]);
    assert Parse(rest + chunk) == ([g] + Q.0, Q.1);
    assert ([g] + Q.0)[1..] == Q.0;
    var h := Handoff((rest + chunk[..need])[HEADER_SIZE..], Len(rest));
    assert Payloads([h]) == [g.payload] by {
      assert |h.view| == Len(rest);
      assert FramePayload(h) == g.payload;
      assert [h][1..] == [];
    }
  }

  /** `StepRefinesParse` when a non-audio frame's head was forwarded and the
      rest of it is skipped at the front of the chunk. */
  lemma StepFromSkip(rest: seq<byte>, chunk: seq<byte>)
    requires Incomplete(rest) && |rest| >= HEADER_SIZE && Kind(rest) != AUDIO_TUNNEL
    requires Resumable(TailState(rest), chunk)
    ensures TailForward(rest) + Flatten(Step(TailState(rest), chunk).forwarded)
            == SerializeAll(NonAudio(Parse(rest + chunk).0)) + TailForward(Parse(rest + chunk).1)
    ensures Payloads(Step(TailState(rest), chunk).handoffs) == AudioPayloads(Parse(rest + chunk).0)
    ensures Step(TailState(rest), chunk).next == TailState(Parse(rest + chunk).1)
  {
    hide Scan, Parse, ReadUint16, ReadUint32, Uint16Bytes, Uint32Bytes;
    var r := Step(TailState(rest), chunk);
    var k := HEADER_SIZE + Len(rest) - |rest|;
    var pre := chunk[..k];
    var g := Frame(Kind(rest), (rest + pre)[HEADER_SIZE..]);
    // the first frame, serialized again, is the forwarded head and the skipped bytes
    ParseCompleting(rest, chunk);
    var Q := Parse(chunk[k..]);
    assert Parse(rest + chunk) == ([g] + Q.0, Q.1);
    assert Serialize(g) == rest + pre;
    assert ([g] + Q.0)[1..] == Q.0;
    assert NonAudio([g] + Q.0) == [g] + NonAudio(Q.0);
    assert AudioPayloads([g] + Q.0) == AudioPayloads(Q.0);
    assert SerializeAll([g] + NonAudio(Q.0)) == Serialize(g) + SerializeAll(NonAudio(Q.0)) by {
      assert ([g] + NonAudio(Q.0))[1..] == NonAudio(Q.0);
    }
    ParseCovers(chunk[k..]);
    ScanFrames(chunk, k, Q.0, Q.1);
    assert [] + chunk == chunk;
    assert r == Scan(chunk, k);
    AudioHandoffPayloads(Q.0, Q.1);
    assert TailForward(rest) == rest;
    Regroup(rest + Flatten(r.forwarded), rest + chunk[..k], rest, pre,
            SerializeAll(NonAudio(Q.0)), TailForward(Q.1));
  }

  /** The bytes the handler holds between chunks: a short leftover, or the
      head of a split audio frame. */
  function Held(st: State): seq<byte> {
    st.leftover + (if st.audioPacket.Some? then st.audioPacket.value else [])
  }

  /** The bytes at the front of a chunk that finish a non-audio frame whose
      head was forwarded with an earlier chunk. */
  function Skipped(st: State, chunk: seq<byte>): (r: seq<byte>)
    requires Valid(st) && Resumable(st, chunk)
    ensures |r| == st.startIndex
  {
    (Held(st) + chunk)[..st.startIndex]
  }

  /** The bytes the handler reads as frames once `chunk` arrives: what it
      held, then the chunk, less the skipped bytes. */
  function Ahead(st: State, chunk: seq<byte>): (r: seq<byte>)
    requires Valid(st) && Resumable(st, chunk)
    ensures Skipped(st, chunk) + r == Held(st) + chunk
  {
    (Held(st) + chunk)[st.startIndex..]
  }

  /** A state that skips nothing is the state kept after its held bytes. */
  lemma HeldIsTail(st: State)
    requires Valid(st) && st.startIndex == 0
    ensures Incomplete(Held(st)) && TailState(Held(st)) == st
  {
    if st.audioPacket.Some? {
      assert Held(st) == st.audioPacket.value;
    } else {
      assert Held(st) == st.leftover;
    }
  }

  /** One chunk after any state the handler can be in: the forwarded bytes
      are the skipped bytes, the non-audio frames of what it reads and a
      non-audio head; the audio payloads are those of the audio frames; and
      the new state is the one for the incomplete tail. */
  lemma StepReadsAhead(st: State, chunk: seq<byte>)
    requires Valid(st) && Resumable(st, chunk)
    ensures var P := Parse(Ahead(st, chunk));
            && Flatten(Step(st, chunk).forwarded)
               == Skipped(st, chunk) + SerializeAll(NonAudio(P.0)) + TailForward(P.1)
            && Payloads(Step(st, chunk).handoffs) == AudioPayloads(P.0)
            && Step(st, chunk).next == TailState(P.1)
  {
    if st.startIndex == 0 {
      var rest := Held(st);
      HeldIsTail(st);
      StepRefinesParse(rest, chunk);
      assert TailForward(rest) == [];
      assert Ahead(st, chunk) == rest + chunk && Skipped(st, chunk) == [];
      EmptyFront(TailForward(rest), Flatten(Step(st, chunk).forwarded));
      var P := Parse(rest + chunk);
      EmptyFront(Skipped(st, chunk), SerializeAll(NonAudio(P.0)));
    } else {
      hide Scan, Parse, ReadUint16, ReadUint32, Uint16Bytes, Uint32Bytes;
      var k := st.startIndex;
      assert Held(st) == [] && st.leftover == [];
      assert [] + chunk == chunk;
      assert Step(st, chunk) == Scan(chunk, k);
      assert Ahead(st, chunk) == chunk[k..] && Skipped(st, chunk) == chunk[..k];
      var Q := Parse(chunk[k..]);
      ParseCovers(chunk[k..]);
      ScanFrames(chunk, k, Q.0, Q.1);
      AudioHandoffPayloads(Q.0, Q.1);
    }
  }

  /** The chunks can be fed one after another: each split frame ends within
      the chunk after the one where it starts. */
  predicate Feedable(st: State, chunks: seq<seq<byte>>)
    decreases |chunks|
  {
    Valid(st)
    && (|chunks| == 0
        || (Resumable(st, chunks[0]) && Feedable(Step(st, chunks[0]).next, chunks[1..])))
  }

  /** A run of chunks through the handler: all sends and hand-offs in order,
      and the final state. */
  function Feed(st: State, chunks: seq<seq<byte>>): (r: ScanOut)
    requires Feedable(st, chunks)
    ensures Valid(r.next)
    decreases |chunks|
  {
    if |chunks| == 0 then ScanOut([], [], st)
    else
      var a := Step(st, chunks[0]);
      var b := Feed(a.next, chunks[1..]);
      ScanOut(a.forwarded + b.forwarded, a.handoffs + b.handoffs, b.next)
  }

  /** The joined bytes read as the first chunk's frames, then the frames of
      what the first chunk left incomplete joined with the later chunks. */
  lemma ReadingInTwo(rest: seq<byte>, c: seq<byte>, later: seq<byte>)
    ensures var P := Parse(rest + c);
            var Q := Parse(P.1 + later);
            && Parse(rest + (c + later)).1 == Q.1
            && SerializeAll(NonAudio(Parse(rest + (c + later)).0))
               == SerializeAll(NonAudio(P.0)) + SerializeAll(NonAudio(Q.0))
            && AudioPayloads(Parse(rest + (c + later)).0) == AudioPayloads(P.0) + AudioPayloads(Q.0)
  {
    hide Parse;
    var P := Parse(rest + c);
    var Q := Parse(P.1 + later);
    AppendAssoc(rest, c, later);
    ParseAppend(rest + c, later);
    NonAudioAppend(P.0, Q.0);
    SerializeAllAppend(NonAudio(P.0), NonAudio(Q.0));
    AudioPayloadsAppend(P.0, Q.0);
  }

  /** Any run of chunks does what the reference reading of their joined bytes
      says. */
  lemma {:induction false} FeedRefinesParse(rest: seq<byte>, chunks: seq<seq<byte>>)
    requires Incomplete(rest)
    requires Feedable(TailState(rest), chunks)
    ensures TailForward(rest) + Flatten(Feed(TailState(rest), chunks).forwarded)
            == SerializeAll(NonAudio(Parse(rest + Flatten(chunks)).0))
               + TailForward(Parse(rest + Flatten(chunks)).1)
    ensures Payloads(Feed(TailState(rest), chunks).handoffs)
            == AudioPayloads(Parse(rest + Flatten(chunks)).0)
    ensures Feed(TailState(rest), chunks).next == TailState(Parse(rest + Flatten(chunks)).1)
    decreases |chunks|
  {
    hide Scan, Step, Parse, ReadUint16, ReadUint32, Uint16Bytes, Uint32Bytes;
    if |chunks| == 0 {
      assert rest + Flatten(chunks) == rest;
      ParseSerialized([], rest);
      assert SerializeAll([]) + rest == rest;
      assert Parse(rest) == ([], rest);
      assert SerializeAll(NonAudio([])) == [];
      var tf := TailForward(rest);
      assert tf + [] == tf && [] + tf == tf;
    } else {
      var st := TailState(rest);
      var c := chunks[0];
      var a := Step(st, c);
      var P := Parse(rest + c);
      StepRefinesParse(rest, c);
      FeedRefinesParse(P.1, chunks[1..]);
      var b := Feed(a.next, chunks[1..]);
      var Q := Parse(P.1 + Flatten(chunks[1..]));
      assert Flatten(chunks) == c + Flatten(chunks[1..]);
      ReadingInTwo(rest, c, Flatten(chunks[1..]));
      FlattenAppend(a.forwarded, b.forwarded);
      PayloadsAppend(a.handoffs, b.handoffs);
      assert Feed(st, chunks) == ScanOut(a.forwarded + b.forwarded, a.handoffs + b.handoffs, b.next);
      Splice(TailForward(rest), Flatten(a.forwarded), Flatten(b.forwarded),
             SerializeAll(NonAudio(P.0)), TailForward(P.1), SerializeAll(NonAudio(Q.0)), TailForward(Q.1));
    }
  }

  /** How the stream is cut into chunks does not change what the handler
      forwards, what audio it hands over, or what it keeps: any chunking
      (each split frame ending in the following chunk) gives the same as
      delivering all the bytes in one chunk. */
  lemma ChunkingInvariant(chunks: seq<seq<byte>>)
    requires Feedable(Initial(), chunks)
    ensures Feedable(Initial(), [Flatten(chunks)])
    ensures Flatten(Feed(Initial(), chunks).forwarded)
            == Flatten(Feed(Initial(), [Flatten(chunks)]).forwarded)
    ensures Payloads(Feed(Initial(), chunks).handoffs)
            == Payloads(Feed(Initial(), [Flatten(chunks)]).handoffs)
    ensures Feed(Initial(), chunks).next == Feed(Initial(), [Flatten(chunks)]).next
  {
    hide Scan, Parse, ReadUint16, ReadUint32, Uint16Bytes, Uint32Bytes;
    var one := [Flatten(chunks)];
    assert one[0] == Flatten(chunks) && one[1..] == [];
    assert TailState([]) == Initial();
    assert Feedable(Step(Initial(), Flatten(chunks)).next, one[1..]);
    FeedRefinesParse([], chunks);
    FeedRefinesParse([], one);
    assert Flatten(one) == Flatten(chunks) + Flatten(one[1..]);
    assert Flatten(one[1..]) == [];
    assert Flatten(one) == Flatten(chunks);
    assert [] + Flatten(chunks) == Flatten(chunks);
    assert TailForward([]) == [];
    var x, y := Flatten(Feed(Initial(), chunks).forwarded), Flatten(Feed(Initial(), one).forwarded);
    assert [] + x == x && [] + y == y;
  }
}
