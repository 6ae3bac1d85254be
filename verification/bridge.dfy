/** The server-to-browser half of one proxied connection
    (webrtc-murmur-proxy.js, the socket `data` callback together with
    `handleAudioFromMurmur`): the reassembler cuts the stream, non-audio
    bytes go to the data channel, and each audio packet is decoded into its
    speaker's playback ring. The first packet from a speaker creates the
    ring and sends the browser a "user" notice naming the session. */
module Bridge {
  import opened Bytes
  import opened Varint
  import opened Pcm
  import opened Frames
  import opened Reassembly
  import opened Tunnel
  import opened SpeakerRing

  /** A ring per speaker session, and the sessions named in "user" notices,
      in the order the notices were sent. */
  datatype Speakers = Speakers(tracks: map<nat, Ring>, notices: seq<nat>)

  function NoSpeakers(): Speakers {
    Speakers(map[], [])
  }

  predicate RingsShaped(sp: Speakers) {
    forall id :: id in sp.tracks ==> Shaped(sp.tracks[id])
  }

  predicate Distinct(s: seq<nat>) {
    forall i, j :: 0 <= i < j < |s| ==> s[i] != s[j]
  }

  /** Every ring is well formed, and each speaker with a ring was announced
      exactly once. */
  predicate Announced(sp: Speakers) {
    && (forall id :: id in sp.tracks ==> SpeakerRing.Valid(sp.tracks[id]))
    && Distinct(sp.notices)
    && (forall i :: 0 <= i < |sp.notices| ==> sp.notices[i] in sp.tracks)
    && (forall id :: id in sp.tracks ==> id in sp.notices)
  }

  /** One audio packet to the speakers. A packet that does not decode is
      dropped; otherwise the speaker's ring is created (and announced) if
      needed and the decoded samples are placed in it. `decode` is the Opus
      decoder, which the model takes as given. */
  function HandleAudio(sp: Speakers, view: seq<byte>, decode: seq<byte> -> seq<Sample>): (r: Speakers)
    requires RingsShaped(sp)
    ensures RingsShaped(r)
    ensures DecodeTunnel(view).Err? ==> r == sp
    ensures DecodeTunnel(view).Ok? ==>
              var id := DecodeTunnel(view).value.session;
              && r.tracks.Keys == sp.tracks.Keys + {id}
              && r.notices == sp.notices + (if id in sp.tracks then [] else [id])
              && (forall other :: other in sp.tracks && other != id ==> r.tracks[other] == sp.tracks[other])
  {
    match DecodeTunnel(view)
    case Err(_) => sp
    case Ok(m) =>
      var isNew := m.session !in sp.tracks;
      var ring := if isNew then SpeakerRing.Empty() else sp.tracks[m.session];
      var notices := if isNew then sp.notices + [m.session] else sp.notices;
      Speakers(sp.tracks[m.session := Place(ring, decode(m.opus)).0], notices)
  }

  /** Audio packets in order. */
  function HandleAll(sp: Speakers, views: seq<seq<byte>>, decode: seq<byte> -> seq<Sample>): (r: Speakers)
    requires RingsShaped(sp)
    ensures RingsShaped(r)
    decreases |views|
  {
    if |views| == 0 then sp else HandleAll(HandleAudio(sp, views[0], decode), views[1..], decode)
  }

  /** Each speaker is announced once, before its first samples, whatever
      packet arrives; the speaker's ring takes the packet at the end of its
      queue. */
  lemma HandleAudioKeepsAnnounced(sp: Speakers, view: seq<byte>, decode: seq<byte> -> seq<Sample>)
    requires Announced(sp)
    ensures Announced(HandleAudio(sp, view, decode))
    ensures DecodeTunnel(view).Ok? ==>
              var m := DecodeTunnel(view).value;
              var before := if m.session in sp.tracks then sp.tracks[m.session] else SpeakerRing.Empty();
              && SpeakerRing.Valid(before)
              && Queue(HandleAudio(sp, view, decode).tracks[m.session])
                 == if Count(before) < SLOTS then Queue(before) + [decode(m.opus)] else Queue(before)
  {
    if DecodeTunnel(view).Ok? {
      var m := DecodeTunnel(view).value;
      var before := if m.session in sp.tracks then sp.tracks[m.session] else SpeakerRing.Empty();
      PlaceKeepsFifo(before, decode(m.opus));
      var ring := Place(before, decode(m.opus)).0;
      assert HandleAudio(sp, view, decode)
             == Speakers(sp.tracks[m.session := ring],
                         sp.notices + (if m.session in sp.tracks then [] else [m.session]));
      hide DecodeTunnel, Place, HandleAudio;
      UpdateKeepsAnnounced(sp, m.session, ring);
    }
  }

  /** Giving a speaker a well-formed ring, and announcing it if it had none,
      keeps every speaker announced exactly once. */
  lemma UpdateKeepsAnnounced(sp: Speakers, id: nat, ring: Ring)
    requires Announced(sp) && SpeakerRing.Valid(ring)
    ensures Announced(Speakers(sp.tracks[id := ring], sp.notices + (if id in sp.tracks then [] else [id])))
  {
    var r := Speakers(sp.tracks[id := ring], sp.notices + (if id in sp.tracks then [] else [id]));
    if id !in sp.tracks {
      assert id !in sp.notices;
      forall i, j | 0 <= i < j < |r.notices| ensures r.notices[i] != r.notices[j] {
        if j == |sp.notices| { assert r.notices[i] == sp.notices[i]; }
      }
    }
  }

  lemma {:induction false} HandleAllKeepsAnnounced(sp: Speakers, views: seq<seq<byte>>,
                                                   decode: seq<byte> -> seq<Sample>)
    requires Announced(sp)
    ensures Announced(HandleAll(sp, views, decode))
    decreases |views|
  {
    if |views| > 0 {
      HandleAudioKeepsAnnounced(sp, views[0], decode);
      HandleAllKeepsAnnounced(HandleAudio(sp, views[0], decode), views[1..], decode);
    }
  }

  lemma {:induction false} HandleAllAppend(sp: Speakers, a: seq<seq<byte>>, b: seq<seq<byte>>,
                                           decode: seq<byte> -> seq<Sample>)
    requires RingsShaped(sp)
    ensures HandleAll(sp, a + b, decode) == HandleAll(HandleAll(sp, a, decode), b, decode)
    decreases |a|
  {
    if |a| == 0 {
      assert a + b == b;
    } else {
      assert (a + b)[0] == a[0];
      assert (a + b)[1..] == a[1..] + b;
      HandleAllAppend(HandleAudio(sp, a[0], decode), a[1..], b, decode);
    }
  }

  //
  // The connection
  //

  /** The reassembler's state, the speakers, and the data-channel sends so far. */
  datatype Session = Session(stream: State, speakers: Speakers, sent: seq<seq<byte>>)

  function Start(): Session {
    Session(Initial(), NoSpeakers(), [])
  }

  /** What the decoder is given for each audio frame as the source is
      written: the stream from the frame's payload to the end of the chunk. */
  function Views(hs: seq<Handoff>): (r: seq<seq<byte>>)
    ensures |r| == |hs|
    ensures forall i :: 0 <= i < |hs| ==> r[i] == hs[i].view
  {
    if |hs| == 0 then [] else [hs[0].view] + Views(hs[1..])
  }

  /** One chunk from the server, with both defects corrected: a split audio
      frame is completed from the next chunk, and the decoder sees each
      frame's own payload. */
  function Deliver(s: Session, chunk: seq<byte>, decode: seq<byte> -> seq<Sample>): (r: Session)
    requires Reassembly.Valid(s.stream) && Resumable(s.stream, chunk)
    requires RingsShaped(s.speakers)
    ensures Reassembly.Valid(r.stream) && RingsShaped(r.speakers)
    ensures var P := Parse(Ahead(s.stream, chunk));
            && r.speakers == HandleAll(s.speakers, AudioPayloads(P.0), decode)
            && r.stream == TailState(P.1)
            && Flatten(r.sent)
               == Flatten(s.sent) + (Skipped(s.stream, chunk) + SerializeAll(NonAudio(P.0)) + TailForward(P.1))
    ensures Announced(s.speakers) ==> Announced(r.speakers)
  {
    var out := Step(s.stream, chunk);
    var speakers := HandleAll(s.speakers, Payloads(out.handoffs), decode);
    StepReadsAhead(s.stream, chunk);
    FlattenAppend(s.sent, out.forwarded);
    assert Announced(s.speakers) ==> Announced(speakers) by {
      if Announced(s.speakers) {
        HandleAllKeepsAnnounced(s.speakers, Payloads(out.handoffs), decode);
      }
    }
    Session(out.next, speakers, s.sent + out.forwarded)
  }

  /** One chunk from the server as the source is written. */
  function DeliverAsWritten(s: Session, chunk: seq<byte>, decode: seq<byte> -> seq<Sample>): (r: Session)
    requires Reassembly.Valid(s.stream)
    requires s.stream.audioPacket.None? ==> s.stream.startIndex <= |s.stream.leftover + chunk|
    requires RingsShaped(s.speakers)
    ensures Reassembly.Valid(r.stream) && RingsShaped(r.speakers)
    ensures s.stream.audioPacket.Some? ==> r == s
  {
    match StepAsWritten(s.stream, chunk)
    case Threw(_) => s
    case Delivered(out) =>
      Session(out.next, HandleAll(s.speakers, Views(out.handoffs), decode), s.sent + out.forwarded)
  }

  /** Chunks one after another, corrected. */
  function DeliverAll(s: Session, chunks: seq<seq<byte>>, decode: seq<byte> -> seq<Sample>): (r: Session)
    requires Feedable(s.stream, chunks) && RingsShaped(s.speakers)
    decreases |chunks|
  {
    if |chunks| == 0 then s else DeliverAll(Deliver(s, chunks[0], decode), chunks[1..], decode)
  }

  /** A run of chunks does to the speakers what the audio frames of the
      joined stream do, in order, and sends what the reassembler forwards. */
  lemma {:induction false} DeliverAllIsFeed(s: Session, chunks: seq<seq<byte>>,
                                            decode: seq<byte> -> seq<Sample>)
    requires Feedable(s.stream, chunks) && RingsShaped(s.speakers)
    ensures DeliverAll(s, chunks, decode).stream == Feed(s.stream, chunks).next
    ensures DeliverAll(s, chunks, decode).speakers
            == HandleAll(s.speakers, Payloads(Feed(s.stream, chunks).handoffs), decode)
    ensures DeliverAll(s, chunks, decode).sent == s.sent + Feed(s.stream, chunks).forwarded
    decreases |chunks|
  {
    hide Step, Scan;
    if |chunks| == 0 {
      assert s.sent + [] == s.sent;
    } else {
      var a := Step(s.stream, chunks[0]);
      var s1 := Deliver(s, chunks[0], decode);
      DeliverAllIsFeed(s1, chunks[1..], decode);
      var b := Feed(a.next, chunks[1..]);
      PayloadsAppend(a.handoffs, b.handoffs);
      HandleAllAppend(s.speakers, Payloads(a.handoffs), Payloads(b.handoffs), decode);
      AppendAssoc(s.sent, a.forwarded, b.forwarded);
    }
  }

  /** How the server's stream is cut into chunks changes neither what each
      speaker hears nor which speakers are announced, nor the bytes sent to
      the data channel. */
  lemma SpeakersIndependentOfChunking(chunks: seq<seq<byte>>, decode: seq<byte> -> seq<Sample>)
    requires Feedable(Initial(), chunks)
    ensures Feedable(Initial(), [Flatten(chunks)])
    ensures DeliverAll(Start(), chunks, decode).speakers
            == DeliverAll(Start(), [Flatten(chunks)], decode).speakers
    ensures Flatten(DeliverAll(Start(), chunks, decode).sent)
            == Flatten(DeliverAll(Start(), [Flatten(chunks)], decode).sent)
  {
    ChunkingInvariant(chunks);
    DeliverAllIsFeed(Start(), chunks, decode);
    DeliverAllIsFeed(Start(), [Flatten(chunks)], decode);
    assert [] + Feed(Initial(), chunks).forwarded == Feed(Initial(), chunks).forwarded;
    assert [] + Feed(Initial(), [Flatten(chunks)]).forwarded == Feed(Initial(), [Flatten(chunks)]).forwarded;
  }

  //
  // Two streams that show the defects
  //

  const ABC: seq<byte> := [0x61, 0x62, 0x63]

  /** The tunnel message from `session`, sequence 0, carrying Opus bytes
      "abc": 0x80, session, 0, 3, 'a', 'b', 'c'. */
  function AbcMessage(session: byte): (r: seq<byte>)
    requires session < 0x80
    ensures |r| == 7
  {
    [OPUS_TYPE_TARGET, session, 0, 3] + ABC
  }

  /** The audio frame carrying `AbcMessage(session)`:
      0, 1, 0, 0, 0, 7 followed by the message. */
  function AbcFrame(session: byte): (r: seq<byte>)
    requires session < 0x80
    ensures |r| == HEADER_SIZE + 7 && r[HEADER_SIZE..] == AbcMessage(session)
  {
    Serialize(Frame(AUDIO_TUNNEL, AbcMessage(session)))
  }

  /** Speaker 5's frame cut after the third byte of its payload. */
  const SPLIT_HEAD: seq<byte> := AbcFrame(5)[..9]
  const SPLIT_TAIL: seq<byte> := AbcFrame(5)[9..]

  /** The header of `AbcFrame(session)`, read from anything that starts with it. */
  lemma AbcHeader(session: byte, s: seq<byte>)
    requires session < 0x80
    requires |s| >= HEADER_SIZE && s[..HEADER_SIZE] == AbcFrame(session)[..HEADER_SIZE]
    ensures Kind(s) == AUDIO_TUNNEL && Len(s) == 7
  {
    var f := AbcFrame(session);
    HeaderOfSerialized(Frame(AUDIO_TUNNEL, AbcMessage(session)), []);
    assert f + [] == f;
    assert s[..2] == s[..HEADER_SIZE][..2] == f[..HEADER_SIZE][..2] == f[..2];
    assert s[2..6] == s[..HEADER_SIZE][2..6] == f[..HEADER_SIZE][2..6] == f[2..6];
  }

  /** `AbcMessage(session)` decodes, and is rejected with `more` bytes after
      it unless those are exactly a positional trailer. */
  lemma AbcDecodes(session: byte, more: seq<byte>)
    requires session < 0x80
    ensures DecodeTunnel(AbcMessage(session)) == Ok(AudioMessage(session, 0, ABC))
    ensures |more| > 0 && |more| != POSITION_SIZE ==> DecodeTunnel(AbcMessage(session) + more).Err?
  {
    assert MaskLastFlag(3) == 3;
    hide DecodeTunnel, GetVarint, PutVarint, Uint32Bytes, ReadUint32, MaskLastFlag;
    var front: seq<byte> := [OPUS_TYPE_TARGET, session, 0, 3];
    assert [OPUS_TYPE_TARGET] + PutVarint(session) + PutVarint(0) + PutVarint(3) == front;
    DecodeLayout(session, 0, 3, ABC);
    DecodeLayout(session, 0, 3, ABC + more);
    AppendAssoc(front, ABC, more);
  }

  /** A single audio message, to no speakers yet, announces its speaker and
      queues its decoded Opus bytes. */
  lemma OneAbcMessage(session: byte, decode: seq<byte> -> seq<Sample>)
    requires session < 0x80
    ensures var sp := HandleAll(NoSpeakers(), [AbcMessage(session)], decode);
            && sp.notices == [session]
            && sp.tracks.Keys == {session}
            && SpeakerRing.Valid(sp.tracks[session])
            && Queue(sp.tracks[session]) == [decode(ABC)]
  {
    AbcDecodes(session, []);
    FirstPacket(AbcMessage(session), decode);
  }

  /** The first packet that decodes announces its speaker and queues its
      decoded Opus bytes. */
  lemma FirstPacket(view: seq<byte>, decode: seq<byte> -> seq<Sample>)
    requires DecodeTunnel(view).Ok?
    ensures var m := DecodeTunnel(view).value;
            var sp := HandleAll(NoSpeakers(), [view], decode);
            && sp.notices == [m.session]
            && sp.tracks.Keys == {m.session}
            && SpeakerRing.Valid(sp.tracks[m.session])
            && Queue(sp.tracks[m.session]) == [decode(m.opus)]
  {
    HandleAudioKeepsAnnounced(NoSpeakers(), view, decode);
    hide DecodeTunnel, Place, HandleAudio;
    assert HandleAll(NoSpeakers(), [view], decode) == HandleAudio(NoSpeakers(), view, decode);
  }

  /** The first chunk leaves the split audio frame pending, under either
      reading of the handler. */
  lemma SplitHeadPending()
    ensures Scan([] + SPLIT_HEAD, 0) == ScanOut([], [], State([], 0, Some(SPLIT_HEAD)))
  {
    assert [] + SPLIT_HEAD == SPLIT_HEAD;
    assert SPLIT_HEAD[0..] == SPLIT_HEAD;
    assert SPLIT_HEAD[..HEADER_SIZE] == AbcFrame(5)[..HEADER_SIZE];
    AbcHeader(5, SPLIT_HEAD);
  }

  /** As written, a frame split over two chunks is never delivered: the
      second chunk raises, and so does every chunk after it. */
  lemma SplitFrameLostAsWritten(decode: seq<byte> -> seq<Sample>)
    ensures var s1 := DeliverAsWritten(Start(), SPLIT_HEAD, decode);
            && s1.stream.audioPacket.Some?
            && DeliverAsWritten(s1, SPLIT_TAIL, decode) == s1
            && s1.speakers.notices == []
  {
    SplitHeadPending();
  }

  /** Corrected, the same two chunks announce speaker 5 and queue its
      decoded "abc". */
  lemma SplitFrameDelivered(decode: seq<byte> -> seq<Sample>)
    ensures Resumable(Deliver(Start(), SPLIT_HEAD, decode).stream, SPLIT_TAIL)
    ensures var s2 := Deliver(Deliver(Start(), SPLIT_HEAD, decode), SPLIT_TAIL, decode);
            && s2.speakers.notices == [5]
            && 5 in s2.speakers.tracks
            && SpeakerRing.Valid(s2.speakers.tracks[5])
            && Queue(s2.speakers.tracks[5]) == [decode(ABC)]
  {
    SplitHeadPending();
    assert SPLIT_HEAD[..HEADER_SIZE] == AbcFrame(5)[..HEADER_SIZE];
    AbcHeader(5, SPLIT_HEAD);
    hide Scan, Serialize, AbcFrame;
    var s1 := Deliver(Start(), SPLIT_HEAD, decode);
    assert s1.stream == State([], 0, Some(SPLIT_HEAD));
    assert s1.speakers == NoSpeakers();
    var data := [] + SPLIT_TAIL;
    assert data == SPLIT_TAIL && |data| == 4;
    assert SPLIT_HEAD + data[..4] == AbcFrame(5);
    var out := Step(s1.stream, SPLIT_TAIL);
    var h := Handoff(AbcMessage(5), 7);
    assert out == ScanOut([], [h], Initial());
    assert AbcMessage(5)[..7] == AbcMessage(5);
    assert Payloads(out.handoffs) == [AbcMessage(5)];
    OneAbcMessage(5, decode);
  }

  /** The handler's reading of a chunk of two audio frames: both are handed
      over, the first with the second frame still after it. */
  lemma TwoAudioFrames(f: Frame, g: Frame)
    requires ValidFrame(f) && ValidFrame(g) && f.kind == AUDIO_TUNNEL && g.kind == AUDIO_TUNNEL
    ensures Scan(Serialize(f) + Serialize(g), 0)
            == ScanOut([], [Handoff(f.payload + Serialize(g), |f.payload|), Handoff(g.payload, |g.payload|)],
                       Initial())
  {
    var sf, sg := Serialize(f), Serialize(g);
    var data := sf + sg;
    HeaderOfSerialized(f, sg);
    HeaderOfSerialized(g, []);
    assert sg + [] == sg;
    hide Scan, Serialize, Kind, Len;
    assert data[0..] == data && sg[0..] == sg;
    ScanAudioThen(data, 0, |f.payload|);
    ScanAudioAtEnd(sg, 0, |g.payload|);
    assert data[HEADER_SIZE + |f.payload|..] == sg;
    assert data[HEADER_SIZE..] == f.payload + sg;
    var h := Handoff(f.payload + sg, |f.payload|);
    var k := Handoff(g.payload, |g.payload|);
    assert Scan(data, 0) == ScanOut([] + [], [h] + [k], Initial());
    assert [h] + [k] == [h, k];
  }

  /** A first chunk of two whole audio frames: the corrected handler gives
      the decoder each frame's payload, the handler as written gives it the
      first frame's payload with the second frame still after it. */
  lemma TwoFramesFromStart(f: Frame, g: Frame, decode: seq<byte> -> seq<Sample>)
    requires ValidFrame(f) && ValidFrame(g) && f.kind == AUDIO_TUNNEL && g.kind == AUDIO_TUNNEL
    ensures Resumable(Start().stream, Serialize(f) + Serialize(g))
    ensures Deliver(Start(), Serialize(f) + Serialize(g), decode).speakers
            == HandleAll(NoSpeakers(), [f.payload, g.payload], decode)
    ensures DeliverAsWritten(Start(), Serialize(f) + Serialize(g), decode).speakers
            == HandleAll(NoSpeakers(), [f.payload + Serialize(g), g.payload], decode)
  {
    TwoFramesDelivered(f, g, decode);
    TwoFramesAsWritten(f, g, decode);
  }

  lemma TwoFramesDelivered(f: Frame, g: Frame, decode: seq<byte> -> seq<Sample>)
    requires ValidFrame(f) && ValidFrame(g) && f.kind == AUDIO_TUNNEL && g.kind == AUDIO_TUNNEL
    ensures Resumable(Start().stream, Serialize(f) + Serialize(g))
    ensures Deliver(Start(), Serialize(f) + Serialize(g), decode).speakers
            == HandleAll(NoSpeakers(), [f.payload, g.payload], decode)
  {
    var chunk := Serialize(f) + Serialize(g);
    TwoAudioFrames(f, g);
    assert [] + chunk == chunk;
    var out := Step(Start().stream, chunk);
    assert out == Scan(chunk, 0);
    hide Scan, Serialize, HandleAll, Step, Parse;
    var hs := [Handoff(f.payload + Serialize(g), |f.payload|), Handoff(g.payload, |g.payload|)];
    assert out.handoffs == hs;
    assert (f.payload + Serialize(g))[..|f.payload|] == f.payload && g.payload[..|g.payload|] == g.payload;
    assert Payloads(hs[1..]) == [g.payload];
    assert Payloads(hs) == [f.payload, g.payload];
    assert Deliver(Start(), chunk, decode).speakers == HandleAll(NoSpeakers(), Payloads(out.handoffs), decode);
  }

  lemma TwoFramesAsWritten(f: Frame, g: Frame, decode: seq<byte> -> seq<Sample>)
    requires ValidFrame(f) && ValidFrame(g) && f.kind == AUDIO_TUNNEL && g.kind == AUDIO_TUNNEL
    ensures DeliverAsWritten(Start(), Serialize(f) + Serialize(g), decode).speakers
            == HandleAll(NoSpeakers(), [f.payload + Serialize(g), g.payload], decode)
  {
    var chunk := Serialize(f) + Serialize(g);
    TwoAudioFrames(f, g);
    assert [] + chunk == chunk;
    hide Scan, Serialize, HandleAll;
    var hs := [Handoff(f.payload + Serialize(g), |f.payload|), Handoff(g.payload, |g.payload|)];
    assert Views(hs) == [f.payload + Serialize(g), g.payload];
  }

  /** Two packets to no speakers yet: a rejected first packet announces
      nobody, and two speakers are announced in the order they spoke. */
  lemma TwoPackets(v1: seq<byte>, v2: seq<byte>, decode: seq<byte> -> seq<Sample>)
    requires DecodeTunnel(v2).Ok?
    ensures var s2 := DecodeTunnel(v2).value.session;
            var notices := HandleAll(NoSpeakers(), [v1, v2], decode).notices;
            && (DecodeTunnel(v1).Err? ==> notices == [s2])
            && (DecodeTunnel(v1).Ok? && DecodeTunnel(v1).value.session != s2 ==>
                  notices == [DecodeTunnel(v1).value.session, s2])
  {
    var sp := HandleAudio(NoSpeakers(), v1, decode);
    assert [v1, v2][1..] == [v2];
    assert HandleAll(NoSpeakers(), [v1, v2], decode) == HandleAll(sp, [v2], decode);
    hide DecodeTunnel, HandleAudio;
    assert HandleAll(sp, [v2], decode) == HandleAudio(sp, v2, decode);
  }

  /** As written, an audio frame followed by another frame in the same chunk
      is rejected: speaker 5 is never announced, only speaker 9. */
  lemma SecondSpeakerOnlyAsWritten(decode: seq<byte> -> seq<Sample>)
    ensures DeliverAsWritten(Start(), AbcFrame(5) + AbcFrame(9), decode).speakers.notices == [9]
  {
    var f5, f9 := Frame(AUDIO_TUNNEL, AbcMessage(5)), Frame(AUDIO_TUNNEL, AbcMessage(9));
    assert AbcFrame(5) == Serialize(f5) && AbcFrame(9) == Serialize(f9);
    TwoFramesFromStart(f5, f9, decode);
    AbcDecodes(5, AbcFrame(9));
    AbcDecodes(9, []);
    TwoPackets(AbcMessage(5) + AbcFrame(9), AbcMessage(9), decode);
  }

  /** Corrected, both speakers are announced, in stream order. */
  lemma BothSpeakersDelivered(decode: seq<byte> -> seq<Sample>)
    ensures Resumable(Start().stream, AbcFrame(5) + AbcFrame(9))
    ensures Deliver(Start(), AbcFrame(5) + AbcFrame(9), decode).speakers.notices == [5, 9]
  {
    var f5, f9 := Frame(AUDIO_TUNNEL, AbcMessage(5)), Frame(AUDIO_TUNNEL, AbcMessage(9));
    assert AbcFrame(5) == Serialize(f5) && AbcFrame(9) == Serialize(f9);
    TwoFramesFromStart(f5, f9, decode);
    AbcDecodes(5, []);
    AbcDecodes(9, []);
    TwoPackets(AbcMessage(5), AbcMessage(9), decode);
  }
}
