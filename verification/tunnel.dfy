/** The payload of an audio tunnel frame (type 1): one voice packet in the
    voice protocol's UDP format, carried over TCP.

    From the server (webrtc-murmur-proxy.js, `handleAudioFromMurmur`):
      type/target byte 128 (Opus, normal talking), speaker session (varint),
      sequence number (varint), Opus length (varint, bit 0x2000 marks the
      speaker's last packet), the Opus data, then optionally 12 bytes of
      positional audio.
    To the server (`processAudioData`): the same without the session and
    without position data. */
module Tunnel {
  import opened Bytes
  import opened Varint
  import opened Frames

  /** Packet type 4 (Opus) in the top three bits, target 0 (normal talking). */
  const OPUS_TYPE_TARGET: nat := 128
  /** Set in the Opus length field on the speaker's last packet. */
  const LAST_FRAME_FLAG: nat := 0x2000
  /** Positional audio: three 32-bit floats after the Opus data. */
  const POSITION_SIZE: nat := 12

  datatype TunnelError =
    | Empty                                        // no type/target byte
    | BadTypeTarget(typeTarget: byte)              // not an Opus packet to normal talking
    | BadVarint(cause: VarintError)
    | LengthMismatch(remaining: nat, opusLength: nat)

  datatype AudioMessage = AudioMessage(session: nat, sequence: nat, opus: seq<byte>)

  /** The Opus length with the last-packet flag cleared: the source keeps only
      the low 13 bits when the flag is set, and the whole value otherwise. */
  function MaskLastFlag(n: nat): (m: nat)
    ensures m <= n
    ensures m % LAST_FRAME_FLAG == n % LAST_FRAME_FLAG
    ensures m == n || m < LAST_FRAME_FLAG
    ensures n < LAST_FRAME_FLAG ==> m == n
    ensures (m / LAST_FRAME_FLAG) % 2 == 0
    ensures (n / LAST_FRAME_FLAG) % 2 == 0 ==> m == n
  {
    if (n / LAST_FRAME_FLAG) % 2 == 1 then n % LAST_FRAME_FLAG else n
  }

  /** Reads three varints starting at `at`: the values and the position after them. */
  function GetVarints3(s: seq<byte>, at: nat): (r: Result<(nat, nat, nat, nat), VarintError>)
    requires at <= |s|
    ensures r.Ok? ==> at < r.value.3 <= |s|
  {
    match GetVarint(s[at..])
    case Err(e) => Err(e)
    case Ok((a, k1)) =>
      var i := at + k1;
      match GetVarint(s[i..])
      case Err(e) => Err(e)
      case Ok((b, k2)) =>
        var j := i + k2;
        match GetVarint(s[j..])
        case Err(e) => Err(e)
        case Ok((c, k3)) => Ok((a, b, c, j + k3))
  }

  /** Decodes an audio packet from the server. `view` starts at the
      type/target byte and runs to the end of the buffer the stream reads
      from; every byte after the Opus length field counts as remaining, and
      it must be the Opus data alone or the Opus data and position data. */
  function DecodeTunnel(view: seq<byte>): (r: Result<AudioMessage, TunnelError>)
    ensures |view| == 0 ==> r == Err(Empty)
    ensures (r.Err? && r.error.BadTypeTarget?) <==> (|view| > 0 && view[0] != OPUS_TYPE_TARGET)
    ensures r.Ok? ==> view[0] == OPUS_TYPE_TARGET && |r.value.opus| < |view|
    ensures r.Ok? ==>
              || view[|view| - |r.value.opus|..] == r.value.opus
              || (|view| >= |r.value.opus| + POSITION_SIZE
                  && view[|view| - POSITION_SIZE - |r.value.opus|..|view| - POSITION_SIZE] == r.value.opus)
  {
    if |view| == 0 then Err(Empty)
    else if view[0] != OPUS_TYPE_TARGET then Err(BadTypeTarget(view[0]))
    else
      match GetVarints3(view, 1)
      case Err(e) => Err(BadVarint(e))
      case Ok((session, sequence, rawLength, at)) =>
        var opusLength := MaskLastFlag(rawLength);
        var remaining := |view| - at;
        if remaining != opusLength && remaining != opusLength + POSITION_SIZE then
          Err(LengthMismatch(remaining, opusLength))
        else
          Ok(AudioMessage(session, sequence, view[at..at + opusLength]))
  }

  /** The bytes a server sends for one audio packet: the reference layout
      `DecodeTunnel` reads. `trailer` is the positional data, if any. */
  function EncodeServerAudio(session: nat, sequence: nat, opus: seq<byte>, last: bool,
                             trailer: seq<byte>): (r: seq<byte>)
    ensures |r| > 0 && r[0] == OPUS_TYPE_TARGET
  {
    var lengthField := |opus| + (if last then LAST_FRAME_FLAG else 0);
    [OPUS_TYPE_TARGET] + PutVarint(session) + PutVarint(sequence) + PutVarint(lengthField)
      + opus + trailer
  }

  /** The masking over every length: with the flag set only the low 13 bits
      stay, and without it every bit above the flag is kept. */
  lemma {:induction false} MaskLastFlagOf(h: nat, n: nat, last: bool)
    requires n < LAST_FRAME_FLAG
    ensures MaskLastFlag(h * 0x4000 + (if last then LAST_FRAME_FLAG else 0) + n)
            == if last then n else h * 0x4000 + n
  {
    var b := if last then 1 else 0;
    var x := (2 * h + b) * LAST_FRAME_FLAG + n;
    assert x == h * 0x4000 + (if last then LAST_FRAME_FLAG else 0) + n;
    assert x / LAST_FRAME_FLAG == 2 * h + b && x % LAST_FRAME_FLAG == n by {
      FlagDivMod(2 * h + b, n);
    }
  }

  /** The flag-sized quotient and remainder of a value built from them. */
  lemma FlagDivMod(q: nat, n: nat)
    requires n < LAST_FRAME_FLAG
    ensures (q * LAST_FRAME_FLAG + n) / LAST_FRAME_FLAG == q
    ensures (q * LAST_FRAME_FLAG + n) % LAST_FRAME_FLAG == n
  {
  }

  /** The three varints of a header, whatever follows them. */
  lemma GetVarints3Of(a: nat, b: nat, c: nat, body: seq<byte>)
    requires a < TWO_64 && b < TWO_64 && c < TWO_64
    ensures var s := [OPUS_TYPE_TARGET] + PutVarint(a) + PutVarint(b) + PutVarint(c) + body;
            GetVarints3(s, 1) == Ok((a, b, c, |s| - |body|))
  {
    hide GetVarint, PutVarint, Uint32Bytes, Uint16Bytes, ReadUint32, ReadUint16;
    var va, vb, vc := PutVarint(a), PutVarint(b), PutVarint(c);
    var s := [OPUS_TYPE_TARGET] + va + vb + vc + body;
    assert s[1..] == va + (vb + vc + body);
    VarintRoundTrip(a, vb + vc + body);
    var i := 1 + |va|;
    assert s[i..] == vb + (vc + body);
    VarintRoundTrip(b, vc + body);
    var j := i + |vb|;
    assert s[j..] == vc + body;
    VarintRoundTrip(c, body);
  }

  /** What the decoder makes of a well-formed header followed by `body`:
      the body is accepted exactly when it is the Opus data, with or without
      12 bytes after it. */
  lemma DecodeLayout(session: nat, sequence: nat, lengthField: nat, body: seq<byte>)
    requires session < TWO_64 && sequence < TWO_64 && lengthField < TWO_64
    ensures var n := MaskLastFlag(lengthField);
            DecodeTunnel([OPUS_TYPE_TARGET] + PutVarint(session) + PutVarint(sequence)
                         + PutVarint(lengthField) + body)
            == if |body| == n || |body| == n + POSITION_SIZE
               then Ok(AudioMessage(session, sequence, body[..n]))
               else Err(LengthMismatch(|body|, n))
  {
    hide GetVarint, PutVarint, Uint32Bytes, Uint16Bytes, ReadUint32, ReadUint16;
    var s := [OPUS_TYPE_TARGET] + PutVarint(session) + PutVarint(sequence)
             + PutVarint(lengthField) + body;
    GetVarints3Of(session, sequence, lengthField, body);
    var at := |s| - |body|;
    assert s[at..] == body;
    var n := MaskLastFlag(lengthField);
    if |body| == n || |body| == n + POSITION_SIZE {
      assert s[at..at + n] == body[..n];
    }
  }

  /** Decoding an encoded packet gives back its session, sequence number and
      Opus data, with or without the last-packet flag and position data. */
  lemma ServerAudioRoundTrip(session: nat, sequence: nat, opus: seq<byte>, last: bool,
                             trailer: seq<byte>)
    requires session < TWO_64 && sequence < TWO_64
    requires |opus| < LAST_FRAME_FLAG
    requires |trailer| == 0 || |trailer| == POSITION_SIZE
    ensures DecodeTunnel(EncodeServerAudio(session, sequence, opus, last, trailer))
            == Ok(AudioMessage(session, sequence, opus))
  {
    hide GetVarint, PutVarint, Uint32Bytes, Uint16Bytes, ReadUint32, ReadUint16, DecodeTunnel;
    var lengthField := |opus| + (if last then LAST_FRAME_FLAG else 0);
    MaskLastFlagOf(0, |opus|, last);
    var head := [OPUS_TYPE_TARGET] + PutVarint(session) + PutVarint(sequence) + PutVarint(lengthField);
    assert head + opus + trailer == head + (opus + trailer);
    DecodeLayout(session, sequence, lengthField, opus + trailer);
    assert (opus + trailer)[..|opus|] == opus;
  }

  /** Bytes after a packet are taken for part of it: unless they happen to
      make up exactly the 12 bytes of position data, the packet is rejected. */
  lemma TrailingBytesRejected(session: nat, sequence: nat, opus: seq<byte>, last: bool,
                              trailer: seq<byte>, more: seq<byte>)
    requires session < TWO_64 && sequence < TWO_64
    requires |opus| < LAST_FRAME_FLAG
    requires |trailer| == 0 || |trailer| == POSITION_SIZE
    requires |more| > 0 && |trailer| + |more| != POSITION_SIZE
    ensures DecodeTunnel(EncodeServerAudio(session, sequence, opus, last, trailer) + more)
            == Err(LengthMismatch(|opus| + |trailer| + |more|, |opus|))
  {
    hide GetVarint, PutVarint, Uint32Bytes, Uint16Bytes, ReadUint32, ReadUint16, DecodeTunnel;
    var lengthField := |opus| + (if last then LAST_FRAME_FLAG else 0);
    MaskLastFlagOf(0, |opus|, last);
    var head := [OPUS_TYPE_TARGET] + PutVarint(session) + PutVarint(sequence) + PutVarint(lengthField);
    assert head + opus + trailer + more == head + (opus + trailer + more);
    DecodeLayout(session, sequence, lengthField, opus + trailer + more);
  }

  //
  // Outgoing audio
  //

  /** The payload of an outgoing audio frame: type/target, sequence number,
      Opus length, Opus data. */
  function ClientPayload(sequence: nat, opus: seq<byte>): (r: seq<byte>)
    ensures |r| <= |opus| + 19
  {
    [OPUS_TYPE_TARGET] + PutVarint(sequence) + PutVarint(|opus|) + opus
  }

  /** The audio tunnel frame the proxy writes to the server for one encoded
      packet. The source builds it in a buffer of |opus| + 27 bytes: frame
      type 1, a 32-bit length filled in last, then the payload. */
  function BuildClientPacket(sequence: nat, opus: seq<byte>): (r: seq<byte>)
    ensures HEADER_SIZE < |r| <= |opus| + 27
    ensures r[..2] == Uint16Bytes(AUDIO_TUNNEL)
    ensures ReadUint32(r[2..6]) == (|r| - HEADER_SIZE) % TWO_32
  {
    var body := ClientPayload(sequence, opus);
    var r := Uint16Bytes(AUDIO_TUNNEL) + Uint32Bytes(|body|) + body;
    assert r[2..6] == Uint32Bytes(|body|);
    r
  }

  /** Reads an outgoing payload back: the inverse of `ClientPayload`. */
  function ParseClientPayload(p: seq<byte>): (r: Result<(nat, seq<byte>), TunnelError>)
    ensures r.Ok? ==> |r.value.1| < |p| && p[|p| - |r.value.1|..] == r.value.1
  {
    if |p| == 0 then Err(Empty)
    else if p[0] != OPUS_TYPE_TARGET then Err(BadTypeTarget(p[0]))
    else
      match GetVarint(p[1..])
      case Err(e) => Err(BadVarint(e))
      case Ok((sequence, k1)) =>
        match GetVarint(p[1 + k1..])
        case Err(e) => Err(BadVarint(e))
        case Ok((n, k2)) =>
          var at := 1 + k1 + k2;
          if |p| - at != n then Err(LengthMismatch(|p| - at, n))
          else Ok((sequence, p[at..]))
  }

  /** An outgoing packet is one complete audio tunnel frame, and its payload
      reads back as the sequence number and Opus data it was built from. */
  lemma ClientPacketRoundTrip(sequence: nat, opus: seq<byte>)
    requires sequence < TWO_64 && |opus| < TWO_32 - 19
    ensures var body := ClientPayload(sequence, opus);
            && Parse(BuildClientPacket(sequence, opus)) == ([Frame(AUDIO_TUNNEL, body)], [])
            && ParseClientPayload(body) == Ok((sequence, opus))
  {
    hide GetVarint, PutVarint, Uint32Bytes, Uint16Bytes, ReadUint32, ReadUint16, Parse;
    var body := ClientPayload(sequence, opus);
    var f := Frame(AUDIO_TUNNEL, body);
    assert BuildClientPacket(sequence, opus) == SerializeAll([f]) + [] by {
      assert SerializeAll([f]) == Serialize(f) + SerializeAll([]);
    }
    assert AllValid([f]);
    ParseSerialized([f], []);
    var vs, vn := PutVarint(sequence), PutVarint(|opus|);
    assert body[1..] == vs + (vn + opus);
    VarintRoundTrip(sequence, vn + opus);
    assert body[1 + |vs|..] == vn + opus;
    VarintRoundTrip(|opus|, opus);
    assert body[1 + |vs| + |vn|..] == opus;
  }
}
