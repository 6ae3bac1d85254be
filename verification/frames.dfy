/** Frames of the voice server's TCP protocol: a 16-bit type, a 32-bit
    payload length, then the payload. Type 1 is the audio tunnel. This module
    also gives the reference reading of a byte stream as frames, against which
    the chunk-by-chunk reassembler is proved. */
module Frames {
  import opened Bytes

  const HEADER_SIZE: nat := 6
  const AUDIO_TUNNEL: nat := 1

  datatype Frame = Frame(kind: nat, payload: seq<byte>)

  /** A frame whose type and length fit their header fields. */
  predicate ValidFrame(f: Frame) {
    f.kind < TWO_16 && |f.payload| < TWO_32
  }

  predicate AllValid(fs: seq<Frame>) {
    forall i :: 0 <= i < |fs| ==> ValidFrame(fs[i])
  }

  function Serialize(f: Frame): (r: seq<byte>)
    ensures |r| == HEADER_SIZE + |f.payload|
    ensures r[HEADER_SIZE..] == f.payload
  {
    Uint16Bytes(f.kind) + Uint32Bytes(|f.payload|) + f.payload
  }

  function SerializeAll(fs: seq<Frame>): (r: seq<byte>)
    ensures |fs| == 0 <==> |r| == 0
  {
    if |fs| == 0 then [] else Serialize(fs[0]) + SerializeAll(fs[1..])
  }

  /** The type field of a header at the front of `s`. */
  function Kind(s: seq<byte>): nat
    requires |s| >= HEADER_SIZE
  {
    ReadUint16(s[..2])
  }

  /** The length field of a header at the front of `s`. */
  function Len(s: seq<byte>): nat
    requires |s| >= HEADER_SIZE
  {
    ReadUint32(s[2..6])
  }

  /** `s` does not begin with a complete frame: either the header itself is
      cut short, or the header declares more payload than `s` holds. */
  predicate Incomplete(s: seq<byte>) {
    |s| < HEADER_SIZE || HEADER_SIZE + Len(s) > |s|
  }

  /** Reference reading of a byte stream: the complete frames at its front,
      in order, and the incomplete remainder. */
  function Parse(s: seq<byte>): (r: (seq<Frame>, seq<byte>))
    ensures AllValid(r.0)
    ensures Incomplete(r.1)
    ensures |r.1| <= |s|
    decreases |s|
  {
    if Incomplete(s) then ([], s)
    else
      var n := HEADER_SIZE + Len(s);
      var f := Frame(Kind(s), s[HEADER_SIZE..n]);
      var next := Parse(s[n..]);
      ([f] + next.0, next.1)
  }

  /** A stream that begins with a complete frame reads as that frame and then
      the reading of what follows it. */
  lemma ParseFront(s: seq<byte>)
    requires !Incomplete(s)
    ensures Parse(s) == ([Frame(Kind(s), s[HEADER_SIZE..HEADER_SIZE + Len(s)])]
                         + Parse(s[HEADER_SIZE + Len(s)..]).0,
                         Parse(s[HEADER_SIZE + Len(s)..]).1)
  {
  }

  /** A complete frame at the front of `s`, serialized again, is the bytes it
      was read from. */
  lemma FrameOfHeader(s: seq<byte>)
    requires |s| >= HEADER_SIZE && |s| == HEADER_SIZE + Len(s)
    ensures Serialize(Frame(Kind(s), s[HEADER_SIZE..])) == s
  {
    Uint16BytesOfRead(s[..2]);
    Uint32BytesOfRead(s[2..6]);
    assert s[..2][..2] == s[..2];
    assert s[2..6][..4] == s[2..6];
    assert s == s[..2] + s[2..6] + s[HEADER_SIZE..];
  }

  /** The head of a frame, completed from the front of the bytes that follow
      it, is the first frame those joined bytes read as. */
  lemma ParseCompleting(head: seq<byte>, more: seq<byte>)
    requires |head| >= HEADER_SIZE && Incomplete(head)
    requires HEADER_SIZE + Len(head) - |head| <= |more|
    ensures var k := HEADER_SIZE + Len(head) - |head|;
            var g := Frame(Kind(head), (head + more[..k])[HEADER_SIZE..]);
            && Serialize(g) == head + more[..k]
            && Parse(head + more) == ([g] + Parse(more[k..]).0, Parse(more[k..]).1)
  {
    var k := HEADER_SIZE + Len(head) - |head|;
    var s := head + more;
    var whole := head + more[..k];
    assert s[..2] == head[..2] && s[2..6] == head[2..6];
    assert whole[..2] == head[..2] && whole[2..6] == head[2..6];
    FrameOfHeader(whole);
    var m := HEADER_SIZE + Len(head);
    assert s[HEADER_SIZE..m] == whole[HEADER_SIZE..];
    assert s[m..] == more[k..];
    ParseFront(s);
  }

  /** The frames that are not audio tunnel frames, in order. */
  function NonAudio(fs: seq<Frame>): (r: seq<Frame>)
    ensures |r| <= |fs|
  {
    if |fs| == 0 then []
    else (if fs[0].kind == AUDIO_TUNNEL then [] else [fs[0]]) + NonAudio(fs[1..])
  }

  /** The payloads of the audio tunnel frames, in order. */
  function AudioPayloads(fs: seq<Frame>): (r: seq<seq<byte>>)
    ensures |r| <= |fs|
  {
    if |fs| == 0 then []
    else (if fs[0].kind == AUDIO_TUNNEL then [fs[0].payload] else []) + AudioPayloads(fs[1..])
  }

  lemma HeaderOfSerialized(f: Frame, rest: seq<byte>)
    requires ValidFrame(f)
    ensures |Serialize(f) + rest| >= HEADER_SIZE
    ensures Kind(Serialize(f) + rest) == f.kind
    ensures Len(Serialize(f) + rest) == |f.payload|
  {
    var s := Serialize(f) + rest;
    assert s[..2] == Uint16Bytes(f.kind);
    assert s[2..6] == Uint32Bytes(|f.payload|);
  }

  lemma SerializeAllAppend(a: seq<Frame>, b: seq<Frame>)
    ensures SerializeAll(a + b) == SerializeAll(a) + SerializeAll(b)
  {
    if |a| == 0 {
      assert a + b == b;
    } else {
      assert (a + b)[1..] == a[1..] + b;
      SerializeAllAppend(a[1..], b);
    }
  }

  lemma NonAudioAppend(a: seq<Frame>, b: seq<Frame>)
    ensures NonAudio(a + b) == NonAudio(a) + NonAudio(b)
  {
    if |a| == 0 {
      assert a + b == b;
    } else {
      assert (a + b)[1..] == a[1..] + b;
      assert (a + b)[0] == a[0];
      NonAudioAppend(a[1..], b);
      var hd: seq<Frame> := if a[0].kind == AUDIO_TUNNEL then [] else [a[0]];
      assert NonAudio(a + b) == hd + NonAudio(a[1..] + b);
      AppendAssoc(hd, NonAudio(a[1..]), NonAudio(b));
    }
  }

  lemma AudioPayloadsAppend(a: seq<Frame>, b: seq<Frame>)
    ensures AudioPayloads(a + b) == AudioPayloads(a) + AudioPayloads(b)
  {
    if |a| == 0 {
      assert a + b == b;
    } else {
      assert (a + b)[1..] == a[1..] + b;
      assert (a + b)[0] == a[0];
      AudioPayloadsAppend(a[1..], b);
      var hd: seq<seq<byte>> := if a[0].kind == AUDIO_TUNNEL then [a[0].payload] else [];
      assert AudioPayloads(a + b) == hd + AudioPayloads(a[1..] + b);
      AppendAssoc(hd, AudioPayloads(a[1..]), AudioPayloads(b));
    }
  }

  /** The reference reading loses nothing: the frames it finds, serialized
      again, followed by the remainder, are the stream. */
  lemma {:induction false} ParseCovers(s: seq<byte>)
    ensures SerializeAll(Parse(s).0) + Parse(s).1 == s
    decreases |s|
  {
    hide Parse, ReadUint16, ReadUint32, Uint16Bytes, Uint32Bytes;
    if Incomplete(s) {
      ParseSerialized([], s);
      assert SerializeAll([]) + s == s;
    } else {
      var n := HEADER_SIZE + Len(s);
      var head := s[..n];
      assert head[..2] == s[..2] && head[2..6] == s[2..6];
      FrameOfHeader(head);
      var f := Frame(Kind(s), s[HEADER_SIZE..n]);
      assert head[HEADER_SIZE..] == s[HEADER_SIZE..n];
      ParseFront(s);
      var next := Parse(s[n..]);
      ParseCovers(s[n..]);
      assert ([f] + next.0)[1..] == next.0;
      assert SerializeAll([f] + next.0) == head + SerializeAll(next.0);
      AppendAssoc(head, SerializeAll(next.0), next.1);
      assert s == head + s[n..];
    }
  }

  /** Serializing valid frames and then an incomplete tail reads back as
      exactly those frames and that tail. */
  lemma {:induction false} ParseSerialized(fs: seq<Frame>, rest: seq<byte>)
    requires AllValid(fs)
    requires Incomplete(rest)
    ensures Parse(SerializeAll(fs) + rest) == (fs, rest)
  {
    if |fs| > 0 {
      var s := SerializeAll(fs) + rest;
      var tail := SerializeAll(fs[1..]) + rest;
      assert s == Serialize(fs[0]) + tail;
      HeaderOfSerialized(fs[0], tail);
      var n := HEADER_SIZE + |fs[0].payload|;
      assert s[HEADER_SIZE..n] == fs[0].payload;
      assert s[n..] == tail;
      assert !Incomplete(s);
      assert Parse(s) == ([Frame(fs[0].kind, fs[0].payload)] + Parse(tail).0, Parse(tail).1);
      assert AllValid(fs[1..]) by {
        forall i | 0 <= i < |fs| - 1 ensures ValidFrame(fs[1..][i]) {
          assert fs[1..][i] == fs[i + 1];
        }
      }
      ParseSerialized(fs[1..], rest);
      assert [fs[0]] + fs[1..] == fs;
    } else {
      assert SerializeAll(fs) + rest == rest;
    }
  }

  /** Reading a stream that grows at its end: the complete frames found so far
      stay, and reading resumes from the old remainder. */
  lemma {:induction false} ParseAppend(s: seq<byte>, t: seq<byte>)
    ensures Parse(s + t).0 == Parse(s).0 + Parse(Parse(s).1 + t).0
    ensures Parse(s + t).1 == Parse(Parse(s).1 + t).1
    decreases |s|
  {
    if !Incomplete(s) {
      var n := HEADER_SIZE + Len(s);
      assert (s + t)[..6] == s[..6];
      assert (s + t)[..2] == s[..2];
      assert (s + t)[2..6] == s[2..6];
      assert (s + t)[HEADER_SIZE..n] == s[HEADER_SIZE..n];
      assert (s + t)[n..] == s[n..] + t;
      ParseAppend(s[n..], t);
    }
  }
}
