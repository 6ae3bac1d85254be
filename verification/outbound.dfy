/** The browser-to-server half of a proxied connection
    (webrtc-murmur-proxy.js, `processAudioData`): the microphone track's
    10 ms sample frames are gathered in a fixed buffer of five frames; when
    exactly 40 ms (1920 samples) are pending they are Opus-encoded and sent to
    the server as one audio tunnel frame. */
module Outbound {
  import opened Bytes
  import opened Pcm
  import opened Tunnel

  /** The sample buffer holds five 10 ms frames. */
  const BUFFER_SAMPLES: nat := 5 * FRAME_SAMPLES
  /** 40 ms of audio: the amount encoded into one packet. */
  const PACKET_SAMPLES: nat := 4 * FRAME_SAMPLES

  /** The encoder side of a connection: the sample buffer and how much of it
      is pending, the size of the previous frame (0 while there was none, or
      when it was empty: the source tests it for truthiness), and the count of
      frames processed, which numbers the packets. */
  datatype Accumulator = Accumulator(buffer: seq<Sample>, offset: nat, lastSampleCount: nat,
                                     packetCount: nat)

  datatype AudioError = TooManySamples(count: nat)

  /** Between frames the pending samples fit below one packet's worth. */
  predicate Valid(a: Accumulator) {
    |a.buffer| == BUFFER_SAMPLES && a.offset < PACKET_SAMPLES
  }

  function Initial(): (a: Accumulator)
    ensures Valid(a) && Pending(a) == []
  {
    Accumulator(seq(BUFFER_SAMPLES, _ => 0), 0, 0, 0)
  }

  /** The samples waiting to be encoded. */
  function Pending(a: Accumulator): seq<Sample>
    requires Valid(a)
  {
    a.buffer[..a.offset]
  }

  /** A frame larger than the previous one discards what is pending. */
  predicate SizeChange(a: Accumulator, samples: seq<Sample>) {
    a.lastSampleCount > 0 && |samples| > a.lastSampleCount && a.offset > 0
  }

  /** One frame from the microphone track. `encode` is the Opus encoder,
      which the model takes as given. The result is the new state and the
      bytes written to the server, if any. */
  function ProcessAudio(a: Accumulator, connected: bool, samples: seq<Sample>,
                        encode: seq<Sample> -> seq<byte>): (r: Result<(Accumulator, Option<seq<byte>>), AudioError>)
    requires Valid(a)
    ensures !connected ==> r == Ok((a, None))
    ensures connected ==> (r.Err? <==> |samples| > FRAME_SAMPLES)
    ensures r.Err? ==> r.error == TooManySamples(|samples|)
    ensures r.Ok? ==> Valid(r.value.0)
    ensures r.Ok? && connected ==>
              var total := (if SizeChange(a, samples) then [] else Pending(a)) + samples;
              && r.value.0.packetCount == a.packetCount + 1
              && r.value.0.lastSampleCount == |samples|
              && (if |total| < PACKET_SAMPLES then Pending(r.value.0) == total && r.value.1 == None
                  else Pending(r.value.0) == []
                       && r.value.1 == if |total| == PACKET_SAMPLES
                                       then Some(BuildClientPacket(a.packetCount, encode(total)))
                                       else None)
  {
    if !connected then Ok((a, None))
    else if |samples| > FRAME_SAMPLES then Err(TooManySamples(|samples|))
    else
      var start := if SizeChange(a, samples) then 0 else a.offset;
      // the frame is copied into the buffer at the pending offset
      var buffer := a.buffer[..start] + samples + a.buffer[start + |samples|..];
      assert buffer[..start + |samples|] == a.buffer[..start] + samples;
      var end := start + |samples|;
      var next := a.packetCount + 1;
      if end > PACKET_SAMPLES then Ok((Accumulator(buffer, 0, |samples|, next), None))
      else if end == PACKET_SAMPLES then
        var packet := BuildClientPacket(a.packetCount, encode(buffer[..end]));
        Ok((Accumulator(buffer, 0, |samples|, next), Some(packet)))
      else Ok((Accumulator(buffer, end, |samples|, next), None))
  }

  /** Frames one after another on a connected socket: the final state and
      every packet written, in order. A frame that raises `TooManySamples`
      touches nothing, and the frames after it go on from the same state. */
  function ProcessAll(a: Accumulator, frames: seq<seq<Sample>>, encode: seq<Sample> -> seq<byte>)
    : (r: (Accumulator, seq<seq<byte>>))
    requires Valid(a)
    ensures Valid(r.0)
    ensures |r.1| <= |frames|
    decreases |frames|
  {
    if |frames| == 0 then (a, [])
    else Feed(ProcessAll(a, frames[..|frames| - 1], encode), frames[|frames| - 1], encode)
  }

  /** One more frame after a run that ended in state `prev.0` having sent
      `prev.1`. */
  function Feed(prev: (Accumulator, seq<seq<byte>>), samples: seq<Sample>, encode: seq<Sample> -> seq<byte>)
    : (r: (Accumulator, seq<seq<byte>>))
    requires Valid(prev.0)
    ensures Valid(r.0)
    ensures |r.1| <= |prev.1| + 1
  {
    match ProcessAudio(prev.0, true, samples, encode)
    case Err(_) => prev
    case Ok((c, None)) => (c, prev.1)
    case Ok((c, Some(p))) => (c, prev.1 + [p])
  }

  /** A frame of more than 480 samples is lost wherever it comes: the run
      ends as it would have without it. */
  lemma {:induction false} OversizedFrameIgnored(a: Accumulator, xs: seq<seq<Sample>>, big: seq<Sample>,
                                                 ys: seq<seq<Sample>>, encode: seq<Sample> -> seq<byte>)
    requires Valid(a) && |big| > FRAME_SAMPLES
    ensures ProcessAll(a, xs + [big] + ys, encode) == ProcessAll(a, xs + ys, encode)
    decreases |ys|
  {
    if |ys| == 0 {
      assert xs + [big] + ys == xs + [big] && xs + ys == xs;
      ProcessAllExtend(a, xs, big, encode);
    } else {
      var init := ys[..|ys| - 1];
      var last := ys[|ys| - 1];
      assert xs + [big] + ys == (xs + [big] + init) + [last];
      assert xs + ys == (xs + init) + [last];
      OversizedFrameIgnored(a, xs, big, init, encode);
      ProcessAllExtend(a, xs + [big] + init, last, encode);
      ProcessAllExtend(a, xs + init, last, encode);
    }
  }

  /** The run one frame longer is the run followed by that frame. */
  lemma ProcessAllExtend(a: Accumulator, fs: seq<seq<Sample>>, x: seq<Sample>, encode: seq<Sample> -> seq<byte>)
    requires Valid(a)
    ensures ProcessAll(a, fs + [x], encode) == Feed(ProcessAll(a, fs, encode), x, encode)
  {
    hide Feed;
    assert (fs + [x])[..|fs|] == fs;
  }

  predicate FullFrames(frames: seq<seq<Sample>>) {
    forall i :: 0 <= i < |frames| ==> |frames[i]| == FRAME_SAMPLES
  }

  /** The packet the source sends for the `k`-th group of four 10 ms frames:
      their samples, encoded, numbered by the last frame's position. */
  function GroupPacket(frames: seq<seq<Sample>>, k: nat, encode: seq<Sample> -> seq<byte>): seq<byte>
    requires 4 * k + 4 <= |frames|
  {
    BuildClientPacket(4 * k + 3, encode(Flatten(frames[4 * k..4 * k + 4])))
  }

  lemma {:induction false} FlattenFull(frames: seq<seq<Sample>>)
    requires FullFrames(frames)
    ensures |Flatten(frames)| == FRAME_SAMPLES * |frames|
  {
    if |frames| > 0 {
      assert FullFrames(frames[1..]) by {
        forall i | 0 <= i < |frames| - 1 ensures |frames[1..][i]| == FRAME_SAMPLES {
          assert frames[1..][i] == frames[i + 1];
        }
      }
      FlattenFull(frames[1..]);
    }
  }

  /** One more frame after a run that was accepted. */
  lemma {:induction false} ProcessAllSnoc(a: Accumulator, frames: seq<seq<Sample>>, b: Accumulator, ps: seq<seq<byte>>,
                       c: Accumulator, sent: Option<seq<byte>>, encode: seq<Sample> -> seq<byte>)
    requires Valid(a) && Valid(b) && |frames| > 0
    requires ProcessAll(a, frames[..|frames| - 1], encode) == (b, ps)
    requires ProcessAudio(b, true, frames[|frames| - 1], encode) == Ok((c, sent))
    ensures ProcessAll(a, frames, encode) == (c, if sent.None? then ps else ps + [sent.value])
  {
    hide ProcessAudio, BuildClientPacket, Pending;
    var prev := ProcessAll(a, frames[..|frames| - 1], encode);
    assert prev.0 == b && prev.1 == ps;
    var out := ProcessAudio(b, true, frames[|frames| - 1], encode);
    assert out == Ok((c, sent));
    if sent.None? {
      assert ProcessAll(a, frames, encode) == (c, ps);
    } else {
      assert ProcessAll(a, frames, encode) == (c, ps + [sent.value]);
    }
  }

  /** A full 10 ms frame when the frame size has not grown: appended to what
      is pending, and the 40 ms completed by it sent. */
  lemma FullFrameStep(b: Accumulator, last: seq<Sample>, encode: seq<Sample> -> seq<byte>)
    requires Valid(b) && |last| == FRAME_SAMPLES
    requires b.lastSampleCount == 0 || b.lastSampleCount == FRAME_SAMPLES
    ensures var r := ProcessAudio(b, true, last, encode);
            && r.Ok?
            && r.value.0.packetCount == b.packetCount + 1
            && r.value.0.lastSampleCount == FRAME_SAMPLES
            && (|Pending(b)| < PACKET_SAMPLES - FRAME_SAMPLES ==>
                  Pending(r.value.0) == Pending(b) + last && r.value.1 == None)
            && (|Pending(b)| == PACKET_SAMPLES - FRAME_SAMPLES ==>
                  Pending(r.value.0) == []
                  && r.value.1 == Some(BuildClientPacket(b.packetCount, encode(Pending(b) + last))))
  {
  }

  /** The groups that lie within a prefix are the same groups in the longer run. */
  lemma GroupPacketsPrefix(frames: seq<seq<Sample>>, prefix: seq<seq<Sample>>, ps: seq<seq<byte>>,
                           encode: seq<Sample> -> seq<byte>)
    requires prefix <= frames
    requires forall k :: 0 <= k < |ps| ==> 4 * k + 4 <= |prefix| && ps[k] == GroupPacket(prefix, k, encode)
    ensures forall k :: 0 <= k < |ps| ==> 4 * k + 4 <= |frames| && ps[k] == GroupPacket(frames, k, encode)
  {
    forall k | 0 <= k < |ps| ensures 4 * k + 4 <= |frames| && ps[k] == GroupPacket(frames, k, encode) {
      assert frames[4 * k..4 * k + 4] == prefix[4 * k..4 * k + 4];
    }
  }

  /** A full 10 ms frame after a run that was accepted, in terms of the run
      alone: what `FullFrameStep` says about one call, for the whole run. */
  lemma ProcessAllFullFrame(a: Accumulator, frames: seq<seq<Sample>>, encode: seq<Sample> -> seq<byte>)
    requires Valid(a) && |frames| > 0 && |frames[|frames| - 1]| == FRAME_SAMPLES
    requires ProcessAll(a, frames[..|frames| - 1], encode).0.lastSampleCount in {0, FRAME_SAMPLES}
    ensures var (b, ps) := ProcessAll(a, frames[..|frames| - 1], encode);
            var (c, qs) := ProcessAll(a, frames, encode);
            var last := frames[|frames| - 1];
            && c.packetCount == b.packetCount + 1
            && c.lastSampleCount == FRAME_SAMPLES
            && (|Pending(b)| < PACKET_SAMPLES - FRAME_SAMPLES ==> Pending(c) == Pending(b) + last && qs == ps)
            && (|Pending(b)| == PACKET_SAMPLES - FRAME_SAMPLES ==>
                  && Pending(c) == []
                  && qs == ps + [BuildClientPacket(b.packetCount, encode(Pending(b) + last))])
  {
    hide ProcessAll, BuildClientPacket;
    var (b, ps) := ProcessAll(a, frames[..|frames| - 1], encode);
    var last := frames[|frames| - 1];
    FullFrameStep(b, last, encode);
    var r := ProcessAudio(b, true, last, encode);
    ProcessAllSnoc(a, frames, b, ps, r.value.0, r.value.1, encode);
  }

  lemma GroupPacketIs(frames: seq<seq<Sample>>, k: nat, encode: seq<Sample> -> seq<byte>)
    requires 4 * k + 4 <= |frames|
    ensures GroupPacket(frames, k, encode)
            == BuildClientPacket(4 * k + 3, encode(Flatten(frames[4 * k..4 * k + 4])))
  {
  }

  lemma FlattenOne<T>(x: seq<T>)
    ensures Flatten([x]) == x
  {
    assert [x][1..] == [];
  }

  /** The frames since the last packet, with one more frame after them. */
  lemma PendingGrows(frames: seq<seq<Sample>>, from: nat)
    requires FullFrames(frames) && from < |frames|
    ensures |Flatten(frames[from..|frames| - 1])| == FRAME_SAMPLES * (|frames| - 1 - from)
    ensures Flatten(frames[from..|frames| - 1]) + frames[|frames| - 1] == Flatten(frames[from..])
  {
    var n := |frames|;
    var group := frames[from..n - 1];
    assert FullFrames(group) by {
      forall i | 0 <= i < |group| ensures |group[i]| == FRAME_SAMPLES {
        assert group[i] == frames[from + i];
      }
    }
    FlattenFull(group);
    assert frames[from..] == group + [frames[n - 1]];
    FlattenAppend(group, [frames[n - 1]]);
    FlattenOne(frames[n - 1]);
  }

  /** The accumulator after `4 * groups + more` steady 10 ms frames: every
      frame counted, the frames since the last packet pending, one packet
      per complete group of four. */
  lemma {:induction false} SteadyState(frames: seq<seq<Sample>>, groups: nat, more: nat,
                                       encode: seq<Sample> -> seq<byte>)
    requires FullFrames(frames)
    requires |frames| == 4 * groups + more && more < 4
    ensures var (a, packets) := ProcessAll(Initial(), frames, encode);
            && a.packetCount == |frames|
            && a.lastSampleCount == (if |frames| == 0 then 0 else FRAME_SAMPLES)
            && Pending(a) == Flatten(frames[4 * groups..])
            && |packets| == groups
    decreases |frames|
  {
    var n := |frames|;
    if n == 0 {
      assert frames[0..] == [];
    } else {
      hide ProcessAudio, ProcessAll, BuildClientPacket, Flatten, GroupPacket;
      var prefix := SteadyPrefix(frames);
      var g, m := if more == 0 then groups - 1 else groups, if more == 0 then 3 else more - 1;
      SteadyState(prefix, g, m, encode);
      assert prefix[4 * g..] == frames[4 * g..n - 1];
      PendingGrows(frames, 4 * g);
      ProcessAllFullFrame(Initial(), frames, encode);
      if more == 0 {
        assert frames[n..] == [];
      }
    }
  }

  /** The next group's packet after the packets of the groups before it. */
  lemma GroupPacketsAppend(frames: seq<seq<Sample>>, ps: seq<seq<byte>>, encode: seq<Sample> -> seq<byte>)
    requires 4 * |ps| + 4 <= |frames|
    requires forall k :: 0 <= k < |ps| ==> 4 * k + 4 <= |frames| && ps[k] == GroupPacket(frames, k, encode)
    ensures var packets := ps + [GroupPacket(frames, |ps|, encode)];
            forall k :: 0 <= k < |packets| ==> 4 * k + 4 <= |frames| && packets[k] == GroupPacket(frames, k, encode)
  {
  }

  /** The frames before the last one, steady too. */
  lemma SteadyPrefix(frames: seq<seq<Sample>>) returns (prefix: seq<seq<Sample>>)
    requires FullFrames(frames) && |frames| > 0
    ensures prefix == frames[..|frames| - 1] && FullFrames(prefix)
    ensures |frames[|frames| - 1]| == FRAME_SAMPLES
  {
    prefix := frames[..|frames| - 1];
    forall i | 0 <= i < |prefix| ensures |prefix[i]| == FRAME_SAMPLES {
      assert prefix[i] == frames[i];
    }
  }

  /** The packets after steady 10 ms frames: the `k`-th holds the `k`-th
      group of four frames, numbered by the position of its last frame. */
  lemma {:induction false} SteadyPackets(frames: seq<seq<Sample>>, groups: nat, more: nat,
                                         encode: seq<Sample> -> seq<byte>)
    requires FullFrames(frames)
    requires |frames| == 4 * groups + more && more < 4
    ensures var packets := ProcessAll(Initial(), frames, encode).1;
            forall k :: 0 <= k < |packets| ==> 4 * k + 4 <= |frames|
                                               && packets[k] == GroupPacket(frames, k, encode)
    decreases |frames|
  {
    var n := |frames|;
    if n > 0 {
      hide ProcessAudio, ProcessAll, BuildClientPacket, Flatten, GroupPacket, Pending, FullFrames;
      var prefix := SteadyPrefix(frames);
      var g, m := if more == 0 then groups - 1 else groups, if more == 0 then 3 else more - 1;
      SteadyState(prefix, g, m, encode);
      SteadyPackets(prefix, g, m, encode);
      var (b, ps) := ProcessAll(Initial(), prefix, encode);
      ProcessAllFullFrame(Initial(), frames, encode);
      GroupPacketsPrefix(frames, prefix, ps, encode);
      assert prefix[4 * g..] == frames[4 * g..n - 1];
      if more == 0 {
        NextGroupPacket(frames, g, ps, b, encode);
      } else {
        PendingGrows(frames, 4 * g);
      }
    }
  }

  /** The packet sent by the fourth frame of a group follows the packets of
      the groups before it. */
  lemma NextGroupPacket(frames: seq<seq<Sample>>, g: nat, ps: seq<seq<byte>>, b: Accumulator,
                        encode: seq<Sample> -> seq<byte>)
    requires FullFrames(frames) && |frames| == 4 * g + 4
    requires Valid(b) && b.packetCount == 4 * g + 3
    requires Pending(b) == Flatten(frames[4 * g..|frames| - 1])
    requires |ps| == g
    requires forall k :: 0 <= k < |ps| ==> 4 * k + 4 <= |frames| && ps[k] == GroupPacket(frames, k, encode)
    ensures |Pending(b)| == PACKET_SAMPLES - FRAME_SAMPLES
    ensures var packets := ps + [BuildClientPacket(b.packetCount, encode(Pending(b) + frames[|frames| - 1]))];
            forall k :: 0 <= k < |packets| ==> 4 * k + 4 <= |frames|
                                               && packets[k] == GroupPacket(frames, k, encode)
  {
    PendingGrows(frames, 4 * g);
    assert frames[4 * g..] == frames[4 * g..4 * g + 4];
    GroupPacketIs(frames, g, encode);
    GroupPacketsAppend(frames, ps, encode);
  }

  /** Five steady frames: the fourth sends the first 40 ms as packet number 3,
      and the fifth frame is left pending. */
  lemma FiveFrames(frames: seq<seq<Sample>>, encode: seq<Sample> -> seq<byte>)
    requires |frames| == 5 && FullFrames(frames)
    ensures var (a, packets) := ProcessAll(Initial(), frames, encode);
            && packets == [BuildClientPacket(3, encode(Flatten(frames[..4])))]
            && Pending(a) == frames[4]
  {
    SteadyState(frames, 1, 1, encode);
    SteadyPackets(frames, 1, 1, encode);
    GroupPacketIs(frames, 0, encode);
    assert frames[0..4] == frames[..4];
    assert frames[4..] == [frames[4]];
    FlattenOne(frames[4]);
  }

  /** One frame of size `s` after `i` of them pending: never a packet. */
  lemma UnevenStep(b: Accumulator, last: seq<Sample>, s: nat, i: nat, encode: seq<Sample> -> seq<byte>)
    requires Valid(b) && |last| == s && 0 < s <= FRAME_SAMPLES && PACKET_SAMPLES % s != 0
    requires b.lastSampleCount == 0 || b.lastSampleCount == s
    requires |Pending(b)| == s * i
    ensures var r := ProcessAudio(b, true, last, encode);
            && r.Ok? && r.value.1 == None
            && r.value.0.lastSampleCount == s
            && |Pending(r.value.0)| == if s * (i + 1) < PACKET_SAMPLES then s * (i + 1) else 0
  {
    assert s * (i + 1) == s * i + s;
    MultipleMissesPacket(s, i + 1);
  }

  /** A multiple of `s` is not 1920 when `s` does not divide 1920. */
  lemma MultipleMissesPacket(s: nat, k: nat)
    requires 0 < s && PACKET_SAMPLES % s != 0
    ensures s * k != PACKET_SAMPLES
  {
    var q, r := PACKET_SAMPLES / s, PACKET_SAMPLES % s;
    assert PACKET_SAMPLES == s * q + r && 0 < r < s;
    var m := k - q;
    assert s * k == s * q + s * m;
    if m >= 1 {
      assert s * m >= s;
    } else {
      assert s * m <= 0;
    }
  }

  /** Frames of a fixed size that does not divide 1920 (441 samples, say)
      never make a packet: the pending count steps over 1920 and is
      discarded every time. */
  lemma {:induction false} UnevenFramesNeverSend(frames: seq<seq<Sample>>, s: nat,
                                                 encode: seq<Sample> -> seq<byte>)
    returns (j: nat)
    requires 0 < s <= FRAME_SAMPLES && PACKET_SAMPLES % s != 0
    requires forall i :: 0 <= i < |frames| ==> |frames[i]| == s
    ensures var (a, packets) := ProcessAll(Initial(), frames, encode);
            && packets == []
            && a.lastSampleCount == (if |frames| == 0 then 0 else s)
            && |Pending(a)| == s * j
    decreases |frames|
  {
    var n := |frames|;
    if n == 0 {
      j := 0;
    } else {
      hide ProcessAudio, ProcessAll, Pending;
      var prefix := frames[..n - 1];
      assert forall i :: 0 <= i < |prefix| ==> |prefix[i]| == s by {
        forall i | 0 <= i < |prefix| ensures |prefix[i]| == s {
          assert prefix[i] == frames[i];
        }
      }
      var i := UnevenFramesNeverSend(prefix, s, encode);
      var (b, ps) := ProcessAll(Initial(), prefix, encode);
      var last := frames[n - 1];
      UnevenStep(b, last, s, i, encode);
      var r := ProcessAudio(b, true, last, encode);
      ProcessAllSnoc(Initial(), frames, b, ps, r.value.0, r.value.1, encode);
      j := if s * (i + 1) < PACKET_SAMPLES then i + 1 else 0;
    }
  }
}
