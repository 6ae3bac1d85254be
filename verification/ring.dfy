/** The per-speaker playback ring (webrtc-murmur-proxy.js, the `trackData`
    of `handleAudioFromMurmur` and `uploadAudioData`): three buffer slots
    used in rotation. A decoded packet goes into the first free slot counting
    from the current one, or is dropped when all three are full; every 10 ms
    a timer takes the next 480 samples from the current slot, and frees it
    and moves on once it is used up. */
module SpeakerRing {
  import opened Bytes
  import opened Pcm

  const SLOTS: nat := 3

  /** `cur` is the slot being played and `pos` the next sample in it. */
  datatype Ring = Ring(slots: seq<Option<seq<Sample>>>, cur: nat, pos: nat)

  function Empty(): (r: Ring)
    ensures Valid(r) && Count(r) == 0
  {
    Ring([None, None, None], 0, 0)
  }

  predicate Shaped(r: Ring) {
    |r.slots| == SLOTS && r.cur < SLOTS
  }

  /** The slot `i` places after the current one. */
  function At(r: Ring, i: nat): Option<seq<Sample>>
    requires Shaped(r)
  {
    r.slots[(r.cur + i) % SLOTS]
  }

  /** The rings the handlers keep: the filled slots follow on from the
      current one without gaps, and the read position lies within the
      current buffer (and is 0 when there is none). */
  predicate Valid(r: Ring) {
    && Shaped(r)
    && (At(r, 0).None? ==> At(r, 1).None?)
    && (At(r, 1).None? ==> At(r, 2).None?)
    && (At(r, 0).None? ==> r.pos == 0)
    && (At(r, 0).Some? ==> r.pos <= |At(r, 0).value|)
  }

  /** How many buffers are queued. */
  function Count(r: Ring): (n: nat)
    requires Shaped(r)
    ensures n <= SLOTS
  {
    if At(r, 0).None? then 0
    else if At(r, 1).None? then 1
    else if At(r, 2).None? then 2
    else 3
  }

  /** The queued buffers, oldest first. */
  function Queue(r: Ring): (q: seq<seq<Sample>>)
    requires Valid(r)
    ensures |q| == Count(r)
  {
    if At(r, 0).None? then []
    else if At(r, 1).None? then [At(r, 0).value]
    else if At(r, 2).None? then [At(r, 0).value, At(r, 1).value]
    else [At(r, 0).value, At(r, 1).value, At(r, 2).value]
  }

  /** The samples still to be played, in order. */
  function Pending(r: Ring): seq<Sample>
    requires Valid(r)
  {
    var q := Queue(r);
    if |q| == 0 then [] else q[0][r.pos..] + Flatten(q[1..])
  }

  /** The placing loop: the first free slot at or after offset `i` from the
      current one. */
  function FreeOffset(r: Ring, i: nat): (k: Option<nat>)
    requires Shaped(r) && i <= SLOTS
    ensures k.Some? ==> i <= k.value < SLOTS && At(r, k.value).None?
    ensures k.Some? ==> forall j :: i <= j < k.value ==> At(r, j).Some?
    ensures k.None? <==> forall j :: i <= j < SLOTS ==> At(r, j).Some?
    decreases SLOTS - i
  {
    if i == SLOTS then None
    else if At(r, i).None? then Some(i)
    else FreeOffset(r, i + 1)
  }

  /** A decoded packet into the ring: `placed` is false when every slot was
      full and the packet was dropped. */
  function Place(r: Ring, pcm: seq<Sample>): (out: (Ring, bool))
    requires Shaped(r)
    ensures Shaped(out.0)
    ensures out.1 <==> exists j :: 0 <= j < SLOTS && At(r, j).None?
    ensures !out.1 ==> out.0 == r
    ensures out.1 ==> FreeOffset(r, 0).Some? && At(out.0, FreeOffset(r, 0).value) == Some(pcm)
    ensures out.1 ==> out.0.cur == r.cur && out.0.pos == r.pos
    ensures out.1 ==> forall j :: 0 <= j < SLOTS && j != FreeOffset(r, 0).value ==> At(out.0, j) == At(r, j)
  {
    match FreeOffset(r, 0)
    case None => (r, false)
    case Some(k) => (Ring(r.slots[(r.cur + k) % SLOTS := Some(pcm)], r.cur, r.pos), true)
  }

  /** One timer tick: the next 480 samples of the current buffer, if it has
      that many left. A buffer with fewer left (its length is not a multiple
      of 480) is reported as partial and left in place. */
  function Tick(r: Ring): (out: (Ring, Option<seq<Sample>>))
    requires Shaped(r)
    ensures Shaped(out.0)
    ensures out.1.Some? ==> |out.1.value| == FRAME_SAMPLES
    ensures Valid(r) ==> Valid(out.0)
  {
    match r.slots[r.cur]
    case None => (r, None)
    case Some(buffer) =>
      if r.pos + FRAME_SAMPLES <= |buffer| then
        var next := r.pos + FRAME_SAMPLES;
        var frame := buffer[r.pos..next];
        if next == |buffer| then
          (Ring(r.slots[r.cur := None], (r.cur + 1) % SLOTS, 0), Some(frame))
        else
          (Ring(r.slots, r.cur, next), Some(frame))
      else (r, None)
  }

  /** Placing keeps the ring in order: a packet joins the end of the queue
      when fewer than three are queued, and is dropped otherwise. */
  lemma PlaceKeepsFifo(r: Ring, pcm: seq<Sample>)
    requires Valid(r)
    ensures Valid(Place(r, pcm).0)
    ensures Place(r, pcm).1 <==> Count(r) < SLOTS
    ensures Count(r) < SLOTS ==> Queue(Place(r, pcm).0) == Queue(r) + [pcm]
    ensures Count(r) < SLOTS ==> Place(r, pcm).0.cur == r.cur && Place(r, pcm).0.pos == r.pos
    ensures Count(r) == SLOTS ==> Place(r, pcm).0 == r
  {
    var k := Count(r);
    if k < SLOTS {
      assert At(r, k).None?;
      assert FreeOffset(r, 0) == Some(k);
      var r' := Place(r, pcm).0;
      forall j | 0 <= j < SLOTS
        ensures At(r', j) == if j == k then Some(pcm) else At(r, j)
      {
      }
    } else {
      assert FreeOffset(r, 0).None?;
    }
  }

  /** What is pending grows by the placed packet, or stays as it was. */
  lemma PlaceAppendsPending(r: Ring, pcm: seq<Sample>)
    requires Valid(r)
    ensures Valid(Place(r, pcm).0)
    ensures Pending(Place(r, pcm).0)
            == if Count(r) < SLOTS then Pending(r) + pcm else Pending(r)
  {
    PlaceKeepsFifo(r, pcm);
    var r' := Place(r, pcm).0;
    var q := Queue(r);
    if Count(r) < SLOTS {
      if |q| == 0 {
        assert Queue(r') == [pcm];
        assert Flatten(Queue(r')[1..]) == [];
      } else {
        assert Queue(r')[0] == q[0];
        assert Queue(r')[1..] == q[1..] + [pcm];
        FlattenAppend(q[1..], [pcm]);
        assert Flatten([pcm]) == pcm + Flatten([pcm][1..]);
        AppendAssoc(q[0][r.pos..], Flatten(q[1..]), pcm);
      }
    }
  }

  /** A tick plays the front of what is pending: the samples it takes,
      followed by what is pending afterwards, are what was pending before.
      It takes nothing, and changes nothing, when the ring is empty or the
      current buffer has fewer than 480 samples left. */
  lemma TickKeepsFifo(r: Ring)
    requires Valid(r)
    ensures Valid(Tick(r).0)
    ensures Tick(r).1.Some? ==> Tick(r).1.value + Pending(Tick(r).0) == Pending(r)
    ensures Tick(r).1.None? <==>
              (Count(r) == 0 || |Queue(r)[0]| - r.pos < FRAME_SAMPLES)
    ensures Tick(r).1.None? ==> Tick(r).0 == r
    ensures Tick(r).1.Some? ==>
              Queue(Tick(r).0) == (if Tick(r).0.pos == 0 then Queue(r)[1..] else Queue(r))
  {
    assert At(r, 0) == r.slots[r.cur];
    if Count(r) > 0 && r.pos + FRAME_SAMPLES <= |Queue(r)[0]| {
      if r.pos + FRAME_SAMPLES == |Queue(r)[0]| {
        TickFinishesBuffer(r);
      } else {
        var q := Queue(r);
        var out := Tick(r);
        var next := r.pos + FRAME_SAMPLES;
        assert Queue(out.0) == q;
        assert q[0][r.pos..] == out.1.value + q[0][next..];
        AppendAssoc(out.1.value, q[0][next..], Flatten(q[1..]));
      }
    }
  }

  /** The tick that plays the last 480 samples of the current buffer frees
      its slot and moves on to the next one. */
  lemma TickFinishesBuffer(r: Ring)
    requires Valid(r) && Count(r) > 0
    requires r.pos + FRAME_SAMPLES == |Queue(r)[0]|
    ensures Valid(Tick(r).0) && Tick(r).1.Some?
    ensures Tick(r).1.value + Pending(Tick(r).0) == Pending(r)
    ensures Tick(r).0.pos == 0 && Queue(Tick(r).0) == Queue(r)[1..]
  {
    assert At(r, 0) == r.slots[r.cur];
    var q := Queue(r);
    var out := Tick(r);
    var r' := out.0;
    forall j | 0 <= j < SLOTS
      ensures At(r', j) == if j + 1 < SLOTS then At(r, j + 1) else None
    {
    }
    assert Queue(r') == q[1..];
    assert q[0][r.pos..] == out.1.value;
    if |q| > 1 {
      assert q[1..][0] == q[1];
      assert q[1..][1..] == q[2..];
      assert Flatten(q[1..]) == q[1] + Flatten(q[2..]);
      assert q[1][0..] == q[1];
    } else {
      assert Flatten(q[1..]) == [];
    }
  }

  /** `n` timer ticks: what they play, in order, and the ring afterwards. */
  function Ticks(r: Ring, n: nat): (out: (Ring, seq<Sample>))
    requires Shaped(r)
    ensures Shaped(out.0)
    ensures |out.1| <= n * FRAME_SAMPLES
    decreases n
  {
    if n == 0 then (r, [])
    else
      var first := Tick(r);
      var rest := Ticks(first.0, n - 1);
      (rest.0, (if first.1.Some? then first.1.value else []) + rest.1)
  }

  /** Every queued buffer is a whole number of 10 ms frames, and the read
      position is on a frame boundary inside the current one. */
  predicate Framed(r: Ring) {
    && Valid(r)
    && r.pos % FRAME_SAMPLES == 0
    && (forall i :: 0 <= i < |Queue(r)| ==> 0 < |Queue(r)[i]| && |Queue(r)[i]| % FRAME_SAMPLES == 0)
    && (Count(r) > 0 ==> r.pos < |Queue(r)[0]|)
  }

  lemma PendingOfFramed(r: Ring)
    requires Framed(r)
    ensures |Pending(r)| % FRAME_SAMPLES == 0
    ensures Count(r) > 0 ==> |Pending(r)| >= FRAME_SAMPLES
  {
    var q := Queue(r);
    if |q| > 0 {
      FlattenFramed(q[1..]);
    }
  }

  lemma {:induction false} FlattenFramed(q: seq<seq<Sample>>)
    requires forall i :: 0 <= i < |q| ==> |q[i]| % FRAME_SAMPLES == 0
    ensures |Flatten(q)| % FRAME_SAMPLES == 0
    decreases |q|
  {
    if |q| > 0 {
      assert forall i :: 0 <= i < |q| - 1 ==> |q[1..][i]| % FRAME_SAMPLES == 0 by {
        forall i | 0 <= i < |q| - 1 ensures |q[1..][i]| % FRAME_SAMPLES == 0 {
          assert q[1..][i] == q[i + 1];
        }
      }
      FlattenFramed(q[1..]);
    }
  }

  /** Ticks keep whole-frame buffers whole, and always play while anything
      is queued. */
  lemma TickKeepsFramed(r: Ring)
    requires Framed(r)
    ensures Framed(Tick(r).0)
    ensures Tick(r).1.Some? <==> Count(r) > 0
  {
    TickKeepsFifo(r);
    hide Tick;
    if Count(r) > 0 {
      assert |Queue(r)[0]| - r.pos >= FRAME_SAMPLES;
      if r.pos + FRAME_SAMPLES == |Queue(r)[0]| {
        TickFinishesBuffer(r);
        FramedTail(r, Tick(r).0);
      } else {
        TickWithinBuffer(r);
      }
    }
  }

  /** A tick that leaves samples in the current buffer moves the read
      position one frame on and keeps the queue. */
  lemma TickWithinBuffer(r: Ring)
    requires Framed(r) && Count(r) > 0
    requires r.pos + FRAME_SAMPLES < |Queue(r)[0]|
    ensures Framed(Tick(r).0)
  {
    assert At(r, 0) == r.slots[r.cur];
    var out := Tick(r);
    assert out.0 == Ring(r.slots, r.cur, r.pos + FRAME_SAMPLES);
    assert Queue(out.0) == Queue(r);
  }

  /** A ring whose queue is the tail of a whole-frame ring's queue, read from
      its start, is whole-frame. */
  lemma FramedTail(r: Ring, r': Ring)
    requires Framed(r) && Valid(r') && Count(r) > 0
    requires r'.pos == 0 && Queue(r') == Queue(r)[1..]
    ensures Framed(r')
  {
    var q := Queue(r);
    forall i | 0 <= i < |Queue(r')|
      ensures 0 < |Queue(r')[i]| && |Queue(r')[i]| % FRAME_SAMPLES == 0
    {
      assert Queue(r')[i] == q[i + 1];
    }
    if Count(r') > 0 {
      assert 0 < |Queue(r')[0]|;
    }
  }

  /** Placing a whole-frame packet keeps the ring whole-frame. */
  lemma PlaceKeepsFramed(r: Ring, pcm: seq<Sample>)
    requires Framed(r)
    requires 0 < |pcm| && |pcm| % FRAME_SAMPLES == 0
    ensures Framed(Place(r, pcm).0)
  {
    PlaceKeepsFifo(r, pcm);
    var r' := Place(r, pcm).0;
    if Count(r) < SLOTS {
      var q := Queue(r);
      forall i | 0 <= i < |Queue(r')|
        ensures 0 < |Queue(r')[i]| && |Queue(r')[i]| % FRAME_SAMPLES == 0
      {
        if i < |q| { assert Queue(r')[i] == q[i]; } else { assert Queue(r')[i] == pcm; }
      }
      if |q| > 0 {
        assert Queue(r')[0] == q[0];
      }
    }
  }

  /** A ring of whole-frame buffers plays everything pending, in order,
      one frame per tick, and is empty afterwards. */
  lemma {:induction false} DrainPlaysPending(r: Ring, n: nat)
    requires Framed(r) && |Pending(r)| == n * FRAME_SAMPLES
    ensures Ticks(r, n).1 == Pending(r)
    ensures Count(Ticks(r, n).0) == 0
    decreases n
  {
    hide Tick;
    PendingOfFramed(r);
    if n > 0 {
      TickKeepsFifo(r);
      TickKeepsFramed(r);
      var first := Tick(r);
      assert |Pending(first.0)| == (n - 1) * FRAME_SAMPLES;
      DrainPlaysPending(first.0, n - 1);
      assert Ticks(r, n).1 == first.1.value + Ticks(first.0, n - 1).1;
    }
  }
}
