/** The mouse byte stream: the incremental decoder as a state machine, and what it computes. */
module MouseStream {
  import opened Machine
  import opened Kbc

  const PACKET_SIZE := 3
  const SYNC: bv8 := 0x08

  /** The driver's `packet_index`, `packet_ready` and `packet_bytes`. */
  datatype Decoder = Decoder(index: nat, ready: bool, bytes: seq<bv8>)

  const FRESH := Decoder(0, false, [0, 0, 0])

  /** Holds between interrupts, in every run. */
  predicate Inv(d: Decoder) {
    |d.bytes| == PACKET_SIZE && d.index < PACKET_SIZE &&
    (d.ready ==> d.index == 0) &&
    (d.ready || d.index > 0 ==> Has(d.bytes[0], SYNC))
  }

  /** Whether this interrupt leaves the decoder as it was: nothing read, or a byte dropped while resynchronising. */
  predicate Rejects(d: Decoder, e: KbcRead) {
    e.Byte().None? || (d.index == 0 && !Has(e.Byte().value, SYNC))
  }

  /** One run of the interrupt handler. */
  function Step(d: Decoder, e: KbcRead): (d': Decoder)
    requires Inv(d)
    ensures Inv(d')
  {
    if Rejects(d, e) then d
    else
      var bytes := d.bytes[d.index := e.Byte().value];
      if d.index + 1 == PACKET_SIZE then Decoder(0, true, bytes) else Decoder(d.index + 1, false, bytes)
  }

  predicate Completes(d: Decoder, e: KbcRead) {
    !Rejects(d, e) && d.index + 1 == PACKET_SIZE
  }

  function Finished(d: Decoder, e: KbcRead): seq<seq<bv8>>
    requires Inv(d)
  {
    if Completes(d, e) then [Step(d, e).bytes] else []
  }

  function Run(d: Decoder, es: seq<KbcRead>): (d': Decoder)
    requires Inv(d)
    ensures Inv(d')
    decreases |es|
  {
    if es == [] then d else Run(Step(d, es[0]), es[1..])
  }

  /** The packets completed during `es`, in order. */
  function Packets(d: Decoder, es: seq<KbcRead>): seq<seq<bv8>>
    requires Inv(d)
    decreases |es|
  {
    if es == [] then [] else Finished(d, es[0]) + Packets(Step(d, es[0]), es[1..])
  }

  /** The packet the event loop finds ready after each interrupt, in order. */
  function Seen(d: Decoder, es: seq<KbcRead>): seq<seq<bv8>>
    requires Inv(d)
    decreases |es|
  {
    if es == [] then []
    else
      var d' := Step(d, es[0]);
      (if d'.ready then [d'.bytes] else []) + Seen(d', es[1..])
  }

  /** Interrupts that changed nothing while a finished packet was still flagged ready. */
  function Stale(d: Decoder, es: seq<KbcRead>): nat
    requires Inv(d)
    decreases |es|
  {
    if es == [] then 0
    else (if d.ready && Rejects(d, es[0]) then 1 else 0) + Stale(Step(d, es[0]), es[1..])
  }

  /** The reference decoder: skip bytes lacking bit 3, then cut three. */
  function Frames(bs: seq<bv8>): seq<seq<bv8>> {
    if |bs| == 0 then []
    else if !Has(bs[0], SYNC) then Frames(bs[1..])
    else if |bs| < PACKET_SIZE then []
    else [bs[..PACKET_SIZE]] + Frames(bs[PACKET_SIZE..])
  }

  /** What the decoder holds of a packet not yet complete. */
  function Partial(d: Decoder): seq<bv8>
    requires Inv(d)
  {
    d.bytes[..d.index]
  }

  // ----- incremental equals batch -----

  /** For every event sequence, completed packets are the frames of the bytes that got through. */
  lemma {:induction false} IncrementalIsBatch(d: Decoder, es: seq<KbcRead>)
    requires Inv(d)
    ensures Packets(d, es) == Frames(Partial(d) + Bytes(es))
    decreases |es|
  {
    if es == [] {
    } else {
      var e, d', rest := es[0], Step(d, es[0]), Bytes(es[1..]);
      IncrementalIsBatch(d', es[1..]);
      BatchStep(d, e, rest);
      BytesCons(es);
      Assoc(Partial(d), Arrival(e), rest);
    }
  }

  lemma BytesCons(es: seq<KbcRead>)
    requires es != []
    ensures Bytes(es) == Arrival(es[0]) + Bytes(es[1..])
  {
  }

  function Arrival(e: KbcRead): seq<bv8> {
    if e.Byte().None? then [] else [e.Byte().value]
  }

  lemma BatchStep(d: Decoder, e: KbcRead, rest: seq<bv8>)
    requires Inv(d)
    ensures Frames(Partial(d) + Arrival(e) + rest)
         == Finished(d, e) + Frames(Partial(Step(d, e)) + rest)
  {
    var d', bs := Step(d, e), Partial(d) + Arrival(e) + rest;
    if e.Byte().None? {
      assert bs == Partial(d) + rest;
    } else if Rejects(d, e) {
      assert bs[1..] == rest == Partial(d) + rest;
    } else if Completes(d, e) {
      assert Partial(d) + Arrival(e) == d'.bytes;
      assert bs[..PACKET_SIZE] == d'.bytes && bs[PACKET_SIZE..] == rest == Partial(d') + rest;
    } else {
      assert Partial(d) + Arrival(e) == Partial(d');
    }
  }

  lemma FreshIncrementalIsBatch(es: seq<KbcRead>)
    ensures Packets(FRESH, es) == Frames(Bytes(es))
  {
    IncrementalIsBatch(FRESH, es);
    assert Partial(FRESH) + Bytes(es) == Bytes(es);
  }

  // ----- invariant over all runs -----

  /** The byte one interrupt stores, if any. */
  function Kept(d: Decoder, e: KbcRead): seq<bv8> {
    if Rejects(d, e) then [] else [e.Byte().value]
  }

  /** The bytes the decoder stored, in order. */
  function Stored(d: Decoder, es: seq<KbcRead>): seq<bv8>
    requires Inv(d)
    decreases |es|
  {
    if es == [] then []
    else Kept(d, es[0]) + Stored(Step(d, es[0]), es[1..])
  }

  /**
   Nothing stored is lost, duplicated or reordered: in every run the stored bytes are the completed
   packets followed by the partial one.
   */
  lemma {:induction false} StoredBytesAreConserved(d: Decoder, es: seq<KbcRead>)
    requires Inv(d)
    ensures Partial(d) + Stored(d, es) == Concat(Packets(d, es)) + Partial(Run(d, es))
    decreases |es|
  {
    if es == [] {
      assert Partial(d) + Stored(d, es) == Partial(d) == Concat(Packets(d, es)) + Partial(Run(d, es));
    } else {
      var d', rest := Step(d, es[0]), Stored(Step(d, es[0]), es[1..]);
      StoredBytesAreConserved(d', es[1..]);
      KeptStep(d, es[0]);
      var now, later := Finished(d, es[0]), Packets(d', es[1..]);
      ConcatAppend(now, later);
      Regroup(Partial(d), Kept(d, es[0]), Concat(now), Partial(d'), rest, Concat(later), Partial(Run(d', es[1..])));
    }
  }

  /** A packet flagged ready is the last one completed. */
  lemma {:induction false} ReadyIsLastCompleted(d: Decoder, es: seq<KbcRead>)
    requires Inv(d) && Run(d, es).ready
    ensures Run(d, es).bytes == if Packets(d, es) == [] then d.bytes else Packets(d, es)[|Packets(d, es)| - 1]
    ensures Packets(d, es) == [] ==> d.ready
    decreases |es|
  {
    if es != [] {
      ReadyIsLastCompleted(Step(d, es[0]), es[1..]);
    }
  }

  lemma {:induction false} ConcatAppend(a: seq<seq<bv8>>, b: seq<seq<bv8>>)
    ensures Concat(a + b) == Concat(a) + Concat(b)
  {
    if a == [] {
      assert a + b == b;
    } else {
      assert (a + b)[1..] == a[1..] + b;
      ConcatAppend(a[1..], b);
    }
  }

  lemma KeptStep(d: Decoder, e: KbcRead)
    requires Inv(d)
    ensures Partial(d) + Kept(d, e) == Concat(Finished(d, e)) + Partial(Step(d, e))
  {
    if Completes(d, e) {
      assert Concat([Step(d, e).bytes]) == Step(d, e).bytes;
    }
  }

  // ----- what the event loop counts -----

  /** The loop counts every completed packet once, and once more for each stale interrupt. */
  lemma {:induction false} SeenIsPacketsPlusStale(d: Decoder, es: seq<KbcRead>)
    requires Inv(d)
    ensures |Seen(d, es)| == |Packets(d, es)| + Stale(d, es)
    ensures Stale(d, es) == 0 ==> Seen(d, es) == Packets(d, es)
    decreases |es|
  {
    if es != [] {
      SeenIsPacketsPlusStale(Step(d, es[0]), es[1..]);
    }
  }

  /** A run in which every interrupt delivers a byte and every frame is in sync counts exactly. */
  lemma {:induction false} InSyncStreamHasNoStale(d: Decoder, es: seq<KbcRead>, bs: seq<bv8>)
    requires Inv(d) && ErrorFree(es, bs)
    requires forall i :: 0 <= i < |bs| && (d.index + i) % PACKET_SIZE == 0 ==> Has(bs[i], SYNC)
    ensures Stale(d, es) == 0
    ensures |Packets(d, es)| == (d.index + |es|) / PACKET_SIZE
    ensures Run(d, es).index == (d.index + |es|) % PACKET_SIZE
    decreases |es|
  {
    if es != [] {
      assert es[0].Byte() == Some(bs[0]);
      var d' := Step(d, es[0]);
      assert !Rejects(d, es[0]);
      forall i | 0 <= i < |bs[1..]| && (d'.index + i) % PACKET_SIZE == 0
        ensures Has(bs[1..][i], SYNC)
      {
        assert (d.index + (i + 1)) % PACKET_SIZE == 0;
      }
      InSyncStreamHasNoStale(d', es[1..], bs[1..]);
    }
  }

  // ----- self-synchronisation -----

  lemma {:induction false} RunAppend(d: Decoder, a: seq<KbcRead>, b: seq<KbcRead>)
    requires Inv(d)
    ensures Run(d, a + b) == Run(Run(d, a), b)
    ensures Packets(d, a + b) == Packets(d, a) + Packets(Run(d, a), b)
    decreases |a|
  {
    if a == [] {
      assert a + b == b;
    } else {
      assert (a + b)[1..] == a[1..] + b;
      RunAppend(Step(d, a[0]), a[1..], b);
    }
  }

  lemma RunThree(d: Decoder, es: seq<KbcRead>)
    requires Inv(d) && |es| == 3
    ensures Run(d, es) == Step(Step(Step(d, es[0]), es[1]), es[2])
  {
    var d1, d2 := Step(d, es[0]), Step(Step(d, es[0]), es[1]);
    var d3 := Step(d2, es[2]);
    assert es[1..][1..] == es[2..] && es[2..][1..] == [];
    assert Run(d3, []) == d3;
    assert Run(d2, es[2..]) == Run(d3, es[2..][1..]);
    assert Run(d1, es[1..]) == Run(d2, es[1..][1..]);
  }

  /**
   An error-free frame whose header has bit 3 and whose payload bytes lack it brings the decoder
   back to a packet boundary from wherever it was.
   */
  lemma Resync(d: Decoder, f: seq<bv8>, es: seq<KbcRead>)
    requires Inv(d) && |f| == PACKET_SIZE && Has(f[0], SYNC) && ErrorFree(es, f)
    requires !Has(f[1], SYNC) && !Has(f[2], SYNC)
    ensures Run(d, es).index == 0
  {
    RunThree(d, es);
    assert es[0].Byte() == Some(f[0]) && es[1].Byte() == Some(f[1]) && es[2].Byte() == Some(f[2]);
  }

  /** A payload byte with bit 3 leaves some decoder state out of step. */
  lemma ResyncFails(f: seq<bv8>, es: seq<KbcRead>) returns (d: Decoder)
    requires |f| == PACKET_SIZE && Has(f[0], SYNC) && ErrorFree(es, f)
    requires Has(f[1], SYNC) || Has(f[2], SYNC)
    ensures Inv(d) && Run(d, es).index != 0
  {
    assert es[0].Byte() == Some(f[0]) && es[1].Byte() == Some(f[1]) && es[2].Byte() == Some(f[2]);
    d := Decoder(if Has(f[2], SYNC) then 1 else 2, false, [SYNC, 0, 0]);
    RunThree(d, es);
  }

  /** `es` leaves every decoder, whatever it had received before, at a packet boundary. */
  ghost predicate Resynchronises(es: seq<KbcRead>) {
    forall d :: Inv(d) ==> EndsAtBoundary(d, es)
  }

  predicate EndsAtBoundary(d: Decoder, es: seq<KbcRead>)
    requires Inv(d)
  {
    Run(d, es).index == 0
  }

  /** So a frame resynchronises every decoder exactly when its payload bytes lack bit 3. */
  lemma ResyncExactly(f: seq<bv8>, es: seq<KbcRead>)
    requires |f| == PACKET_SIZE && Has(f[0], SYNC) && ErrorFree(es, f)
    ensures Resynchronises(es) <==> !(Has(f[1], SYNC) || Has(f[2], SYNC))
  {
    if Has(f[1], SYNC) || Has(f[2], SYNC) {
      var d := ResyncFails(f, es);
      assert !EndsAtBoundary(d, es);
    } else {
      forall d | Inv(d)
        ensures EndsAtBoundary(d, es)
      {
        Resync(d, f, es);
      }
    }
  }

  /** After such a frame every later in-sync, error-free frame comes out exactly as it was sent. */
  lemma DecodesExactlyAfterResync(
      d: Decoder, f: seq<bv8>, head: seq<KbcRead>, frames: seq<seq<bv8>>, tail: seq<KbcRead>)
    requires Inv(d)
    requires |f| == PACKET_SIZE && Has(f[0], SYNC) && !Has(f[1], SYNC) && !Has(f[2], SYNC) && ErrorFree(head, f)
    requires InSync(frames) && ErrorFree(tail, Concat(frames))
    ensures Packets(d, head + tail) == Packets(d, head) + frames
    ensures Run(d, head + tail).index == 0
  {
    var r := Run(d, head);
    Resync(d, f, head);
    assert r.index == 0;
    RunAppend(d, head, tail);
    ErrorFreeBytes(tail, Concat(frames));
    IncrementalIsBatch(r, tail);
    assert Partial(r) + Bytes(tail) == Concat(frames);
    FramesOfConcat(frames);
    InSyncAtBoundaries(frames);
    InSyncStreamHasNoStale(r, tail, Concat(frames));
  }

  ghost predicate InSync(frames: seq<seq<bv8>>) {
    forall i :: 0 <= i < |frames| ==> |frames[i]| == PACKET_SIZE && Has(frames[i][0], SYNC)
  }

  function Concat(frames: seq<seq<bv8>>): seq<bv8> {
    if frames == [] then [] else frames[0] + Concat(frames[1..])
  }

  lemma {:induction false} FramesOfConcat(frames: seq<seq<bv8>>)
    requires InSync(frames)
    ensures Frames(Concat(frames)) == frames
  {
    if frames != [] {
      var bs := Concat(frames);
      assert bs[..PACKET_SIZE] == frames[0] && bs[PACKET_SIZE..] == Concat(frames[1..]);
      FramesOfConcat(frames[1..]);
    }
  }

  lemma {:induction false} InSyncAtBoundaries(frames: seq<seq<bv8>>)
    requires InSync(frames)
    ensures |Concat(frames)| == PACKET_SIZE * |frames|
    ensures forall i :: 0 <= i < |Concat(frames)| && i % PACKET_SIZE == 0 ==> Has(Concat(frames)[i], SYNC)
  {
    if frames != [] {
      var rest := Concat(frames[1..]);
      InSyncAtBoundaries(frames[1..]);
      assert Concat(frames) == frames[0] + rest;
      forall i | PACKET_SIZE <= i < |Concat(frames)| && i % PACKET_SIZE == 0
        ensures Has(Concat(frames)[i], SYNC)
      {
        assert (i - PACKET_SIZE) % PACKET_SIZE == 0;
        assert Has(rest[i - PACKET_SIZE], SYNC);
      }
    }
  }
}
