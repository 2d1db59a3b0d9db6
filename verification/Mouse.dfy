/** The mouse driver of lab 4 and its two event loops. */
module Mouse {
  import opened Machine
  import opened Kbc
  import opened MouseStream
  import opened MousePacket

  /** The module state of the driver. */
  class MouseDriver {
    var packetIndex: nat
    var packetReady: bool
    const packetBytes: array<bv8>

    constructor ()
      ensures Valid() && State() == FRESH && fresh(packetBytes)
    {
      packetIndex := 0;
      packetReady := false;
      packetBytes := new bv8[PACKET_SIZE](_ => 0);
    }

    function State(): Decoder
      reads this, packetBytes
    {
      Decoder(packetIndex, packetReady, packetBytes[..])
    }

    ghost predicate Valid()
      reads this, packetBytes
    {
      packetBytes.Length == PACKET_SIZE && Inv(State())
    }

    /**
     The interrupt handler. A byte that is delivered is stored at the index, unless that is 0 and the
     byte lacks bit 3. Otherwise nothing changes, `packetReady` included.
     */
    method MouseIh(e: KbcRead)
      requires Valid()
      modifies this, packetBytes
      ensures Valid() && State() == Step(old(State()), e)
      ensures
        if !e.Delivers() || (old(packetIndex) == 0 && e.data.value & 0x08 == 0) then State() == old(State())
        else packetBytes[..] == old(packetBytes[..])[old(packetIndex) := e.data.value] &&
             packetIndex == (old(packetIndex) + 1) % 3 && packetReady == (old(packetIndex) == 2)
    {
      if e.status.None? {
        return;
      }
      var status := e.status.value;
      if !Has(status, OBF) {
        return;
      }
      if Has(status, PAR_ERR | TO_ERR) {
        return;
      }
      if e.data.None? {
        return;
      }
      var data := e.data.value;
      if packetIndex == 0 && !Has(data, SYNC) {
        return;
      }
      packetBytes[packetIndex] := data;
      packetIndex := packetIndex + 1;
      if packetIndex == PACKET_SIZE {
        packetReady := true;
        packetIndex := 0;
      } else {
        packetReady := false;
      }
    }

    method ParsePacket() returns (pp: Packet)
      requires Valid()
      ensures pp == Parse(State().bytes)
      ensures pp.bytes == packetBytes[..] && pp.lb == (packetBytes[0] & 0x01 != 0)
      ensures pp.rb == (packetBytes[0] & 0x02 != 0) && pp.mb == (packetBytes[0] & 0x04 != 0)
      ensures pp.xOv == (packetBytes[0] & 0x40 != 0) && pp.yOv == (packetBytes[0] & 0x80 != 0)
      ensures pp.deltaX & 0xFF == packetBytes[1] as bv16 && pp.deltaY & 0xFF == packetBytes[2] as bv16
      ensures pp.deltaX & 0xFF00 == if packetBytes[0] & 0x10 != 0 then 0xFF00 else 0
      ensures pp.deltaY & 0xFF00 == if packetBytes[0] & 0x20 != 0 then 0xFF00 else 0
    {
      pp := Packet(packetBytes[..],
                   Has(packetBytes[0], 0x01), Has(packetBytes[0], 0x02), Has(packetBytes[0], 0x04),
                   Has(packetBytes[0], 0x40), Has(packetBytes[0], 0x80),
                   Delta(Has(packetBytes[0], 0x10), packetBytes[1]),
                   Delta(Has(packetBytes[0], 0x20), packetBytes[2]));
    }

    /** The mouse branch both event loops share: handle the byte, then take a packet if one is ready. */
    method OnInterrupt(e: KbcRead) returns (pp: Option<Packet>)
      requires Valid()
      modifies this, packetBytes
      ensures Valid() && State() == Step(old(State()), e)
      ensures pp == if State().ready then Some(Parse(State().bytes)) else None
    {
      MouseIh(e);
      pp := None;
      if packetReady {
        var p := ParsePacket();
        pp := Some(p);
      }
    }
  }

  // ----- mouse_test_packet -----

  /** What the packet loop has printed after the first `i` notifications. */
  ghost function PrintedAfter(d: Decoder, input: seq<Notification>, irq: nat, i: nat): seq<Packet>
    requires Inv(d) && i <= |input|
  {
    Printed(d, Reads(input[..i], irq))
  }

  /** How one more notification changes the decoder and the printout. */
  lemma AfterNext(d: Decoder, input: seq<Notification>, irq: nat, i: nat)
    requires Inv(d) && i < |input|
    ensures var before, after := Run(d, Reads(input[..i], irq)), Run(d, Reads(input[..i + 1], irq));
      if input[i].Interrupts(irq) then
        after == Step(before, input[i].read) &&
        PrintedAfter(d, input, irq, i + 1)
        == PrintedAfter(d, input, irq, i) + if after.ready then [Parse(after.bytes)] else []
      else after == before && PrintedAfter(d, input, irq, i + 1) == PrintedAfter(d, input, irq, i)
  {
    var es := Reads(input[..i], irq);
    assert input[..i + 1] == input[..i] + [input[i]];
    ReadsSnoc(input[..i], input[i], irq);
    if input[i].Interrupts(irq) {
      var e := input[i].read;
      RunAppend(d, es, [e]);
      PrintedAppend(d, es, [e]);
      assert [e][1..] == [];
      assert Run(Run(d, es), [e]) == Step(Run(d, es), e);
    } else {
      assert es + [] == es;
    }
  }

  /**
   The loop of `mouse_test_packet`, over the notifications that arrive. It stops at the first
   notification after which it has printed `cnt` packets, and not before.
   */
  method MouseTestPacket(
      m: MouseDriver, cnt: Word32, irq: nat,
      subscribed: bool, enabled: bool, disabled: bool, unsubscribed: bool,
      input: seq<Notification>)
      returns (outcome: Outcome, packetsRead: nat, consumed: nat, printed: seq<Packet>)
    requires m.Valid()
    modifies m, m.packetBytes
    ensures m.Valid() && consumed <= |input|
    ensures !(subscribed && enabled) ==> outcome == Returned(FAIL) && consumed == 0
    ensures m.State() == Run(old(m.State()), Reads(input[..consumed], irq))
    ensures printed == PrintedAfter(old(m.State()), input, irq, consumed) && packetsRead == |printed|
    ensures forall i :: 0 <= i < consumed ==> |PrintedAfter(old(m.State()), input, irq, i)| < cnt
    ensures subscribed && enabled ==>
      outcome == if packetsRead == cnt then Returned(if disabled && unsubscribed then OK else FAIL) else Waiting
    ensures outcome == Waiting ==> consumed == |input| && packetsRead < cnt
  {
    ghost var d0 := m.State();
    packetsRead, consumed, printed := 0, 0, [];
    assert input[..0] == [];
    if !subscribed || !enabled {
      return Returned(FAIL), 0, 0, [];
    }
    while packetsRead < cnt && consumed < |input|
      invariant m.Valid() && consumed <= |input|
      invariant m.State() == Run(d0, Reads(input[..consumed], irq))
      invariant printed == PrintedAfter(d0, input, irq, consumed)
      invariant packetsRead == |printed| <= cnt
      invariant forall i :: 0 <= i < consumed ==> |PrintedAfter(d0, input, irq, i)| < cnt
      decreases |input| - consumed
    {
      var n := input[consumed];
      AfterNext(d0, input, irq, consumed);
      consumed := consumed + 1;
      if n.Hardware? {
        if irq in n.interrupts {
          var pp := m.OnInterrupt(n.read);
          if pp.Some? {
            printed := printed + [pp.value];
            packetsRead := packetsRead + 1;
          }
        }
      }
    }
    if packetsRead < cnt {
      return Waiting, packetsRead, consumed, printed;
    }
    if !disabled || !unsubscribed {
      return Returned(FAIL), packetsRead, consumed, printed;
    }
    return Returned(OK), packetsRead, consumed, printed;
  }

  /** In every run the count is the packets completed plus the stale interrupts ... */
  lemma PacketCount(d: Decoder, input: seq<Notification>, irq: nat, i: nat)
    requires Inv(d) && i <= |input|
    ensures |PrintedAfter(d, input, irq, i)|
         == |Packets(d, Reads(input[..i], irq))| + Stale(d, Reads(input[..i], irq))
  {
    SeenIsPacketsPlusStale(d, Reads(input[..i], irq));
  }

  /** ... so it counts packets exactly when no interrupt is rejected while a packet is ready. */
  lemma CountIsExactIffNoStale(d: Decoder, input: seq<Notification>, irq: nat, i: nat)
    requires Inv(d) && i <= |input|
    ensures |PrintedAfter(d, input, irq, i)| == |Packets(d, Reads(input[..i], irq))|
       <==> Stale(d, Reads(input[..i], irq)) == 0
  {
    PacketCount(d, input, irq, i);
  }

  /** One packet followed by one failed read is counted, and printed, twice. */
  lemma FailedReadCountsPacketTwice()
    ensures var ok := 0x01 as bv8;
      var a, b, c := KbcRead(Some(ok), Some(0x08)), KbcRead(Some(ok), Some(0)), KbcRead(None, None);
      var es := [a, b, b, c];
      |Packets(FRESH, es)| == 1 && |Printed(FRESH, es)| == 2
  {
    var ok := 0x01 as bv8;
    var a, b, c := KbcRead(Some(ok), Some(0x08)), KbcRead(Some(ok), Some(0)), KbcRead(None, None);
    var es := [a, b, b, c];
    assert es[1..] == [b, b, c] && [b, b, c][1..] == [b, c] && [b, c][1..] == [c] && [c][1..] == [];
    var d1 := Step(FRESH, a);
    var d2 := Step(d1, b);
    var d3 := Step(d2, b);
    assert d1.index == 1 && !d1.ready && d2.index == 2 && !d2.ready;
    assert d3.ready && d3.index == 0 && Step(d3, c) == d3;
    assert Packets(d3, [c]) == [] + Packets(d3, []) == [];
    assert Printed(d3, [c]) == [Parse(d3.bytes)] + Printed(d3, []) == [Parse(d3.bytes)];
    assert Packets(FRESH, es) == Packets(d1, [b, b, c]) == Packets(d2, [b, c]) == [d3.bytes] + Packets(d3, [c]);
    assert Printed(FRESH, es) == Printed(d1, [b, b, c]) == Printed(d2, [b, c]) == [Parse(d3.bytes)] + Printed(d3, [c]);
  }

  // ----- mouse_test_async -----

  /** Whether the mouse branch of notification `i` finds a packet ready and so resets the idle counter. */
  ghost predicate ResetsIdle(d: Decoder, input: seq<Notification>, irq: nat, i: nat)
    requires Inv(d) && i < |input|
  {
    input[i].Interrupts(irq) && Step(Run(d, Reads(input[..i], irq)), input[i].read).ready
  }

  /** The idle counter after the first `i` notifications. */
  ghost function Idle(d: Decoder, input: seq<Notification>, mouseIrq: nat, timerIrq: nat, i: nat): nat
    requires Inv(d) && i <= |input|
  {
    if i == 0 then 0
    else
      (if ResetsIdle(d, input, mouseIrq, i - 1) then 0 else Idle(d, input, mouseIrq, timerIrq, i - 1))
      + if input[i - 1].Interrupts(timerIrq) then 1 else 0
  }

  lemma IdleAfterNext(d: Decoder, input: seq<Notification>, mouseIrq: nat, timerIrq: nat, i: nat)
    requires Inv(d) && i < |input|
    ensures Idle(d, input, mouseIrq, timerIrq, i + 1)
         == (if input[i].Interrupts(mouseIrq) && Run(d, Reads(input[..i + 1], mouseIrq)).ready
             then 0 else Idle(d, input, mouseIrq, timerIrq, i))
            + if input[i].Interrupts(timerIrq) then 1 else 0
  {
    AfterNext(d, input, mouseIrq, i);
  }

  /** The loop gives up after notification `i - 1`: a timer tick that brings the counter to the limit. */
  ghost predicate GivesUp(d: Decoder, input: seq<Notification>, mouseIrq: nat, timerIrq: nat, idleTime: Word8, i: nat)
    requires Inv(d) && i <= |input|
  {
    i > 0 && input[i - 1].Interrupts(timerIrq)
    && Idle(d, input, mouseIrq, timerIrq, i) >= idleTime * 60
  }

  ghost predicate StillRunning(
      d: Decoder, input: seq<Notification>, mouseIrq: nat, timerIrq: nat, idleTime: Word8, i: nat)
    requires Inv(d) && i <= |input|
  {
    forall j :: 0 <= j <= i ==> !GivesUp(d, input, mouseIrq, timerIrq, idleTime, j)
  }

  lemma GivesUpNext(
      d: Decoder, input: seq<Notification>, mouseIrq: nat, timerIrq: nat, idleTime: Word8, i: nat, counter: nat)
    requires Inv(d) && i < |input| && StillRunning(d, input, mouseIrq, timerIrq, idleTime, i)
    requires counter == Idle(d, input, mouseIrq, timerIrq, i + 1)
    ensures GivesUp(d, input, mouseIrq, timerIrq, idleTime, i + 1)
       <==> input[i].Interrupts(timerIrq) && counter >= idleTime * 60
    ensures !GivesUp(d, input, mouseIrq, timerIrq, idleTime, i + 1)
        ==> StillRunning(d, input, mouseIrq, timerIrq, idleTime, i + 1)
  {
  }

  /** The loop's variables agree with the run so far. */
  ghost predicate AsyncAt(
      d: Decoder, input: seq<Notification>, mouseIrq: nat, timerIrq: nat, i: nat,
      state: Decoder, printed: seq<Packet>, counter: nat)
    requires Inv(d) && i <= |input|
  {
    state == Run(d, Reads(input[..i], mouseIrq)) &&
    printed == PrintedAfter(d, input, mouseIrq, i) &&
    counter == Idle(d, input, mouseIrq, timerIrq, i)
  }

  lemma AsyncStart(d: Decoder, input: seq<Notification>, mouseIrq: nat, timerIrq: nat, idleTime: Word8)
    requires Inv(d)
    ensures AsyncAt(d, input, mouseIrq, timerIrq, 0, d, [], 0)
    ensures StillRunning(d, input, mouseIrq, timerIrq, idleTime, 0)
  {
    assert input[..0] == [];
  }

  lemma AsyncAtNext(
      d: Decoder, input: seq<Notification>, mouseIrq: nat, timerIrq: nat, i: nat,
      state: Decoder, printed: seq<Packet>, counter: nat)
    requires Inv(d) && i < |input| && Inv(state)
    requires AsyncAt(d, input, mouseIrq, timerIrq, i, state, printed, counter)
    ensures var n := input[i];
      var state' := if n.Interrupts(mouseIrq) then Step(state, n.read) else state;
      var found := n.Interrupts(mouseIrq) && state'.ready;
      var counter' := (if found then 0 else counter) + if n.Interrupts(timerIrq) then 1 else 0;
      AsyncAt(d, input, mouseIrq, timerIrq, i + 1, state',
              if found then printed + [Parse(state'.bytes)] else printed, counter')
  {
    AfterNext(d, input, mouseIrq, i);
    IdleAfterNext(d, input, mouseIrq, timerIrq, i);
  }

  method MouseTestAsync(
      m: MouseDriver, idleTime: Word8, mouseIrq: nat, timerIrq: nat,
      subscribed: bool, enabled: bool, timerSubscribed: bool,
      timerUnsubscribed: bool, disabled: bool, unsubscribed: bool,
      input: seq<Notification>)
      returns (outcome: Outcome, timerCounter: nat, consumed: nat, printed: seq<Packet>)
    requires m.Valid()
    modifies m, m.packetBytes
    ensures m.Valid() && consumed <= |input|
    ensures !(subscribed && enabled && timerSubscribed) ==> outcome == Returned(FAIL) && consumed == 0
    ensures AsyncAt(old(m.State()), input, mouseIrq, timerIrq, consumed, m.State(), printed, timerCounter)
    ensures consumed > 0 ==> StillRunning(old(m.State()), input, mouseIrq, timerIrq, idleTime, consumed - 1)
    ensures subscribed && enabled && timerSubscribed ==>
      if GivesUp(old(m.State()), input, mouseIrq, timerIrq, idleTime, consumed)
      then outcome == Returned(if timerUnsubscribed && disabled && unsubscribed then OK else FAIL)
      else outcome == Waiting && consumed == |input|
  {
    ghost var d0 := m.State();
    timerCounter, consumed, printed := 0, 0, [];
    AsyncStart(d0, input, mouseIrq, timerIrq, idleTime);
    hide Run, Reads, Step, PrintedAfter, Parse, Idle, GivesUp;
    if !subscribed || !enabled || !timerSubscribed {
      return Returned(FAIL), 0, 0, [];
    }
    while consumed < |input|
      invariant m.Valid() && consumed <= |input|
      invariant AsyncAt(d0, input, mouseIrq, timerIrq, consumed, m.State(), printed, timerCounter)
      invariant StillRunning(d0, input, mouseIrq, timerIrq, idleTime, consumed)
    {
      var n := input[consumed];
      AsyncAtNext(d0, input, mouseIrq, timerIrq, consumed, m.State(), printed, timerCounter);
      GivesUpNext(d0, input, mouseIrq, timerIrq, idleTime, consumed, Idle(d0, input, mouseIrq, timerIrq, consumed + 1));
      consumed := consumed + 1;
      if n.Hardware? {
        if mouseIrq in n.interrupts {
          var pp := m.OnInterrupt(n.read);
          if pp.Some? {
            printed := printed + [pp.value];
            timerCounter := 0;
          }
        }
        if timerIrq in n.interrupts {
          timerCounter := timerCounter + 1;
          if timerCounter >= idleTime * 60 {
            var code := if !timerUnsubscribed || !disabled || !unsubscribed then FAIL else OK;
            return Returned(code), timerCounter, consumed, printed;
          }
        }
      }
    }
    return Waiting, timerCounter, consumed, printed;
  }

  /** Notification `i` makes the loop print a packet. */
  ghost predicate Prints(d: Decoder, input: seq<Notification>, irq: nat, i: nat)
    requires Inv(d) && i < |input|
  {
    |PrintedAfter(d, input, irq, i + 1)| > |PrintedAfter(d, input, irq, i)|
  }

  lemma ResetsWhenPrinting(d: Decoder, input: seq<Notification>, irq: nat, i: nat)
    requires Inv(d) && i < |input|
    ensures ResetsIdle(d, input, irq, i) <==> Prints(d, input, irq, i)
  {
    AfterNext(d, input, irq, i);
  }

  /**
   The counter is the number of ticks since the notification that last made the loop print a packet,
   a tick in that same notification included; `s` is that notification, or 0 if there was none.
   */
  lemma {:induction false} IdleIsTicksSinceReset(
      d: Decoder, input: seq<Notification>, mouseIrq: nat, timerIrq: nat, s: nat, i: nat)
    requires Inv(d) && s <= i <= |input|
    requires s == 0 || (s < i && Prints(d, input, mouseIrq, s))
    requires forall j :: s < j < i ==> !Prints(d, input, mouseIrq, j)
    ensures Idle(d, input, mouseIrq, timerIrq, i) == Ticks(input[s..i], timerIrq)
    decreases i
  {
    hide PrintedAfter, ResetsIdle;
    if s < i {
      ResetsWhenPrinting(d, input, mouseIrq, i - 1);
      assert input[s..i][..i - s - 1] == input[s..i - 1];
      if s < i - 1 {
        IdleIsTicksSinceReset(d, input, mouseIrq, timerIrq, s, i - 1);
      } else {
        assert input[s..i - 1] == [];
        assert s == 0 ==> Idle(d, input, mouseIrq, timerIrq, 0) == 0;
      }
    }
  }

  /** While the loop runs the counter is below the limit, and it gives up exactly on reaching it. */
  lemma {:induction false} GivesUpExactlyAtLimit(
      d: Decoder, input: seq<Notification>, mouseIrq: nat, timerIrq: nat, idleTime: Word8, i: nat)
    requires Inv(d) && i <= |input|
    requires forall j :: 0 <= j < i ==> !GivesUp(d, input, mouseIrq, timerIrq, idleTime, j)
    ensures Idle(d, input, mouseIrq, timerIrq, i) <= if idleTime == 0 then 1 else 60 * idleTime
    ensures GivesUp(d, input, mouseIrq, timerIrq, idleTime, i)
       <==> Idle(d, input, mouseIrq, timerIrq, i) == if idleTime == 0 then 1 else 60 * idleTime
    decreases i
  {
    if i > 0 {
      GivesUpExactlyAtLimit(d, input, mouseIrq, timerIrq, idleTime, i - 1);
    }
  }
}
