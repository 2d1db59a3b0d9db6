/** The keyboard driver of lab 3, its two scan loops, and the wait for ESC of lab 5. */
module Keyboard {
  import opened Machine
  import opened Kbc
  import opened Scancodes

  /** The driver: one byte, overwritten by each interrupt that delivers one. */
  class KeyboardDriver {
    var scancodeByte: bv8

    constructor (b: bv8)
      ensures scancodeByte == b
    {
      scancodeByte := b;
    }

    method KbcIh(e: KbcRead)
      modifies this
      ensures scancodeByte == Latch(old(scancodeByte), e)
      ensures scancodeByte == if e.Delivers() then e.data.value else old(scancodeByte)
    {
      if e.status.None? {
        return;
      }
      if !Has(e.status.value, OBF) {
        return;
      }
      if Has(e.status.value, PAR_ERR | TO_ERR) {
        return;
      }
      if e.data.None? {
        return;
      }
      scancodeByte := e.data.value;
    }
  }

  /** What a scan loop has seen and printed after `i` notifications. */
  ghost predicate ScanAt(
      pending: bool, b: bv8, input: seq<Notification>, irq: nat, i: nat,
      latched: bv8, twoByte: bool, printed: seq<Code>)
    requires i <= |input|
  {
    latched == Latched(b, input[..i], irq) &&
    twoByte == Pending(pending, Keys(b, input[..i], irq)) &&
    printed == Codes(pending, Keys(b, input[..i], irq))
  }

  lemma ScanAtStart(pending: bool, b: bv8, input: seq<Notification>, irq: nat)
    ensures ScanAt(pending, b, input, irq, 0, b, pending, []) && !EscAt(pending, b, input, irq, 0)
  {
    assert input[..0] == [];
  }

  lemma ScanAtNext(
      pending: bool, b: bv8, input: seq<Notification>, irq: nat, i: nat,
      latched: bv8, twoByte: bool, printed: seq<Code>)
    requires i < |input| && ScanAt(pending, b, input, irq, i, latched, twoByte, printed)
    ensures var byte := Latch(latched, KeyRead(input[i]));
      if !input[i].Interrupts(irq) then
        ScanAt(pending, b, input, irq, i + 1, latched, twoByte, printed) &&
        !EscAt(pending, b, input, irq, i + 1)
      else if byte == TWO_BYTE then
        ScanAt(pending, b, input, irq, i + 1, byte, true, printed) &&
        !EscAt(pending, b, input, irq, i + 1)
      else
        ScanAt(pending, b, input, irq, i + 1, byte, false, printed + [Complete(twoByte, byte)]) &&
        EscAt(pending, b, input, irq, i + 1) == (byte == ESC_BREAK && !twoByte)
  {
    assert input[..i + 1][..i] == input[..i];
    var ks := Keys(b, input[..i], irq);
    if input[i].Interrupts(irq) {
      assert Keys(b, input[..i + 1], irq)[..|ks|] == ks;
    } else {
      assert Keys(b, input[..i + 1], irq) == ks;
    }
  }

  function KeyRead(n: Notification): KbcRead {
    if n.Hardware? then n.read else KbcRead(None, None)
  }

  /** The file-level state of lab 3: the prefix flag and the two code bytes. */
  class Lab3 {
    const kbc: KeyboardDriver
    const bytes: array<bv8>
    var twoByte: bool

    constructor (kbc: KeyboardDriver)
      ensures this.kbc == kbc && fresh(bytes) && Valid() && !twoByte
    {
      this.kbc := kbc;
      bytes := new bv8[2](_ => 0);
      twoByte := false;
    }

    /** A pending prefix means the first code byte holds it, so that byte is never tested stale. */
    ghost predicate Valid()
      reads this, bytes
    {
      bytes.Length == 2 && (twoByte ==> bytes[0] == TWO_BYTE)
    }

    /** The assembler both scan loops run on each byte; `None` when the byte is a prefix. */
    method Assemble(byte: bv8) returns (code: Option<Code>, esc: bool)
      requires Valid()
      modifies this, bytes
      ensures Valid()
      ensures twoByte == (byte == TWO_BYTE)
      ensures code == if byte == TWO_BYTE then None else Some(Complete(old(twoByte), byte))
      ensures esc == (byte == ESC_BREAK && !old(twoByte))
    {
      if byte == TWO_BYTE {
        twoByte := true;
        bytes[0] := byte;
        return None, false;
      }
      var size;
      if twoByte {
        bytes[1] := byte;
        size := 2;
        twoByte := false;
      } else {
        bytes[0] := byte;
        size := 1;
      }
      var make := !Has(byte, BREAK_BIT);
      assert bytes[..size] == Complete(old(twoByte), byte).bytes;
      return Some(Code(make, bytes[..size])), bytes[0] == ESC_BREAK;
    }

    method KbdTestScan(irq: nat, subscribed: bool, input: seq<Notification>)
        returns (outcome: Outcome, consumed: nat, printed: seq<Code>)
      requires Valid()
      modifies this, bytes, kbc
      ensures Valid() && consumed <= |input|
      ensures !subscribed ==> outcome == Returned(FAIL) && consumed == 0
      ensures ScanAt(old(twoByte), old(kbc.scancodeByte), input, irq, consumed, kbc.scancodeByte, twoByte, printed)
      ensures subscribed ==>
        (outcome == Returned(OK) || outcome == Waiting) &&
        StopsExactly(old(twoByte), old(kbc.scancodeByte), input, irq, consumed, outcome == Returned(OK))
    {
      hide ScanAt, EscAt, Complete, Latch, KbcRead.Delivers;
      ghost var p0, b0 := twoByte, kbc.scancodeByte;
      ScanAtStart(p0, b0, input, irq);
      consumed, printed := 0, [];
      if !subscribed {
        return Returned(FAIL), consumed, printed;
      }
      while consumed < |input|
        invariant Valid() && consumed <= |input|
        invariant ScanAt(p0, b0, input, irq, consumed, kbc.scancodeByte, twoByte, printed)
        invariant forall i :: 0 <= i <= consumed ==> !EscAt(p0, b0, input, irq, i)
      {
        var n := input[consumed];
        ScanAtNext(p0, b0, input, irq, consumed, kbc.scancodeByte, twoByte, printed);
        consumed := consumed + 1;
        if n.Hardware? && irq in n.interrupts {
          kbc.KbcIh(n.read);
          var code, esc := Assemble(kbc.scancodeByte);
          if code.None? {
            continue;
          }
          printed := printed + [code.value];
          if esc {
            return Returned(OK), consumed, printed;
          }
        }
      }
      return Waiting, consumed, printed;
    }

    /** The timed scan. A prefix byte skips the timer branch of its own notification. */
    method KbdTestTimedScan(
        n: Word8, kbdIrq: nat, timerIrq: nat, kbdSubscribed: bool, timerSubscribed: bool, input: seq<Notification>)
        returns (outcome: Outcome, consumed: nat, printed: seq<Code>, timerCounter: nat)
      requires Valid()
      modifies this, bytes, kbc
      ensures Valid() && consumed <= |input|
      ensures !(kbdSubscribed && timerSubscribed) ==> outcome == Returned(FAIL) && consumed == 0
      ensures ScanAt(old(twoByte), old(kbc.scancodeByte), input, kbdIrq, consumed, kbc.scancodeByte, twoByte, printed)
      ensures consumed > 0 ==>
        ScanGoesOn(old(twoByte), old(kbc.scancodeByte), input, kbdIrq, timerIrq, n, consumed - 1)
      ensures kbdSubscribed && timerSubscribed ==>
        if ScanEndsAt(old(twoByte), old(kbc.scancodeByte), input, kbdIrq, timerIrq, n, consumed)
        then outcome == Returned(OK)
        else outcome == Waiting && consumed == |input|
      ensures !EscAt(old(twoByte), old(kbc.scancodeByte), input, kbdIrq, consumed) ==>
        timerCounter == ScanIdle(old(kbc.scancodeByte), input, kbdIrq, timerIrq, consumed)
    {
      hide ScanIdle, ScanTimesOut, TimerTaken, Latched, Keys, Codes, Pending, EscAt, Complete, Latch, KbcRead.Delivers;
      ghost var p0, b0 := twoByte, kbc.scancodeByte;
      ScanAtStart(p0, b0, input, kbdIrq);
      ScanGoesOnAtStart(p0, b0, input, kbdIrq, timerIrq, n);
      consumed, printed, timerCounter := 0, [], 0;
      if !kbdSubscribed || !timerSubscribed {
        return Returned(FAIL), consumed, printed, timerCounter;
      }
      while consumed < |input|
        invariant Valid() && consumed <= |input|
        invariant ScanAt(p0, b0, input, kbdIrq, consumed, kbc.scancodeByte, twoByte, printed)
        invariant timerCounter == ScanIdle(b0, input, kbdIrq, timerIrq, consumed)
        invariant ScanGoesOn(p0, b0, input, kbdIrq, timerIrq, n, consumed)
      {
        var m := input[consumed];
        ScanAtNext(p0, b0, input, kbdIrq, consumed, kbc.scancodeByte, twoByte, printed);
        ScanNext(p0, b0, input, kbdIrq, timerIrq, n, consumed, timerCounter, kbc.scancodeByte);
        consumed := consumed + 1;
        if m.Hardware? {
          if kbdIrq in m.interrupts {
            kbc.KbcIh(m.read);
            timerCounter := 0;
            var code, esc := Assemble(kbc.scancodeByte);
            if code.None? {
              continue;
            }
            printed := printed + [code.value];
            if esc {
              return Returned(OK), consumed, printed, timerCounter;
            }
          }
          if timerIrq in m.interrupts {
            timerCounter := timerCounter + 1;
            if timerCounter >= n * 60 {
              return Returned(OK), consumed, printed, timerCounter;
            }
          }
        }
      }
      return Waiting, consumed, printed, timerCounter;
    }
  }

  lemma ScanGoesOnAtStart(pending: bool, b: bv8, input: seq<Notification>, kbdIrq: nat, timerIrq: nat, n: Word8)
    ensures ScanGoesOn(pending, b, input, kbdIrq, timerIrq, n, 0) && ScanIdle(b, input, kbdIrq, timerIrq, 0) == 0
    ensures !ScanEndsAt(pending, b, input, kbdIrq, timerIrq, n, 0)
  {
  }

  lemma ScanNext(
      pending: bool, b: bv8, input: seq<Notification>, kbdIrq: nat, timerIrq: nat, n: Word8, i: nat,
      counter: nat, latched: bv8)
    requires i < |input| && ScanGoesOn(pending, b, input, kbdIrq, timerIrq, n, i)
    requires counter == ScanIdle(b, input, kbdIrq, timerIrq, i) && latched == Latched(b, input[..i], kbdIrq)
    ensures var m := input[i];
      var prefix := m.Interrupts(kbdIrq) && Latch(latched, KeyRead(m)) == TWO_BYTE;
      var tick := m.Interrupts(timerIrq) && !prefix;
      var next := (if m.Interrupts(kbdIrq) then 0 else counter) + if tick then 1 else 0;
      ScanIdle(b, input, kbdIrq, timerIrq, i + 1) == next &&
      ScanTimesOut(b, input, kbdIrq, timerIrq, n, i + 1) == (tick && next >= n * 60)
    ensures !ScanEndsAt(pending, b, input, kbdIrq, timerIrq, n, i + 1) ==>
      ScanGoesOn(pending, b, input, kbdIrq, timerIrq, n, i + 1)
  {
    assert input[..i + 1][..i] == input[..i];
  }

  /** The wait for ESC of lab 5: its own copy of the assembler, over locals. */
  method WaitingEscKey(kbc: KeyboardDriver, irq: nat, subscribed: bool, unsubscribed: bool, input: seq<Notification>)
      returns (outcome: Outcome, consumed: nat)
    modifies kbc
    ensures consumed <= |input|
    ensures !subscribed ==> outcome == Returned(FAIL) && consumed == 0
    ensures subscribed ==>
      (outcome == Returned(if unsubscribed then OK else FAIL) || outcome == Waiting) &&
      StopsExactly(false, old(kbc.scancodeByte), input, irq, consumed, outcome.Returned?)
  {
    ghost var b0 := kbc.scancodeByte;
    ghost var printed := [];
    ScanAtStart(false, b0, input, irq);
    var twoByte := false;
    var bytes: array<bv8> := new bv8[2];
    consumed := 0;
    if !subscribed {
      return Returned(FAIL), consumed;
    }
    while consumed < |input|
      invariant consumed <= |input| && (twoByte ==> bytes[0] == TWO_BYTE)
      invariant ScanAt(false, b0, input, irq, consumed, kbc.scancodeByte, twoByte, printed)
      invariant forall i :: 0 <= i <= consumed ==> !EscAt(false, b0, input, irq, i)
    {
      var n := input[consumed];
      ScanAtNext(false, b0, input, irq, consumed, kbc.scancodeByte, twoByte, printed);
      printed := Codes(false, Keys(b0, input[..consumed + 1], irq));
      consumed := consumed + 1;
      if n.Hardware? && irq in n.interrupts {
        kbc.KbcIh(n.read);
        var byte := kbc.scancodeByte;
        if byte == TWO_BYTE {
          twoByte := true;
          bytes[0] := byte;
          continue;
        }
        if twoByte {
          bytes[1] := byte;
          twoByte := false;
        } else {
          bytes[0] := byte;
        }
        if bytes[0] == ESC_BREAK {
          if !unsubscribed {
            return Returned(FAIL), consumed;
          }
          return Returned(OK), consumed;
        }
      }
    }
    return Waiting, consumed;
  }

  /**
   Fed the same notifications from a no-prefix state, the scan, the timed scan without ticks and the
   wait for ESC all stop at the same one.
   */
  method ThreeLoopsAgree(
      lab3: Lab3, timed: Lab3, kbc: KeyboardDriver, n: Word8, irq: nat, timerIrq: nat, input: seq<Notification>)
      returns (o1: Outcome, c1: nat, p1: seq<Code>, o2: Outcome, c2: nat, p2: seq<Code>, o3: Outcome, c3: nat)
    requires lab3.Valid() && timed.Valid() && !lab3.twoByte && !timed.twoByte
    requires lab3 != timed && lab3.bytes != timed.bytes && lab3.kbc != timed.kbc && kbc != lab3.kbc && kbc != timed.kbc
    requires lab3.kbc.scancodeByte == timed.kbc.scancodeByte == kbc.scancodeByte
    requires forall i :: 0 <= i < |input| ==> !input[i].Interrupts(timerIrq)
    modifies lab3, lab3.bytes, lab3.kbc, timed, timed.bytes, timed.kbc, kbc
    ensures c1 == c2 == c3 && o1 == o2 == o3 && p1 == p2
    ensures lab3.kbc.scancodeByte == timed.kbc.scancodeByte
  {
    ghost var b := kbc.scancodeByte;
    o1, c1, p1 := lab3.KbdTestScan(irq, true, input);
    var t;
    o2, c2, p2, t := timed.KbdTestTimedScan(n, irq, timerIrq, true, true, input);
    o3, c3 := WaitingEscKey(kbc, irq, true, true, input);
    forall i | 0 <= i <= |input|
      ensures ScanEndsAt(false, b, input, irq, timerIrq, n, i) == EscAt(false, b, input, irq, i)
    {
      NoTicksNoTimeout(false, b, input, irq, timerIrq, n, i);
    }
    StoppingPointIsUnique(false, b, input, irq, c1, o1 == Returned(OK), c2, o2 == Returned(OK));
    StoppingPointIsUnique(false, b, input, irq, c1, o1 == Returned(OK), c3, o3.Returned?);
  }
}
