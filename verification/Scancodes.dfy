/** The keyboard byte stream: the E0-prefix automaton shared by three event loops, and what it computes. */
module Scancodes {
  import opened Machine
  import opened Kbc

  const TWO_BYTE: bv8 := 0xE0
  const ESC_BREAK: bv8 := 0x81

  /** What `kbd_print_scancode` is given. */
  datatype Code = Code(make: bool, bytes: seq<bv8>)

  /** The code a byte completes. */
  function Complete(pending: bool, b: bv8): Code {
    Code(!Has(b, BREAK_BIT), if pending then [TWO_BYTE, b] else [b])
  }

  /** Whether a prefix is pending after `bs`. */
  function Pending(pending: bool, bs: seq<bv8>): bool {
    if bs == [] then pending else bs[|bs| - 1] == TWO_BYTE
  }

  /** The codes completed by `bs`, in order. */
  function Codes(pending: bool, bs: seq<bv8>): seq<Code>
    decreases |bs|
  {
    if bs == [] then []
    else
      var before, b := bs[..|bs| - 1], bs[|bs| - 1];
      Codes(pending, before) + if b == TWO_BYTE then [] else [Complete(Pending(pending, before), b)]
  }

  /** The byte at `i` ends the loop: an ESC break code that no prefix precedes. */
  predicate StopsAt(pending: bool, bs: seq<bv8>, i: nat)
    requires i < |bs|
  {
    bs[i] == ESC_BREAK && !Pending(pending, bs[..i])
  }

  /** In the bytes themselves: 0x81, and no E0 just before it. */
  lemma StopsAtBareEscBreak(pending: bool, bs: seq<bv8>, i: nat)
    requires i < |bs|
    ensures StopsAt(pending, bs, i) <==> bs[i] == 0x81 && if i == 0 then !pending else bs[i - 1] != 0xE0
  {
  }

  /** `bs` with every run of E0 bytes, including one already pending, collapsed to a single E0. */
  function Collapse(pending: bool, bs: seq<bv8>): seq<bv8>
    decreases |bs|
  {
    if bs == [] then []
    else
      var before, b := bs[..|bs| - 1], bs[|bs| - 1];
      Collapse(pending, before) + if b == TWO_BYTE && Pending(pending, before) then [] else [b]
  }

  function Flatten(cs: seq<Code>): seq<bv8> {
    if cs == [] then [] else Flatten(cs[..|cs| - 1]) + cs[|cs| - 1].bytes
  }

  function PrefixByte(pending: bool): seq<bv8> {
    if pending then [TWO_BYTE] else []
  }

  /**
   The codes spell the stream: their bytes, followed by the prefix still pending, are the bytes
   received with each run of E0 collapsed.
   */
  lemma {:induction false} CodesSpellTheStream(pending: bool, bs: seq<bv8>)
    ensures Flatten(Codes(pending, bs)) + PrefixByte(Pending(pending, bs))
         == PrefixByte(pending) + Collapse(pending, bs)
    decreases |bs|
  {
    if bs != [] {
      var before, b := bs[..|bs| - 1], bs[|bs| - 1];
      CodesSpellTheStream(pending, before);
      var p, cs := Pending(pending, before), Codes(pending, before);
      var added := if b == TWO_BYTE then [] else Complete(p, b).bytes;
      FlattenSnoc(cs, Complete(p, b));
      assert Codes(pending, bs) == if b == TWO_BYTE then cs + [] else cs + [Complete(p, b)];
      assert cs + [] == cs;
      assert Flatten(Codes(pending, bs)) == Flatten(cs) + added;
      SpellStep(p, b);
      Regroup(PrefixByte(pending), Collapse(pending, before), Flatten(cs), PrefixByte(p),
              if b == TWO_BYTE && p then [] else [b], added, PrefixByte(b == TWO_BYTE));
    }
  }

  lemma FlattenSnoc(cs: seq<Code>, c: Code)
    ensures Flatten(cs + [c]) == Flatten(cs) + c.bytes
  {
    assert (cs + [c])[..|cs|] == cs;
  }

  lemma SpellStep(p: bool, b: bv8)
    ensures PrefixByte(p) + (if b == TWO_BYTE && p then [] else [b])
         == (if b == TWO_BYTE then [] else Complete(p, b).bytes) + PrefixByte(b == TWO_BYTE)
  {
  }

  /** Every code is one byte, or E0 and one byte; the last byte is never E0 and decides make or break. */
  lemma {:induction false} CodesAreWellFormed(pending: bool, bs: seq<bv8>, i: nat)
    requires i < |Codes(pending, bs)|
    ensures var c := Codes(pending, bs)[i];
      (|c.bytes| == 1 || (|c.bytes| == 2 && c.bytes[0] == TWO_BYTE)) &&
      c.bytes[|c.bytes| - 1] != TWO_BYTE && c.make == !Has(c.bytes[|c.bytes| - 1], BREAK_BIT)
    decreases |bs|
  {
    var before := bs[..|bs| - 1];
    if i < |Codes(pending, before)| {
      CodesAreWellFormed(pending, before, i);
    }
  }

  // ----- what the loops see -----

  /** The driver's `scancode_byte` after a handler run: a failed read leaves the old byte. */
  function Latch(old': bv8, e: KbcRead): bv8 {
    if e.Byte().Some? then e.Byte().value else old'
  }

  /** The bytes a loop processes over `input`, one for each keyboard interrupt; `b` is latched at the start. */
  function Keys(b: bv8, input: seq<Notification>, irq: nat): seq<bv8>
    decreases |input|
  {
    if input == [] then []
    else
      var before, n := input[..|input| - 1], input[|input| - 1];
      Keys(b, before, irq) + if n.Interrupts(irq) then [Latch(Latched(b, before, irq), n.read)] else []
  }

  function Latched(b: bv8, input: seq<Notification>, irq: nat): bv8
    decreases |input|
  {
    if input == [] then b
    else
      var before, n := input[..|input| - 1], input[|input| - 1];
      if n.Interrupts(irq) then Latch(Latched(b, before, irq), n.read) else Latched(b, before, irq)
  }

  /** One byte for each hardware notification that carries the keyboard's line: the new one, or the last repeated. */
  lemma KeysSnoc(b: bv8, input: seq<Notification>, irq: nat, n: Notification)
    ensures Keys(b, input + [n], irq) == Keys(b, input, irq) +
      if !(n.Hardware? && irq in n.interrupts) then []
      else if n.read.Delivers() then [n.read.data.value]
      else [LastKey(b, input, irq)]
  {
    assert (input + [n])[..|input|] == input;
    LatchedIsLastKey(b, input, irq);
    if n.Hardware? {
      ByteIsDelivered(n.read);
    }
  }

  /** The byte the loop processed last, or the one stored at the start. */
  function LastKey(b: bv8, input: seq<Notification>, irq: nat): bv8 {
    var ks := Keys(b, input, irq);
    if ks == [] then b else ks[|ks| - 1]
  }

  lemma {:induction false} LatchedIsLastKey(b: bv8, input: seq<Notification>, irq: nat)
    ensures Latched(b, input, irq) == LastKey(b, input, irq)
    decreases |input|
  {
    if input != [] {
      LatchedIsLastKey(b, input[..|input| - 1], irq);
    }
  }

  /** Notification `i - 1` is a keyboard interrupt whose byte ends the loop. */
  predicate EscAt(pending: bool, b: bv8, input: seq<Notification>, irq: nat, i: nat)
    requires i <= |input|
  {
    i > 0 && input[i - 1].Interrupts(irq) &&
    Latched(b, input[..i], irq) == ESC_BREAK && !Pending(pending, Keys(b, input[..i - 1], irq))
  }

  /** The loop returns at the first notification that ends it, and waits on if there is none. */
  ghost predicate StopsExactly(pending: bool, b: bv8, input: seq<Notification>, irq: nat, consumed: nat, returned: bool)
    requires consumed <= |input|
  {
    (forall i :: 0 <= i < consumed ==> !EscAt(pending, b, input, irq, i)) &&
    returned == EscAt(pending, b, input, irq, consumed) &&
    (!returned ==> consumed == |input|)
  }

  /** In terms of bytes: the loop ends at the first 0x81 not immediately preceded by E0. */
  lemma {:induction false} StopsAtFirstBareEscBreak(pending: bool, b: bv8, input: seq<Notification>, irq: nat, i: nat)
    requires i <= |input| && forall j :: 0 <= j < i ==> !EscAt(pending, b, input, irq, j)
    ensures NoStopBefore(pending, Keys(b, input[..i], irq), |Keys(b, input[..i], irq)| - 1)
    ensures EscAt(pending, b, input, irq, i) == (
      i > 0 && input[i - 1].Interrupts(irq) &&
      StopsAt(pending, Keys(b, input[..i], irq), |Keys(b, input[..i], irq)| - 1))
    ensures !EscAt(pending, b, input, irq, i) ==>
      NoStopBefore(pending, Keys(b, input[..i], irq), |Keys(b, input[..i], irq)|)
    decreases i
  {
    if i > 0 {
      StopsAtFirstBareEscBreak(pending, b, input, irq, i - 1);
      var before, ks := Keys(b, input[..i - 1], irq), Keys(b, input[..i], irq);
      assert input[..i][..i - 1] == input[..i - 1];
      LatchedIsLastKey(b, input[..i], irq);
      if input[i - 1].Interrupts(irq) {
        assert ks[..|before|] == before;
        forall k | 0 <= k < |before|
          ensures !StopsAt(pending, ks, k)
        {
          assert ks[..k] == before[..k];
          assert !StopsAt(pending, before, k);
        }
      } else {
        assert ks == before;
      }
    }
  }

  ghost predicate NoStopBefore(pending: bool, bs: seq<bv8>, n: int)
    requires n <= |bs|
  {
    forall k :: 0 <= k < n ==> !StopsAt(pending, bs, k)
  }

  /** Two loops that stop exactly, fed the same notifications, stop at the same place. */
  lemma StoppingPointIsUnique(
      pending: bool, b: bv8, input: seq<Notification>, irq: nat, c1: nat, r1: bool, c2: nat, r2: bool)
    requires c1 <= |input| && c2 <= |input|
    requires StopsExactly(pending, b, input, irq, c1, r1)
    requires StopsExactly(pending, b, input, irq, c2, r2)
    ensures c1 == c2 && r1 == r2
  {
  }

  // ----- the idle timer of the timed scan -----

  /** The timer branch runs after notification `i`: a tick whose notification did not bring an E0 byte. */
  predicate TimerTaken(b: bv8, input: seq<Notification>, kbdIrq: nat, timerIrq: nat, i: nat)
    requires i < |input|
  {
    input[i].Interrupts(timerIrq) &&
    !(input[i].Interrupts(kbdIrq) && Latched(b, input[..i + 1], kbdIrq) == TWO_BYTE)
  }

  /** The idle counter after `i` notifications none of which ended the loop. */
  function ScanIdle(b: bv8, input: seq<Notification>, kbdIrq: nat, timerIrq: nat, i: nat): nat
    requires i <= |input|
  {
    if i == 0 then 0
    else
      (if input[i - 1].Interrupts(kbdIrq) then 0 else ScanIdle(b, input, kbdIrq, timerIrq, i - 1))
      + if TimerTaken(b, input, kbdIrq, timerIrq, i - 1) then 1 else 0
  }

  predicate ScanTimesOut(b: bv8, input: seq<Notification>, kbdIrq: nat, timerIrq: nat, n: Word8, i: nat)
    requires i <= |input|
  {
    i > 0 && TimerTaken(b, input, kbdIrq, timerIrq, i - 1) && ScanIdle(b, input, kbdIrq, timerIrq, i) >= n * 60
  }

  predicate ScanEndsAt(
      pending: bool, b: bv8, input: seq<Notification>, kbdIrq: nat, timerIrq: nat, n: Word8, i: nat)
    requires i <= |input|
  {
    EscAt(pending, b, input, kbdIrq, i) || ScanTimesOut(b, input, kbdIrq, timerIrq, n, i)
  }

  /** No notification up to the `i`-th ends the timed scan. */
  ghost predicate ScanGoesOn(
      pending: bool, b: bv8, input: seq<Notification>, kbdIrq: nat, timerIrq: nat, n: Word8, i: nat)
    requires i <= |input|
  {
    forall j :: 0 <= j <= i ==> !ScanEndsAt(pending, b, input, kbdIrq, timerIrq, n, j)
  }

  /**
   The counter is the number of timer branches since the last keyboard notification `s`, with the
   one in that same notification counted unless its byte was E0.
   */
  lemma {:induction false} ScanIdleIsTicksSinceKey(
      b: bv8, input: seq<Notification>, kbdIrq: nat, timerIrq: nat, s: nat, i: nat)
    requires s < i <= |input| && input[s].Interrupts(kbdIrq)
    requires forall j :: s < j < i ==> !input[j].Interrupts(kbdIrq)
    ensures ScanIdle(b, input, kbdIrq, timerIrq, i)
         == (if input[s].Interrupts(timerIrq) && LastKey(b, input[..s + 1], kbdIrq) != 0xE0 then 1 else 0)
            + Ticks(input[s + 1..i], timerIrq)
    decreases i
  {
    LatchedIsLastKey(b, input[..s + 1], kbdIrq);
    if s + 1 < i {
      assert input[s + 1..i][..i - s - 2] == input[s + 1..i - 1];
      ScanIdleIsTicksSinceKey(b, input, kbdIrq, timerIrq, s, i - 1);
    }
  }

  /** Before any keyboard notification it is the number of ticks. */
  lemma {:induction false} ScanIdleBeforeKeys(b: bv8, input: seq<Notification>, kbdIrq: nat, timerIrq: nat, i: nat)
    requires i <= |input| && forall j :: 0 <= j < i ==> !input[j].Interrupts(kbdIrq)
    ensures ScanIdle(b, input, kbdIrq, timerIrq, i) == Ticks(input[..i], timerIrq)
    decreases i
  {
    if i > 0 {
      assert input[..i][..i - 1] == input[..i - 1];
      ScanIdleBeforeKeys(b, input, kbdIrq, timerIrq, i - 1);
    }
  }

  /** The counter stays below max(1, 60n) while the scan runs, and it times out exactly on reaching it. */
  lemma {:induction false} TimesOutExactlyAtLimit(
      b: bv8, input: seq<Notification>, kbdIrq: nat, timerIrq: nat, n: Word8, i: nat)
    requires i <= |input|
    requires forall j :: 0 <= j < i ==> !ScanTimesOut(b, input, kbdIrq, timerIrq, n, j)
    ensures ScanIdle(b, input, kbdIrq, timerIrq, i) <= if n == 0 then 1 else 60 * n
    ensures ScanTimesOut(b, input, kbdIrq, timerIrq, n, i)
       <==> ScanIdle(b, input, kbdIrq, timerIrq, i) == if n == 0 then 1 else 60 * n
    decreases i
  {
    if i > 0 {
      TimesOutExactlyAtLimit(b, input, kbdIrq, timerIrq, n, i - 1);
    }
  }

  /** max(1, 60n) timer-only notifications in a row always end the scan. */
  lemma IdleScanTerminates(
      b: bv8, input: seq<Notification>, kbdIrq: nat, timerIrq: nat, n: Word8, a: nat)
    requires a + IdleLimit(n) <= |input|
    requires forall j :: a <= j < a + IdleLimit(n) ==> input[j].Interrupts(timerIrq) && !input[j].Interrupts(kbdIrq)
    ensures exists i :: 0 <= i <= a + IdleLimit(n) && ScanTimesOut(b, input, kbdIrq, timerIrq, n, i)
  {
    var end := a + IdleLimit(n);
    if forall i :: 0 <= i <= end ==> !ScanTimesOut(b, input, kbdIrq, timerIrq, n, i) {
      TimesOutExactlyAtLimit(b, input, kbdIrq, timerIrq, n, end);
      IdleGrows(b, input, kbdIrq, timerIrq, a, end);
    }
  }

  lemma {:induction false} IdleGrows(b: bv8, input: seq<Notification>, kbdIrq: nat, timerIrq: nat, a: nat, i: nat)
    requires a <= i <= |input|
    requires forall j :: a <= j < i ==> input[j].Interrupts(timerIrq) && !input[j].Interrupts(kbdIrq)
    ensures ScanIdle(b, input, kbdIrq, timerIrq, i) == ScanIdle(b, input, kbdIrq, timerIrq, a) + (i - a)
    decreases i
  {
    if a < i {
      IdleGrows(b, input, kbdIrq, timerIrq, a, i - 1);
    }
  }

  /** Without timer interrupts the timed scan can only end the way the plain scan does. */
  lemma NoTicksNoTimeout(
      pending: bool, b: bv8, input: seq<Notification>, kbdIrq: nat, timerIrq: nat, n: Word8, i: nat)
    requires i <= |input| && forall j :: 0 <= j < |input| ==> !input[j].Interrupts(timerIrq)
    ensures ScanEndsAt(pending, b, input, kbdIrq, timerIrq, n, i) <==> EscAt(pending, b, input, kbdIrq, i)
  {
  }
}
