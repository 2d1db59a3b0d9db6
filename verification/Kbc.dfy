/**
 What the drivers see of the keyboard controller and of the kernel: port reads that may fail,
 and notifications carrying a set of interrupt lines. Both are arbitrary inputs here, so every
 statement over sequences of them is a statement over every run.
 */
module Kbc {
  import opened Machine

  const OBF: bv8 := 0x01
  const IBF: bv8 := 0x01
  const TO_ERR: bv8 := 0x40
  const PAR_ERR: bv8 := 0x80
  const BREAK_BIT: bv8 := 0x80

  /** The answers to one interrupt handler's reads of 0x64 and 0x60; `None` is a failed `sys_inb`. */
  datatype KbcRead = KbcRead(status: Option<bv8>, data: Option<bv8>)
  {
    /** The byte a handler gets past its checks, if any. */
    function Byte(): Option<bv8> {
      if status.None? then None
      else if !Has(status.value, OBF) then None
      else if Has(status.value, PAR_ERR | TO_ERR) then None
      else data
    }

    /**
     Both port reads worked, and the status shows a full output buffer (bit 0) without a timeout or
     parity error (bits 6 and 7).
     */
    predicate Delivers() {
      status.Some? && data.Some? && status.value & 0x01 != 0 && status.value & 0xC0 == 0
    }
  }

  /** One return of `driver_receive`. */
  datatype Notification =
    | ReceiveFailed
    | NotNotify
    | OtherSource
    | Hardware(interrupts: set<nat>, read: KbcRead)
  {
    predicate Interrupts(irq: nat) {
      Hardware? && irq in interrupts
    }
  }

  /** How an event loop ends: it returns a code, or it is still waiting when the input runs out. */
  datatype Outcome = Returned(code: int) | Waiting

  /** The handlers' checks let through exactly the data of the reads that deliver. */
  lemma ByteIsDelivered(e: KbcRead)
    ensures e.Byte() == if e.Delivers() then e.data else None
  {
    assert PAR_ERR | TO_ERR == 0xC0;
  }

  /** The bytes that get past the checks, in order. */
  function Bytes(es: seq<KbcRead>): seq<bv8> {
    if es == [] then []
    else match es[0].Byte()
      case None => Bytes(es[1..])
      case Some(b) => [b] + Bytes(es[1..])
  }

  /** The reads made on behalf of interrupt line `irq`, in order. */
  function Reads(input: seq<Notification>, irq: nat): seq<KbcRead> {
    if input == [] then []
    else if input[0].Interrupts(irq) then [input[0].read] + Reads(input[1..], irq)
    else Reads(input[1..], irq)
  }

  lemma ReadsSnoc(input: seq<Notification>, n: Notification, irq: nat)
    ensures Reads(input + [n], irq)
         == Reads(input, irq) + if n.Hardware? && irq in n.interrupts then [n.read] else []
  {
    if input == [] {
    } else {
      assert (input + [n])[1..] == input[1..] + [n];
      ReadsSnoc(input[1..], n, irq);
    }
  }

  /** How many notifications carry line `irq`. */
  function Ticks(input: seq<Notification>, irq: nat): nat {
    if input == [] then 0
    else Ticks(input[..|input| - 1], irq) + if input[|input| - 1].Interrupts(irq) then 1 else 0
  }

  /** The tick at which an idle counter of `seconds` runs out: never before the first tick. */
  function IdleLimit(seconds: Word8): nat {
    if seconds == 0 then 1 else 60 * seconds
  }

  /** `es` delivers exactly the bytes `bs`, without a single failed or rejected read. */
  ghost predicate ErrorFree(es: seq<KbcRead>, bs: seq<bv8>) {
    |es| == |bs| && forall i :: 0 <= i < |es| ==> es[i].Byte() == Some(bs[i])
  }

  lemma ErrorFreeBytes(es: seq<KbcRead>, bs: seq<bv8>)
    requires ErrorFree(es, bs)
    ensures Bytes(es) == bs
  {
    if es != [] {
      ErrorFreeBytes(es[1..], bs[1..]);
      assert bs == [bs[0]] + bs[1..];
    }
  }
}
