/** A small model of the Intel 8254 and the driver that programs it. */
module Timer {
  import opened Machine

  const TIMER_FREQ := 1193182
  const TIMER_0 := 0x40
  const TIMER_CTRL := 0x43

  lemma FieldsAreRemainders(b: bv8)
    ensures (b & 0x0F) as int == b as int % 16 && (b & 0x3F) as int == b as int % 64
  {
  }

  lemma FieldsAreQuotients(b: bv8)
    ensures (b & 0x30 == 0x30 <==> b as int / 16 % 4 == 3) && (b & 0xC0 == 0xC0 <==> b as int / 64 == 3)
    ensures (b & 0x10 == 0 <==> b as int / 16 % 2 == 0)
  {
  }

  lemma OrIsSum(low: bv8)
    requires low < 16
    ensures (low | 0x30) as int == low as int + 48
    ensures (low | 0x30 | 0x40) as int == low as int + 48 + 64
    ensures (low | 0x30 | 0x80) as int == low as int + 48 + 128
  {
  }

  /**
   Bytes are integers here, because counts are. A C mask or shift on a byte is then a quotient or a
   remainder, and an OR of disjoint fields is a sum; this lemma says so for the ones used.
   */
  lemma MasksAreArithmetic(b: bv8)
    ensures (b & 0x0F) as int == b as int % 16 && (b & 0x3F) as int == b as int % 64
    ensures (b & 0x30 == 0x30 <==> b as int / 16 % 4 == 3) && (b & 0xC0 == 0xC0 <==> b as int / 64 == 3)
    ensures (b & 0x10 == 0 <==> b as int / 16 % 2 == 0)
    ensures ((b & 0x0F) | 0x30) as int == b as int % 16 + 48
    ensures ((b & 0x0F) | 0x30 | 0x40) as int == b as int % 16 + 48 + 64
    ensures ((b & 0x0F) | 0x30 | 0x80) as int == b as int % 16 + 48 + 128
  {
    FieldsAreRemainders(b);
    FieldsAreQuotients(b);
    OrIsSum(b & 0x0F);
  }

  /**
   One counter: the six control bits (access, mode, BCD), the count register, the low byte of a
   count being written low byte first, and a latched status byte waiting to be read.
   */
  datatype Counter = Counter(control: Word8, reload: Word16, low: Option<Word8>, status: Option<Word8>)
  {
    function Access(): nat {
      control / 16 % 4
    }

    /** Operating mode and BCD bit. */
    function Mode(): Word8 {
      control % 16
    }

    predicate Bcd() {
      control % 2 == 1
    }

    /** A status read later still reports the mode the counter has now. */
    predicate Consistent() {
      control < 64 && (status.Some? ==> status.value % 16 == Mode())
    }
  }

  /** Writing a count byte, as the access bits direct ("Control Word Format" of the Intel 8254 datasheet). */
  function WriteCount(c: Counter, v: Word8): Counter {
    match c.Access()
    case 0 => c
    case 1 => c.(reload := v)
    case 2 => c.(reload := 256 * v)
    case _ => if c.low.None? then c.(low := Some(v)) else c.(reload := c.low.value + 256 * v, low := None)
  }

  /** A control word for this counter; access 0 is the counter latch command, which programs nothing. */
  function WriteControl(c: Counter, v: Word8): Counter {
    if v / 16 % 4 == 0 then c else c.(control := v % 64, low := None)
  }

  /**
   Latching the status ("Read-Back Command"): a second latch before the read is ignored; `pins` are
   OUT and NULL COUNT.
   */
  function LatchStatus(c: Counter, pins: Word8): Counter
    requires c.control < 64
  {
    if c.status.Some? then c else c.(status := Some(pins / 64 * 64 + c.control))
  }

  /** Whether a read-back command selects counter `k` (bits 1 to 3) and asks for its status (bit 4 clear). */
  predicate LatchesStatusOf(v: Word8, k: nat)
    requires k < 3
  {
    v / 16 % 2 == 0 && v / (match k case 0 => 2 case 1 => 4 case _ => 8) % 2 == 1
  }

  /** What a byte written to port 0x43 does to counter `k`. */
  function OnControlWord(c: Counter, k: nat, v: Word8, pins: Word8): Counter
    requires k < 3 && c.control < 64
  {
    if v / 64 == 3 then
      if LatchesStatusOf(v, k) then LatchStatus(c, pins) else c
    else if v / 64 == k then WriteControl(c, v)
    else c
  }

  /** The chip behind its four ports. `oks` are the outcomes of the port accesses, `pins` arbitrary pin levels. */
  class Pit {
    var counters: seq<Counter>
    var time: nat
    /** Every port and byte a program wrote, refused writes included. */
    var written: seq<(int, Word8)>
    const oks: seq<bool>
    const pins: seq<Word8>

    constructor (counters: seq<Counter>, oks: seq<bool>, pins: seq<Word8>)
      requires |counters| == 3 && forall c :: c in counters ==> c.control < 64
      ensures Valid() && this.counters == counters && time == 0 && written == [] && this.oks == oks && this.pins == pins
    {
      this.counters := counters;
      this.oks, this.pins, time, written := oks, pins, 0, [];
    }

    predicate Valid()
      reads this
    {
      |counters| == 3 && forall k :: 0 <= k < 3 ==> counters[k].control < 64
    }

    predicate Ok(t: nat) {
      t < |oks| && oks[t]
    }

    predicate OkThrough(from: nat, to: nat) {
      forall t :: from <= t < to ==> Ok(t)
    }

    function Pins(t: nat): Word8 {
      if t < |pins| then pins[t] else 0
    }

    /** A byte written to port 0x43, or to a counter's own port. */
    method Outb(port: int, v: Word8) returns (r: int)
      requires Valid() && TIMER_0 <= port <= TIMER_CTRL
      modifies this
      ensures Valid() && time == old(time) + 1 && written == old(written) + [(port, v)]
      ensures r == if Ok(old(time)) then OK else FAIL
      ensures r == FAIL ==> counters == old(counters)
      ensures r == OK && port == TIMER_CTRL ==>
        forall k :: 0 <= k < 3 ==> counters[k] == OnControlWord(old(counters)[k], k, v, Pins(old(time)))
      ensures r == OK && port < TIMER_CTRL ==>
        counters == old(counters)[port - TIMER_0 := WriteCount(old(counters)[port - TIMER_0], v)]
    {
      var t := time;
      time, written := time + 1, written + [(port, v)];
      if !Ok(t) {
        return FAIL;
      }
      if port == TIMER_CTRL {
        counters := [OnControlWord(counters[0], 0, v, Pins(t)), OnControlWord(counters[1], 1, v, Pins(t)),
                     OnControlWord(counters[2], 2, v, Pins(t))];
      } else {
        counters := counters[port - TIMER_0 := WriteCount(counters[port - TIMER_0], v)];
      }
      return OK;
    }

    /** Reading a counter port gives the latched status if there is one, else a byte of the running count. */
    method Inb(port: int) returns (r: int, v: Word8)
      requires Valid() && TIMER_0 <= port < TIMER_CTRL
      modifies this
      ensures Valid() && time == old(time) + 1 && written == old(written)
      ensures r == if Ok(old(time)) then OK else FAIL
      ensures r == FAIL ==> counters == old(counters)
      ensures r == OK ==>
        var c := old(counters)[port - TIMER_0];
        counters == old(counters)[port - TIMER_0 := c.(status := None)] && (c.status.Some? ==> v == c.status.value)
    {
      var t := time;
      time := time + 1;
      if !Ok(t) {
        return FAIL, 0;
      }
      var k := port - TIMER_0;
      v := if counters[k].status.Some? then counters[k].status.value else Pins(t);
      counters := counters[k := counters[k].(status := None)];
      return OK, v;
    }
  }

  // ----- the driver -----

  /** The read-back command for the status of one counter. */
  function ReadBackOf(timer: nat): Word8
    requires timer <= 2
  {
    if timer == 0 then 0xE2 else if timer == 1 then 0xE4 else 0xE8
  }

  /** Reads a counter's status byte, whose low four bits are the mode and BCD bit in force. */
  method TimerGetConf(pit: Pit, timer: nat) returns (r: int, st: Word8)
    requires pit.Valid() && timer <= 2 && pit.counters[timer].Consistent()
    modifies pit
    ensures pit.Valid() && (r == OK || r == FAIL)
    ensures r == OK <==> pit.OkThrough(old(pit.time), old(pit.time) + 2)
    ensures r == OK ==> pit.time == old(pit.time) + 2
    ensures pit.written == old(pit.written) + [(0x43, ReadBackOf(timer))]
    ensures forall k :: 0 <= k < 3 && k != timer ==> pit.counters[k] == old(pit.counters)[k]
    ensures pit.counters[timer].Consistent()
    ensures pit.counters[timer].(status := None) == old(pit.counters)[timer].(status := None)
    ensures r == OK ==> st % 16 == old(pit.counters)[timer].Mode() && pit.counters[timer].status == None
  {
    var cmd := 192 + 32 + (match timer case 0 => 2 case 1 => 4 case _ => 8);
    LatchedStatusIsConsistent(pit.counters[timer], pit.Pins(pit.time));
    st := 0;
    r := pit.Outb(TIMER_CTRL, cmd);
    if r != OK {
      return;
    }
    r, st := pit.Inb(TIMER_0 + timer);
  }

  lemma LatchedStatusIsConsistent(c: Counter, pins: Word8)
    requires c.Consistent()
    ensures LatchStatus(c, pins).Consistent() && LatchStatus(c, pins).status.Some?
  {
  }

  /** The count the driver computes: a 32-bit quotient cut to 16 bits. */
  function CountFor(freq: Word32): Word16
    requires freq > 0
  {
    U16(TIMER_FREQ / freq)
  }

  /** The driver's control word programs the named counter for two-byte counts and leaves the others alone. */
  lemma ControlWordSelects(c: Counter, k: nat, timer: nat, mode: Word8, pins: Word8)
    requires k < 3 && timer < 3 && mode < 16 && c.control < 64
    ensures OnControlWord(c, k, mode + 48 + 64 * timer, pins)
         == if k == timer then c.(control := 48 + mode, low := None) else c
  {
  }

  lemma TwoBytesMakeTheCount(c: Counter, count: Word16)
    requires c.Access() == 3 && c.low == None
    ensures WriteCount(c, count % 256) == c.(low := Some(count % 256))
    ensures WriteCount(WriteCount(c, count % 256), count / 256) == c.(reload := count)
  {
  }

  /** What the driver writes: read-back, control word for two-byte counts, then the count, low byte first. */
  function ProgramOf(timer: nat, mode: Word8, n: Word16): seq<(int, Word8)>
    requires timer <= 2 && mode < 16
  {
    [(0x43, ReadBackOf(timer)), (0x43, 64 * timer + 48 + mode), (0x40 + timer, n % 256), (0x40 + timer, n / 256)]
  }

  lemma CountIs(freq: Word32)
    requires freq > 0
    ensures CountFor(freq) == 1193182 / freq % 0x1_0000
  {
  }

  /**
   For every chip state and every pattern of port failures: only the named counter changes, its mode
   and BCD bit never do, its count register changes only when the call succeeds, and then it holds
   the computed count.
   */
  method TimerSetFrequency(pit: Pit, timer: nat, freq: Word32) returns (r: int)
    requires pit.Valid() && timer <= 2 && pit.counters[timer].Consistent()
    modifies pit
    ensures pit.Valid() && (r == OK || r == FAIL)
    ensures r == OK <==> 1 <= freq <= TIMER_FREQ && pit.OkThrough(old(pit.time), old(pit.time) + 5)
    ensures freq == 0 || freq > TIMER_FREQ ==> r == FAIL && unchanged(pit)
    ensures forall k :: 0 <= k < 3 && k != timer ==> pit.counters[k] == old(pit.counters)[k]
    ensures pit.counters[timer].Consistent() && pit.counters[timer].Mode() == old(pit.counters)[timer].Mode()
    ensures r == OK ==>
      pit.counters[timer] == Counter(48 + old(pit.counters)[timer].Mode(), CountFor(freq), None, None)
    ensures r == OK ==>
      pit.counters[timer].reload == 1193182 / freq % 0x1_0000 &&
      pit.written == old(pit.written) +
        ProgramOf(timer, old(pit.counters)[timer].control % 16, 1193182 / freq % 0x1_0000)
    ensures r == FAIL ==> pit.counters[timer].reload == old(pit.counters)[timer].reload
  {
    hide CountFor, OnControlWord, WriteCount, ReadBackOf, LatchStatus;
    if freq == 0 || freq > TIMER_FREQ {
      return FAIL;
    }
    var st;
    r, st := TimerGetConf(pit, timer);
    if r != OK {
      return;
    }
    CountIs(freq);
    var counter := CountFor(freq);
    var control := st % 16 + 48 + 64 * timer;
    var lsb, msb := counter % 256, counter / 256;
    forall k | 0 <= k < 3 {
      ControlWordSelects(pit.counters[k], k, timer, st % 16, pit.Pins(pit.time));
    }
    r := pit.Outb(TIMER_CTRL, control);
    if r != OK {
      return;
    }
    TwoBytesMakeTheCount(pit.counters[timer], counter);
    r := pit.Outb(TIMER_0 + timer, lsb);
    if r != OK {
      return;
    }
    r := pit.Outb(TIMER_0 + timer, msb);
  }

  // ----- which frequency the chip then produces -----

  /** What the count register divides the clock by: binary 0 stands for 65536. */
  function BinaryDivisor(reload: Word16): nat {
    if reload == 0 then 0x1_0000 else reload
  }

  /** The register read as four decimal digits; 0 stands for 10000. */
  function BcdDivisor(reload: Word16): nat {
    var n := reload % 16 + 10 * (reload / 16 % 16) + 100 * (reload / 256 % 16) + 1000 * (reload / 4096);
    if n == 0 then 10000 else n
  }

  function Divisor(c: Counter): nat {
    if c.Bcd() then BcdDivisor(c.reload) else BinaryDivisor(c.reload)
  }

  /** The 16-bit count is the true quotient exactly for frequencies of 19 Hz and up. */
  lemma TruncatedExactlyBelow19(freq: Word32)
    requires 1 <= freq <= TIMER_FREQ
    ensures CountFor(freq) == TIMER_FREQ / freq <==> freq >= 19
    ensures freq >= 19 ==> CountFor(freq) * freq <= TIMER_FREQ < (CountFor(freq) + 1) * freq
    ensures freq >= 19 ==> 1 <= CountFor(freq)
  {
    var q := TIMER_FREQ / freq;
    assert TIMER_FREQ == q * freq + TIMER_FREQ % freq;
    assert (q + 1) * freq == q * freq + freq;
    if freq >= 19 {
      if q >= 0x1_0000 {
        MulMono(0x1_0000, q, freq);
      }
      MulMono(q, 0, freq);
    } else {
      if q < 0x1_0000 {
        MulMono(q + 1, 0x1_0000, freq);
      }
    }
  }

  lemma BcdReadsSmallCountsOnly(v: Word16)
    requires v > 0
    ensures BcdDivisor(v) == v <==> v < 16
    ensures BcdDivisor(v) < 0x1_0000
  {
    var a := v / 16;
    var b := a / 16;
    var c := b / 16;
    assert v / 256 == b && v / 4096 == c;
    assert v == v % 16 + 16 * (a % 16) + 256 * (b % 16) + 4096 * c;
  }

  /**
   After a successful call the chip divides its clock by the true quotient exactly when the
   frequency is at least 19 Hz and the counter is binary or the quotient is below 16.
   */
  lemma DividesByTrueQuotientIff(c: Counter, freq: Word32)
    requires 1 <= freq <= TIMER_FREQ && c.reload == CountFor(freq)
    ensures Divisor(c) == TIMER_FREQ / freq <==> freq >= 19 && (c.Bcd() ==> TIMER_FREQ / freq < 16)
  {
    TruncatedExactlyBelow19(freq);
    QuotientIsNot65536(freq);
    if c.reload > 0 {
      BcdReadsSmallCountsOnly(c.reload);
    }
  }

  lemma QuotientIsNot65536(freq: Word32)
    requires 1 <= freq <= TIMER_FREQ
    ensures TIMER_FREQ / freq != 0x1_0000 && (freq < 19 ==> TIMER_FREQ / freq > 0x1_0000)
  {
    var q := TIMER_FREQ / freq;
    assert TIMER_FREQ == q * freq + TIMER_FREQ % freq;
    if freq < 19 {
      MulMono(q, 0x1_0000, freq);
    } else {
      MulMono(0x1_0000, q, freq);
    }
  }
}
