/** The meaning of a 3-byte mouse packet: the driver's parser, and the device side it must invert. */
module MousePacket {
  import opened Machine
  import opened Kbc
  import opened MouseStream

  /** The parsed packet; the deltas are the words stored in its two `int16_t` fields. */
  datatype Packet = Packet(
    bytes: seq<bv8>, lb: bool, rb: bool, mb: bool, xOv: bool, yOv: bool, deltaX: bv16, deltaY: bv16)

  /** What a device reports: buttons, overflow flags and two 9-bit two's complement displacements. */
  datatype Report = Report(lb: bool, rb: bool, mb: bool, xOv: bool, yOv: bool, dx: bv9, dy: bv9)

  /** Two's complement readings. */
  function Int16(w: bv16): int {
    if w < 0x8000 then w as int else w as int - 0x1_0000
  }

  function Int9(w: bv9): int {
    if w < 0x100 then w as int else w as int - 0x200
  }

  predicate Negative(w: bv9) {
    w & 0x100 != 0
  }

  /** The driver's sign extension: bit 8 of the displacement is a flag in the header. */
  function Delta(negative: bool, low: bv8): bv16 {
    if negative then 0xFF00 | low as bv16 else low as bv16
  }

  function Parse(bytes: seq<bv8>): Packet
    requires |bytes| == PACKET_SIZE
  {
    Packet(bytes, Has(bytes[0], 0x01), Has(bytes[0], 0x02), Has(bytes[0], 0x04),
           Has(bytes[0], 0x40), Has(bytes[0], 0x80),
           Delta(Has(bytes[0], 0x10), bytes[1]), Delta(Has(bytes[0], 0x20), bytes[2]))
  }

  /** The packet says what the report said: same flags, same displacements as integers. */
  predicate Shows(p: Packet, r: Report) {
    p.lb == r.lb && p.rb == r.rb && p.mb == r.mb && p.xOv == r.xOv && p.yOv == r.yOv &&
    Int16(p.deltaX) == Int9(r.dx) && Int16(p.deltaY) == Int9(r.dy)
  }

  function Flag(on: bool, mask: bv8): bv8 {
    if on then mask else 0
  }

  function Header(r: Report): bv8 {
    SYNC | Flag(r.lb, 0x01) | Flag(r.rb, 0x02) | Flag(r.mb, 0x04) | Flag(Negative(r.dx), 0x10)
      | Flag(Negative(r.dy), 0x20) | Flag(r.xOv, 0x40) | Flag(r.yOv, 0x80)
  }

  function LowByte(w: bv9): bv8 {
    (w & 0xFF) as bv8
  }

  /** The bytes a PS/2 mouse sends for a report. */
  function Encode(r: Report): (bytes: seq<bv8>)
    ensures |bytes| == PACKET_SIZE
  {
    [Header(r), LowByte(r.dx), LowByte(r.dy)]
  }

  /** The header carries the sync bit and the seven flags of `r`. */
  predicate HeaderShows(h: bv8, r: Report) {
    Has(h, SYNC) &&
    Has(h, 0x01) == r.lb && Has(h, 0x02) == r.rb && Has(h, 0x04) == r.mb &&
    Has(h, 0x10) == Negative(r.dx) && Has(h, 0x20) == Negative(r.dy) &&
    Has(h, 0x40) == r.xOv && Has(h, 0x80) == r.yOv
  }

  lemma HeaderFlags(r: Report)
    ensures HeaderShows(Header(r), r)
  {
  }

  /** Only one header shows given flags. */
  lemma HeaderIsDetermined(h: bv8, r: Report)
    requires HeaderShows(h, r)
    ensures Header(r) == h
  {
  }

  /** Sign extension keeps the value of a 9-bit displacement. */
  lemma SignExtension(w: bv9)
    ensures Int16(Delta(Negative(w), LowByte(w))) == Int9(w)
  {
    if Negative(w) {
      assert Delta(true, LowByte(w)) == 0xFE00 | w as bv16;
    } else {
      assert Delta(false, LowByte(w)) == w as bv16;
    }
  }

  lemma ParseOfHeader(h: bv8, r: Report)
    requires HeaderShows(h, r)
    ensures Shows(Parse([h, LowByte(r.dx), LowByte(r.dy)]), r)
  {
    SignExtension(r.dx);
    SignExtension(r.dy);
  }

  /** The parser inverts the device's encoding ... */
  lemma ParseInvertsEncode(r: Report)
    ensures Shows(Parse(Encode(r)), r) && Parse(Encode(r)).bytes == Encode(r)
  {
    HeaderFlags(r);
    ParseOfHeader(Header(r), r);
  }

  /** The displacement with a given sign and low byte. */
  function Displacement(negative: bool, low: bv8): (w: bv9)
    ensures Negative(w) == negative && LowByte(w) == low
  {
    if negative then 0x100 | low as bv9 else low as bv9
  }

  /** ... and every packet that passes the sync check is the encoding of the report it shows. */
  lemma EveryPacketIsAReport(h: bv8, x: bv8, y: bv8) returns (r: Report)
    requires Has(h, SYNC)
    ensures Encode(r) == [h, x, y] && Shows(Parse([h, x, y]), r)
  {
    r := Report(Has(h, 0x01), Has(h, 0x02), Has(h, 0x04), Has(h, 0x40), Has(h, 0x80),
                Displacement(Has(h, 0x10), x), Displacement(Has(h, 0x20), y));
    HeaderIsDetermined(h, r);
    ParseOfHeader(h, r);
  }

  function EncodeAll(rs: seq<Report>): (frames: seq<seq<bv8>>)
    ensures |frames| == |rs| && forall i :: 0 <= i < |rs| ==> frames[i] == Encode(rs[i])
  {
    if rs == [] then [] else [Encode(rs[0])] + EncodeAll(rs[1..])
  }

  /** The packets an event loop parses and prints: one for each interrupt after which one is ready. */
  function Printed(d: Decoder, es: seq<KbcRead>): (ps: seq<Packet>)
    requires Inv(d)
    ensures |ps| == |Seen(d, es)|
    ensures forall i :: 0 <= i < |ps| ==> |Seen(d, es)[i]| == PACKET_SIZE && ps[i] == Parse(Seen(d, es)[i])
    decreases |es|
  {
    if es == [] then []
    else
      var d' := Step(d, es[0]);
      (if d'.ready then [Parse(d'.bytes)] else []) + Printed(d', es[1..])
  }

  lemma {:induction false} PrintedAppend(d: Decoder, a: seq<KbcRead>, b: seq<KbcRead>)
    requires Inv(d)
    ensures Printed(d, a + b) == Printed(d, a) + Printed(Run(d, a), b)
    decreases |a|
  {
    if a == [] {
      assert a + b == b;
    } else {
      assert (a + b)[1..] == a[1..] + b;
      PrintedAppend(Step(d, a[0]), a[1..], b);
    }
  }

  /**
   The whole path: any sequence of reports, encoded by the device and delivered without errors to
   a fresh driver, is printed as exactly that sequence, one packet per report.
   */
  lemma {:induction false} StreamRoundTrip(rs: seq<Report>, es: seq<KbcRead>)
    requires ErrorFree(es, Concat(EncodeAll(rs)))
    ensures |Printed(FRESH, es)| == |rs| == |es| / PACKET_SIZE
    ensures forall i :: 0 <= i < |rs| ==> Shows(Printed(FRESH, es)[i], rs[i])
  {
    var frames := EncodeAll(rs);
    forall i | 0 <= i < |frames|
      ensures |frames[i]| == PACKET_SIZE && Has(frames[i][0], SYNC)
    {
      HeaderFlags(rs[i]);
    }
    InSyncAtBoundaries(frames);
    InSyncStreamHasNoStale(FRESH, es, Concat(frames));
    SeenIsPacketsPlusStale(FRESH, es);
    FreshIncrementalIsBatch(es);
    ErrorFreeBytes(es, Concat(frames));
    FramesOfConcat(frames);
    assert Seen(FRESH, es) == frames;
    forall i | 0 <= i < |rs|
      ensures Shows(Printed(FRESH, es)[i], rs[i])
    {
      ParseInvertsEncode(rs[i]);
    }
  }
}
