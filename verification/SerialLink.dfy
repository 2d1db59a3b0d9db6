/** The serial protocol of collaborative editing: packets on the wire and the byte-at-a-time receiver. */
module SerialLink {
  import opened Machine
  import opened TextDoc

  const PKT_START: Word8 := 0xFE
  const CMD_INSERT_CHAR: Word8 := 0x01
  const CMD_DELETE_CHAR: Word8 := 0x02
  const CMD_MOVE_CURSOR: Word8 := 0x03
  const CMD_REPLACE_BLOCK: Word8 := 0x05
  const CMD_UPDATE_LINE: Word8 := 0x06
  const CMD_FILE_START: Word8 := 0x10
  const CMD_FILE_LINE: Word8 := 0x11

  /** A packet as the receiver hands it on. */
  datatype Event = Event(cmd: Word8, payload: seq<Word8>)
  {
    predicate Fits() {
      |payload| < 0x100
    }
  }

  /** The bytes of a packet. */
  function Encode(e: Event): seq<Word8>
    requires e.Fits()
  {
    [PKT_START, e.cmd, |e.payload|] + e.payload
  }

  function EncodeAll(es: seq<Event>): seq<Word8>
    requires forall e :: e in es ==> e.Fits()
  {
    if es == [] then [] else Encode(es[0]) + EncodeAll(es[1..])
  }

  // ----- the receiver -----

  datatype Rx =
    | WaitStart
    | ReadCmd
    | ReadLen(cmd: Word8)
    | ReadPayload(cmd: Word8, len: Word8, got: seq<Word8>)

  /** A payload is being read only while bytes of it are missing. */
  predicate RxInv(rx: Rx) {
    rx.ReadPayload? ==> |rx.got| < rx.len
  }

  function RxNext(rx: Rx, b: Word8): (rx': Rx)
    requires RxInv(rx)
    ensures RxInv(rx')
  {
    match rx
    case WaitStart => if b == PKT_START then ReadCmd else WaitStart
    case ReadCmd => ReadLen(b)
    case ReadLen(cmd) => if b == 0 then WaitStart else ReadPayload(cmd, b, [])
    case ReadPayload(cmd, len, got) => if |got| + 1 == len then WaitStart else ReadPayload(cmd, len, got + [b])
  }

  /** The packet a byte completes, if any. */
  function RxEmit(rx: Rx, b: Word8): seq<Event>
    requires RxInv(rx)
  {
    match rx
    case ReadLen(cmd) => if b == 0 then [Event(cmd, [])] else []
    case ReadPayload(cmd, len, got) => if |got| + 1 == len then [Event(cmd, got + [b])] else []
    case _ => []
  }

  function RxRun(rx: Rx, bs: seq<Word8>): (rx': Rx)
    requires RxInv(rx)
    ensures RxInv(rx')
    decreases |bs|
  {
    if bs == [] then rx else RxRun(RxNext(rx, bs[0]), bs[1..])
  }

  function Events(rx: Rx, bs: seq<Word8>): seq<Event>
    requires RxInv(rx)
    decreases |bs|
  {
    if bs == [] then [] else RxEmit(rx, bs[0]) + Events(RxNext(rx, bs[0]), bs[1..])
  }

  /** The receiver's module state; the payload buffer has room for any length byte. */
  class Receiver {
    var state: Rx
    const payloadBuf: array<Word8>
    var payloadIdx: nat
    var payloadLen: Word8
    var currentCmd: Word8

    constructor ()
      ensures Valid() && state == WaitStart && fresh(payloadBuf)
    {
      state := WaitStart;
      payloadBuf := new Word8[256](_ => 0);
      payloadIdx, payloadLen, currentCmd := 0, 0, 0;
    }

    /** The buffer, index, length and command fields agree with the abstract state. */
    ghost predicate Valid()
      reads this, payloadBuf
    {
      payloadBuf.Length == 256 && RxInv(state) &&
      (state.ReadLen? ==> currentCmd == state.cmd) &&
      (state.ReadPayload? ==>
        currentCmd == state.cmd && payloadLen == state.len &&
        payloadIdx == |state.got| && payloadBuf[..payloadIdx] == state.got)
    }

    method HandleByte(b: Word8) returns (ev: Option<Event>)
      requires Valid()
      modifies this, payloadBuf
      ensures Valid() && state == RxNext(old(state), b)
      ensures RxEmit(old(state), b) == if ev.Some? then [ev.value] else []
    {
      ev := None;
      match state
      case WaitStart =>
        if b == PKT_START {
          state := ReadCmd;
        }
      case ReadCmd =>
        currentCmd := b;
        state := ReadLen(b);
      case ReadLen(_) =>
        payloadLen := b;
        payloadIdx := 0;
        if payloadLen == 0 {
          ev := Some(Event(currentCmd, []));
          state := WaitStart;
        } else {
          state := ReadPayload(currentCmd, b, []);
        }
      case ReadPayload(_, _, got) =>
        payloadBuf[payloadIdx] := b;
        payloadIdx := payloadIdx + 1;
        assert payloadBuf[..payloadIdx] == got + [b];
        if payloadIdx >= payloadLen {
          ev := Some(Event(currentCmd, payloadBuf[..payloadLen]));
          state := WaitStart;
        } else {
          state := ReadPayload(currentCmd, payloadLen, payloadBuf[..payloadIdx]);
        }
    }
  }

  // ----- round trip -----

  lemma {:induction false} EventsAppend(rx: Rx, a: seq<Word8>, b: seq<Word8>)
    requires RxInv(rx)
    ensures RxRun(rx, a + b) == RxRun(RxRun(rx, a), b)
    ensures Events(rx, a + b) == Events(rx, a) + Events(RxRun(rx, a), b)
    decreases |a|
  {
    if a == [] {
      assert a + b == b;
    } else {
      assert (a + b)[1..] == a[1..] + b;
      EventsAppend(RxNext(rx, a[0]), a[1..], b);
    }
  }

  lemma {:induction false} PayloadArrives(cmd: Word8, len: Word8, got: seq<Word8>, rest: seq<Word8>)
    requires |rest| > 0 && |got| + |rest| == len
    ensures RxRun(ReadPayload(cmd, len, got), rest) == WaitStart
    ensures Events(ReadPayload(cmd, len, got), rest) == [Event(cmd, got + rest)]
    decreases |rest|
  {
    if |rest| == 1 {
      assert rest == [rest[0]] && rest[1..] == [];
    } else {
      PayloadArrives(cmd, len, got + [rest[0]], rest[1..]);
      assert got + [rest[0]] + rest[1..] == got + rest;
    }
  }

  lemma PacketArrives(e: Event)
    requires e.Fits()
    ensures RxRun(WaitStart, Encode(e)) == WaitStart && Events(WaitStart, Encode(e)) == [e]
  {
    var n: Word8 := |e.payload|;
    var b0, b1, b2 := Encode(e), [e.cmd, n] + e.payload, [n] + e.payload;
    assert b0[0] == PKT_START && b0[1..] == b1 && b1[0] == e.cmd && b1[1..] == b2;
    assert b2[0] == n && b2[1..] == e.payload;
    var rx := RxNext(ReadLen(e.cmd), n);
    assert RxRun(WaitStart, b0) == RxRun(ReadCmd, b1) == RxRun(ReadLen(e.cmd), b2) == RxRun(rx, e.payload);
    assert Events(ReadLen(e.cmd), b2) == RxEmit(ReadLen(e.cmd), n) + Events(rx, e.payload);
    assert Events(ReadCmd, b1) == [] + Events(ReadLen(e.cmd), b2);
    assert Events(WaitStart, b0) == [] + Events(ReadCmd, b1);
    if n == 0 {
      assert e.payload == [] && Events(rx, e.payload) == [];
    } else {
      PayloadArrives(e.cmd, n, [], e.payload);
      assert [] + e.payload == e.payload;
    }
  }

  /** Whatever the payload bytes are, start byte included, the receiver hands on exactly the packets sent. */
  lemma {:induction false} WireRoundTrip(es: seq<Event>)
    requires forall e :: e in es ==> e.Fits()
    ensures RxRun(WaitStart, EncodeAll(es)) == WaitStart && Events(WaitStart, EncodeAll(es)) == es
    decreases |es|
  {
    if es != [] {
      PacketArrives(es[0]);
      WireRoundTrip(es[1..]);
      EventsAppend(WaitStart, Encode(es[0]), EncodeAll(es[1..]));
    }
  }

  /** Noise before the first packet is skipped, as long as it has no start byte. */
  lemma {:induction false} NoiseIsSkipped(noise: seq<Word8>, bs: seq<Word8>)
    requires PKT_START !in noise
    ensures Events(WaitStart, noise + bs) == Events(WaitStart, bs)
    decreases |noise|
  {
    if noise == [] {
      assert noise + bs == bs;
    } else {
      assert (noise + bs)[1..] == noise[1..] + bs;
      NoiseIsSkipped(noise[1..], bs);
    }
  }

  // ----- the sender -----

  datatype Message =
    | InsertCharMsg(c: Word8)
    | DeleteCharMsg
    | MoveCursorMsg(row: int, col: int)
    | ReplaceBlockMsg(start: int, deleted: int, inserted: int)
    | UpdateLineMsg(row: int, text: Row)
    | FileStartMsg(lineCount: int, name: Row)
    | FileLineMsg(text: Row)

  const MAX_LINE := 250
  const MAX_FILE_LINE := 252

  function Cut(t: Row, max: nat): (out: Row)
    ensures |out| <= max && |out| <= |t| && out == t[..|out|]
    ensures out == t <==> |t| <= max
  {
    if |t| > max then t[..max] else t
  }

  /** The two bytes of a number cut to 16 bits, high byte first. */
  function Word(x: int): (bs: seq<Word8>)
    ensures |bs| == 2
  {
    [U16(x) / 256, U16(x) % 256]
  }

  /** The packet `build_packet_serial` sends; long texts are cut. */
  function Packet(m: Message): (e: Event)
    ensures e.Fits()
  {
    match m
    case InsertCharMsg(c) => Event(CMD_INSERT_CHAR, [c])
    case DeleteCharMsg => Event(CMD_DELETE_CHAR, [])
    case MoveCursorMsg(r, c) => Event(CMD_MOVE_CURSOR, Word(r) + Word(c))
    case ReplaceBlockMsg(s, d, i) => Event(CMD_REPLACE_BLOCK, Word(s) + Word(d) + Word(i))
    case UpdateLineMsg(r, t) => Event(CMD_UPDATE_LINE, Word(r) + Cut(t, MAX_LINE))
    case FileStartMsg(n, name) => Event(CMD_FILE_START, Word(n) + Cut(name, MAX_LINE))
    case FileLineMsg(t) => Event(CMD_FILE_LINE, Cut(t, MAX_FILE_LINE))
  }

  function Packets(ms: seq<Message>): (es: seq<Event>)
    ensures |es| == |ms| && forall i :: 0 <= i < |ms| ==> es[i] == Packet(ms[i])
  {
    if ms == [] then [] else [Packet(ms[0])] + Packets(ms[1..])
  }

  /** The bytes of each message on the wire, one by one. */
  lemma PacketLayout(m: Message)
    ensures Encode(Packet(m)) == match m
      case InsertCharMsg(c) => [0xFE, 0x01, 1, c]
      case DeleteCharMsg => [0xFE, 0x02, 0]
      case MoveCursorMsg(r, c) => [0xFE, 0x03, 4, r / 256 % 256, r % 256, c / 256 % 256, c % 256]
      case ReplaceBlockMsg(s, d, i) =>
        [0xFE, 0x05, 6, s / 256 % 256, s % 256, d / 256 % 256, d % 256, i / 256 % 256, i % 256]
      case UpdateLineMsg(r, t) =>
        var n := if |t| > 250 then 250 else |t|;
        [0xFE, 0x06, n + 2, r / 256 % 256, r % 256] + t[..n]
      case FileStartMsg(k, name) =>
        var n := if |name| > 250 then 250 else |name|;
        [0xFE, 0x10, n + 2, k / 256 % 256, k % 256] + name[..n]
      case FileLineMsg(t) =>
        var n := if |t| > 252 then 252 else |t|;
        [0xFE, 0x11, n] + t[..n]
  {
    match m
    case MoveCursorMsg(r, c) =>
      WordIsTwoBytes(r);
      WordIsTwoBytes(c);
    case ReplaceBlockMsg(s, d, i) =>
      WordIsTwoBytes(s);
      WordIsTwoBytes(d);
      WordIsTwoBytes(i);
    case UpdateLineMsg(r, t) =>
      WordIsTwoBytes(r);
      CutIsPrefix(t, 250);
    case FileStartMsg(k, name) =>
      WordIsTwoBytes(k);
      CutIsPrefix(name, 250);
    case FileLineMsg(t) => CutIsPrefix(t, 252);
    case _ =>
  }

  lemma WordIsTwoBytes(x: int)
    ensures Word(x) == [x / 256 % 256, x % 256]
  {
    BytesOfU16(x);
  }

  lemma BytesOfU16(x: int)
    ensures U16(x) / 256 == x / 256 % 256 && U16(x) % 256 == x % 256
  {
    var q := x / 256;
    DivModUnique(q / 256, 0x1_0000, 256 * (q % 256) + x % 256);
    assert x == q / 256 * 0x1_0000 + (256 * (q % 256) + x % 256);
  }

  lemma CutIsPrefix(t: Row, max: nat)
    ensures Cut(t, max) == t[..if |t| > max then max else |t|]
  {
  }

  /** The sending side: what has been written to the port. */
  class Sender {
    var wire: seq<Word8>

    constructor ()
      ensures wire == []
    {
      wire := [];
    }

    /** The start byte goes in front, and the buffer out byte by byte. */
    method SendPacket(buf: array<Word8>)
      requires buf.Length >= 1
      modifies this, buf
      ensures wire == old(wire) + ([0xFE] + old(buf[1..]))
    {
      buf[0] := PKT_START;
      ghost var bytes := buf[..];
      for i := 0 to buf.Length
        invariant buf[..] == bytes && wire == old(wire) + bytes[..i]
      {
        wire := wire + [buf[i]];
      }
      assert bytes[..buf.Length] == [0xFE] + old(buf[1..]);
    }

    /**
     `build_packet_serial`: the payload as the caller made it, and the number that goes before a line
     or a file name. Texts are cut to what the length byte can count.
     */
    method BuildPacketSerial(cmd: Word8, payload: seq<Word8>, numLines: Word16)
      requires cmd == CMD_INSERT_CHAR ==> |payload| >= 1
      requires cmd == CMD_MOVE_CURSOR ==> |payload| >= 4
      requires cmd == CMD_REPLACE_BLOCK ==> |payload| >= 6
      modifies this
      ensures cmd == 0x01 ==> wire == old(wire) + [0xFE, 0x01, 1, payload[0]]
      ensures cmd == 0x02 ==> wire == old(wire) + [0xFE, 0x02, 0]
      ensures cmd == 0x03 ==> wire == old(wire) + ([0xFE, 0x03, 4] + payload[..4])
      ensures cmd == 0x05 ==> wire == old(wire) + ([0xFE, 0x05, 6] + payload[..6])
      ensures cmd == 0x06 || cmd == 0x10 ==>
        var n := if |payload| > 250 then 250 else |payload|;
        wire == old(wire) + ([0xFE, cmd, n + 2, numLines / 256, numLines % 256] + payload[..n])
      ensures cmd == 0x11 ==>
        var n := if |payload| > 252 then 252 else |payload|;
        wire == old(wire) + ([0xFE, 0x11, n] + payload[..n])
      ensures cmd !in {0x01, 0x02, 0x03, 0x05, 0x06, 0x10, 0x11} ==> wire == old(wire)
    {
      if cmd == CMD_INSERT_CHAR {
        var buf := new Word8[4](_ => 0);
        buf[1], buf[2], buf[3] := CMD_INSERT_CHAR, 1, payload[0];
        SendPacket(buf);
      } else if cmd == CMD_DELETE_CHAR {
        var buf := new Word8[3](_ => 0);
        buf[1], buf[2] := CMD_DELETE_CHAR, 0;
        SendPacket(buf);
      } else if cmd == CMD_MOVE_CURSOR {
        SendFixed(CMD_MOVE_CURSOR, payload, 4);
      } else if cmd == CMD_REPLACE_BLOCK {
        SendFixed(CMD_REPLACE_BLOCK, payload, 6);
      } else if cmd == CMD_UPDATE_LINE {
        SendNumbered(CMD_UPDATE_LINE, payload, numLines);
      } else if cmd == CMD_FILE_START {
        SendNumbered(CMD_FILE_START, payload, numLines);
      } else if cmd == CMD_FILE_LINE {
        SendFixed(CMD_FILE_LINE, payload, if |payload| > 252 then 252 else |payload|);
      }
    }

    /** A packet whose payload is the first `n` bytes given. */
    method SendFixed(cmd: Word8, payload: seq<Word8>, n: Word8)
      requires n <= |payload|
      modifies this
      ensures wire == old(wire) + ([0xFE, cmd, n] + payload[..n])
    {
      var buf := new Word8[3 + n](_ => 0);
      buf[1], buf[2] := cmd, n;
      for i := 0 to n
        invariant wire == old(wire) && buf[1] == cmd && buf[2] == n && buf[3..3 + i] == payload[..i]
      {
        buf[i + 3] := payload[i];
      }
      assert buf[1..] == [cmd, n] + payload[..n];
      assert [0xFE] + buf[1..] == [0xFE, cmd, n] + payload[..n];
      SendPacket(buf);
    }

    /** A packet with a number before the text. */
    method SendNumbered(cmd: Word8, payload: seq<Word8>, number: Word16)
      modifies this
      ensures var n := if |payload| > 250 then 250 else |payload|;
        wire == old(wire) + ([0xFE, cmd, n + 2, number / 256, number % 256] + payload[..n])
    {
      var len := if |payload| > 250 then 250 else |payload|;
      var buf := new Word8[5 + len](_ => 0);
      buf[1], buf[2], buf[3], buf[4] := cmd, len + 2, number / 256, number % 256;
      for i := 0 to len
        invariant buf[1] == cmd && buf[2] == len + 2 && buf[3] == number / 256 && buf[4] == number % 256
        invariant wire == old(wire) && buf[5..5 + i] == payload[..i]
      {
        buf[i + 5] := payload[i];
      }
      assert buf[1..] == [cmd, len + 2, number / 256, number % 256] + payload[..len];
      assert [0xFE] + buf[1..] == [0xFE, cmd, len + 2, number / 256, number % 256] + payload[..len];
      SendPacket(buf);
    }

    /** A message as the commands build it: numbers are cut to 16 bits, high byte first. */
    method Transmit(m: Message)
      modifies this
      ensures wire == old(wire) + Encode(Packet(m))
    {
      hide Encode, Packet, Word, Cut, U16;
      PacketLayout(m);
      match m
      case InsertCharMsg(c) => BuildPacketSerial(CMD_INSERT_CHAR, [c], 0);
      case DeleteCharMsg => BuildPacketSerial(CMD_DELETE_CHAR, [], 0);
      case MoveCursorMsg(r, c) =>
        BuildPacketSerial(CMD_MOVE_CURSOR, [r / 256 % 256, r % 256, c / 256 % 256, c % 256], 0);
      case ReplaceBlockMsg(s, d, i) =>
        BuildPacketSerial(
          CMD_REPLACE_BLOCK, [s / 256 % 256, s % 256, d / 256 % 256, d % 256, i / 256 % 256, i % 256], 0);
      case UpdateLineMsg(r, t) =>
        BytesOfU16(r);
        BuildPacketSerial(CMD_UPDATE_LINE, t, U16(r));
      case FileStartMsg(n, name) =>
        BytesOfU16(n);
        BuildPacketSerial(CMD_FILE_START, name, U16(n));
      case FileLineMsg(t) => BuildPacketSerial(CMD_FILE_LINE, t, 0);
    }
  }

  /** The number two received bytes spell. */
  function Unword(p: seq<Word8>, at: nat): Word16
    requires at + 2 <= |p|
  {
    var high: int, low: int := p[at], p[at + 1];
    high * 256 + low
  }

  lemma WordRoundTrip(x: int, before: seq<Word8>, after: seq<Word8>)
    ensures Unword(before + Word(x) + after, |before|) == U16(x)
  {
  }

  /** Everything sent arrives, as packets, in order. */
  lemma MessagesArrive(ms: seq<Message>)
    ensures (forall e :: e in Packets(ms) ==> e.Fits()) && Events(WaitStart, EncodeAll(Packets(ms))) == Packets(ms)
  {
    WireRoundTrip(Packets(ms));
  }
}
