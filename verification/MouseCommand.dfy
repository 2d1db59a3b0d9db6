/**
 The command path of the mouse driver: bounded polling of the controller and the retry protocol
 of `mouse_write_command`, against every possible behaviour of the device.
 */
module MouseCommand {
  import opened Machine
  import opened Kbc

  const STATUS_REG := 0x64
  const OUT_BUF := 0x60
  const CMD_REG := 0x64
  const ARG_REG := 0x60
  const WRITE_MOUSE: bv8 := 0xD4
  const ACK: bv8 := 0xFA
  const ERROR: bv8 := 0xFC
  const TRIES := 10
  const MAX_RETRIES := 5

  /** The kernel's answer to one port access: whether it worked and, for a read, the byte. */
  datatype Answer = Answer(ok: bool, value: bv8)

  datatype PortWrite = PortWrite(port: int, value: bv8)

  /**
   A device behaviour: the answers to the port accesses in order, and what an uninitialised local
   holds if it is declared before the n-th access. Any device, however it reacts to what it is sent,
   produces some such answers; accesses beyond the recorded ones fail.
   */
  datatype Device = Device(answers: seq<Answer>, locals: seq<bv8>)
  {
    function At(t: nat): Answer {
      if t < |answers| then answers[t] else Answer(false, 0)
    }

    function Garbage(t: nat): bv8 {
      if t < |locals| then locals[t] else 0
    }
  }

  // ----- the protocol as functions of the device -----

  /** `status` after the (j+1)-th poll of a wait that starts at access `t`: a failed read leaves it unchanged. */
  function Polled(dev: Device, t: nat, status: bv8, j: nat): bv8 {
    if dev.At(t + j).ok then dev.At(t + j).value
    else if j == 0 then status
    else Polled(dev, t, status, j - 1)
  }

  /** The first poll from access `t` and before `end` that shows bit 0 as `want`, if there is one. */
  function FirstPoll(dev: Device, t: nat, status: bv8, want: bool, end: nat): (at: Option<nat>)
    ensures at.Some? ==> t <= at.value < end
    decreases end - t
  {
    if t >= end then None
    else
      var s := Polled(dev, t, status, 0);
      if Has(s, 0x01) == want then Some(t) else FirstPoll(dev, t + 1, s, want, end)
  }

  /** The two waits of the driver, each with an uninitialised status variable. */
  function EmptyAt(dev: Device, t: nat): Option<nat> {
    FirstPoll(dev, t, dev.Garbage(t), false, t + TRIES)
  }

  function FullAt(dev: Device, t: nat): Option<nat> {
    FirstPoll(dev, t, dev.Garbage(t), true, t + TRIES)
  }

  /** How one round ends: `writes` port writes and then a failure, or an answer read before access `at`. */
  datatype Round =
    | Broken(writes: nat)
    | Answered(at: nat, response: bv8)

  /** One pass through the loop body, from access `t`; `response` is what the local holds before it. */
  function RoundAt(dev: Device, t: nat, response: bv8): (r: Round)
    ensures r.Broken? ==> r.writes <= 2
  {
    var e1 := EmptyAt(dev, t);
    if e1.None? then Broken(0)
    else if !dev.At(e1.value + 1).ok then Broken(1)
    else
      var e2 := EmptyAt(dev, e1.value + 2);
      if e2.None? then Broken(1)
      else if !dev.At(e2.value + 1).ok then Broken(2)
      else
        var f := FullAt(dev, e2.value + 2);
        if f.None? then Broken(2)
        else
          var a := dev.At(f.value + 1);
          Answered(f.value + 2, if a.ok then a.value else response)
  }

  /** Round `k`, when the `k` rounds before it were answered. */
  function NthRound(dev: Device, t: nat, response: bv8, k: nat): Round {
    if k == 0 then RoundAt(dev, t, response)
    else match NthRound(dev, t, response, k - 1)
         case Broken(n) => Broken(n)
         case Answered(at, r) => RoundAt(dev, at, r)
  }

  predicate Nacked(r: Round) {
    r.Answered? && r.response != ACK && r.response != ERROR
  }

  predicate Acked(r: Round) {
    r.Answered? && r.response == ACK
  }

  /** Round `k` is acknowledged, and every earlier one was answered with neither ACK nor ERROR. */
  predicate SucceedsAt(dev: Device, t: nat, response: bv8, k: nat) {
    Acked(NthRound(dev, t, response, k)) && forall j :: 0 <= j < k ==> Nacked(NthRound(dev, t, response, j))
  }

  /** The writes of `n` complete rounds. */
  function Rounds(cmd: bv8, n: nat): (ws: seq<PortWrite>)
    ensures |ws| == 2 * n
  {
    if n == 0 then [] else Rounds(cmd, n - 1) + OneRound(cmd)
  }

  function OneRound(cmd: bv8): seq<PortWrite> {
    [PortWrite(CMD_REG, WRITE_MOUSE), PortWrite(ARG_REG, cmd)]
  }

  // ----- the record of the port accesses -----

  /** One port access as the kernel saw it. */
  datatype Access = Read(port: int, got: Option<bv8>) | Write(port: int, value: bv8, ok: bool)

  /** A read of the status port. */
  predicate IsPoll(a: Access) {
    a.Read? && a.port == 0x64
  }

  function Writes(log: seq<Access>): seq<PortWrite> {
    if log == [] then []
    else
      var a := log[|log| - 1];
      Writes(log[..|log| - 1]) + if a.Write? then [PortWrite(a.port, a.value)] else []
  }

  function Polls(log: seq<Access>): nat {
    if log == [] then 0 else Polls(log[..|log| - 1]) + if IsPoll(log[|log| - 1]) then 1 else 0
  }

  /**
   What the status variable of the wait under way holds: the last status that could be read since the
   wait began, or else what the variable held uninitialised. The call began after `from` accesses.
   */
  function StatusHeld(dev: Device, log: seq<Access>, from: nat): bv8
    requires from <= |log|
    decreases |log|
  {
    if |log| == from || !IsPoll(log[|log| - 1]) then dev.Garbage(|log|)
    else if log[|log| - 1].got.Some? then log[|log| - 1].got.value
    else StatusHeld(dev, log[..|log| - 1], from)
  }

  /** What the response variable holds: the last data byte that could be read, or else what it held uninitialised. */
  function ResponseHeld(dev: Device, log: seq<Access>, from: nat): bv8
    requires from <= |log|
    decreases |log|
  {
    if |log| == from then dev.Garbage(from)
    else
      var a := log[|log| - 1];
      if a.Read? && a.port == 0x60 && a.got.Some? then a.got.value
      else ResponseHeld(dev, log[..|log| - 1], from)
  }

  /**
   An access may be made next: the status port at any time, a write only right after a poll that shows
   bit 0 clear, and a data read only right after one that shows it set.
   */
  predicate Allowed(dev: Device, log: seq<Access>, from: nat, a: Access)
    requires from <= |log|
  {
    IsPoll(a) ||
    (|log| > from && IsPoll(log[|log| - 1]) &&
     if a.Write? then StatusHeld(dev, log, from) & 0x01 == 0
     else a.port == 0x60 && StatusHeld(dev, log, from) & 0x01 != 0)
  }

  /** Every access after the first `from` was allowed when it was made. */
  ghost predicate Disciplined(dev: Device, log: seq<Access>, from: nat) {
    from <= |log| && forall k :: from <= k < |log| ==> Allowed(dev, log[..k], from, log[k])
  }

  lemma DisciplinedNext(dev: Device, log: seq<Access>, from: nat, a: Access)
    requires Disciplined(dev, log, from) && Allowed(dev, log, from, a)
    ensures Disciplined(dev, log + [a], from)
  {
    var now := log + [a];
    forall k | from <= k < |now|
      ensures Allowed(dev, now[..k], from, now[k])
    {
      assert now[..k] == log[..k];
      if k == |log| {
        assert log[..k] == log;
      }
    }
  }

  lemma HeldNext(dev: Device, log: seq<Access>, from: nat, a: Access)
    requires from <= |log|
    ensures StatusHeld(dev, log + [a], from) ==
      if !IsPoll(a) then dev.Garbage(|log| + 1)
      else if a.got.Some? then a.got.value
      else StatusHeld(dev, log, from)
    ensures ResponseHeld(dev, log + [a], from) ==
      if a.Read? && a.port == 0x60 && a.got.Some? then a.got.value else ResponseHeld(dev, log, from)
    ensures Writes(log + [a]) == Writes(log) + if a.Write? then [PortWrite(a.port, a.value)] else []
    ensures Polls(log + [a]) == Polls(log) + if IsPoll(a) then 1 else 0
  {
    assert (log + [a])[..|log|] == log;
  }

  /** The accesses from `start` on are polls, except the last `n`. */
  predicate PollsBut(log: seq<Access>, start: nat, n: nat) {
    forall k :: start <= k < |log| - n ==> IsPoll(log[k])
  }

  predicate IsDataRead(a: Access) {
    a.Read? && a.port == 0x60
  }

  /**
   The record ends with a round: 0xD4 was written to port 0x64 and then `cmd` to port 0x60, both with
   success, the data port was read last, and everything else from the first write on is a poll.
   */
  ghost predicate EndsRound(log: seq<Access>, from: nat, cmd: bv8) {
    exists i, j :: from <= i < j < |log| - 1 && IsRound(log, cmd, i, j)
  }

  predicate IsRound(log: seq<Access>, cmd: bv8, i: nat, j: nat)
    requires i < j < |log| - 1
  {
    log[i] == Write(0x64, 0xD4, true) && log[j] == Write(0x60, cmd, true) && IsDataRead(log[|log| - 1]) &&
    forall k :: i < k < |log| - 1 && k != j ==> IsPoll(log[k])
  }

  /** No data byte read before the last access was 0xFA or 0xFC. */
  ghost predicate NoEarlierAnswer(log: seq<Access>, from: nat) {
    forall k :: from <= k < |log| - 1 && IsDataRead(log[k]) ==> log[k].got !in {Some(0xFA), Some(0xFC)}
  }

  /** The last ten accesses are polls, and each shows bit 0 as `high`. */
  ghost predicate TenPolls(dev: Device, log: seq<Access>, from: nat, high: bool) {
    |log| >= from + 10 && forall k :: |log| - 10 <= k < |log| ==> PollShows(dev, log, from, k, high)
  }

  predicate PollShows(dev: Device, log: seq<Access>, from: nat, k: nat, high: bool)
    requires from <= k < |log|
  {
    IsPoll(log[k]) && (StatusHeld(dev, log[..k + 1], from) & 0x01 != 0) == high
  }

  /**
   The two ways a round breaks: a write was refused, or ten polls in a row did not show bit 0 as
   wanted, which is set after `cmd` was written to port 0x60 and clear before that.
   */
  ghost predicate BrokeOff(dev: Device, log: seq<Access>, from: nat) {
    (|log| > from && log[|log| - 1].Write? && !log[|log| - 1].ok) ||
    TenPolls(dev, log, from, !(|log| > from + 10 && log[|log| - 11].Write? && log[|log| - 11].port == 0x60))
  }

  // ----- the driver -----

  class Controller {
    const device: Device
    var log: seq<Access>

    constructor (device: Device)
      ensures this.device == device && log == []
    {
      this.device := device;
      log := [];
    }

    method Inb(port: int) returns (value: Option<bv8>)
      modifies this
      ensures value == if device.At(|old(log)|).ok then Some(device.At(|old(log)|).value) else None
      ensures log == old(log) + [Read(port, value)]
    {
      var a := device.At(|log|);
      value := if a.ok then Some(a.value) else None;
      log := log + [Read(port, value)];
    }

    method Outb(port: int, value: bv8) returns (r: int)
      modifies this
      ensures r == if device.At(|old(log)|).ok then OK else FAIL
      ensures log == old(log) + [Write(port, value, r == OK)]
    {
      r := if device.At(|log|).ok then OK else FAIL;
      log := log + [Write(port, value, r == OK)];
    }

    /** `from` is where the enclosing call began. */
    method WaitInputEmpty(ghost from: nat) returns (r: int)
      requires from <= |log| && Disciplined(device, log, from) && (|log| == from || !IsPoll(log[|log| - 1]))
      modifies this
      ensures r == if EmptyAt(device, |old(log)|).Some? then OK else FAIL
      ensures r == OK ==> |log| == EmptyAt(device, |old(log)|).value + 1
      ensures Writes(log) == Writes(old(log)) && Polls(log) <= Polls(old(log)) + 10
      ensures old(log) <= log && PollsBut(log, |old(log)|, 0) && Disciplined(device, log, from)
      ensures ResponseHeld(device, log, from) == ResponseHeld(device, old(log), from)
      ensures r == OK ==> |log| > |old(log)| && StatusHeld(device, log, from) & 0x01 == 0
      ensures r == FAIL ==> |log| == |old(log)| + 10 && TenPolls(device, log, from, true)
    {
      hide StatusHeld, ResponseHeld, Writes, Polls, Disciplined;
      PollingStarts(device, log, from, true);
      var status := device.Garbage(|log|);
      var tries := TRIES;
      while tries > 0
        invariant 0 <= tries <= TRIES && |log| == |old(log)| + TRIES - tries
        invariant PollingOn(device, old(log), log, from, status, true)
        invariant FirstPoll(device, |log|, status, false, |old(log)| + TRIES) == EmptyAt(device, |old(log)|)
      {
        tries := tries - 1;
        ghost var before := log;
        var s := Inb(STATUS_REG);
        PollingNext(device, old(log), before, from, status, true, s);
        if s.Some? {
          status := s.value;
        }
        if !Has(status, IBF) {
          return OK;
        }
      }
      return FAIL;
    }

    /** `data` is the caller's variable; a failed read of the data port leaves it as it was. */
    method WaitOutputFull(data: bv8, ghost from: nat) returns (r: int, data': bv8)
      requires from <= |log| && Disciplined(device, log, from) && (|log| == from || !IsPoll(log[|log| - 1]))
      modifies this
      ensures r == if FullAt(device, |old(log)|).Some? then OK else FAIL
      ensures r == OK ==>
        var a := device.At(FullAt(device, |old(log)|).value + 1);
        |log| == FullAt(device, |old(log)|).value + 2 && data' == if a.ok then a.value else data
      ensures Writes(log) == Writes(old(log)) && Polls(log) <= Polls(old(log)) + 10
      ensures old(log) <= log && Disciplined(device, log, from)
      ensures data == ResponseHeld(device, old(log), from) ==> data' == ResponseHeld(device, log, from)
      ensures r == OK ==>
        |log| > |old(log)| && PollsBut(log, |old(log)|, 1) && IsDataRead(log[|log| - 1])
      ensures r == FAIL ==>
        |log| == |old(log)| + 10 && PollsBut(log, |old(log)|, 0) && TenPolls(device, log, from, false)
    {
      hide StatusHeld, ResponseHeld, Writes, Polls, Disciplined;
      PollingStarts(device, log, from, false);
      var status := device.Garbage(|log|);
      var tries := TRIES;
      while tries > 0
        invariant 0 <= tries <= TRIES && |log| == |old(log)| + TRIES - tries
        invariant PollingOn(device, old(log), log, from, status, false)
        invariant FirstPoll(device, |log|, status, true, |old(log)| + TRIES) == FullAt(device, |old(log)|)
      {
        tries := tries - 1;
        ghost var before := log;
        var s := Inb(STATUS_REG);
        PollingNext(device, old(log), before, from, status, false, s);
        if s.Some? {
          status := s.value;
        }
        if Has(status, OBF) {
          before := log;
          var d := Inb(OUT_BUF);
          DataReadNext(device, old(log), before, from, status, d);
          return OK, if d.Some? then d.value else data;
        }
      }
      return FAIL, data;
    }

    /** The wait and the write that begin each half of a round. */
    method WriteWhenEmpty(port: int, value: bv8, ghost from: nat) returns (r: int)
      requires from <= |log| && Disciplined(device, log, from) && (|log| == from || !IsPoll(log[|log| - 1]))
      modifies this
      ensures r == if EmptyAt(device, |old(log)|).Some? && device.At(EmptyAt(device, |old(log)|).value + 1).ok then OK
                   else FAIL
      ensures r == OK ==> |log| == EmptyAt(device, |old(log)|).value + 2
      ensures Writes(log)
           == Writes(old(log)) + if EmptyAt(device, |old(log)|).Some? then [PortWrite(port, value)] else []
      ensures Polls(log) <= Polls(old(log)) + 10
      ensures old(log) < log && Disciplined(device, log, from)
      ensures ResponseHeld(device, log, from) == ResponseHeld(device, old(log), from)
      ensures PollsBut(log, |old(log)|, 1) && !IsDataRead(log[|log| - 1])
      ensures r == OK ==> log[|log| - 1] == Write(port, value, true)
      ensures r == FAIL ==>
        log[|log| - 1] == Write(port, value, false) || (|log| == |old(log)| + 10 && TenPolls(device, log, from, true))
    {
      hide StatusHeld, ResponseHeld, Writes, Polls, Disciplined, TenPolls, EmptyAt;
      r := WaitInputEmpty(from);
      if r != OK {
        return;
      }
      ghost var before := log;
      r := Outb(port, value);
      WriteNext(device, before, from, log[|before|]);
    }

    /** One pass through the body of the retry loop, up to the reading of the response. */
    method Attempt(cmd: bv8, response: bv8, ghost from: nat) returns (r: int, response': bv8)
      requires from <= |log| && Disciplined(device, log, from) && (|log| == from || IsDataRead(log[|log| - 1]))
      requires response == ResponseHeld(device, log, from)
      modifies this
      ensures r == OK || r == FAIL
      ensures match RoundAt(device, |old(log)|, response)
              case Broken(n) => r == FAIL && Writes(log) == Writes(old(log)) + OneRound(cmd)[..n]
              case Answered(at, b) =>
                r == OK && |log| == at && response' == b && Writes(log) == Writes(old(log)) + OneRound(cmd)
      ensures Polls(log) <= Polls(old(log)) + 30
      ensures old(log) < log && Disciplined(device, log, from)
      ensures forall k :: |old(log)| <= k < |log| - 1 ==> !IsDataRead(log[k])
      ensures r == OK ==> EndsRound(log, |old(log)|, cmd) && response' == ResponseHeld(device, log, from)
      ensures r == FAIL ==> BrokeOff(device, log, from) && !IsDataRead(log[|log| - 1])
    {
      hide Writes, Polls, StatusHeld, ResponseHeld, Disciplined, FirstPoll, EmptyAt, FullAt, TenPolls, Device.At;
      response' := response;
      r := WriteWhenEmpty(CMD_REG, WRITE_MOUSE, from);
      assert |old(log)| > from ==> log[|old(log)| - 1] == old(log)[|old(log)| - 1];
      if r != OK {
        return;
      }
      ghost var first := log;
      r := WriteWhenEmpty(ARG_REG, cmd, from);
      assert log[|first| - 1] == first[|first| - 1];
      if r != OK {
        return;
      }
      ghost var second := log;
      r, response' := WaitOutputFull(response', from);
      assert log[|second| - 1] == second[|second| - 1] && log[|first| - 1] == second[|first| - 1];
      if r == OK {
        RoundMade(log, cmd, first, second);
      }
    }

    /**
     For every device: the command succeeds exactly when one of the first five rounds is
     acknowledged and every earlier one was answered with neither ACK nor ERROR; what it writes is
     a prefix of five rounds; and it polls the status register at most 150 times.

     In the record of its port accesses: every write directly follows a poll that shows bit 0 clear
     and every data read one that shows it set. On success the last round wrote 0xD4 and then `cmd`,
     and the response in hand is 0xFA. On failure a round broke off, or the last one ended with 0xFC,
     or five rounds ended without 0xFA.
     */
    method WriteCommand(cmd: bv8) returns (r: int)
      modifies this
      ensures r == OK || r == FAIL
      ensures r == OK <==>
        exists k :: 0 <= k < MAX_RETRIES && SucceedsAt(device, |old(log)|, device.Garbage(|old(log)|), k)
      ensures IsPrefixOfRounds(cmd, Writes(log), Writes(old(log)), MAX_RETRIES)
      ensures Polls(log) <= Polls(old(log)) + 150
      ensures old(log) <= log && Disciplined(device, log, |old(log)|)
      ensures r == OK ==>
        EndsRound(log, |old(log)|, cmd) && ResponseHeld(device, log, |old(log)|) == 0xFA
      ensures r == FAIL ==>
        BrokeOff(device, log, |old(log)|) ||
        (EndsRound(log, |old(log)|, cmd) && ResponseHeld(device, log, |old(log)|) == 0xFC) ||
        (EndsRound(log, |old(log)|, cmd) && ResponseHeld(device, log, |old(log)|) != 0xFA &&
         |Writes(log)| == |Writes(old(log))| + 10)
      ensures NoEarlierAnswer(log, |old(log)|)
    {
      hide RoundAt, NthRound, Rounds, OneRound, IsPrefixOfRounds, Writes, Polls, ResponseHeld, StatusHeld;
      hide Disciplined, BrokeOff;
      NoRounds(cmd);
      NothingYet(device, log);
      ghost var t0, g, k := |log|, device.Garbage(|log|), 0;
      var response := device.Garbage(|log|);
      var attempts := MAX_RETRIES;
      while attempts > 0
        invariant 0 <= attempts <= MAX_RETRIES && k == MAX_RETRIES - attempts
        invariant Underway(device, t0, g, k, |log|, response)
        invariant Writes(log) == Writes(old(log)) + Rounds(cmd, k)
        invariant Polls(log) <= Polls(old(log)) + 30 * k
        invariant old(log) <= log && Disciplined(device, log, t0) && response == ResponseHeld(device, log, t0)
        invariant if k == 0 then log == old(log) else EndsRound(log, t0, cmd) && response != 0xFA && response != 0xFC
        invariant NoAnswerYet(log, t0)
      {
        RoundsPrefix(cmd, Writes(old(log)), k);
        RoundNext(device, t0, g, k, |log|, response);
        attempts := attempts - 1;
        var w;
        ghost var before := log;
        w, response := Attempt(cmd, response, t0);
        NoAnswerGoesOn(device, before, log, t0);
        if w != OK {
          return FAIL;
        }
        assert Writes(log) == Writes(old(log)) + Rounds(cmd, k + 1);
        if response == ACK {
          return OK;
        }
        if response == ERROR {
          return FAIL;
        }
        k := k + 1;
      }
      RoundsPrefix(cmd, Writes(old(log)), MAX_RETRIES - 1);
      return FAIL;
    }
  }

  ghost predicate NoAnswerYet(log: seq<Access>, from: nat) {
    forall k :: from <= k < |log| && IsDataRead(log[k]) ==> log[k].got !in {Some(0xFA), Some(0xFC)}
  }

  /** A wait that began with record `was` has polled only, and every poll so far showed bit 0 as `high`. */
  ghost predicate PollingOn(dev: Device, was: seq<Access>, log: seq<Access>, from: nat, status: bv8, high: bool) {
    PolledOnly(dev, was, log, from, status) && forall k :: |was| <= k < |log| ==> PollShows(dev, log, from, k, high)
  }

  ghost predicate PolledOnly(dev: Device, was: seq<Access>, log: seq<Access>, from: nat, status: bv8) {
    from <= |was| && was <= log && PollsBut(log, |was|, 0) && Disciplined(dev, log, from) &&
    status == StatusHeld(dev, log, from) && ResponseHeld(dev, log, from) == ResponseHeld(dev, was, from) &&
    Writes(log) == Writes(was) && Polls(log) == Polls(was) + |log| - |was|
  }

  lemma PollingStarts(dev: Device, log: seq<Access>, from: nat, high: bool)
    requires Disciplined(dev, log, from) && (|log| == from || !IsPoll(log[|log| - 1]))
    ensures PollingOn(dev, log, log, from, dev.Garbage(|log|), high)
  {
  }

  lemma PollingNext(
      dev: Device, was: seq<Access>, log: seq<Access>, from: nat, status: bv8, high: bool, got: Option<bv8>)
    requires PollingOn(dev, was, log, from, status, high)
    ensures var now, status' := log + [Read(0x64, got)], if got.Some? then got.value else status;
      PolledOnly(dev, was, now, from, status') &&
      ((status' & 0x01 != 0) == high ==> PollingOn(dev, was, now, from, status', high))
  {
    hide StatusHeld, ResponseHeld, Writes, Polls, Disciplined;
    var a := Read(0x64, got);
    DisciplinedNext(dev, log, from, a);
    HeldNext(dev, log, from, a);
    var now := log + [a];
    forall k: nat | |was| <= k < |log| && PollShows(dev, log, from, k, high)
      ensures PollShows(dev, now, from, k, high)
    {
      assert now[..k + 1] == log[..k + 1];
    }
    assert now[..|log| + 1] == now;
  }

  /** The data byte that ends a wait for a full output buffer. */
  lemma DataReadNext(dev: Device, was: seq<Access>, log: seq<Access>, from: nat, status: bv8, got: Option<bv8>)
    requires PolledOnly(dev, was, log, from, status) && |was| < |log| && status & 0x01 != 0
    ensures var now := log + [Read(0x60, got)];
      was <= now && PollsBut(now, |was|, 1) && Disciplined(dev, now, from) &&
      Writes(now) == Writes(was) && Polls(now) == Polls(was) + |log| - |was| &&
      ResponseHeld(dev, now, from) == if got.Some? then got.value else ResponseHeld(dev, was, from)
  {
    hide StatusHeld, ResponseHeld, Writes, Polls, Disciplined;
    DisciplinedNext(dev, log, from, Read(0x60, got));
    HeldNext(dev, log, from, Read(0x60, got));
  }

  /** A write made after a wait for an empty input buffer. */
  lemma WriteNext(dev: Device, log: seq<Access>, from: nat, a: Access)
    requires Disciplined(dev, log, from) && a.Write? && from < |log|
    requires IsPoll(log[|log| - 1]) && StatusHeld(dev, log, from) & 0x01 == 0
    ensures Disciplined(dev, log + [a], from) && ResponseHeld(dev, log + [a], from) == ResponseHeld(dev, log, from)
    ensures Writes(log + [a]) == Writes(log) + [PortWrite(a.port, a.value)] && Polls(log + [a]) == Polls(log)
  {
    hide StatusHeld, ResponseHeld, Writes, Polls, Disciplined;
    DisciplinedNext(dev, log, from, a);
    HeldNext(dev, log, from, a);
  }

  lemma RoundMade(log: seq<Access>, cmd: bv8, first: seq<Access>, second: seq<Access>)
    requires 0 < |first| < |second| < |log| && first <= second <= log && IsDataRead(log[|log| - 1])
    requires first[|first| - 1] == Write(0x64, 0xD4, true) && second[|second| - 1] == Write(0x60, cmd, true)
    requires PollsBut(second, |first|, 1) && PollsBut(log, |second|, 1)
    ensures IsRound(log, cmd, |first| - 1, |second| - 1)
  {
    forall k | |first| <= k < |log| - 1 && k != |second| - 1
      ensures IsPoll(log[k])
    {
      assert k < |second| ==> log[k] == second[k];
    }
  }

  lemma NothingYet(dev: Device, log: seq<Access>)
    ensures Disciplined(dev, log, |log|) && ResponseHeld(dev, log, |log|) == dev.Garbage(|log|)
  {
  }

  /** A round that ends with neither 0xFA nor 0xFC in hand. */
  lemma NoAnswerGoesOn(dev: Device, was: seq<Access>, log: seq<Access>, from: nat)
    requires from <= |was| < |log| && was <= log && NoAnswerYet(was, from)
    requires forall k :: |was| <= k < |log| - 1 ==> !IsDataRead(log[k])
    ensures NoEarlierAnswer(log, from)
    ensures !IsDataRead(log[|log| - 1]) || ResponseHeld(dev, log, from) !in {0xFA, 0xFC} ==> NoAnswerYet(log, from)
  {
    assert forall k :: 0 <= k < |was| ==> log[k] == was[k];
  }

  /** `k` rounds have been answered, none with ACK or ERROR, and the next one starts at access `time`. */
  ghost predicate Underway(dev: Device, t: nat, g: bv8, k: nat, time: nat, response: bv8) {
    (forall j :: 0 <= j < k ==> Nacked(NthRound(dev, t, g, j))) &&
    if k == 0 then time == t && response == g else NthRound(dev, t, g, k - 1) == Answered(time, response)
  }

  lemma RoundNext(dev: Device, t: nat, g: bv8, k: nat, time: nat, response: bv8)
    requires Underway(dev, t, g, k, time, response)
    ensures var r := RoundAt(dev, time, response);
      if Nacked(r) then Underway(dev, t, g, k + 1, r.at, r.response)
      else SucceedsAt(dev, t, g, k) == Acked(r) &&
           (!Acked(r) ==> forall i :: 0 <= i ==> !SucceedsAt(dev, t, g, i))
  {
    assert NthRound(dev, t, g, k) == RoundAt(dev, time, response);
  }

  /** `now` is `was` followed by a prefix of `n` rounds. */
  ghost predicate IsPrefixOfRounds(cmd: bv8, now: seq<PortWrite>, was: seq<PortWrite>, n: nat) {
    exists m :: 0 <= m <= 2 * n && now == was + Rounds(cmd, n)[..m]
  }

  lemma NoRounds(cmd: bv8)
    ensures Rounds(cmd, 0) == []
  {
  }

  lemma {:induction false} RoundsSplit(cmd: bv8, k: nat, n: nat)
    requires k <= n
    ensures Rounds(cmd, n) == Rounds(cmd, k) + Rounds(cmd, n - k)
    decreases n
  {
    if k < n {
      RoundsSplit(cmd, k, n - 1);
    }
  }

  /** Whatever part of round `k` is written, the writes so far are a prefix of five rounds. */
  lemma RoundsPrefix(cmd: bv8, was: seq<PortWrite>, k: nat)
    requires k < MAX_RETRIES
    ensures Rounds(cmd, k) + OneRound(cmd) == Rounds(cmd, k + 1)
    ensures forall n :: 0 <= n <= 2 ==>
      IsPrefixOfRounds(cmd, was + Rounds(cmd, k) + OneRound(cmd)[..n], was, MAX_RETRIES)
    ensures IsPrefixOfRounds(cmd, was + Rounds(cmd, k + 1), was, MAX_RETRIES)
  {
    RoundsSplit(cmd, k + 1, MAX_RETRIES);
    forall n | 0 <= n <= 2
      ensures IsPrefixOfRounds(cmd, was + Rounds(cmd, k) + OneRound(cmd)[..n], was, MAX_RETRIES)
    {
      assert Rounds(cmd, MAX_RETRIES)[..2 * k + n] == Rounds(cmd, k) + OneRound(cmd)[..n];
      assert was + Rounds(cmd, k) + OneRound(cmd)[..n] == was + Rounds(cmd, MAX_RETRIES)[..2 * k + n];
    }
    assert Rounds(cmd, k + 1) == Rounds(cmd, MAX_RETRIES)[..2 * k + 2];
  }

  // ----- what a wait decides -----

  /** A wait succeeds exactly when one of its polls shows bit 0 as wanted, and it stops at the first. */
  lemma {:induction false} FirstPollIsFirst(dev: Device, t: nat, status: bv8, want: bool, end: nat)
    ensures match FirstPoll(dev, t, status, want, end)
            case None => forall j :: 0 <= j < end - t ==> Has(Polled(dev, t, status, j), 0x01) != want
            case Some(at) =>
              Has(Polled(dev, t, status, at - t), 0x01) == want &&
              forall j :: 0 <= j < at - t ==> Has(Polled(dev, t, status, j), 0x01) != want
    decreases end - t
  {
    if t < end {
      var s := Polled(dev, t, status, 0);
      FirstPollIsFirst(dev, t + 1, s, want, end);
      forall j | 1 <= j < end - t
        ensures Polled(dev, t, status, j) == Polled(dev, t + 1, s, j - 1)
      {
        PolledShift(dev, t, status, j - 1);
      }
    }
  }

  lemma {:induction false} PolledShift(dev: Device, t: nat, status: bv8, j: nat)
    ensures Polled(dev, t, status, j + 1) == Polled(dev, t + 1, Polled(dev, t, status, 0), j)
  {
    if j > 0 {
      PolledShift(dev, t, status, j - 1);
    }
  }

  /**
   The header gives `IBF` the value of bit 0, so the wait for an empty input buffer ignores the
   controller's input-full bit (bit 1): a status with that bit set and bit 0 clear ends the wait.
   */
  lemma InputFullBitIsIgnored(dev: Device, t: nat)
    requires dev.At(t) == Answer(true, 0x02)
    ensures EmptyAt(dev, t) == Some(t)
  {
  }

  /**
   The response variable is not initialised and a failed data read leaves it alone: if it happens to
   hold 0xFA, a round whose response could not be read counts as acknowledged.
   */
  lemma UnreadResponseMayCount(dev: Device)
    requires dev.answers == [Answer(true, 0), Answer(true, 0), Answer(true, 0), Answer(true, 0), Answer(true, 1)]
    requires dev.Garbage(0) == 0xFA
    ensures !dev.At(5).ok && SucceedsAt(dev, 0, dev.Garbage(0), 0)
  {
    assert EmptyAt(dev, 0) == Some(0) && EmptyAt(dev, 2) == Some(2) && FullAt(dev, 4) == Some(4);
    assert NthRound(dev, 0, 0xFA, 0) == RoundAt(dev, 0, 0xFA) == Answered(6, 0xFA);
  }
}
