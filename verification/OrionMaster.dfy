/** `OrionMaster`: the controller as an object, transmitting through the DE line. */
module OrionMaster {
  import opened Bytes
  import opened Crc
  import opened Frames
  import opened Devices
  import opened Mastering

  class Controller {
    const dePin: int
    var driving: bool           // the DE line, meaningful when dePin >= 0
    var mode: Mode
    var detected: bool
    var lastTraffic: uint32
    var timeout: uint32
    var autoPolling: bool
    var addrMin: byte
    var addrMax: byte
    var current: byte
    var lastPoll: uint32
    var interval: uint32
    var phase: nat
    var globalKey: byte
    var messageKey: byte
    var txPackets: nat
    var txErrors: nat
    var responseTimeouts: nat
    var tx: seq<byte>           // every byte written to the serial port

    /** DE is low whenever no call is in progress, and the phase is one of four. */
    ghost predicate Valid()
      reads this
    {
      !driving && phase <= 3
    }

    ghost function State(): Master
      reads this
    {
      Master(mode, detected, lastTraffic, timeout, autoPolling, addrMin, addrMax, current, lastPoll, interval, phase,
             globalKey, messageKey, txPackets, txErrors, responseTimeouts)
    }

    /** The constructor and `begin`. */
    constructor (pin: int)
      ensures Valid() && State() == INITIAL && tx == [] && dePin == pin
    {
      dePin, driving, tx := pin, false, [];
      mode, detected, lastTraffic, timeout := Monitoring, false, 0, 30000;
      autoPolling, addrMin, addrMax, current, lastPoll, interval, phase := true, 1, 127, 1, 0, 100, 0;
      globalKey, messageKey, txPackets, txErrors, responseTimeouts := 0, 0, 0, 0, 0;
    }

    method SetDE(high: bool)
      modifies this`driving
      ensures driving == if dePin >= 0 then high else old(driving)
    {
      if dePin >= 0 {
        driving := high;
      }
    }

    method SwitchToMaster(now: uint32) returns (ok: bool)
      requires Valid()
      modifies this
      ensures Valid() && tx == old(tx)
      ensures ok == MaySwitch(old(State()), now) && State() == Mastering.SwitchToMaster(old(State()), now)
      ensures ok ==> mode.Mastering?
      ensures ok && old(mode).Monitoring? ==>
        State() == old(State()).(mode := Mode.Mastering, current := addrMin, phase := 0, lastPoll := 0)
      ensures !ok || old(mode).Mastering? ==> State() == old(State())
    {
      if mode == Mastering {
        return true;
      }
      if detected {
        return false;
      }
      if lastTraffic > 0 && Elapsed(now, lastTraffic) < timeout {
        return false;
      }
      mode := Mastering;
      current := addrMin;
      phase := 0;
      lastPoll := 0;
      ok := true;
    }

    method SwitchToMonitor()
      requires Valid()
      modifies this
      ensures Valid() && tx == old(tx) && State() == Mastering.SwitchToMonitor(old(State()))
      ensures State() == old(State()).(mode := Monitoring)
    {
      if mode == Monitoring {
        return;
      }
      mode := Monitoring;
      SetDE(false);
    }

    method NotifyBusRequest(now: uint32)
      requires Valid()
      modifies this
      ensures Valid() && tx == old(tx) && State() == Notify(old(State()), now)
      ensures State() == old(State()).(lastTraffic := now, detected := true)
    {
      lastTraffic := now;
      detected := true;
    }

    method UpdateMasterDetection(now: uint32)
      requires Valid()
      modifies this`detected
      ensures Valid() && State() == Detect(old(State()), now)
    {
      if lastTraffic == 0 {
        detected := false;
        return;
      }
      if Elapsed(now, lastTraffic) > timeout {
        if detected {
          detected := false;
        }
      }
    }

    method SetPollRange(lo: byte, hi: byte)
      requires Valid()
      modifies this
      ensures Valid() && tx == old(tx) && State() == Mastering.SetPollRange(old(State()), lo, hi)
      ensures State() == old(State()).(addrMin := addrMin, addrMax := addrMax, current := addrMin)
      ensures (addrMin == lo || (lo == 0 && addrMin == 1)) && 1 <= addrMin
      ensures (addrMax == hi || (hi > MAX_ADDRESS && addrMax == MAX_ADDRESS)) && addrMax <= MAX_ADDRESS
      ensures addrMin <= addrMax <==> lo <= hi && lo <= MAX_ADDRESS && hi >= 1
    {
      var a, b := lo, hi;
      if a < 1 {
        a := 1;
      }
      if b > MAX_ADDRESS {
        b := MAX_ADDRESS;
      }
      addrMin, addrMax, current := a, b, a;
    }

    // --- Packet building ---

    /** `buildPacket`. */
    static method BuildPacket(buf: array<byte>, address: byte, cmd: seq<byte>) returns (len: int)
      requires buf.Length == MAX_PACKET
      modifies buf
      ensures len == -1 <==> address == 0 || address > MAX_ADDRESS || |cmd| > MAX_COMMAND
      ensures len != -1 ==> 0 <= len <= buf.Length && buf[..len] == Frame(address, cmd)
    {
      hide Crc8, ToNat, ToByte;
      if address == 0 || address > MAX_ADDRESS {
        return -1;
      }
      if |cmd| > 200 {
        return -1;
      }
      var n := |cmd|;
      buf[0], buf[1] := address, ToByte(n + 1);
      forall i | 0 <= i < n {
        buf[2 + i] := cmd[i];
      }
      ghost var body := buf[..2 + n];
      assert body == [address, ToByte(n + 1)] + cmd;
      var crc := Compute(buf, 2 + n);
      buf[2 + n] := crc;
      assert buf[..2 + n] == body;
      len := 2 + n + 1;
    }

    /** `buildEncryptedPacket`, writing the cipher straight into the frame. */
    method BuildEncryptedPacket(buf: array<byte>, address: byte, cmd: seq<byte>) returns (len: int)
      requires buf.Length == MAX_PACKET
      modifies buf
      ensures len == -1 <==> address == 0 || address > MAX_ADDRESS || |cmd| > MAX_COMMAND
      ensures len != -1 ==> 0 <= len <= buf.Length
      ensures len != -1 ==> buf[..len] == EncryptedRequest(address, cmd, globalKey, messageKey)
    {
      hide Crc8, ToNat, ToByte, Xor, Mask, Repeat;
      if address == 0 || address > MAX_ADDRESS {
        return -1;
      }
      if |cmd| > 200 {
        return -1;
      }
      var encLen := 1 + |cmd| + 3;
      var head := [address + ENCRYPT_OFFSET, ToByte(encLen + 1)];
      var idx := FillCipher(buf, head, cmd);
      ghost var body := buf[..idx];
      var crc := Compute(buf, idx);
      buf[idx] := crc;
      assert buf[..idx] == body;
      len := idx + 1;
    }

    /** Header, key byte, masked command and padding. */
    method FillCipher(buf: array<byte>, head: seq<byte>, cmd: seq<byte>) returns (idx: nat)
      requires buf.Length == MAX_PACKET && |cmd| <= MAX_COMMAND && |head| == 2
      modifies buf
      ensures idx == |cmd| + 6 && buf[..idx] == head + Encipher(globalKey, messageKey, cmd, REQUEST_PAD)
    {
      hide Xor, Encipher;
      buf[0], buf[1] := head[0], head[1];
      idx := 2;
      buf[idx] := Xor(globalKey, messageKey);
      idx := idx + 1;
      for i := 0 to |cmd|
        invariant idx == 3 + i
        invariant buf[0] == head[0] && buf[1] == head[1] && buf[2] == Xor(globalKey, messageKey)
        invariant forall j :: 3 <= j < 3 + i ==> buf[j] == Xor(cmd[j - 3], messageKey)
      {
        buf[idx] := Xor(cmd[i], messageKey);
        idx := idx + 1;
      }
      Pad(buf, idx);
      idx := idx + 3;
      HeadedCipher(globalKey, messageKey, head, cmd, buf[..idx]);
    }

    /** The three padding bytes. */
    method Pad(buf: array<byte>, at: nat)
      requires at + 3 <= buf.Length
      modifies buf
      ensures forall j :: 0 <= j < at ==> buf[j] == old(buf[j])
      ensures forall j :: at <= j < at + 3 ==> buf[j] == messageKey
    {
      buf[at], buf[at + 1], buf[at + 2] := messageKey, messageKey, messageKey;
    }

    static lemma HeadedCipher(g: byte, k: byte, head: seq<byte>, cmd: seq<byte>, b: seq<byte>)
      requires |head| == 2 && |b| == |cmd| + 6 && b[0] == head[0] && b[1] == head[1] && b[2] == Xor(g, k)
      requires forall j :: 3 <= j < 3 + |cmd| ==> b[j] == Xor(cmd[j - 3], k)
      requires forall j :: 3 + |cmd| <= j < |b| ==> b[j] == k
      ensures b == head + Encipher(g, k, cmd, REQUEST_PAD)
    {
      hide Xor, Encipher;
      forall j | 0 <= j < |cmd|
        ensures b[2..][1 + j] == Xor(cmd[j], k)
      {
        assert b[2..][1 + j] == b[3 + j];
      }
      EncipherIs(g, k, cmd, REQUEST_PAD, b[2..]);
      assert b == b[..2] + b[2..];
    }

    // --- Transmission ---

    /** `transmitPacket`: DE goes high only around the write. */
    method TransmitPacket(data: seq<byte>, air: Air) returns (ret: int)
      requires Valid()
      modifies this`driving, this`tx, this`txPackets, this`txErrors
      ensures Valid()
      ensures !mode.Mastering? ==> ret == -1 && tx == old(tx) && State() == old(State())
      ensures mode.Mastering? && air.accepts < |data| ==>
        ret == -1 && tx == old(tx) + data[..air.accepts] && State() == old(State()).(txErrors := old(txErrors) + 1)
      ensures mode.Mastering? && air.accepts >= |data| ==>
        ret == |data| && tx == old(tx) + data && State() == old(State()).(txPackets := old(txPackets) + 1)
    {
      if mode != Mastering {
        return -1;
      }
      SetDE(true);
      var written := if air.accepts < |data| then air.accepts else |data|;
      tx := tx + data[..written];
      SetDE(false);
      if written != |data| {
        txErrors := txErrors + 1;
        return -1;
      }
      assert data[..|data|] == data;
      txPackets := txPackets + 1;
      ret := written;
    }

    /** A receive loop: read until `need` bytes are there or the time is up. */
    static method ReadUntil(got: seq<byte>, need: nat, ticks: seq<Tick>, from: nat, start: uint32)
      returns (rx: seq<byte>, next: nat)
      requires from <= |ticks|
      ensures from <= next <= |ticks|
      ensures rx + InTime(ticks[next..], start) == got + InTime(ticks[from..], start)
      ensures |got| <= |rx| && (|rx| <= need || rx == got)
      ensures |rx| < need ==> InTime(ticks[next..], start) == []
    {
      rx, next := got, from;
      while |rx| < need && next < |ticks| && Elapsed(ticks[next].now, start) < RESPONSE_TIMEOUT_MS
        invariant from <= next <= |ticks|
        invariant rx + InTime(ticks[next..], start) == got + InTime(ticks[from..], start)
        invariant |got| <= |rx| && (|rx| <= need || rx == got)
        decreases |ticks| - next
      {
        assert ticks[next..][1..] == ticks[next + 1..];
        if ticks[next].avail.Some? {
          rx := rx + [ticks[next].avail.value];
        }
        next := next + 1;
      }
    }

    /** `sendAndReceive`: build, transmit, read two bytes, read the rest, check the CRC. */
    method SendAndReceive(address: byte, cmd: seq<byte>, encrypted: bool, air: Air) returns (ret: int, resp: seq<byte>)
      requires Valid()
      modifies this
      ensures Valid()
      ensures var frame := CommandFrame(old(State()), address, cmd, encrypted);
              && State() == Send(old(State()), frame, air)
              && tx == old(tx) + Written(old(State()), frame, air)
              && ret == SendResult(old(State()), frame, air)
              && (ret == 0 ==> |resp| >= 2 && |resp| == 2 + ToNat(resp[1]) && resp <= InTime(air.ticks, air.start))
    {
      hide Frame, EncryptedRequest, ToNat, Crc8;
      resp := [];
      var txBuf := new byte[MAX_PACKET];
      var txLen: int;
      if encrypted {
        txLen := BuildEncryptedPacket(txBuf, address, cmd);
      } else {
        txLen := BuildPacket(txBuf, address, cmd);
      }
      if txLen < 0 {
        return -1, resp;
      }
      ret := TransmitPacket(txBuf[..txLen], air);
      if ret < 0 {
        return -1, resp;
      }
      ret, resp := AwaitResponse(air);
    }

    /** The receiving half of `sendAndReceive`. */
    method AwaitResponse(air: Air) returns (ret: int, resp: seq<byte>)
      requires Valid()
      modifies this`responseTimeouts
      ensures Valid()
      ensures var rx := InTime(air.ticks, air.start);
              && ret == (if !Answered(rx) then -1
                         else if Crc8(rx[..1 + ToNat(rx[1])]) != rx[1 + ToNat(rx[1])] then -2 else 0)
              && responseTimeouts == old(responseTimeouts) + (if Answered(rx) then 0 else 1)
              && (Answered(rx) ==> |resp| >= 2 && |resp| == 2 + ToNat(resp[1]) && resp <= rx)
    {
      hide ToNat, Crc8, Answered, InTime;
      ghost var rx := InTime(air.ticks, air.start);
      assert air.ticks[0..] == air.ticks && [] + rx == rx;
      var next: nat;
      resp, next := ReadUntil([], 2, air.ticks, 0, air.start);
      Pieces(rx, resp, InTime(air.ticks[next..], air.start));
      if |resp| < 2 {
        responseTimeouts := responseTimeouts + 1;
        return -1, resp;
      }
      var remaining := ToNat(resp[1]);
      resp, next := ReadUntil(resp, 2 + remaining, air.ticks, next, air.start);
      Pieces(rx, resp, InTime(air.ticks[next..], air.start));
      if |resp| < 2 + remaining {
        responseTimeouts := responseTimeouts + 1;
        return -1, resp;
      }
      ret := CheckCrc(resp);
    }

    /** What the bytes read so far say about all those that come in time. */
    static lemma Pieces(rx: seq<byte>, got: seq<byte>, rest: seq<byte>)
      requires got + rest == rx
      ensures got == rx[..|got|] && got <= rx
      ensures |got| >= 2 ==> |rx| >= 2 && rx[1] == got[1]
      ensures |got| >= 2 && |got| == 2 + ToNat(got[1]) ==>
                Answered(rx) && got[..1 + ToNat(got[1])] == rx[..1 + ToNat(got[1])]
                && got[1 + ToNat(got[1])] == rx[1 + ToNat(got[1])]
      ensures rest == [] && (|got| < 2 || |got| < 2 + ToNat(got[1])) ==> !Answered(rx)
    {
      hide ToNat;
    }

    /** The CRC test on a complete response. */
    static method CheckCrc(resp: seq<byte>) returns (ret: int)
      requires |resp| >= 2 && |resp| == 2 + ToNat(resp[1])
      ensures ret == if Crc8(resp[..1 + ToNat(resp[1])]) != resp[1 + ToNat(resp[1])] then -2 else 0
    {
      hide ToNat, Crc8;
      var crcLen := 2 + ToNat(resp[1]) - 1;
      var respBuf := new byte[|resp|](i requires 0 <= i < |resp| => resp[i]);
      assert respBuf[..crcLen] == resp[..crcLen];
      var expected := Compute(respBuf, crcLen);
      ret := if expected != resp[crcLen] then -2 else 0;
    }

    // --- Polling ---

    /** `cmdPing`. */
    method CmdPing(address: byte, air: Air) returns (ret: int)
      requires Valid()
      modifies this
      ensures Valid()
      ensures var frame := CommandFrame(old(State()), address, [CMD_PING], false);
              && State() == Send(old(State()), frame, air) && tx == old(tx) + Written(old(State()), frame, air)
              && ret == SendResult(old(State()), frame, air)
    {
      hide CommandFrame, Send, Written, SendResult;
      var resp;
      ret, resp := SendAndReceive(address, [CMD_PING], false, air);
    }

    /** `cmdReadDeviceInfo`. */
    method CmdReadDeviceInfo(address: byte, air: Air) returns (ret: int)
      requires Valid()
      modifies this
      ensures Valid()
      ensures var frame := CommandFrame(old(State()), address, [CMD_READ_DEVICE_TYPE], false);
              && State() == Send(old(State()), frame, air) && tx == old(tx) + Written(old(State()), frame, air)
              && ret == SendResult(old(State()), frame, air)
    {
      hide CommandFrame, Send, Written, SendResult;
      var resp;
      ret, resp := SendAndReceive(address, [CMD_READ_DEVICE_TYPE], false, air);
    }

    /** `cmdReadStatus`. */
    method CmdReadStatus(address: byte, air: Air) returns (ret: int)
      requires Valid()
      modifies this
      ensures Valid()
      ensures var frame := CommandFrame(old(State()), address, [CMD_READ_STATUS, 0x02], true);
              && State() == Send(old(State()), frame, air) && tx == old(tx) + Written(old(State()), frame, air)
              && ret == SendResult(old(State()), frame, air)
    {
      hide CommandFrame, Send, Written, SendResult;
      var resp;
      ret, resp := SendAndReceive(address, [CMD_READ_STATUS, 0x02], true, air);
    }

    /** `cmdReadEvent`. */
    method CmdReadEvent(address: byte, air: Air) returns (ret: int)
      requires Valid()
      modifies this
      ensures Valid()
      ensures var frame := CommandFrame(old(State()), address, [CMD_READ_EVENT], true);
              && State() == Send(old(State()), frame, air) && tx == old(tx) + Written(old(State()), frame, air)
              && ret == SendResult(old(State()), frame, air)
    {
      hide CommandFrame, Send, Written, SendResult;
      var resp;
      ret, resp := SendAndReceive(address, [CMD_READ_EVENT], true, air);
    }

    /** The cursor moves: next phase, and after the last phase the next address of the range. */
    method MoveCursor()
      requires Valid()
      modifies this`phase, this`current
      ensures Valid() && State() == Advance(old(State()))
    {
      hide NextAddress;
      if phase < 3 {
        phase := phase + 1;
      } else {
        phase := 0;
        current := NextAddress(current, addrMin, addrMax);
      }
    }

    /** The switch of `doAutoPoll`: one command by phase, then the cursor. */
    method PollStep(air: Air)
      requires Valid()
      modifies this
      ensures Valid()
      ensures var p := old(State());
              State() == Advance(Send(p, PhaseFrame(p), air)) && tx == old(tx) + Written(p, PhaseFrame(p), air)
    {
      hide CommandFrame, Send, Written, SendResult, Advance;
      if phase == 0 {
        var _ := CmdPing(current, air);
      } else if phase == 1 {
        var _ := CmdReadDeviceInfo(current, air);
      } else if phase == 2 {
        var _ := CmdReadStatus(current, air);
      } else {
        var _ := CmdReadEvent(current, air);
      }
      MoveCursor();
    }

    /** `doAutoPoll`. */
    method DoAutoPoll(now: uint32, air: Air)
      requires Valid()
      modifies this
      ensures Valid()
      ensures if Elapsed(now, old(lastPoll)) < old(interval) then State() == old(State()) && tx == old(tx)
              else var p := old(State()).(lastPoll := now);
                   State() == Advance(Send(p, PhaseFrame(p), air)) && tx == old(tx) + Written(p, PhaseFrame(p), air)
    {
      hide PhaseFrame, Send, Written, Advance;
      if Elapsed(now, lastPoll) < interval {
        return;
      }
      lastPoll := now;
      PollStep(air);
    }

    /** `poll`. */
    method Poll(now: uint32, air: Air)
      requires Valid()
      modifies this
      ensures Valid()
      ensures State() == Mastering.Poll(old(State()), now, air)
      ensures tx == old(tx) + PollWritten(old(State()), now, air)
    {
      hide PhaseFrame, Send, Written, Advance;
      UpdateMasterDetection(now);
      assert Detect(old(State()), now) == State();
      if mode == Mastering {
        if detected {
          mode := Monitoring;
          SetDE(false);
          return;
        }
        if autoPolling {
          ghost var d := State();
          DoAutoPoll(now, air);
          SameFrame(old(State()), d.(lastPoll := now), air);
        }
      }
    }

    /** The frame of a phase and what is written depend on cursor, keys and mode alone. */
    static lemma SameFrame(m: Master, p: Master, air: Air)
      requires p.mode == m.mode && p.phase == m.phase && p.current == m.current
      requires p.globalKey == m.globalKey && p.messageKey == m.messageKey
      ensures Written(p, PhaseFrame(p), air) == Written(m, PhaseFrame(m), air)
    {
      hide Frame, EncryptedRequest;
    }
  }
}
