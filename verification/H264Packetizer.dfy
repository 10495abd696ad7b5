/** The packetizer object with its two operations and the driver's loop, working in place on
    byte buffers (packed/h264_packetizer.c; UnitTest.c, lines 150-173). */
module H264Packetizer {
  import opened Bytes
  import opened H264Payload
  import opened H264Unpack
  import opened Buffers

  /** The start code search at the offset, and the byte after its 01. */
  method FindUnitStart(buf: array<byte>, bufLen: nat, pos: nat) returns (octet: Option<nat>)
    requires pos <= bufLen <= buf.Length
    ensures octet == UnitStart(buf[..bufLen], pos)
  {
    octet := None;
    ghost var input := buf[..bufLen];
    if bufLen - pos >= 4 {
      var n := FindNextNalUnit(buf, pos, pos + 4);
      SearchInPrefix(buf[..], input, pos, pos + 4);
      if n.Some? {
        SkipFoundStartCode(input, pos, n.value);
        var p := n.value;
        while buf[p] == 0
          invariant n.value <= p < SkipStartCode(input, n.value) <= bufLen
          invariant SkipStartCode(input, p) == SkipStartCode(input, n.value)
          decreases bufLen - p
        {
          p := p + 1;
        }
        octet := Some(p + 1);
      }
    }
  }

  method FindUnitEnd(cfg: Config, buf: array<byte>, bufLen: nat, start: nat) returns (end: nat)
    requires cfg.mtu >= 0 && start <= bufLen <= buf.Length
    ensures end == UnitEnd(cfg, buf[..bufLen], start)
  {
    var limit := start + cfg.mtu + 1;
    if limit > bufLen || cfg.mode.SingleNal? {
      limit := bufLen;
    }
    var found := FindNextNalUnit(buf, start, limit);
    SearchInPrefix(buf[..], buf[..bufLen], start, limit);
    end := if found.Some? then found.value else limit;
  }

  method WriteFuHeaders(buf: array<byte>, at: nat, nri: byte, nalType: byte, first: bool, last: bool)
    requires at + 2 <= buf.Length
    modifies buf
    ensures buf[at] == Octet(nri, FU_A) && buf[at + 1] == FuHeader(nalType, first, last)
    ensures forall i :: 0 <= i < at || at + 2 <= i < buf.Length ==> buf[i] == old(buf[i])
  {
    HeaderByParts(nalType, first, last);
    buf[at] := Octet(nri, FU_A);
    buf[at + 1] := nalType;
    if first {
      buf[at + 1] := buf[at + 1] | S_BIT;
    }
    if last {
      buf[at + 1] := buf[at + 1] | E_BIT;
    }
  }

  /** Writes the two header bytes in front of the data, in place, and copies the payload. */
  method EmitFu(cfg: Config, buf: array<byte>, bufLen: nat, data: nat, end: nat,
                      nri: byte, nalType: byte, first: bool, payload: array<byte>)
    returns (newPos: nat, newLen: nat)
    requires cfg.mtu >= 2 && 2 <= data <= end <= bufLen <= buf.Length
    requires payload != buf && payload.Length >= cfg.mtu
    modifies buf, payload
    ensures forall i :: bufLen <= i < buf.Length ==> buf[i] == old(buf[i])
    ensures newLen <= payload.Length
    ensures Emitted(buf[..bufLen], newPos, payload[..newLen])
         == FuStep(cfg, old(buf[..bufLen]), data, end, nri, nalType, first)
  {
    hide FuHeader, Octet;
    WriteFuHeaders(buf, data - 2, nri, nalType, first, end - data + 2 <= cfg.mtu);
    ghost var step := FuStep(cfg, old(buf[..bufLen]), data, end, nri, nalType, first);
    assert buf[..bufLen] == step.buf;
    newLen := if end - data + 2 > cfg.mtu then cfg.mtu else end - data + 2;
    newPos, newLen := EmitWhole(buf, bufLen, data - 2, data - 2 + newLen, payload);
  }

  /** The fragmentation branch: header bits from the NAL octet or read back mtu bytes before. */
  method EmitFragment(cfg: Config, buf: array<byte>, bufLen: nat, pos: nat, start: nat, end: nat, first: bool,
                      payload: array<byte>, payloadLen: nat)
    returns (status: Status, newPos: nat, newLen: nat)
    requires cfg.mtu >= 2 && start <= end <= bufLen <= buf.Length && (first ==> 3 <= start < end)
    requires payload != buf && payload.Length >= cfg.mtu
    modifies buf, payload
    ensures forall i :: bufLen <= i < buf.Length ==> buf[i] == old(buf[i])
    ensures Reported(FragmentStep(cfg, old(buf[..bufLen]), start, end, first), status, buf, bufLen, newPos, payload, newLen)
    ensures !status.Success? ==> newPos == pos && newLen == payloadLen && Untouched(buf, payload)
  {
    newPos, newLen := pos, payloadLen;
    if first {
      newPos, newLen := EmitFu(cfg, buf, bufLen, start + 1, end, Nri(buf[start]), NalType(buf[start]), true, payload);
    } else {
      var p := start - cfg.mtu;
      if p < 0 || p >= bufLen {
        return ECancelled, newPos, newLen;
      }
      newPos, newLen := EmitFu(cfg, buf, bufLen, start, end, Nri(buf[p]), NalType(buf[p + 1]), false, payload);
    }
    status := Success;
  }

  /** What a caller is told matches a step of the specification. */
  ghost predicate Reported(step: Step, status: Status, buf: array<byte>, bufLen: nat, newPos: nat,
                           payload: array<byte>, newLen: nat)
    requires bufLen <= buf.Length
    reads buf, payload
  {
    if step.Emitted? then
      status == Success && newLen <= payload.Length && step == Emitted(buf[..bufLen], newPos, payload[..newLen])
    else
      status == step.error && status != Success
  }

  twostate predicate Untouched(a: array<byte>, b: array<byte>)
    reads a, b
  {
    (forall i :: 0 <= i < a.Length ==> a[i] == old(a[i])) && (forall i :: 0 <= i < b.Length ==> b[i] == old(b[i]))
  }

  class Packetizer {
    var cfg: Config
    var unpackLastSyncPos: nat
    var unpackPrevLost: bool

    constructor (cfg: Config)
      ensures this.cfg == cfg && unpackLastSyncPos == 0 && !unpackPrevLost
    {
      this.cfg := cfg;
      unpackLastSyncPos := 0;
      unpackPrevLost := false;
    }

    /** pjmedia_h264_packetize. */
    method Packetize(buf: array<byte>, bufLen: nat, pos: nat, payload: array<byte>, payloadLen: nat)
      returns (status: Status, newPos: nat, newLen: nat)
      requires cfg.mtu >= 2 && pos <= bufLen <= buf.Length
      requires payload != buf && payload.Length >= cfg.mtu
      requires cfg.mode.SingleNal? ==> UnitStart(buf[..bufLen], pos).Some?
      modifies buf, payload
      ensures forall i :: bufLen <= i < buf.Length ==> buf[i] == old(buf[i])
      ensures Reported(PacketizeStep(cfg, old(buf[..bufLen]), pos), status, buf, bufLen, newPos, payload, newLen)
      ensures !status.Success? ==> newPos == pos && newLen == payloadLen && Untouched(buf, payload)
    {
      newPos, newLen := pos, payloadLen;
      var octet := FindUnitStart(buf, bufLen, pos);
      var start := if octet.Some? then octet.value else pos;
      var end := FindUnitEnd(cfg, buf, bufLen, start);

      if cfg.mode.SingleNal? && end - start > cfg.mtu {
        return ETooSmall, newPos, newLen;
      }

      if !cfg.mode.SingleNal? && (octet.None? || end - start > cfg.mtu) {
        status, newPos, newLen := EmitFragment(cfg, buf, bufLen, pos, start, end, octet.Some?, payload, payloadLen);
      } else {
        newPos, newLen := EmitWhole(buf, bufLen, start, end, payload);
        status := Success;
      }
    }

    /** pjmedia_h264_unpacketize; payload is null for a reported loss. Bytes below the offset
        are never written, whatever the outcome. */
    method Unpacketize(payload: array?<byte>, payloadLen: nat, bits: array<byte>, bitsLen: nat, bitsPos: nat)
      returns (status: Status, newPos: nat)
      requires bitsPos <= bitsLen <= bits.Length
      requires payload != null ==> payload != bits && payloadLen <= payload.Length
      requires SyncOk(Unpacker(bits[..bitsPos], unpackLastSyncPos, unpackPrevLost))
      requires payload != null && payloadLen >= 2 && NalType(payload[0]) == STAP_A
               && bitsLen - bitsPos >= payloadLen + 32
               ==> StapFits(payload[1..payloadLen], bitsLen - bitsPos)
      modifies this`unpackLastSyncPos, this`unpackPrevLost, bits
      ensures newPos <= bitsLen
      ensures (Unpacker(bits[..newPos], unpackLastSyncPos, unpackPrevLost), status)
           == UnpackStep(Unpacker(old(bits[..bitsPos]), old(unpackLastSyncPos), old(unpackPrevLost)),
                         if payload == null then None else Some(old(payload[..payloadLen])), bitsLen)
      ensures forall i :: 0 <= i < bitsPos || bitsLen <= i < bits.Length ==> bits[i] == old(bits[i])
    {
      hide StapWalk, StapFits, FuUnpack, U16, NalType;
      newPos := bitsPos;
      if payload == null {
        unpackPrevLost := true;
        return Success, newPos;
      }
      if payloadLen < 2 {
        unpackPrevLost := true;
        return EInval, newPos;
      }
      if bitsPos == 0 {
        unpackLastSyncPos := 0;
      }
      ghost var st, data := Unpacker(bits[..bitsPos], unpackLastSyncPos, unpackPrevLost), payload[..payloadLen];
      assert st.out == [] <==> bitsPos == 0;
      var nalType := NalType(payload[0]);
      if 1 <= nalType <= 23 {
        if bitsLen - bitsPos < payloadLen + 4 {
          return ETooSmall, newPos;
        }
        newPos := WriteUnit(payload, 0, payloadLen, bits, bitsPos);
        assert payload[0..payloadLen] == payload[..payloadLen];
        unpackLastSyncPos := newPos;
      } else if nalType == STAP_A {
        if bitsLen - bitsPos < payloadLen + 32 {
          return ETooSmall, newPos;
        }
        var ok;
        ok, newPos := UnpackAggregate(payload, payloadLen, bits, bitsLen, bitsPos);
        assert payload[..payloadLen][1..] == payload[1..payloadLen];
        if !ok {
          return EInval, newPos;
        }
      } else if nalType == FU_A {
        status, newPos := UnpackFragment(payload, payloadLen, bits, bitsLen, bitsPos);
        assert (Unpacker(bits[..newPos], unpackLastSyncPos, unpackPrevLost), status) == FuUnpack(st, data, bitsLen);
        return status, newPos;
      } else {
        newPos := 0;
        return ENotSup, newPos;
      }
      unpackPrevLost := false;
      status := Success;
    }

    /** An FU-A payload: start code and octet with S, rollback without S after a loss. */
    method UnpackFragment(payload: array<byte>, payloadLen: nat, bits: array<byte>, bitsLen: nat, bitsPos: nat)
      returns (status: Status, newPos: nat)
      requires payload != bits && 2 <= payloadLen <= payload.Length && bitsPos <= bitsLen <= bits.Length
      requires unpackLastSyncPos <= bitsPos
      modifies this`unpackLastSyncPos, this`unpackPrevLost, bits
      ensures newPos <= bitsLen
      ensures (Unpacker(bits[..newPos], unpackLastSyncPos, unpackPrevLost), status)
           == FuUnpack(Unpacker(old(bits[..bitsPos]), old(unpackLastSyncPos), old(unpackPrevLost)),
                       old(payload[..payloadLen]), bitsLen)
      ensures forall i :: 0 <= i < bitsPos || bitsLen <= i < bits.Length ==> bits[i] == old(bits[i])
    {
      newPos := bitsPos;
      if bitsLen - bitsPos < payloadLen + 4 {
        unpackPrevLost := true;
        return ETooSmall, newPos;
      }
      ghost var data := payload[..payloadLen];
      assert data[0] == payload[0] && data[1] == payload[1];
      var first, last := payload[1] & S_BIT != 0, payload[1] & E_BIT != 0;
      if !first && unpackPrevLost {
        assert unpackLastSyncPos <= bitsPos;
        newPos := unpackLastSyncPos;
        assert bits[..newPos] == bits[..bitsPos][..newPos];
        return EIgnored, newPos;
      }
      newPos := WriteFragment(payload, payloadLen, bits, bitsPos, first);
      if last {
        unpackLastSyncPos := newPos;
      }
      unpackPrevLost := false;
      status := Success;
    }

    /** The aggregation loop: start codes and units, until the payload or the room ends or a
        size overruns the payload. */
    method UnpackAggregate(payload: array<byte>, payloadLen: nat, bits: array<byte>, bitsLen: nat, bitsPos: nat)
      returns (ok: bool, newPos: nat)
      requires payload != bits && 2 <= payloadLen <= payload.Length && bitsPos <= bitsLen <= bits.Length
      requires StapFits(payload[1..payloadLen], bitsLen - bitsPos)
      modifies this`unpackLastSyncPos, bits
      ensures var a := StapWalk(old(payload[1..payloadLen]), bitsLen - bitsPos);
              && ok == a.ok
              && newPos == bitsPos + |a.out| <= bitsLen
              && bits[..newPos] == old(bits[..bitsPos]) + a.out
              && unpackLastSyncPos == if a.units == 0 then old(unpackLastSyncPos) else newPos
      ensures forall i :: 0 <= i < bitsPos || bitsLen <= i < bits.Length ==> bits[i] == old(bits[i])
    {
      hide StapWalk, StapFits, U16, WalkedSoFar;
      newPos := bitsPos;
      var q := 1;
      ghost var data := payload[1..payloadLen];
      ghost var before := bits[..bitsPos];
      ghost var all := StapWalk(data, bitsLen - bitsPos);
      ghost var done: Aggregate := Aggregate([], 0, true);
      WalkBegins(data, bitsLen - bitsPos);
      while q < payloadLen && newPos < bitsLen
        invariant 1 <= q <= payloadLen && newPos == bitsPos + |done.out| <= bitsLen
        invariant payload[1..payloadLen] == data
        invariant WalkedSoFar(all, done, data, q - 1, bitsLen - newPos)
        invariant bits[..newPos] == before + done.out
        invariant forall i :: 0 <= i < bitsPos || bitsLen <= i < bits.Length ==> bits[i] == old(bits[i])
        invariant unpackLastSyncPos == if done.units == 0 then old(unpackLastSyncPos) else newPos
        decreases payloadLen - q
      {
        ok, q, newPos, done := UnpackOne(payload, payloadLen, q, bits, newPos, bitsLen, data, all, done, before);
        if !ok {
          return ok, newPos;
        }
        unpackLastSyncPos := newPos;
      }
      WalkEnds(all, done, data, q - 1, bitsLen - newPos);
      ok := true;
    }
  }

  /** Start code and rebuilt octet for a first fragment, then the fragment's data. */
  method WriteFragment(payload: array<byte>, payloadLen: nat, bits: array<byte>, p: nat, first: bool) returns (newPos: nat)
    requires payload != bits && 2 <= payloadLen <= payload.Length && p + payloadLen + 4 <= bits.Length
    modifies bits
    ensures p <= newPos <= p + payloadLen + 4
    ensures bits[..newPos] == old(bits[..p])
        + ((if first then START_CODE + [Octet(Nri(payload[0]), NalType(payload[1]))] else []) + payload[..payloadLen][2..])
    ensures forall i :: 0 <= i < p || p + payloadLen + 4 <= i < bits.Length ==> bits[i] == old(bits[i])
  {
    hide Octet, Nri, NalType;
    newPos := p;
    SubSlice(payload, 0, payloadLen, 2, payloadLen);
    ghost var head: seq<byte> := [];
    if first {
      newPos := WriteHead(bits, p, Octet(Nri(payload[0]), NalType(payload[1])));
      head := START_CODE + [Octet(Nri(payload[0]), NalType(payload[1]))];
    }
    assert bits[..newPos] == old(bits[..p]) + head;
    newPos := AppendBytes(payload, 2, payloadLen - 2, bits, newPos);
    ConcatAssociates(old(bits[..p]), head, payload[2..payloadLen]);
  }

  method WriteHead(bits: array<byte>, p: nat, octet: byte) returns (newPos: nat)
    requires p + 5 <= bits.Length
    modifies bits
    ensures newPos == p + 5 && bits[..newPos] == old(bits[..p]) + (START_CODE + [octet])
    ensures forall i :: 0 <= i < p || p + 5 <= i < bits.Length ==> bits[i] == old(bits[i])
  {
    newPos := WriteStartCode(bits, p);
    bits[newPos] := octet;
    assert bits[..newPos + 1] == old(bits[..p]) + START_CODE + [octet];
    ConcatAssociates(old(bits[..p]), START_CODE, [octet]);
    newPos := newPos + 1;
  }

  /** One round: the start code is written before the size is looked at. A size cut off at the
      payload's end is as invalid as one that overruns it. */
  method UnpackOne(payload: array<byte>, payloadLen: nat, q: nat, bits: array<byte>, p: nat, ghost bitsLen: nat,
                   ghost data: seq<byte>, ghost all: Aggregate, ghost done: Aggregate, ghost before: seq<byte>)
    returns (ok: bool, next: nat, newPos: nat, ghost more: Aggregate)
    requires payload != bits && 1 <= q < payloadLen <= payload.Length && data == payload[1..payloadLen]
    requires p < bitsLen <= bits.Length && bits[..p] == before + done.out
    requires WalkedSoFar(all, done, data, q - 1, bitsLen - p)
    modifies bits
    ensures p <= newPos <= bitsLen
    ensures ok ==> q + 2 <= next <= payloadLen && more.units == done.units + 1
                   && |more.out| == |done.out| + (newPos - p)
                   && WalkedSoFar(all, more, data, next - 1, bitsLen - newPos)
    ensures !ok ==> newPos == p && more == done && all == Aggregate(done.out, done.units, false)
    ensures bits[..newPos] == before + more.out
    ensures forall i :: 0 <= i < p || bitsLen <= i < bits.Length ==> bits[i] == old(bits[i])
  {
    hide U16, WalkedSoFar;
    ok, next, newPos, more := false, q, p, done;
    if payloadLen - q < 2 || q + 2 + U16(payload[q], payload[q + 1]) > payloadLen {
      WalkStops(all, done, data, q - 1, bitsLen - p);
      var cut := WriteStartCode(bits, p);
      return;
    }
    var size := U16(payload[q], payload[q + 1]);
    ghost var unit := START_CODE + data[q + 1..q + 1 + size];
    WalkAdvances(all, done, data, q - 1, bitsLen - p, size, unit);
    newPos := WriteUnit(payload, q + 2, size, bits, p);
    SubSlice(payload, 1, payloadLen, q + 1, q + 1 + size);
    ConcatAssociates(before, done.out, unit);
    more := Aggregate(done.out + unit, done.units + 1, true);
    next := q + 2 + size;
    ok := true;
  }

  /** The whole walk is what has been written followed by the walk over the data from q on, and
      what is left of it fits. */
  ghost predicate WalkedSoFar(all: Aggregate, done: Aggregate, data: seq<byte>, q: nat, room: nat)
    requires q <= |data|
  {
    var rest := StapWalk(data[q..], room);
    all == Aggregate(done.out + rest.out, done.units + rest.units, rest.ok) && StapFits(data[q..], room)
  }

  lemma WalkStops(all: Aggregate, done: Aggregate, data: seq<byte>, q: nat, room: nat)
    requires q < |data| && room > 0 && WalkedSoFar(all, done, data, q, room)
    requires |data| - q < 2 || q + 2 + U16(data[q], data[q + 1]) > |data|
    ensures all == Aggregate(done.out, done.units, false) && room >= 4
  {
  }

  lemma WalkBegins(data: seq<byte>, room: nat)
    requires StapFits(data, room)
    ensures WalkedSoFar(StapWalk(data, room), Aggregate([], 0, true), data, 0, room)
  {
    assert data[0..] == data;
  }

  lemma WalkEnds(all: Aggregate, done: Aggregate, data: seq<byte>, q: nat, room: nat)
    requires q <= |data| && (q == |data| || room == 0) && WalkedSoFar(all, done, data, q, room)
    ensures all == Aggregate(done.out, done.units, true)
  {
  }

  lemma WalkUnfolds(data: seq<byte>, q: nat, room: nat)
    requires q + 2 <= |data| && q + 2 + U16(data[q], data[q + 1]) <= |data| && room > 0
    requires StapFits(data[q..], room)
    ensures var size := U16(data[q], data[q + 1]);
            room >= 4 + size && StapFits(data[q + 2 + size..], room - 4 - size)
    ensures var size := U16(data[q], data[q + 1]);
            var rest := StapWalk(data[q + 2 + size..], room - 4 - size);
            StapWalk(data[q..], room)
            == Aggregate((START_CODE + data[q + 2..q + 2 + size]) + rest.out, rest.units + 1, rest.ok)
  {
    hide U16, StapWalk;
    var size, tail := U16(data[q], data[q + 1]), data[q..];
    assert tail[2..2 + size] == data[q + 2..q + 2 + size];
    assert tail[2 + size..] == data[q + 2 + size..];
    WalkOne(tail, data[q + 2..q + 2 + size], data[q + 2 + size..], room);
  }

  lemma WalkAdvances(all: Aggregate, done: Aggregate, data: seq<byte>, q: nat, room: nat, size: nat, unit: seq<byte>)
    requires q + 2 + size <= |data| && size == U16(data[q], data[q + 1]) && room > 0
    requires unit == START_CODE + data[q + 2..q + 2 + size]
    requires WalkedSoFar(all, done, data, q, room)
    ensures room >= 4 + size
    ensures WalkedSoFar(all, Aggregate(done.out + unit, done.units + 1, true), data, q + 2 + size, room - 4 - size)
  {
    hide U16;
    hide StapWalk;
    WalkUnfolds(data, q, room);
    ConcatAssociates(done.out, unit, StapWalk(data[q + 2 + size..], room - 4 - size).out);
  }

  lemma HeaderByParts(nalType: byte, first: bool, last: bool)
    ensures FuHeader(nalType, first, last)
         == var h := if first then nalType | S_BIT else nalType; if last then h | E_BIT else h
  {
  }

  lemma RunUnfolds(cfg: Config, buf: seq<byte>, pos: nat)
    requires cfg.mtu >= 2 && pos < |buf| && !cfg.mode.SingleNal?
    requires PacketizeRun(cfg, buf, pos).Some?
    ensures var step := PacketizeStep(cfg, buf, pos);
            && step.Emitted? && step.pos > pos
            && PacketizeRun(cfg, step.buf, step.pos).Some?
            && PacketizeRun(cfg, buf, pos).value == [step.payload] + PacketizeRun(cfg, step.buf, step.pos).value
  {
  }

  /** The driver's loop: hands out payloads until the offset reaches the end of the unit.
      It is asked only where the loop ends; H264Fragmentation.RunEmitsPayloads says where. */
  method PacketizeUnit(pktz: Packetizer, bits: array<byte>, bitsLen: nat) returns (payloads: seq<seq<byte>>)
    requires pktz.cfg.mtu >= 2 && !pktz.cfg.mode.SingleNal? && bitsLen <= bits.Length
    requires PacketizeRun(pktz.cfg, bits[..bitsLen], 0).Some?
    modifies bits
    ensures payloads == PacketizeRun(pktz.cfg, old(bits[..bitsLen]), 0).value
    ensures forall i :: bitsLen <= i < bits.Length ==> bits[i] == old(bits[i])
  {
    hide PacketizeStep;
    payloads := [];
    var payload := new byte[pktz.cfg.mtu];
    var pos, len := 0, 0;
    ghost var all := PacketizeRun(pktz.cfg, bits[..bitsLen], 0).value;
    while pos < bitsLen
      invariant pos <= bitsLen
      invariant PacketizeRun(pktz.cfg, bits[..bitsLen], pos).Some?
      invariant all == payloads + PacketizeRun(pktz.cfg, bits[..bitsLen], pos).value
      invariant forall i :: bitsLen <= i < bits.Length ==> bits[i] == old(bits[i])
      decreases bitsLen - pos
    {
      RunUnfolds(pktz.cfg, bits[..bitsLen], pos);
      var res;
      res, pos, len := pktz.Packetize(bits, bitsLen, pos, payload, len);
      payloads := payloads + [payload[..len]];
    }
  }
}
