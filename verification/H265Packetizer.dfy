/** The H.265 packetizer with the record it keeps between calls, the depacketizer, and the
    driver's loop (packed/h264_packetizer.c, lines 664-1077; UnitTest.c, lines 175-197). */
module H265Packetizer {
  import opened Bytes
  import opened Buffers
  import opened H265Payload
  import H265Unpack
  import Rtp

  class Packetizer {
    var nalType: byte
    var start: bool
    var end: bool
    var len: int
    var startCode: bool
    var pos: nat
    var headerLen: nat
    var fuPacket: bool

    ghost function View(): Msg
      reads this
    {
      Msg(nalType, start, end, len, startCode, pos, headerLen, fuPacket)
    }

    constructor ()
      ensures View() == EMPTY_MSG
    {
      nalType, start, end, len := 0, false, false, 0;
      startCode, pos, headerLen, fuPacket := false, 0, 0, false;
    }

    /** memset of the record. */
    method Clear()
      modifies this
      ensures View() == EMPTY_MSG
    {
      nalType, start, end, len := 0, false, false, 0;
      startCode, pos, headerLen, fuPacket := false, 0, 0, false;
    }

    /** packetize_rtp_payload_msg. */
    method PrepareMessage(buf: array<byte>, bufLen: nat)
      requires LookSafe(buf[..], bufLen, pos) && headerLen <= 4
      modifies this
      ensures View() == Prepare(buf[..], bufLen, old(View()))
    {
      hide FindNalUnit, PrepareInside, PrepareUnit;
      var nalStart := FindNextNalUnit(buf, pos, pos + LOOK);
      if nalStart.None? {
        ContinueUnit(buf, bufLen);
      } else {
        BeginUnit(buf, bufLen, nalStart.value);
      }
    }

    method ContinueUnit(buf: array<byte>, bufLen: nat)
      requires pos < bufLen <= buf.Length
      modifies this
      ensures View() == PrepareInside(buf[..], bufLen, old(View()))
    {
      hide FindNalUnit;
      var left := bufLen - pos;
      var within := if left < WITHIN then left else WITHIN;
      start, startCode := false, false;
      var next := FindNextNalUnit(buf, pos, pos + within);
      if next.Some? {
        len, end := next.value - pos, true;
      } else {
        len, end := if left < PAYLOAD_SIZE then left else PAYLOAD_SIZE, left < PAYLOAD_SIZE;
      }
    }

    method BeginUnit(buf: array<byte>, bufLen: nat, nalStart: nat)
      requires bufLen + SLACK <= buf.Length && headerLen <= 4
      requires pos <= nalStart <= pos + 1 && bufLen - pos >= LOOK
      modifies this
      ensures View() == PrepareUnit(buf[..], bufLen, old(View()), nalStart)
    {
      hide FindNalUnit, UnitLen, IsLong, NalType, Min;
      ghost var mem := buf[..];
      start, end, startCode := false, false, true;
      nalType := NalType(buf[nalStart + headerLen]);
      if !IsParameterSet(nalType) {
        start := true;
        fuPacket := ConfirmFuPacket(buf, bufLen, nalStart, headerLen);
        assert buf[..] == mem;
      }
      TakeLength(buf, bufLen, nalStart);
      assert buf[..] == mem;
    }

    /** Length and E bit of a unit's first payload. */
    method TakeLength(buf: array<byte>, bufLen: nat, nalStart: nat)
      requires bufLen + SLACK <= buf.Length && headerLen <= 4 && !end
      requires pos <= nalStart <= pos + 1 && bufLen - pos >= LOOK
      modifies this`len, this`end
      ensures len == UnitLen(buf[..], bufLen, pos, nalStart, headerLen)
      ensures var left := bufLen - pos;
              end == if FindNalUnit(buf[..], nalStart + headerLen, nalStart + Min(left, WITHIN)).None?
                     then left < PAYLOAD_SIZE else nalType == 19 || nalType == 1
    {
      hide FindNalUnit, UnitLen;
      var left := bufLen - pos;
      var within := if left < WITHIN then left else WITHIN;
      var nalEnd := FindNextNalUnit(buf, nalStart + headerLen, nalStart + within);
      UnitLenUnfolds(buf[..], bufLen, pos, nalStart, headerLen);
      if nalEnd.Some? {
        len := nalEnd.value - nalStart;
        if nalType == 19 || nalType == 1 {
          end := true;
        }
      } else {
        len, end := if left < PAYLOAD_SIZE then left else PAYLOAD_SIZE, left < PAYLOAD_SIZE;
      }
    }

    /** pjmedia_h265_packetize; false for -1. */
    method Packetize(buf: array<byte>, bufLen: nat, pos: nat, payload: array<byte>, payloadLen: nat)
      returns (ok: bool, newPos: nat, newLen: nat)
      requires bufLen <= buf.Length && headerLen <= 4
      requires bufLen > 3 ==> LookSafe(buf[..], bufLen, pos)
      requires payload != buf && payload.Length >= WITHIN + 3
      modifies this, payload
      ensures var step := PacketizeStep(old(View()), buf[..], bufLen, pos);
              if step.Emitted? then
                ok && newLen <= payload.Length && step == Emitted(View(), newPos, payload[..newLen])
              else
                !ok && newPos == pos && newLen == payloadLen && View() == old(View()) && payload[..] == old(payload[..])
    {
      hide Prepare, PayloadOf, LookSafe, HeaderLen;
      if bufLen <= 3 {
        return false, pos, payloadLen;
      }
      if pos == 0 {
        Clear();
        headerLen := FindHeaderLen(buf);
      }
      this.pos := pos;
      PrepareMessage(buf, bufLen);
      newLen := FillPayload(buf, payload);
      ok, newPos := true, pos + len;
    }

    /** The copying half: the unit's bytes alone, or behind the two FU headers. */
    method FillPayload(buf: array<byte>, payload: array<byte>) returns (newLen: nat)
      requires payload != buf && payload.Length >= WITHIN + 3
      requires (if startCode then headerLen else 0) <= len <= WITHIN && pos + len <= buf.Length
      requires startCode && fuPacket && !IsParameterSet(nalType) ==> len >= headerLen + 2
      modifies payload
      ensures newLen <= payload.Length && payload[..newLen] == PayloadOf(View(), buf[..])
    {
      hide NalType, FuHeaders, IsParameterSet;
      var from := pos + if startCode then headerLen else 0;
      var to := pos + len;
      if IsParameterSet(nalType) || !fuPacket {
        newLen := CopyRange(buf, from, to, payload, 0);
      } else {
        WriteFuHeaders(payload, nalType, start, end);
        if startCode {
          from := from + 2;
        }
        newLen := CopyRange(buf, from, to, payload, 3);
      }
    }
  }

  lemma UnitLenUnfolds(mem: seq<byte>, bufLen: nat, pos: nat, nalStart: nat, headerLen: nat)
    requires bufLen + SLACK <= |mem| && headerLen <= 4
    requires pos <= nalStart <= pos + 1 && bufLen - pos >= LOOK
    ensures UnitLen(mem, bufLen, pos, nalStart, headerLen)
         == var e := FindNalUnit(mem, nalStart + headerLen, nalStart + Min(bufLen - pos, WITHIN));
            if e.Some? then e.value - nalStart else Min(bufLen - pos, PAYLOAD_SIZE)
  {
  }

  /** find_nalu_heard_len. */
  method FindHeaderLen(buf: array<byte>) returns (h: nat)
    requires buf.Length >= 4
    ensures h == HeaderLen(buf[..])
  {
    if buf[0] == 0 && buf[1] == 0 && buf[2] == 0 && buf[3] == 1 {
      h := 4;
    } else if buf[0] == 0 && buf[1] == 0 && buf[2] == 1 {
      h := 3;
    } else {
      h := 0;
    }
  }

  /** find_nalu_confirm_fu_packet. */
  method ConfirmFuPacket(buf: array<byte>, bufLen: nat, nalStart: nat, headerLen: nat) returns (long: bool)
    requires bufLen <= buf.Length && nalStart + headerLen <= buf.Length
    ensures long == IsLong(buf[..], bufLen, nalStart, headerLen)
  {
    var nalEnd := FindNextNalUnit(buf, nalStart + headerLen, bufLen);
    var len := (if nalEnd.Some? then nalEnd.value else bufLen) - nalStart - headerLen;
    long := !(len < PAYLOAD_SIZE);
  }

  /** memcpy of a range behind the first `at` bytes of the payload. */
  method CopyRange(buf: array<byte>, from: nat, to: nat, payload: array<byte>, at: nat) returns (len: nat)
    requires from <= to <= buf.Length && payload != buf && at + to - from <= payload.Length
    modifies payload
    ensures len == at + to - from && payload[..len] == old(payload[..at]) + buf[..][from..to]
  {
    assert buf[from..to] == buf[..][from..to];
    len := AppendBytes(buf, from, to - from, payload, at);
  }

  method WriteFuHeaders(payload: array<byte>, nalType: byte, start: bool, end: bool)
    requires payload.Length >= 3
    modifies payload
    ensures payload[..3] == FuHeaders(nalType, start, end)
  {
    hide FuHeaders;
    HeaderByParts(nalType, start, end);
    payload[0] := FU_TYPE << 1;
    payload[1] := 1;
    payload[2] := 0;
    payload[2] := nalType;
    payload[2] := payload[2] | ((if start then 1 else 0) << 7);
    payload[2] := payload[2] | ((if end then 1 else 0) << 6);
  }

  lemma HeaderByParts(nalType: byte, start: bool, end: bool)
    ensures FuHeaders(nalType, start, end)
         == [FU_TYPE << 1, 1, (nalType | ((if start then 1 else 0) << 7)) | ((if end then 1 else 0) << 6)]
  {
  }

  /** The driver's loop, asked only where it ends. */
  method PacketizeUnit(pktz: Packetizer, buf: array<byte>, bufLen: nat) returns (payloads: seq<seq<byte>>)
    requires 3 < bufLen <= buf.Length && pktz.headerLen <= 4
    requires PacketizeRun(pktz.View(), buf[..], bufLen, 0).Some?
    modifies pktz
    ensures payloads == PacketizeRun(old(pktz.View()), buf[..], bufLen, 0).value
  {
    hide PacketizeStep, LookSafe;
    payloads := [];
    var payload := new byte[WITHIN + 3];
    var pos, len := 0, 0;
    ghost var all := PacketizeRun(pktz.View(), buf[..], bufLen, 0).value;
    while pos < bufLen
      invariant pos <= bufLen && pktz.headerLen <= 4
      invariant buf[..] == old(buf[..])
      invariant PacketizeRun(pktz.View(), buf[..], bufLen, pos).Some?
      invariant all == payloads + PacketizeRun(pktz.View(), buf[..], bufLen, pos).value
      decreases bufLen - pos
    {
      RunUnfolds(pktz.View(), buf[..], bufLen, pos);
      var ok;
      ok, pos, len := pktz.Packetize(buf, bufLen, pos, payload, len);
      payloads := payloads + [payload[..len]];
    }
  }

  lemma RunUnfolds(msg: Msg, mem: seq<byte>, bufLen: nat, pos: nat)
    requires 3 < bufLen <= |mem| && msg.headerLen <= 4 && pos < bufLen
    requires PacketizeRun(msg, mem, bufLen, pos).Some?
    ensures LookSafe(mem, bufLen, pos)
    ensures var step := PacketizeStep(msg, mem, bufLen, pos);
            && step.Emitted? && step.pos > pos && step.msg.headerLen <= 4
            && PacketizeRun(step.msg, mem, bufLen, step.pos).Some?
            && PacketizeRun(msg, mem, bufLen, pos).value
               == [step.payload] + PacketizeRun(step.msg, mem, bufLen, step.pos).value
  {
  }

  // ----- depacketizer -----

  /** pjmedia_calc_rtp_hdr_len; -1 for a header that is not accepted. */
  method CalcRtpHeaderLen(rtp: array<byte>, len: nat) returns (h: int)
    requires 1 <= len <= rtp.Length
    ensures h == match Rtp.HeaderLength(rtp[..len]) case None => -1 case Some(n) => n
  {
    hide Value, U16;
    var eLen := 0;
    var extension, csrc := rtp[0] & 0x10, Value(rtp[0] & 0x0f);
    if csrc != 0 {
      eLen := eLen + csrc * 4;
    }
    if extension != 0 {
      if len < eLen + Rtp.BASE_LEN + 4 {
        return -1;
      }
      var data := U16(rtp[eLen + Rtp.BASE_LEN + 2], rtp[eLen + Rtp.BASE_LEN + 3]) * 4;
      if data > Rtp.MAX_EXTENSION {
        return -1;
      }
      eLen := eLen + 4;
      eLen := eLen + data;
    }
    h := Rtp.BASE_LEN + eLen;
  }

  /** pjmeida_h265_unpacketize. The output buffer must have room for the packet behind a start
      code, which the source does not check. */
  method Unpacketize(rtp: array<byte>, len: nat, h265: array<byte>, pos: nat) returns (res: int, newPos: nat)
    requires 1 <= len <= rtp.Length && rtp != h265 && pos + len + 4 <= h265.Length
    modifies h265
    ensures var r := H265Unpack.Unpack(rtp[..len], old(h265[..pos]));
            res == r.res && newPos == r.pos && |r.data| <= h265.Length && h265[..|r.data|] == r.data
  {
    hide H265Unpack.PayloadUnpack, Rtp.HeaderLength;
    var h := CalcRtpHeaderLen(rtp, len);
    if h == -1 || len - h < 3 {
      return H265Unpack.INVALID_DATA, pos;
    }
    SubSlice(rtp, 0, len, h, len);
    res, newPos := UnpackPayload(rtp, h, len, h265, pos);
  }

  method UnpackPayload(rtp: array<byte>, h: nat, len: nat, h265: array<byte>, pos: nat) returns (res: int, newPos: nat)
    requires h + 3 <= len <= rtp.Length && rtp != h265 && pos + len + 4 <= h265.Length
    modifies h265
    ensures var r := H265Unpack.PayloadUnpack(rtp[h..len], old(h265[..pos]));
            res == r.res && newPos == r.pos && |r.data| <= h265.Length && h265[..|r.data|] == r.data
  {
    hide H265Unpack.FuUnpack;
    newPos := pos;
    assert rtp[h..len][0] == rtp[h] && rtp[h..len][1] == rtp[h + 1];
    var nalType := (rtp[h] >> 1) & 0x3f;
    var lid := ((rtp[h] << 5) & 0x20) | ((rtp[h + 1] >> 3) & 0x1f);
    var tid := rtp[h + 1] & 0x07;
    if lid != 0 {
      return H265Unpack.MULTI_LAYER, newPos;
    }
    if tid == 0 {
      return H265Unpack.INVALID_DATA, newPos;
    }
    if nalType > 50 {
      return H265Unpack.UNSUP_NALTYPE, newPos;
    }
    if nalType == 49 {
      res, newPos := UnpackFu(rtp, h, len, h265, pos);
    } else if nalType == 48 || nalType == 50 {
      res := H265Unpack.MULTI_LAYER;
    } else {
      newPos := WriteUnit(rtp, h, len - h, h265, pos);
      assert rtp[h..h + (len - h)] == rtp[h..len];
      res := 0;
    }
  }

  method UnpackFu(rtp: array<byte>, h: nat, len: nat, h265: array<byte>, pos: nat) returns (res: int, newPos: nat)
    requires h + 3 <= len <= rtp.Length && rtp != h265 && pos + len + 4 <= h265.Length
    modifies h265
    ensures var r := H265Unpack.FuUnpack(rtp[h..len], old(h265[..pos]));
            res == r.res && newPos == r.pos && |r.data| <= h265.Length && h265[..|r.data|] == r.data
  {
    newPos := pos;
    ghost var p := rtp[h..len];
    SubSlice(rtp, h, len, 3, len - h);
    assert p[0] == rtp[h] && p[1] == rtp[h + 1] && p[2] == rtp[h + 2];
    var first, last, fuType := rtp[h + 2] & 0x80 != 0, rtp[h + 2] & 0x40 != 0, rtp[h + 2] & 0x3f;
    if len - h - 3 == 0 {
      return H265Unpack.EAGAIN, newPos;
    }
    if first {
      if last {
        return H265Unpack.INVALID_DATA, newPos;
      }
      newPos := WriteFirst(rtp, h + 3, len - h - 3, h265, pos, (rtp[h] & 0x81) | (fuType << 1), rtp[h + 1]);
      res := 0;
    } else {
      newPos := AppendBytes(rtp, h + 3, len - h - 3, h265, pos);
      res := 0;
      if last {
        res := newPos;
        newPos := 0;
      }
    }
  }

  /** Start code, rebuilt header and the first fragment's data. */
  method WriteFirst(rtp: array<byte>, from: nat, n: nat, h265: array<byte>, pos: nat, b0: byte, b1: byte) returns (newPos: nat)
    requires from + n <= rtp.Length && rtp != h265 && pos + n + 6 <= h265.Length
    modifies h265
    ensures newPos == pos + 6 + n
    ensures h265[..newPos] == old(h265[..pos]) + (START_CODE + [b0, b1] + rtp[from..from + n])
  {
    ghost var before := h265[..pos];
    newPos := WriteStartCode(h265, pos);
    h265[newPos], h265[newPos + 1] := b0, b1;
    assert h265[..newPos + 2] == before + START_CODE + [b0, b1];
    newPos := AppendBytes(rtp, from, n, h265, newPos + 2);
    ConcatAssociates(before, START_CODE, [b0, b1]);
    ConcatAssociates(before, START_CODE + [b0, b1], rtp[from..from + n]);
  }
}
