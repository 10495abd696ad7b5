/** One call of the H.265 packetizer as a function of its message record, the memory the
    bitstream lies in and the offset (packed/h264_packetizer.c, lines 697-920). */
module H265Payload {
  import opened Bytes

  const PAYLOAD_SIZE: nat := 970
  const LOOK: nat := 4
  const WITHIN: nat := PAYLOAD_SIZE + LOOK
  const FU_TYPE: byte := 49

  /** The record the packetizer keeps between calls. */
  datatype Msg = Msg(nalType: byte, start: bool, end: bool, len: int, startCode: bool,
                     pos: nat, headerLen: nat, fuPacket: bool)

  const EMPTY_MSG := Msg(0, false, false, 0, false, 0, 0, false)

  function NalType(b: byte): byte {
    (b >> 1) & 0x3f
  }

  /** VPS, SPS, PPS and SEI units never travel in fragments. */
  predicate IsParameterSet(nalType: byte) {
    nalType == 32 || nalType == 33 || nalType == 34 || nalType == 39
  }

  /** find_nalu_heard_len: length of the start code at the front, 0 without one. */
  function HeaderLen(mem: seq<byte>): (h: nat)
    requires |mem| >= 4
    ensures h <= 4
  {
    if mem[0] == 0 && IsStartCode(mem, 1) then 4
    else if IsStartCode(mem, 0) then 3
    else 0
  }

  /** Bytes the call may look at beyond the bitstream. */
  const SLACK: nat := 5

  /** What the call needs of the memory: room for its look-ahead, and no start code that
      begins in the bitstream's last bytes and runs beyond them. */
  predicate LookSafe(mem: seq<byte>, bufLen: nat, pos: nat) {
    pos < bufLen && 4 <= bufLen && bufLen + SLACK <= |mem|
    && (bufLen - pos >= LOOK || FindNalUnit(mem, pos, pos + LOOK).None?)
  }

  /** find_nalu_confirm_fu_packet. */
  function IsLong(mem: seq<byte>, bufLen: nat, nalStart: nat, headerLen: nat): bool
    requires bufLen <= |mem|
  {
    var end := FindNalUnit(mem, nalStart + headerLen, bufLen);
    (if end.Some? then end.value else bufLen) - nalStart - headerLen >= PAYLOAD_SIZE
  }

  /** A unit that is long up to the end of the buffer shows no early start code in any window. */
  lemma LongUnit(mem: seq<byte>, bufLen: nat, nalStart: nat, headerLen: nat, end: nat)
    requires bufLen <= |mem| && end <= |mem|
    ensures IsLong(mem, bufLen, nalStart, headerLen) ==>
              && nalStart + headerLen + PAYLOAD_SIZE <= bufLen
              && (FindNalUnit(mem, nalStart + headerLen, end).Some? ==>
                    FindNalUnit(mem, nalStart + headerLen, end).value >= nalStart + headerLen + 2)
  {
  }

  function Min(a: nat, b: nat): (m: nat)
    ensures m <= a && m <= b && (m == a || m == b)
  {
    if a < b then a else b
  }

  /** No start code in the next four bytes: more of the unit under way. */
  function PrepareInside(mem: seq<byte>, bufLen: nat, msg: Msg): (m: Msg)
    requires msg.pos < bufLen <= |mem|
    ensures m.pos == msg.pos && m.headerLen == msg.headerLen && !m.startCode
    ensures 0 <= m.len <= WITHIN && m.pos + m.len <= bufLen
  {
    var left := bufLen - msg.pos;
    var m := msg.(start := false, startCode := false);
    match FindNalUnit(mem, msg.pos, msg.pos + Min(left, WITHIN))
    case Some(next) => m.(len := next - msg.pos, end := true)
    case None => m.(len := Min(left, PAYLOAD_SIZE), end := left < PAYLOAD_SIZE)
  }

  /** How much of a new unit, start code included, the first payload takes. */
  function UnitLen(mem: seq<byte>, bufLen: nat, pos: nat, nalStart: nat, headerLen: nat): (len: nat)
    requires bufLen + SLACK <= |mem| && headerLen <= 4
    requires pos <= nalStart <= pos + 1 && bufLen - pos >= LOOK
    ensures headerLen <= len <= WITHIN && pos + len <= bufLen
    ensures IsLong(mem, bufLen, nalStart, headerLen) ==> len >= headerLen + 2
  {
    hide IsLong, FindNalUnit;
    var left := bufLen - pos;
    var to := nalStart + Min(left, WITHIN);
    LongUnit(mem, bufLen, nalStart, headerLen, to);
    match FindNalUnit(mem, nalStart + headerLen, to)
    case Some(nalEnd) => nalEnd - nalStart
    case None => Min(left, PAYLOAD_SIZE)
  }

  /** A start code in the next four bytes: a new unit, and whether it will be fragmented. */
  function PrepareUnit(mem: seq<byte>, bufLen: nat, msg: Msg, nalStart: nat): (m: Msg)
    requires bufLen + SLACK <= |mem| && msg.headerLen <= 4
    requires msg.pos <= nalStart <= msg.pos + 1 && bufLen - msg.pos >= LOOK
    ensures m.pos == msg.pos && m.headerLen == msg.headerLen && m.startCode
    ensures m.headerLen <= m.len <= WITHIN && m.pos + m.len <= bufLen
    ensures m.fuPacket && !IsParameterSet(m.nalType) ==> m.len >= m.headerLen + 2
  {
    hide IsLong, FindNalUnit, NalType, UnitLen;
    var nalType := NalType(mem[nalStart + msg.headerLen]);
    var left := bufLen - msg.pos;
    var alone := FindNalUnit(mem, nalStart + msg.headerLen, nalStart + Min(left, WITHIN)).None?;
    msg.(startCode := true,
         nalType := nalType,
         start := !IsParameterSet(nalType),
         fuPacket := if IsParameterSet(nalType) then msg.fuPacket else IsLong(mem, bufLen, nalStart, msg.headerLen),
         len := UnitLen(mem, bufLen, msg.pos, nalStart, msg.headerLen),
         end := if alone then left < PAYLOAD_SIZE else nalType == 19 || nalType == 1)
  }

  /** packetize_rtp_payload_msg: what the next payload takes. */
  function Prepare(mem: seq<byte>, bufLen: nat, msg: Msg): (m: Msg)
    requires LookSafe(mem, bufLen, msg.pos) && msg.headerLen <= 4
    ensures m.pos == msg.pos && m.headerLen == msg.headerLen
    ensures (if m.startCode then m.headerLen else 0) <= m.len <= WITHIN && m.pos + m.len <= bufLen
    ensures m.startCode && m.fuPacket && !IsParameterSet(m.nalType) ==> m.len >= m.headerLen + 2
  {
    match FindNalUnit(mem, msg.pos, msg.pos + LOOK)
    case None => PrepareInside(mem, bufLen, msg)
    case Some(nalStart) => PrepareUnit(mem, bufLen, msg, nalStart)
  }

  /** Payload header, FU header and data; a first fragment leaves out the two bytes of the
      unit's own header. */
  function FuHeaders(nalType: byte, start: bool, end: bool): seq<byte> {
    [FU_TYPE << 1, 1, nalType | (if start then 0x80 else 0) | (if end then 0x40 else 0)]
  }

  datatype Step = Emitted(msg: Msg, pos: nat, payload: seq<byte>) | Refused

  /** The payload a prepared record asks for. */
  function PayloadOf(m: Msg, mem: seq<byte>): (p: seq<byte>)
    requires (if m.startCode then m.headerLen else 0) <= m.len <= WITHIN && m.pos + m.len <= |mem|
    requires m.startCode && m.fuPacket && !IsParameterSet(m.nalType) ==> m.len >= m.headerLen + 2
    ensures |p| <= WITHIN + 3
  {
    var from := m.pos + if m.startCode then m.headerLen else 0;
    var to := m.pos + m.len;
    if IsParameterSet(m.nalType) || !m.fuPacket then mem[from..to]
    else FuHeaders(m.nalType, m.start, m.end) + mem[from + (if m.startCode then 2 else 0)..to]
  }

  /** pjmedia_h265_packetize. */
  function PacketizeStep(msg: Msg, mem: seq<byte>, bufLen: nat, pos: nat): (r: Step)
    requires bufLen <= |mem| && msg.headerLen <= 4
    requires bufLen > 3 ==> LookSafe(mem, bufLen, pos)
    ensures r.Emitted? ==> r.pos <= bufLen && r.msg.headerLen <= 4 && |r.payload| <= WITHIN + 3
  {
    if bufLen <= 3 then Refused
    else
      var msg0 := if pos == 0 then EMPTY_MSG.(headerLen := HeaderLen(mem)) else msg;
      var m := Prepare(mem, bufLen, msg0.(pos := pos));
      Emitted(m, pos + m.len, PayloadOf(m, mem))
  }

  /** The driver's loop; None when it would not end or leave the model. */
  function PacketizeRun(msg: Msg, mem: seq<byte>, bufLen: nat, pos: nat): (r: Option<seq<seq<byte>>>)
    requires 3 < bufLen <= |mem| && msg.headerLen <= 4 && pos <= bufLen
    decreases bufLen - pos
  {
    if pos == bufLen then Some([])
    else if !LookSafe(mem, bufLen, pos) then None
    else
      var step := PacketizeStep(msg, mem, bufLen, pos);
      if step.pos <= pos then None
      else
        match PacketizeRun(step.msg, mem, bufLen, step.pos)
        case None => None
        case Some(rest) => Some([step.payload] + rest)
  }

  lemma RunPrepends(msg: Msg, mem: seq<byte>, bufLen: nat, pos: nat, rest: seq<seq<byte>>)
    requires 3 < bufLen <= |mem| && msg.headerLen <= 4 && pos < bufLen && LookSafe(mem, bufLen, pos)
    requires var step := PacketizeStep(msg, mem, bufLen, pos);
             step.pos > pos && PacketizeRun(step.msg, mem, bufLen, step.pos) == Some(rest)
    ensures PacketizeRun(msg, mem, bufLen, pos) == Some([PacketizeStep(msg, mem, bufLen, pos).payload] + rest)
  {
    hide PacketizeStep, LookSafe;
  }
}
