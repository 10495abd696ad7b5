/** One call of the H.264 packetizer as a function of the buffer and the offset
    (packed/h264_packetizer.c, lines 216-443, with the STAP-A branch compiled out). */
module H264Payload {
  import opened Bytes

  datatype Mode = SingleNal | NonInterleaved | Interleaved

  datatype Config = Config(mtu: int, mode: Mode)

  datatype Status = Success | EInval | ENotSup | ETooSmall | EIgnored | ECancelled

  const STAP_A: byte := 24
  const FU_A: byte := 28
  const S_BIT: byte := 0x80
  const E_BIT: byte := 0x40

  function Nri(b: byte): byte {
    (b & 0x60) >> 5
  }

  function NalType(b: byte): byte {
    b & 0x1f
  }

  /** F, NRI and type packed back into one octet with F = 0. */
  function Octet(nri: byte, nalType: byte): byte {
    (nri << 5) | nalType
  }

  /** S, E and type; the reserved bit is 0. */
  function FuHeader(nalType: byte, first: bool, last: bool): byte {
    nalType | (if first then S_BIT else 0) | (if last then E_BIT else 0)
  }

  /** Either a payload with the rewritten buffer and the next offset, or a refusal
      that leaves everything as it was. */
  datatype Step = Emitted(buf: seq<byte>, pos: nat, payload: seq<byte>) | Refused(error: Status)

  /** Index just past the first nonzero byte at or after i. */
  function SkipStartCode(s: seq<byte>, i: nat): (r: nat)
    requires i <= |s|
    ensures i <= r <= |s|
    ensures i < |s| ==> i < r
    decreases |s| - i
  {
    if i == |s| then i
    else if s[i] == 0 then SkipStartCode(s, i + 1)
    else i + 1
  }

  /** A start code found in a four-byte window is skipped up to and including its 01. */
  lemma SkipFoundStartCode(s: seq<byte>, pos: nat, n: nat)
    requires pos + 4 <= |s| && FindNalUnit(s, pos, pos + 4) == Some(n)
    ensures n + 3 <= SkipStartCode(s, n) <= pos + 4
    ensures forall i :: n <= i < SkipStartCode(s, n) - 1 ==> s[i] == 0
    ensures s[SkipStartCode(s, n) - 1] == 1
  {
    var p := ScanStartCode(s, pos, pos + 4).value;
    assert IsStartCode(s, p);
    assert SkipStartCode(s, p + 2) == p + 3;
    assert SkipStartCode(s, p + 1) == p + 3;
    assert SkipStartCode(s, p) == p + 3;
    if n + 1 == p {
      assert SkipStartCode(s, n) == p + 3;
    }
  }

  /** Where the NAL octet is, when a start code begins in the next four bytes. */
  function UnitStart(buf: seq<byte>, pos: nat): (r: Option<nat>)
    requires pos <= |buf|
    ensures r.Some? ==> pos + 3 <= r.value <= |buf|
  {
    if |buf| - pos < 4 then None
    else
      match FindNalUnit(buf, pos, pos + 4)
      case None => None
      case Some(n) =>
        SkipFoundStartCode(buf, pos, n);
        Some(SkipStartCode(buf, n))
  }

  /** Where the unit ends, as far as a window of mtu + 1 bytes shows it. */
  function UnitEnd(cfg: Config, buf: seq<byte>, start: nat): (r: nat)
    requires cfg.mtu >= 0 && start <= |buf|
    ensures start <= r <= |buf|
  {
    var limit := if start + cfg.mtu + 1 > |buf| || cfg.mode.SingleNal? then |buf| else start + cfg.mtu + 1;
    match FindNalUnit(buf, start, limit)
    case None => limit
    case Some(e) => e
  }

  /** Writes the FU indicator and FU header over the two bytes before `data`, and emits
      them with as many data bytes as the mtu allows. */
  function FuStep(cfg: Config, buf: seq<byte>, data: nat, end: nat, nri: byte, nalType: byte, first: bool): (r: Step)
    requires cfg.mtu >= 2 && 2 <= data <= end <= |buf|
    ensures r.Emitted? && |r.buf| == |buf| && r.pos <= |buf|
  {
    var last := end - data + 2 <= cfg.mtu;
    var out := buf[data - 2 := Octet(nri, FU_A)][data - 1 := FuHeader(nalType, first, last)];
    var len := if last then end - data + 2 else cfg.mtu;
    Emitted(out, data - 2 + len, out[data - 2..data - 2 + len])
  }

  /** NRI and type come from the NAL octet for a first fragment, and from the header of the
      previous fragment, mtu bytes back, for the others. */
  function FragmentStep(cfg: Config, buf: seq<byte>, start: nat, end: nat, first: bool): (r: Step)
    requires cfg.mtu >= 2 && start <= end <= |buf|
    requires first ==> 3 <= start < end
    ensures r.Emitted? ==> |r.buf| == |buf| && r.pos <= |buf|
  {
    if first then
      FuStep(cfg, buf, start + 1, end, Nri(buf[start]), NalType(buf[start]), true)
    else
      var p := start - cfg.mtu;
      if p < 0 || p >= |buf| then Refused(ECancelled)
      else FuStep(cfg, buf, start, end, Nri(buf[p]), NalType(buf[p + 1]), false)
  }

  /** pjmedia_h264_packetize. In single-NAL mode the source dereferences the NAL octet it
      found, so there a start code must be next. */
  function PacketizeStep(cfg: Config, buf: seq<byte>, pos: nat): (r: Step)
    requires cfg.mtu >= 2 && pos <= |buf|
    requires cfg.mode.SingleNal? ==> UnitStart(buf, pos).Some?
    ensures r.Emitted? ==> |r.buf| == |buf| && r.pos <= |buf| && |r.payload| <= cfg.mtu
  {
    var octet := UnitStart(buf, pos);
    var start := if octet.Some? then octet.value else pos;
    var end := UnitEnd(cfg, buf, start);
    if cfg.mode.SingleNal? && end - start > cfg.mtu then
      Refused(ETooSmall)
    else if !cfg.mode.SingleNal? && (octet.None? || end - start > cfg.mtu) then
      FragmentStep(cfg, buf, start, end, octet.Some?)
    else
      Emitted(buf, end, buf[start..end])
  }

  /** The driver's loop (UnitTest.c, lines 163-172): payloads until the offset reaches the
      end. None when a call is refused or does not advance, where the loop would not end. */
  function PacketizeRun(cfg: Config, buf: seq<byte>, pos: nat): (r: Option<seq<seq<byte>>>)
    requires cfg.mtu >= 2 && pos <= |buf| && !cfg.mode.SingleNal?
    decreases |buf| - pos
  {
    if pos == |buf| then Some([])
    else
      match PacketizeStep(cfg, buf, pos)
      case Refused(_) => None
      case Emitted(b, p, payload) =>
        if p <= pos then None
        else
          match PacketizeRun(cfg, b, p)
          case None => None
          case Some(rest) => Some([payload] + rest)
  }

  lemma RunPrepends(cfg: Config, buf: seq<byte>, pos: nat, rest: seq<seq<byte>>)
    requires cfg.mtu >= 2 && pos < |buf| && !cfg.mode.SingleNal?
    requires var step := PacketizeStep(cfg, buf, pos);
             step.Emitted? && step.pos > pos && PacketizeRun(cfg, step.buf, step.pos) == Some(rest)
    ensures PacketizeRun(cfg, buf, pos) == Some([PacketizeStep(cfg, buf, pos).payload] + rest)
  {
  }
}
