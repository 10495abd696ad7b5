/** Single NAL unit mode: every unit of a buffer goes out whole, or the run stops
    (packed/h264_packetizer.c, lines 255, 262-269 and 429-433). */
module H264Single {
  import opened Bytes
  import opened AnnexB
  import opened H264Payload
  import opened H264Buffer

  /** The payloads handed out by the driver's loop, and what the last call returned: Success at
      the buffer's end, otherwise the refusal that every later call repeats. */
  datatype Ran = Ran(payloads: seq<seq<byte>>, last: Status)

  /** None where a call finds no start code, or does not advance. */
  function SingleRun(cfg: Config, buf: seq<byte>, pos: nat): (r: Option<Ran>)
    requires cfg.mtu >= 2 && pos <= |buf| && cfg.mode.SingleNal?
    decreases |buf| - pos
  {
    if pos == |buf| then Some(Ran([], Success))
    else if UnitStart(buf, pos).None? then None
    else
      match PacketizeStep(cfg, buf, pos)
      case Refused(e) => Some(Ran([], e))
      case Emitted(b, p, payload) =>
        if p <= pos then None
        else
          match SingleRun(cfg, b, p)
          case None => None
          case Some(rest) => Some(Ran([payload] + rest.payloads, rest.last))
  }

  /** Units up to the first that is longer than the mtu. */
  function Fitting(us: seq<StreamUnit>, mtu: int): (k: nat)
    ensures k <= |us| && (forall i :: 0 <= i < k ==> |us[i].nal| <= mtu) && (k < |us| ==> |us[k].nal| > mtu)
  {
    if us == [] || |us[0].nal| > mtu then 0 else 1 + Fitting(us[1..], mtu)
  }

  function Units(us: seq<StreamUnit>): (nals: seq<seq<byte>>)
    ensures |nals| == |us| && forall i :: 0 <= i < |us| ==> nals[i] == us[i].nal
  {
    if us == [] then [] else [us[0].nal] + Units(us[1..])
  }

  /** In this mode the unit's end is looked for up to the end of the buffer. */
  lemma EndInSingleMode(cfg: Config, buf: seq<byte>, start: nat, x: seq<byte>, rest: seq<StreamUnit>)
    requires cfg.mtu >= 2 && cfg.mode.SingleNal? && start <= |buf|
    requires buf[start..] == x + Join(rest) && Apart(x, rest)
    ensures UnitEnd(cfg, buf, start) == start + |x|
  {
    hide NoStartCode;
    if rest == [] {
      assert x + [] == x;
      NoCode(buf, start, x);
      assert FindNalUnit(buf, start, |buf|) == None;
    } else {
      var tail := rest[0].nal + Join(rest[1..]);
      ConcatAssociates(Prefix(rest[0].four), rest[0].nal, Join(rest[1..]));
      NextCode(buf, start, x, rest[0].four, tail);
      FindNalUnitMeaning(buf, start, |buf|, start + |x| + if rest[0].four then 1 else 0);
    }
  }

  lemma SingleModeCall(cfg: Config, buf: seq<byte>, pos: nat, us: seq<StreamUnit>)
    requires cfg.mtu >= 2 && cfg.mode.SingleNal? && us != [] && Proper(us)
    requires pos <= |buf| && AtUnit(buf, pos, us)
    ensures UnitStart(buf, pos).Some? && pos < |buf|
    ensures var step := PacketizeStep(cfg, buf, pos);
            if |us[0].nal| > cfg.mtu then step == Refused(ETooSmall)
            else step.Emitted? && step.buf == buf && pos < step.pos <= |buf| && step.payload == us[0].nal
                 && AtUnit(buf, step.pos, us[1..])
  {
    hide Join, FragmentStep, FindNalUnit, UnitStart, UnitEnd, Delimited;
    var nal, rest, n := us[0].nal, us[1..], UnitStart(buf, pos).value;
    SeparableUnfolds(us);
    EndInSingleMode(cfg, buf, n, nal, rest);
    assert buf[n..n + |nal|] == buf[n..][..|nal|] == nal;
    assert buf[n + |nal|..] == buf[n..][|nal|..] == Join(rest)[0..];
    AtNextUnit(buf, n + |nal|, rest, 0);
  }

  lemma {:induction false} SingleModeFrom(cfg: Config, buf: seq<byte>, pos: nat, us: seq<StreamUnit>)
    requires cfg.mtu >= 2 && cfg.mode.SingleNal? && Proper(us)
    requires pos <= |buf| && AtUnit(buf, pos, us)
    ensures var k := Fitting(us, cfg.mtu);
            SingleRun(cfg, buf, pos) == Some(Ran(Units(us[..k]), if k == |us| then Success else ETooSmall))
    decreases |us|
  {
    hide PacketizeStep, AtUnit, Separable, UnitStart;
    if us == [] {
      AtEnd(buf, pos);
    } else {
      SingleModeCall(cfg, buf, pos, us);
      ProperRest(us);
      var k := Fitting(us, cfg.mtu);
      if |us[0].nal| <= cfg.mtu {
        SingleModeFrom(cfg, buf, PacketizeStep(cfg, buf, pos).pos, us[1..]);
        assert us[..k][1..] == us[1..][..k - 1];
      }
    }
  }

  /** The whole buffer: every unit up to the first that is longer than the mtu goes out as it
      is, and that one is refused with ETooSmall; without one the loop comes to its end. */
  lemma SingleModeExactly(cfg: Config, us: seq<StreamUnit>)
    requires cfg.mtu >= 2 && cfg.mode.SingleNal? && Proper(us)
    ensures var k := Fitting(us, cfg.mtu);
            SingleRun(cfg, Join(us), 0) == Some(Ran(Units(us[..k]), if k == |us| then Success else ETooSmall))
  {
    AtNextUnit(Join(us), 0, us, 0);
    SingleModeFrom(cfg, Join(us), 0, us);
  }
}
