/** What a run of the H.264 packetizer over one start-code-prefixed NAL unit emits, against
    the FU-A layout of section 5.8 of RFC 6184. */
module H264Fragmentation {
  import opened Bytes
  import opened H264Payload

  // ----- the layout -----

  /** End of the fragment whose data starts at off: two bytes of the mtu go to the headers. */
  function FragmentEnd(nal: seq<byte>, mtu: nat, off: nat): (end: nat)
    requires mtu >= 3 && off < |nal|
    ensures off < end <= |nal| && end - off <= mtu - 2
  {
    if off + mtu - 2 < |nal| then off + mtu - 2 else |nal|
  }

  /** Indicator, header and data of the fragment whose data starts at off. The NAL octet
      itself travels only in the two header bytes, so the first fragment starts at 1. */
  function Fragment(nal: seq<byte>, mtu: nat, off: nat): (f: seq<byte>)
    requires mtu >= 3 && 1 <= off < |nal|
    ensures 3 <= |f| <= mtu
  {
    var end := FragmentEnd(nal, mtu, off);
    [Octet(Nri(nal[0]), FU_A), FuHeader(NalType(nal[0]), off == 1, end == |nal|)] + nal[off..end]
  }

  function FragmentsFrom(nal: seq<byte>, mtu: nat, off: nat): (fs: seq<seq<byte>>)
    requires mtu >= 3 && 1 <= off < |nal|
    ensures |fs| >= 1
    decreases |nal| - off
  {
    var end := FragmentEnd(nal, mtu, off);
    [Fragment(nal, mtu, off)] + if end == |nal| then [] else FragmentsFrom(nal, mtu, end)
  }

  /** The payloads of one NAL unit: itself when it fits, its fragments when it does not. */
  function Payloads(nal: seq<byte>, mtu: nat): (ps: seq<seq<byte>>)
    requires mtu >= 3
    ensures |ps| >= 1
  {
    if |nal| <= mtu then [nal] else FragmentsFrom(nal, mtu, 1)
  }

  // ----- what the calls see -----

  /** The first call finds the NAL octet right after the start code. */
  lemma FindsNalOctet(four: bool, nal: seq<byte>)
    requires |nal| >= 1
    ensures UnitStart(Prefix(four) + nal, 0) == Some(|Prefix(four)|)
  {
    var buf := Prefix(four) + nal;
    if four {
      assert !IsStartCode(buf, 0) && IsStartCode(buf, 1);
      FindNalUnitMeaning(buf, 0, 4, 1);
      SkipFoundStartCode(buf, 0, 0);
    } else {
      assert IsStartCode(buf, 0);
      FindNalUnitMeaning(buf, 0, 4, 0);
      SkipFoundStartCode(buf, 0, 0);
    }
  }

  /** A window that shows only bytes of the NAL unit ends the unit at the window's limit. */
  lemma WindowWithoutStartCode(cfg: Config, buf: seq<byte>, nal: seq<byte>, start: nat, off: nat)
    requires cfg.mtu >= 2 && !cfg.mode.SingleNal?
    requires off <= |nal| && start + |nal| - off == |buf| && buf[start..] == nal[off..]
    requires NoStartCode(nal)
    ensures UnitEnd(cfg, buf, start) == if start + cfg.mtu + 1 > |buf| then |buf| else start + cfg.mtu + 1
    ensures UnitStart(buf, start) == None
  {
    forall i | start <= i <= |buf| - 3
      ensures !IsStartCode(buf, i)
    {
      var j := i - start;
      assert buf[i] == buf[start..][j] && buf[i + 1] == buf[start..][j + 1] && buf[i + 2] == buf[start..][j + 2];
      assert !IsStartCode(nal, off + j);
    }
  }

  // ----- the run -----

  /** Between two fragments: every byte from the offset on is still the input, and the
      indicator and header of the previous fragment stand at offset - mtu. */
  ghost predicate MidUnit(four: bool, nal: seq<byte>, mtu: nat, buf: seq<byte>, off: nat)
    requires mtu >= 3 && |nal| >= 1
  {
    var pos := |Prefix(four)| + off;
    && mtu - 1 <= off < |nal|
    && |buf| == |Prefix(four)| + |nal|
    && buf[pos..] == nal[off..]
    && buf[pos - mtu] == Octet(Nri(nal[0]), FU_A)
    && NalType(buf[pos - mtu + 1]) == NalType(nal[0])
  }

  /** A call emitted the fragment at off and left the offset and the buffer ready for the
      next one, or the offset at the end of the buffer. */
  ghost predicate AfterFragment(four: bool, nal: seq<byte>, mtu: nat, step: Step, off: nat)
    requires mtu >= 3 && 1 <= off < |nal|
  {
    var end := FragmentEnd(nal, mtu, off);
    && step.Emitted?
    && step.payload == Fragment(nal, mtu, off)
    && step.pos == |Prefix(four)| + end
    && |step.buf| == |Prefix(four)| + |nal|
    && (end < |nal| ==> MidUnit(four, nal, mtu, step.buf, end))
  }

  lemma HeaderBits(b: byte, first: bool, last: bool)
    ensures Nri(Octet(Nri(b), FU_A)) == Nri(b)
    ensures NalType(Octet(Nri(b), FU_A)) == FU_A
    ensures NalType(FuHeader(NalType(b), first, last)) == NalType(b)
  {
  }

  lemma FlagBits(b: byte, first: bool, last: bool)
    ensures FuHeader(NalType(b), first, last) & S_BIT != 0 <==> first
    ensures FuHeader(NalType(b), first, last) & E_BIT != 0 <==> last
  {
  }

  predicate HasS(f: seq<byte>) {
    |f| >= 2 && f[1] & S_BIT != 0
  }

  predicate HasE(f: seq<byte>) {
    |f| >= 2 && f[1] & E_BIT != 0
  }

  /** What a receiver reads back out of a fragment. */
  lemma FragmentReads(nal: seq<byte>, mtu: nat, off: nat)
    requires mtu >= 3 && 1 <= off < |nal|
    ensures var f, end := Fragment(nal, mtu, off), FragmentEnd(nal, mtu, off);
            && NalType(f[0]) == FU_A && Nri(f[0]) == Nri(nal[0]) && NalType(f[1]) == NalType(nal[0])
            && (HasS(f) <==> off == 1) && (HasE(f) <==> end == |nal|)
            && |f| == end - off + 2 && f[2..] == nal[off..end]
  {
    HeaderBits(nal[0], off == 1, FragmentEnd(nal, mtu, off) == |nal|);
    FlagBits(nal[0], off == 1, FragmentEnd(nal, mtu, off) == |nal|);
  }

  /** Effect of one FU call on the bytes: the two header bytes replace what stood before the
      data; the data and everything after it are untouched. */
  ghost predicate FuWritten(step: Step, mtu: int, buf: seq<byte>, data: nat, end: nat, nri: byte, nalType: byte, first: bool)
    requires 2 <= data <= end <= |buf|
  {
    && step.Emitted? && |step.buf| == |buf|
    && step.pos == (if end - data + 2 <= mtu then end else data - 2 + mtu)
    && data <= step.pos <= end
    && step.buf[data - 2] == Octet(nri, FU_A)
    && step.buf[data - 1] == FuHeader(nalType, first, step.pos == end)
    && step.payload == [Octet(nri, FU_A), FuHeader(nalType, first, step.pos == end)] + buf[data..step.pos]
    && step.buf[step.pos..] == buf[step.pos..]
  }

  lemma FuStepBytes(cfg: Config, buf: seq<byte>, data: nat, end: nat, nri: byte, nalType: byte, first: bool)
    requires cfg.mtu >= 2 && 2 <= data <= end <= |buf|
    ensures FuWritten(FuStep(cfg, buf, data, end, nri, nalType, first), cfg.mtu, buf, data, end, nri, nalType, first)
  {
  }

  lemma SliceOfTail(buf: seq<byte>, nal: seq<byte>, data: nat, off: nat, n: nat)
    requires data <= |buf| && off <= |nal| && buf[data..] == nal[off..]
    requires off + n <= |nal|
    ensures data + n <= |buf|
    ensures buf[data..data + n] == nal[off..off + n]
    ensures buf[data + n..] == nal[off + n..]
  {
  }

  /** Writing the two header bytes in place and cutting at the mtu gives the fragment. */
  lemma WrittenIsFragment(step: Step, mtu: nat, four: bool, nal: seq<byte>, buf: seq<byte>, off: nat, end: nat)
    requires |nal| > mtu >= 3 && 1 <= off < |nal|
    requires |buf| == |Prefix(four)| + |nal|
    requires buf[|Prefix(four)| + off..] == nal[off..]
    requires off == 1 || off >= mtu - 1
    requires |Prefix(four)| + off <= end <= |buf|
    requires end == |buf| || end - |Prefix(four)| - off >= mtu
    requires FuWritten(step, mtu, buf, |Prefix(four)| + off, end, Nri(nal[0]), NalType(nal[0]), off == 1)
    ensures AfterFragment(four, nal, mtu, step, off)
  {
    var fend := FragmentEnd(nal, mtu, off);
    SliceOfTail(buf, nal, |Prefix(four)| + off, off, fend - off);
    HeaderBits(nal[0], off == 1, fend == |nal|);
  }

  lemma FirstFragment(cfg: Config, four: bool, nal: seq<byte>)
    requires cfg.mtu >= 3 && !cfg.mode.SingleNal? && |nal| > cfg.mtu && NoStartCode(nal)
    ensures AfterFragment(four, nal, cfg.mtu, PacketizeStep(cfg, Prefix(four) + nal, 0), 1)
  {
    hide FuStep, FuWritten, Fragment, FindNalUnit, FuHeader;
    var buf, h := Prefix(four) + nal, |Prefix(four)|;
    FindsNalOctet(four, nal);
    assert buf[h..] == nal[0..];
    WindowWithoutStartCode(cfg, buf, nal, h, 0);
    assert buf[h + 1..] == nal[1..];
    var end := UnitEnd(cfg, buf, h);
    FuStepBytes(cfg, buf, h + 1, end, Nri(nal[0]), NalType(nal[0]), true);
    WrittenIsFragment(PacketizeStep(cfg, buf, 0), cfg.mtu, four, nal, buf, 1, end);
  }

  /** Read-back at pos - mtu recovers NRI and type, so the next call emits the next fragment. */
  lemma NextFragment(cfg: Config, four: bool, nal: seq<byte>, buf: seq<byte>, off: nat)
    requires cfg.mtu >= 3 && !cfg.mode.SingleNal? && |nal| > cfg.mtu && NoStartCode(nal)
    requires MidUnit(four, nal, cfg.mtu, buf, off)
    ensures AfterFragment(four, nal, cfg.mtu, PacketizeStep(cfg, buf, |Prefix(four)| + off), off)
  {
    hide FuStep, FuWritten, Fragment, FindNalUnit, FuHeader;
    var pos := |Prefix(four)| + off;
    WindowWithoutStartCode(cfg, buf, nal, pos, off);
    HeaderBits(nal[0], false, false);
    var end := UnitEnd(cfg, buf, pos);
    FuStepBytes(cfg, buf, pos, end, Nri(nal[0]), NalType(nal[0]), false);
    WrittenIsFragment(PacketizeStep(cfg, buf, pos), cfg.mtu, four, nal, buf, off, end);
  }

  lemma {:induction false} RunFromFragment(cfg: Config, four: bool, nal: seq<byte>, buf: seq<byte>, off: nat)
    requires cfg.mtu >= 3 && !cfg.mode.SingleNal? && |nal| > cfg.mtu && NoStartCode(nal)
    requires MidUnit(four, nal, cfg.mtu, buf, off)
    ensures PacketizeRun(cfg, buf, |Prefix(four)| + off) == Some(FragmentsFrom(nal, cfg.mtu, off))
    decreases |nal| - off
  {
    hide PacketizeStep;
    hide Fragment;
    NextFragment(cfg, four, nal, buf, off);
    var step := PacketizeStep(cfg, buf, |Prefix(four)| + off);
    var end := FragmentEnd(nal, cfg.mtu, off);
    var rest := [];
    if end < |nal| {
      RunFromFragment(cfg, four, nal, step.buf, end);
      rest := FragmentsFrom(nal, cfg.mtu, end);
    }
    RunPrepends(cfg, buf, |Prefix(four)| + off, rest);
    assert FragmentsFrom(nal, cfg.mtu, off) == [step.payload] + rest;
  }

  /** A unit that fits is emitted by one call, byte for byte, and the buffer is untouched. */
  lemma SingleCall(cfg: Config, four: bool, nal: seq<byte>)
    requires cfg.mtu >= 2 && !cfg.mode.SingleNal? && 1 <= |nal| <= cfg.mtu && NoStartCode(nal)
    ensures PacketizeStep(cfg, Prefix(four) + nal, 0) == Emitted(Prefix(four) + nal, |Prefix(four)| + |nal|, nal)
  {
    hide FragmentStep, FindNalUnit;
    var buf, h := Prefix(four) + nal, |Prefix(four)|;
    FindsNalOctet(four, nal);
    assert buf[h..] == nal[0..] == nal;
    WindowWithoutStartCode(cfg, buf, nal, h, 0);
    assert UnitEnd(cfg, buf, h) == |buf|;
    assert buf[h..|buf|] == nal;
  }

  /** Main result for the packetizer: on one unit with any mtu >= 3 the run ends, is never
      refused, and emits exactly the RFC 6184 payloads. */
  lemma RunEmitsPayloads(cfg: Config, four: bool, nal: seq<byte>)
    requires cfg.mtu >= 3 && !cfg.mode.SingleNal? && |nal| >= 1 && NoStartCode(nal)
    ensures PacketizeRun(cfg, Prefix(four) + nal, 0) == Some(Payloads(nal, cfg.mtu))
  {
    hide PacketizeStep, Fragment;
    var buf := Prefix(four) + nal;
    if |nal| > cfg.mtu {
      FirstFragment(cfg, four, nal);
      var step := PacketizeStep(cfg, buf, 0);
      var end := FragmentEnd(nal, cfg.mtu, 1);
      RunFromFragment(cfg, four, nal, step.buf, end);
      RunPrepends(cfg, buf, 0, FragmentsFrom(nal, cfg.mtu, end));
    } else {
      SingleCall(cfg, four, nal);
      RunPrepends(cfg, buf, 0, []);
      assert [nal] + [] == [nal];
    }
  }
}
