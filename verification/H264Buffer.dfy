/** Several NAL units in one packetizer buffer: what the run emits, unit by unit, when the
    window of mtu + 1 bytes may or may not show the next start code
    (packed/h264_packetizer.c, lines 237-443). */
module H264Buffer {
  import opened Bytes
  import opened AnnexB
  import opened H264Payload
  import opened H264Fragmentation

  // ----- what the calls see -----

  /** Length of the start code behind a unit; 0 for the last unit. */
  function CodeLen(rest: seq<StreamUnit>): nat {
    if rest == [] then 0 else |Prefix(rest[0].four)|
  }

  /** The window from a point of the unit shows the unit's end: left bytes before the end, and a
      start code of code bytes behind it. */
  predicate EndInSight(left: nat, mtu: nat, code: nat) {
    left + code <= if code == 0 then mtu else mtu + 1
  }

  /** One byte in front of a three-byte start code: the call's first look takes it for a part of
      the start code. */
  predicate Skipped(left: nat, code: nat) {
    left == 1 && code == 3
  }

  lemma NoCode(buf: seq<byte>, start: nat, x: seq<byte>)
    requires start <= |buf| && buf[start..] == x && NoStartCode(x)
    ensures NoStartCodeIn(buf, start, |buf|)
  {
    assert buf[start..|buf|] == x;
    NoStartCodeSlice(buf, start, |buf|);
  }

  /** Part of a unit in front of the others, and told apart from them. */
  ghost predicate Apart(x: seq<byte>, rest: seq<StreamUnit>) {
    x != [] && Delimited(x, rest)
  }

  /** The unit's end, as one call takes it. */
  lemma EndInBuffer(cfg: Config, buf: seq<byte>, start: nat, x: seq<byte>, rest: seq<StreamUnit>)
    requires cfg.mtu >= 2 && !cfg.mode.SingleNal? && start <= |buf|
    requires buf[start..] == x + Join(rest) && Apart(x, rest)
    ensures UnitEnd(cfg, buf, start) == start + if EndInSight(|x|, cfg.mtu, CodeLen(rest)) then |x| else cfg.mtu + 1
  {
    hide NoStartCode;
    var limit := if start + cfg.mtu + 1 > |buf| then |buf| else start + cfg.mtu + 1;
    assert |buf| == start + |x| + |Join(rest)|;
    if rest == [] {
      assert x + [] == x;
      NoCode(buf, start, x);
      assert FindNalUnit(buf, start, limit) == None;
    } else {
      var tail := rest[0].nal + Join(rest[1..]);
      ConcatAssociates(Prefix(rest[0].four), rest[0].nal, Join(rest[1..]));
      NextCode(buf, start, x, rest[0].four, tail);
      var p := start + |x| + if rest[0].four then 1 else 0;
      if p + 3 <= limit {
        FindNalUnitMeaning(buf, start, limit, p);
      } else {
        assert FindNalUnit(buf, start, limit) == None;
      }
    }
  }

  /** What the first look of a call makes of a point inside a unit. */
  lemma LookInside(buf: seq<byte>, pos: nat, x: seq<byte>, rest: seq<StreamUnit>)
    requires pos <= |buf| && buf[pos..] == x + Join(rest) && Apart(x, rest)
    ensures UnitStart(buf, pos) == if Skipped(|x|, CodeLen(rest)) then Some(pos + 4) else None
  {
    hide NoStartCode;
    if rest == [] {
      assert x + [] == x;
      NoCode(buf, pos, x);
    } else {
      var tail := rest[0].nal + Join(rest[1..]);
      ConcatAssociates(Prefix(rest[0].four), rest[0].nal, Join(rest[1..]));
      NextCode(buf, pos, x, rest[0].four, tail);
      if Skipped(|x|, CodeLen(rest)) {
        FindNalUnitMeaning(buf, pos, pos + 4, pos + 1);
        SkipFoundStartCode(buf, pos, pos + 1);
      }
    }
  }

  lemma LookAtCode(buf: seq<byte>, pos: nat, four: bool, x: seq<byte>)
    requires pos <= |buf| && buf[pos..] == Prefix(four) + x && x != []
    ensures UnitStart(buf, pos) == Some(pos + |Prefix(four)|)
  {
    var s := Prefix(four) + x;
    assert forall i :: 0 <= i < |s| ==> buf[pos + i] == buf[pos..][i] == s[i];
    if four {
      assert !IsStartCode(buf, pos) && IsStartCode(buf, pos + 1);
      FindNalUnitMeaning(buf, pos, pos + 4, pos + 1);
    } else {
      assert IsStartCode(buf, pos);
      FindNalUnitMeaning(buf, pos, pos + 4, pos);
    }
    SkipFoundStartCode(buf, pos, pos);
  }

  // ----- the reference -----

  /** Fragments from off on: the last one has E when the window showed the unit's end, and a
      byte that the next call skips is in none of them. */
  function RestOfUnit(nal: seq<byte>, mtu: nat, code: nat, off: nat): (fs: seq<seq<byte>>)
    requires mtu >= 3 && nal != [] && (code == 0 || code == 3 || code == 4)
    decreases |nal| - off
  {
    var left := |nal| - off;
    if left <= 0 || Skipped(left, code) then []
    else if EndInSight(left, mtu, code) && left + 2 <= mtu then
      [[Octet(Nri(nal[0]), FU_A), FuHeader(NalType(nal[0]), false, true)] + nal[off..]]
    else
      [[Octet(Nri(nal[0]), FU_A), FuHeader(NalType(nal[0]), false, false)] + nal[off..off + mtu - 2]]
      + RestOfUnit(nal, mtu, code, off + mtu - 2)
  }

  /** Payloads of one unit. The first fragment takes a zero of the next start code with it when
      the unit is one byte too short to fill it and the window is one byte too short to show. */
  function UnitPayloads(nal: seq<byte>, mtu: nat, code: nat): (ps: seq<seq<byte>>)
    requires mtu >= 3 && nal != [] && (code == 0 || code == 3 || code == 4)
  {
    if EndInSight(|nal|, mtu, code) then [nal]
    else
      [[Octet(Nri(nal[0]), FU_A), FuHeader(NalType(nal[0]), true, false)] + (nal + [0])[1..mtu - 1]]
      + RestOfUnit(nal, mtu, code, mtu - 1)
  }

  ghost predicate Proper(us: seq<StreamUnit>) {
    Separable(us) && forall i :: 0 <= i < |us| ==> us[i].nal != []
  }

  function BufferPayloads(us: seq<StreamUnit>, mtu: nat): (ps: seq<seq<byte>>)
    requires mtu >= 3 && forall i :: 0 <= i < |us| ==> us[i].nal != []
  {
    if us == [] then []
    else UnitPayloads(us[0].nal, mtu, CodeLen(us[1..])) + BufferPayloads(us[1..], mtu)
  }

  // ----- the run -----

  /** The next call sees the first of the units that are left. */
  ghost predicate AtUnit(buf: seq<byte>, pos: nat, us: seq<StreamUnit>)
    requires pos <= |buf|
  {
    if us == [] then pos == |buf|
    else
      var n := UnitStart(buf, pos);
      n.Some? && buf[n.value..] == us[0].nal + Join(us[1..])
  }

  /** The previous call emitted a full fragment of the unit: from the offset on the buffer is
      the input, and its headers stand at offset - mtu. */
  ghost predicate InUnit(buf: seq<byte>, pos: nat, us: seq<StreamUnit>, mtu: nat, off: nat)
    requires mtu >= 2 && us != [] && us[0].nal != []
  {
    var nal, input := us[0].nal, us[0].nal + Join(us[1..]);
    && mtu <= pos <= |buf| && off <= |input|
    && (off <= |nal| || (off == |nal| + 1 && CodeLen(us[1..]) == 4))
    && buf[pos..] == input[off..]
    && buf[pos - mtu] == Octet(Nri(nal[0]), FU_A)
    && NalType(buf[pos - mtu + 1]) == NalType(nal[0])
  }

  lemma TailAfter(x: seq<byte>, y: seq<byte>, off: nat)
    ensures off <= |x| ==> (x + y)[off..] == x[off..] + y
    ensures |x| <= off <= |x| + |y| ==> (x + y)[off..] == y[off - |x|..]
  {
  }

  /** Behind a unit, and behind a zero taken from the start code that follows it, the next
      call sees the next unit. */
  lemma AtNextUnit(buf: seq<byte>, pos: nat, us: seq<StreamUnit>, taken: nat)
    requires pos <= |buf| && taken <= |Join(us)| && buf[pos..] == Join(us)[taken..]
    requires taken == 0 || (taken == 1 && CodeLen(us) == 4)
    requires Proper(us)
    ensures AtUnit(buf, pos, us)
  {
    hide Separable, UnitStart;
    if us != [] {
      var x := us[0].nal + Join(us[1..]);
      ConcatAssociates(Prefix(us[0].four), us[0].nal, Join(us[1..]));
      var four := us[0].four && taken == 0;
      assert Join(us)[taken..] == Prefix(four) + x;
      LookAtCode(buf, pos, four, x);
      assert buf[pos + |Prefix(four)|..] == buf[pos..][|Prefix(four)|..] == x;
    }
  }

  /** A byte that the look takes for a part of the start code is passed over. */
  lemma LeaveUnit(buf: seq<byte>, pos: nat, us: seq<StreamUnit>, mtu: nat, off: nat)
    requires mtu >= 3 && us != [] && Proper(us) && InUnit(buf, pos, us, mtu, off)
    requires off >= |us[0].nal| || Skipped(|us[0].nal| - off, CodeLen(us[1..]))
    ensures AtUnit(buf, pos, us[1..])
  {
    hide Join, UnitStart, Octet, Nri, NalType;
    var nal, rest := us[0].nal, us[1..];
    SeparableUnfolds(us);
    TailAfter(nal, Join(rest), off);
    if off >= |nal| {
      AtNextUnit(buf, pos, rest, off - |nal|);
    } else {
      var left := nal[off..];
      NoStartCodeSlice(nal, off, |nal|);
      assert nal[off..|nal|] == left && left[|left| - 1] == nal[|nal| - 1];
      LookInside(buf, pos, left, rest);
      SkipOver(buf, pos, left, rest);
    }
  }

  lemma SkipOver(buf: seq<byte>, pos: nat, left: seq<byte>, rest: seq<StreamUnit>)
    requires pos <= |buf| && |left| == 1 && CodeLen(rest) == 3 && buf[pos..] == left + Join(rest)
    ensures pos + 4 <= |buf| && buf[pos + 4..] == rest[0].nal + Join(rest[1..])
  {
    var x := rest[0].nal + Join(rest[1..]);
    ConcatAssociates(Prefix(rest[0].four), rest[0].nal, Join(rest[1..]));
    ConcatAssociates(left, Prefix(false), x);
    assert buf[pos + 4..] == buf[pos..][4..];
    assert (left + Prefix(false) + x)[4..] == x;
  }

  /** The bytes a first fragment takes. */
  lemma FirstData(buf: seq<byte>, n: nat, nal: seq<byte>, rest: seq<StreamUnit>, mtu: nat)
    requires mtu >= 3 && nal != [] && n <= |buf| && buf[n..] == nal + Join(rest)
    requires !EndInSight(|nal|, mtu, CodeLen(rest))
    ensures mtu - 1 <= |nal| + 1 && |nal + Join(rest)| >= mtu + 1 && |buf| == n + |nal + Join(rest)|
    ensures buf[n] == nal[0] && buf[n + 1..n + mtu - 1] == (nal + [0])[1..mtu - 1]
    ensures buf[n + mtu - 1..] == (nal + Join(rest))[mtu - 1..]
    ensures mtu - 1 <= |nal| || (mtu - 1 == |nal| + 1 && CodeLen(rest) == 4)
  {
    var input := nal + Join(rest);
    if rest != [] {
      ConcatAssociates(Prefix(rest[0].four), rest[0].nal, Join(rest[1..]));
    }
    assert mtu - 1 > |nal| ==> input[|nal|] == 0;
    forall i | 1 <= i < mtu - 1
      ensures buf[n + i] == (nal + [0])[i]
    {
      assert buf[n + i] == buf[n..][i] == input[i];
    }
    assert buf[n] == buf[n..][0];
  }

  /** A fragment that fills the mtu: what is behind it is the input, and its headers are where
      the next call looks for them. */
  lemma FullFragment(step: Step, mtu: nat, buf: seq<byte>, data: nat, end: nat, octet: byte, first: bool, ahead: seq<byte>)
    requires mtu >= 3 && 2 <= data <= end <= |buf| && buf[data..] == ahead && end - data + 2 > mtu
    requires FuWritten(step, mtu, buf, data, end, Nri(octet), NalType(octet), first)
    ensures step.Emitted? && |step.buf| == |buf| && step.pos == data + mtu - 2 <= |buf| && |ahead| >= mtu - 2
    ensures step.buf[step.pos..] == ahead[mtu - 2..]
    ensures step.payload == [Octet(Nri(octet), FU_A), FuHeader(NalType(octet), first, false)] + ahead[..mtu - 2]
    ensures step.buf[step.pos - mtu] == Octet(Nri(octet), FU_A)
    ensures NalType(step.buf[step.pos - mtu + 1]) == NalType(octet)
  {
    hide FuHeader, Octet;
    HeaderBits(octet, first, false);
    assert buf[data..data + mtu - 2] == ahead[..mtu - 2];
    assert buf[step.pos..] == ahead[mtu - 2..];
  }

  lemma FirstWhole(cfg: Config, buf: seq<byte>, pos: nat, us: seq<StreamUnit>)
    requires cfg.mtu >= 3 && !cfg.mode.SingleNal? && us != [] && Proper(us)
    requires pos <= |buf| && AtUnit(buf, pos, us) && EndInSight(|us[0].nal|, cfg.mtu, CodeLen(us[1..]))
    ensures var step := PacketizeStep(cfg, buf, pos);
            && step.Emitted? && step.buf == buf && pos < step.pos <= |buf|
            && step.payload == us[0].nal && AtUnit(buf, step.pos, us[1..])
  {
    hide Join, FragmentStep, FindNalUnit, UnitStart, UnitEnd, Delimited;
    var nal, rest, n := us[0].nal, us[1..], UnitStart(buf, pos).value;
    SeparableUnfolds(us);
    EndInBuffer(cfg, buf, n, nal, rest);
    assert buf[n..n + |nal|] == buf[n..][..|nal|] == nal;
    assert buf[n + |nal|..] == buf[n..][|nal|..] == Join(rest)[0..];
    AtNextUnit(buf, n + |nal|, rest, 0);
  }

  lemma FirstCut(cfg: Config, buf: seq<byte>, pos: nat, us: seq<StreamUnit>)
    requires cfg.mtu >= 3 && !cfg.mode.SingleNal? && us != [] && Proper(us)
    requires pos <= |buf| && AtUnit(buf, pos, us) && !EndInSight(|us[0].nal|, cfg.mtu, CodeLen(us[1..]))
    ensures var step, nal := PacketizeStep(cfg, buf, pos), us[0].nal;
            && step.Emitted? && |step.buf| == |buf| && pos < step.pos <= |buf|
            && step.payload == [Octet(Nri(nal[0]), FU_A), FuHeader(NalType(nal[0]), true, false)] + (nal + [0])[1..cfg.mtu - 1]
            && InUnit(step.buf, step.pos, us, cfg.mtu, cfg.mtu - 1)
  {
    hide Join, FuStep, FuHeader, FindNalUnit, UnitStart, UnitEnd, FuWritten, Octet, Nri, NalType, Delimited;
    var nal, rest, n := us[0].nal, us[1..], UnitStart(buf, pos).value;
    SeparableUnfolds(us);
    EndInBuffer(cfg, buf, n, nal, rest);
    FirstData(buf, n, nal, rest, cfg.mtu);
    FuStepBytes(cfg, buf, n + 1, n + cfg.mtu + 1, Nri(nal[0]), NalType(nal[0]), true);
    FullFragment(PacketizeStep(cfg, buf, pos), cfg.mtu, buf, n + 1, n + cfg.mtu + 1, nal[0], true, buf[n + 1..]);
    assert buf[n + 1..][..cfg.mtu - 2] == buf[n + 1..n + cfg.mtu - 1];
    assert buf[n + 1..][cfg.mtu - 2..] == buf[n + cfg.mtu - 1..];
  }

  lemma LastFragment(step: Step, mtu: nat, buf: seq<byte>, data: nat, end: nat, octet: byte, left: seq<byte>, tail: seq<byte>)
    requires mtu >= 3 && 2 <= data <= end <= |buf| && buf[data..] == left + tail && end == data + |left|
    requires end - data + 2 <= mtu
    requires FuWritten(step, mtu, buf, data, end, Nri(octet), NalType(octet), false)
    ensures step.Emitted? && |step.buf| == |buf| && step.pos == end <= |buf| && step.buf[end..] == tail[0..]
    ensures step.payload == [Octet(Nri(octet), FU_A), FuHeader(NalType(octet), false, true)] + left
  {
    hide FuHeader, Octet;
    assert buf[data..end] == buf[data..][..|left|] == left;
    assert buf[end..] == buf[data..][|left|..] == tail;
  }

  /** A call inside a unit: read-back at offset - mtu, as with one unit in the buffer. */
  lemma InnerFragment(cfg: Config, buf: seq<byte>, pos: nat, us: seq<StreamUnit>, off: nat)
    requires cfg.mtu >= 3 && !cfg.mode.SingleNal? && us != [] && Proper(us)
    requires InUnit(buf, pos, us, cfg.mtu, off)
    requires off < |us[0].nal| && !Skipped(|us[0].nal| - off, CodeLen(us[1..]))
    ensures var nal, left := us[0].nal, |us[0].nal| - off;
            var end := pos + if EndInSight(left, cfg.mtu, CodeLen(us[1..])) then left else cfg.mtu + 1;
            && buf[pos..] == nal[off..] + Join(us[1..]) && 2 <= pos <= end <= |buf|
            && FuWritten(PacketizeStep(cfg, buf, pos), cfg.mtu, buf, pos, end, Nri(nal[0]), NalType(nal[0]), false)
  {
    hide Join, FuStep, FuHeader, FindNalUnit, UnitStart, UnitEnd, FuWritten, Octet, Nri, NalType;
    var nal, rest := us[0].nal, us[1..];
    var left := nal[off..];
    SeparableUnfolds(us);
    TailAfter(nal, Join(rest), off);
    NoStartCodeSlice(nal, off, |nal|);
    assert nal[off..|nal|] == left && left[|left| - 1] == nal[|nal| - 1];
    EndInBuffer(cfg, buf, pos, left, rest);
    LookInside(buf, pos, left, rest);
    HeaderBits(nal[0], false, false);
    FuStepBytes(cfg, buf, pos, UnitEnd(cfg, buf, pos), Nri(nal[0]), NalType(nal[0]), false);
  }

  lemma InnerLast(cfg: Config, buf: seq<byte>, pos: nat, us: seq<StreamUnit>, off: nat)
    requires cfg.mtu >= 3 && !cfg.mode.SingleNal? && us != [] && Proper(us)
    requires InUnit(buf, pos, us, cfg.mtu, off)
    requires off < |us[0].nal| && !Skipped(|us[0].nal| - off, CodeLen(us[1..]))
    requires EndInSight(|us[0].nal| - off, cfg.mtu, CodeLen(us[1..])) && |us[0].nal| - off + 2 <= cfg.mtu
    ensures var step, nal := PacketizeStep(cfg, buf, pos), us[0].nal;
            && step.Emitted? && |step.buf| == |buf| && pos < step.pos <= |buf|
            && step.payload == [Octet(Nri(nal[0]), FU_A), FuHeader(NalType(nal[0]), false, true)] + nal[off..]
            && AtUnit(step.buf, step.pos, us[1..])
  {
    hide Join, FuHeader, PacketizeStep, FuWritten, Octet, Nri, NalType, AtUnit, Separable;
    var nal, rest, step := us[0].nal, us[1..], PacketizeStep(cfg, buf, pos);
    var end := pos + |nal| - off;
    InnerFragment(cfg, buf, pos, us, off);
    ProperRest(us);
    LastFragment(step, cfg.mtu, buf, pos, end, nal[0], nal[off..], Join(rest));
    AtNextUnit(step.buf, end, rest, 0);
  }

  lemma InnerFull(cfg: Config, buf: seq<byte>, pos: nat, us: seq<StreamUnit>, off: nat)
    requires cfg.mtu >= 3 && !cfg.mode.SingleNal? && us != [] && Proper(us)
    requires InUnit(buf, pos, us, cfg.mtu, off)
    requires off < |us[0].nal| && !Skipped(|us[0].nal| - off, CodeLen(us[1..]))
    requires !EndInSight(|us[0].nal| - off, cfg.mtu, CodeLen(us[1..])) || |us[0].nal| - off + 2 > cfg.mtu
    ensures off + cfg.mtu - 2 <= |us[0].nal|
    ensures var step, nal := PacketizeStep(cfg, buf, pos), us[0].nal;
            && step.Emitted? && |step.buf| == |buf| && pos < step.pos <= |buf|
            && step.payload == [Octet(Nri(nal[0]), FU_A), FuHeader(NalType(nal[0]), false, false)] + nal[off..off + cfg.mtu - 2]
            && InUnit(step.buf, step.pos, us, cfg.mtu, off + cfg.mtu - 2)
  {
    hide Join, FuHeader, PacketizeStep, FuWritten, Octet, Nri, NalType, Proper;
    var nal, rest, step := us[0].nal, us[1..], PacketizeStep(cfg, buf, pos);
    var left, n := nal[off..], cfg.mtu - 2;
    InnerFragment(cfg, buf, pos, us, off);
    var end := pos + if EndInSight(|left|, cfg.mtu, CodeLen(rest)) then |left| else cfg.mtu + 1;
    FullFragment(step, cfg.mtu, buf, pos, end, nal[0], false, left + Join(rest));
    TailAfter(left, Join(rest), n);
    TailAfter(nal, Join(rest), off + n);
    assert left[n..] == nal[off + n..];
    assert (left + Join(rest))[..n] == nal[off..off + n];
  }

  lemma {:induction false} RunFromUnit(cfg: Config, buf: seq<byte>, pos: nat, us: seq<StreamUnit>)
    requires cfg.mtu >= 3 && !cfg.mode.SingleNal? && Proper(us)
    requires pos <= |buf| && AtUnit(buf, pos, us)
    ensures PacketizeRun(cfg, buf, pos) == Some(BufferPayloads(us, cfg.mtu))
    decreases |us|, 1, 0
  {
    hide PacketizeStep, AtUnit, InUnit, Separable, RestOfUnit;
    if us == [] {
      AtEnd(buf, pos);
    } else {
      var nal, rest, code := us[0].nal, us[1..], CodeLen(us[1..]);
      ProperRest(us);
      NotAtEnd(buf, pos, us);
      var step := PacketizeStep(cfg, buf, pos);
      if EndInSight(|nal|, cfg.mtu, code) {
        FirstWhole(cfg, buf, pos, us);
        RunFromUnit(cfg, step.buf, step.pos, rest);
        RunPrepends(cfg, buf, pos, BufferPayloads(rest, cfg.mtu));
      } else {
        FirstCut(cfg, buf, pos, us);
        RunInUnit(cfg, step.buf, step.pos, us, cfg.mtu - 1);
        var more := RestOfUnit(nal, cfg.mtu, code, cfg.mtu - 1);
        RunPrepends(cfg, buf, pos, more + BufferPayloads(rest, cfg.mtu));
        ConcatAssociates([step.payload], more, BufferPayloads(rest, cfg.mtu));
      }
    }
  }

  lemma {:induction false} RunInUnit(cfg: Config, buf: seq<byte>, pos: nat, us: seq<StreamUnit>, off: nat)
    requires cfg.mtu >= 3 && !cfg.mode.SingleNal? && us != [] && Proper(us)
    requires InUnit(buf, pos, us, cfg.mtu, off)
    ensures pos <= |buf|
    ensures PacketizeRun(cfg, buf, pos)
         == Some(RestOfUnit(us[0].nal, cfg.mtu, CodeLen(us[1..]), off) + BufferPayloads(us[1..], cfg.mtu))
    decreases |us|, 0, |us[0].nal| - off
  {
    hide PacketizeStep, AtUnit, Separable;
    var nal, rest, code := us[0].nal, us[1..], CodeLen(us[1..]);
    ProperRest(us);
    assert [] + BufferPayloads(rest, cfg.mtu) == BufferPayloads(rest, cfg.mtu);
    if off >= |nal| || Skipped(|nal| - off, code) {
      LeaveUnit(buf, pos, us, cfg.mtu, off);
      RunFromUnit(cfg, buf, pos, rest);
    } else {
      var step := PacketizeStep(cfg, buf, pos);
      var more := [];
      if EndInSight(|nal| - off, cfg.mtu, code) && |nal| - off + 2 <= cfg.mtu {
        InnerLast(cfg, buf, pos, us, off);
        RunFromUnit(cfg, step.buf, step.pos, rest);
      } else {
        InnerFull(cfg, buf, pos, us, off);
        RunInUnit(cfg, step.buf, step.pos, us, off + cfg.mtu - 2);
        more := RestOfUnit(nal, cfg.mtu, code, off + cfg.mtu - 2);
      }
      RunPrepends(cfg, buf, pos, more + BufferPayloads(rest, cfg.mtu));
      ConcatAssociates([step.payload], more, BufferPayloads(rest, cfg.mtu));
    }
  }

  lemma ProperRest(us: seq<StreamUnit>)
    requires us != [] && Proper(us)
    ensures Proper(us[1..]) && us[0].nal != []
  {
    SeparableUnfolds(us);
  }

  lemma AtEnd(buf: seq<byte>, pos: nat)
    requires pos <= |buf| && AtUnit(buf, pos, [])
    ensures pos == |buf|
  {
  }

  lemma NotAtEnd(buf: seq<byte>, pos: nat, us: seq<StreamUnit>)
    requires us != [] && pos <= |buf| && AtUnit(buf, pos, us)
    ensures pos < |buf|
  {
  }

  /** The run over a buffer of any number of units ends, is never refused, and emits what the
      reference says unit by unit. */
  lemma BufferEmits(cfg: Config, us: seq<StreamUnit>)
    requires cfg.mtu >= 3 && !cfg.mode.SingleNal? && Proper(us)
    ensures PacketizeRun(cfg, Join(us), 0) == Some(BufferPayloads(us, cfg.mtu))
  {
    AtNextUnit(Join(us), 0, us, 0);
    RunFromUnit(cfg, Join(us), 0, us);
  }
}
