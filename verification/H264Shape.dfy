/** What holds of every run over one NAL unit: the shape of the payloads, and what the
    in-place rewriting has done to the buffer after any number of calls. */
module H264Shape {
  import opened Bytes
  import opened H264Payload
  import opened H264Fragmentation

  // ----- shape -----

  /** Data of the fragments in order, without their two header bytes. */
  function Gather(fs: seq<seq<byte>>): seq<byte> {
    if fs == [] then []
    else (if |fs[0]| >= 2 then fs[0][2..] else []) + Gather(fs[1..])
  }

  lemma {:induction false} ShapeFrom(nal: seq<byte>, mtu: nat, off: nat)
    requires mtu >= 3 && 1 <= off < |nal|
    ensures var fs := FragmentsFrom(nal, mtu, off);
            && (|fs| - 1) * (mtu - 2) < |nal| - off <= |fs| * (mtu - 2)
            && Gather(fs) == nal[off..]
            && (forall k :: 0 <= k < |fs| ==> (HasS(fs[k]) <==> k == 0 && off == 1))
            && (forall k :: 0 <= k < |fs| ==> (HasE(fs[k]) <==> k == |fs| - 1))
            && (forall k :: 0 <= k < |fs| - 1 ==> |fs[k]| == mtu)
            && (forall k :: 0 <= k < |fs| ==> 3 <= |fs[k]| <= mtu)
    decreases |nal| - off
  {
    hide Fragment, HasS, HasE;
    var fs := FragmentsFrom(nal, mtu, off);
    var end := FragmentEnd(nal, mtu, off);
    FragmentReads(nal, mtu, off);
    if end < |nal| {
      ShapeFrom(nal, mtu, end);
      var rest := FragmentsFrom(nal, mtu, end);
      assert fs[1..] == rest;
      assert |fs| * (mtu - 2) == (|fs| - 1) * (mtu - 2) + (mtu - 2);
      assert (|fs| - 1) * (mtu - 2) == (|fs| - 2) * (mtu - 2) + (mtu - 2);
      assert nal[off..] == nal[off..end] + nal[end..];
    } else {
      assert nal[off..] == nal[off..end];
      assert fs[1..] == [];
      assert Gather(fs) == nal[off..end] + [];
    }
  }

  /** FU-A shape: ceil((L - 1) / (mtu - 2)) payloads, at least two; S only on the first, E
      only on the last, every other one of size mtu; together they carry the unit's bytes. */
  lemma FragmentShape(nal: seq<byte>, mtu: nat)
    requires |nal| > mtu >= 3
    ensures var fs := Payloads(nal, mtu);
            && |fs| >= 2
            && (|fs| - 1) * (mtu - 2) < |nal| - 1 <= |fs| * (mtu - 2)
            && Gather(fs) == nal[1..]
            && (forall k :: 0 <= k < |fs| ==> (HasS(fs[k]) <==> k == 0))
            && (forall k :: 0 <= k < |fs| ==> (HasE(fs[k]) <==> k == |fs| - 1))
            && (forall k :: 0 <= k < |fs| - 1 ==> |fs[k]| == mtu)
            && 3 <= |fs[|fs| - 1]| <= mtu
  {
    ShapeFrom(nal, mtu, 1);
  }

  // ----- in-place refinement -----

  datatype State = State(buf: seq<byte>, pos: nat)

  /** Buffer and offset after k calls of the driver's loop; None once a call is refused or
      the loop has already ended. */
  function After(cfg: Config, buf: seq<byte>, pos: nat, k: nat): (r: Option<State>)
    requires cfg.mtu >= 2 && pos <= |buf| && !cfg.mode.SingleNal?
    decreases k
  {
    if k == 0 then Some(State(buf, pos))
    else if pos == |buf| then None
    else
      match PacketizeStep(cfg, buf, pos)
      case Refused(_) => None
      case Emitted(b, p, _) => After(cfg, b, p, k - 1)
  }

  /** What the loop may rely on between calls. */
  ghost predicate Intact(four: bool, nal: seq<byte>, mtu: nat, s: State)
    requires mtu >= 3 && |nal| >= 1
  {
    var input := Prefix(four) + nal;
    && |s.buf| == |input| && s.pos <= |input|
    && s.buf[s.pos..] == input[s.pos..]
    && (0 < s.pos < |input| ==>
          && 0 <= s.pos - mtu
          && s.buf[s.pos - mtu] == Octet(Nri(nal[0]), FU_A)
          && Nri(s.buf[s.pos - mtu]) == Nri(nal[0])
          && NalType(s.buf[s.pos - mtu + 1]) == NalType(nal[0]))
  }

  lemma MidUnitIntact(four: bool, nal: seq<byte>, mtu: nat, buf: seq<byte>, off: nat)
    requires mtu >= 3 && |nal| >= 1 && MidUnit(four, nal, mtu, buf, off)
    ensures Intact(four, nal, mtu, State(buf, |Prefix(four)| + off))
  {
  }

  lemma {:induction false} IntactFrom(cfg: Config, four: bool, nal: seq<byte>, buf: seq<byte>, off: nat, k: nat)
    requires cfg.mtu >= 3 && !cfg.mode.SingleNal? && |nal| > cfg.mtu && NoStartCode(nal)
    requires MidUnit(four, nal, cfg.mtu, buf, off)
    requires k <= |FragmentsFrom(nal, cfg.mtu, off)|
    ensures var s := After(cfg, buf, |Prefix(four)| + off, k);
            && s.Some? && Intact(four, nal, cfg.mtu, s.value)
            && (k > 0 ==> s.value.pos > |Prefix(four)| + off)
            && (s.value.pos == |buf| <==> k == |FragmentsFrom(nal, cfg.mtu, off)|)
    decreases k
  {
    hide PacketizeStep, Fragment;
    if k == 0 {
      MidUnitIntact(four, nal, cfg.mtu, buf, off);
    } else {
      NextFragment(cfg, four, nal, buf, off);
      var step := PacketizeStep(cfg, buf, |Prefix(four)| + off);
      var end := FragmentEnd(nal, cfg.mtu, off);
      if end < |nal| {
        IntactFrom(cfg, four, nal, step.buf, end, k - 1);
      }
    }
  }

  lemma IntactFromFirst(cfg: Config, four: bool, nal: seq<byte>, k: nat)
    requires cfg.mtu >= 3 && !cfg.mode.SingleNal? && |nal| > cfg.mtu && NoStartCode(nal)
    requires 0 < k <= |Payloads(nal, cfg.mtu)|
    ensures var s := After(cfg, Prefix(four) + nal, 0, k);
            && s.Some? && Intact(four, nal, cfg.mtu, s.value)
            && (s.value.pos == |Prefix(four)| + |nal| <==> k == |Payloads(nal, cfg.mtu)|)
  {
    hide PacketizeStep, Fragment;
    FirstFragment(cfg, four, nal);
    var step := PacketizeStep(cfg, Prefix(four) + nal, 0);
    var end := FragmentEnd(nal, cfg.mtu, 1);
    IntactFrom(cfg, four, nal, step.buf, end, k - 1);
    assert After(cfg, Prefix(four) + nal, 0, k) == After(cfg, step.buf, step.pos, k - 1);
  }

  /** In-place refinement: after every number k of calls, the bytes from the offset on are
      the input's, the previous FU indicator and header stand at offset - mtu and give back
      the unit's NRI and type, no call was refused, and the offset reaches the end of the
      buffer with the last payload and not before. */
  lemma InPlaceRefinement(cfg: Config, four: bool, nal: seq<byte>, k: nat)
    requires cfg.mtu >= 3 && !cfg.mode.SingleNal? && |nal| >= 1 && NoStartCode(nal)
    requires k <= |Payloads(nal, cfg.mtu)|
    ensures var s := After(cfg, Prefix(four) + nal, 0, k);
            && s.Some? && Intact(four, nal, cfg.mtu, s.value)
            && (s.value.pos == |Prefix(four)| + |nal| <==> k == |Payloads(nal, cfg.mtu)|)
  {
    if k > 0 {
      if |nal| > cfg.mtu {
        IntactFromFirst(cfg, four, nal, k);
      } else {
        SingleCall(cfg, four, nal);
        assert After(cfg, Prefix(four) + nal, |Prefix(four)| + |nal|, 0).Some?;
      }
    }
  }

  // ----- the bound on the mtu is exact -----

  /** The driver's loop comes to its end: after some number of calls, none of them refused,
      the offset is the buffer's length. */
  ghost predicate Ends(cfg: Config, buf: seq<byte>, pos: nat)
    requires cfg.mtu >= 2 && pos <= |buf| && !cfg.mode.SingleNal?
  {
    exists k: nat :: After(cfg, buf, pos, k).Some? && After(cfg, buf, pos, k).value.pos == |buf|
  }

  /** A run that hands out payloads has come to its end with as many calls. */
  lemma {:induction false} RunIsAfter(cfg: Config, buf: seq<byte>, pos: nat)
    requires cfg.mtu >= 2 && pos <= |buf| && !cfg.mode.SingleNal? && PacketizeRun(cfg, buf, pos).Some?
    ensures var s := After(cfg, buf, pos, |PacketizeRun(cfg, buf, pos).value|);
            s.Some? && s.value.pos == |buf|
    decreases |buf| - pos
  {
    hide PacketizeStep;
    if pos < |buf| {
      var step := PacketizeStep(cfg, buf, pos);
      RunIsAfter(cfg, step.buf, step.pos);
    }
  }

  /** With an mtu of 2 a fragment has no room for data. */
  lemma FirstIsEmpty(cfg: Config, four: bool, nal: seq<byte>)
    requires cfg.mtu == 2 && !cfg.mode.SingleNal? && |nal| > 2 && NoStartCode(nal)
    ensures var step, h := PacketizeStep(cfg, Prefix(four) + nal, 0), |Prefix(four)|;
            && step.Emitted? && |step.buf| == h + |nal| && step.pos == h + 1 && step.buf[h + 1..] == nal[1..]
  {
    var buf, h := Prefix(four) + nal, |Prefix(four)|;
    FindsNalOctet(four, nal);
    assert buf[h..] == nal[0..];
    WindowWithoutStartCode(cfg, buf, nal, h, 0);
    FuStepBytes(cfg, buf, h + 1, UnitEnd(cfg, buf, h), Nri(nal[0]), NalType(nal[0]), true);
    assert buf[h + 1..] == nal[1..];
  }

  /** Nor have the later ones: each call rewrites the two header bytes and leaves the offset. */
  lemma {:induction false} StaysInPlace(cfg: Config, buf: seq<byte>, pos: nat, nal: seq<byte>, k: nat)
    requires cfg.mtu == 2 && !cfg.mode.SingleNal? && |nal| > 2 && NoStartCode(nal)
    requires 2 <= pos && pos + |nal| - 1 == |buf| && buf[pos..] == nal[1..]
    ensures var s := After(cfg, buf, pos, k);
            s.Some? && s.value.pos == pos
    decreases k
  {
    if k > 0 {
      WindowWithoutStartCode(cfg, buf, nal, pos, 1);
      FuStepBytes(cfg, buf, pos, UnitEnd(cfg, buf, pos), Nri(buf[pos - 2]), NalType(buf[pos - 1]), false);
      StaysInPlace(cfg, PacketizeStep(cfg, buf, pos).buf, pos, nal, k - 1);
    }
  }

  /** Any number of calls later the offset is still short of the end. */
  lemma NoRoomNoProgress(cfg: Config, four: bool, nal: seq<byte>, k: nat)
    requires cfg.mtu == 2 && !cfg.mode.SingleNal? && |nal| > 2 && NoStartCode(nal)
    ensures var s := After(cfg, Prefix(four) + nal, 0, k);
            s.Some? && s.value.pos == (if k == 0 then 0 else |Prefix(four)| + 1) < |Prefix(four) + nal|
  {
    hide PacketizeStep;
    if k > 0 {
      FirstIsEmpty(cfg, four, nal);
      var step := PacketizeStep(cfg, Prefix(four) + nal, 0);
      StaysInPlace(cfg, step.buf, step.pos, nal, k - 1);
    }
  }

  /** The driver's loop over one unit comes to its end exactly when the unit fits or the mtu
      leaves room for data; and then it is the run. */
  lemma RunEndsExactly(cfg: Config, four: bool, nal: seq<byte>)
    requires cfg.mtu >= 2 && !cfg.mode.SingleNal? && |nal| >= 1 && NoStartCode(nal)
    ensures Ends(cfg, Prefix(four) + nal, 0) <==> |nal| <= cfg.mtu || cfg.mtu >= 3
    ensures Ends(cfg, Prefix(four) + nal, 0) <==> PacketizeRun(cfg, Prefix(four) + nal, 0).Some?
  {
    hide After, PacketizeStep;
    var buf := Prefix(four) + nal;
    if |nal| > cfg.mtu && cfg.mtu == 2 {
      forall k: nat
        ensures After(cfg, buf, 0, k).Some? && After(cfg, buf, 0, k).value.pos < |buf|
      {
        NoRoomNoProgress(cfg, four, nal, k);
      }
    } else {
      if cfg.mtu >= 3 {
        RunEmitsPayloads(cfg, four, nal);
      } else {
        SingleCall(cfg, four, nal);
        assert PacketizeRun(cfg, buf, |buf|) == Some([]);
      }
    }
    if PacketizeRun(cfg, buf, 0).Some? {
      RunIsAfter(cfg, buf, 0);
    }
  }
}
