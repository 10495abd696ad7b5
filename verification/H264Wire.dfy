/** H.264 in the numbers of sections 5.3 to 5.8 of RFC 6184: the bytes of every fragment, what
    each kind of payload does to the receiver, and what every call returns. */
module H264Wire {
  import opened Bytes
  import opened H264Payload
  import opened H264Fragmentation
  import opened H264Shape
  import opened H264Unpack
  import opened H264Loss
  import opened H264Frame
  import opened H264Room

  // ----- fragments on the wire -----

  /** An FU-A of the unit with octet b: indicator with F = 0, the unit's NRI and type 28; S, E,
      R = 0 and the unit's type; data. */
  predicate IsFuA(p: seq<byte>, b: byte, start: bool, end: bool) {
    && |p| >= 3 && p[0] == (b & 0x60) | 28 && p[1] & 0x3f == b & 0x1f
    && (p[1] & 0x80 != 0 <==> start) && (p[1] & 0x40 != 0 <==> end)
  }

  lemma HeaderNumbers(b: byte, start: bool, end: bool)
    ensures Octet(Nri(b), FU_A) == (b & 0x60) | 28
    ensures var f := FuHeader(NalType(b), start, end);
            f & 0x3f == b & 0x1f && (f & 0x80 != 0 <==> start) && (f & 0x40 != 0 <==> end)
  {
  }

  lemma FragmentNumbers(nal: seq<byte>, mtu: nat, off: nat)
    requires mtu >= 3 && 1 <= off < |nal|
    ensures IsFuA(Fragment(nal, mtu, off), nal[0], off == 1, FragmentEnd(nal, mtu, off) == |nal|)
  {
    hide Octet, FuHeader, Nri, NalType;
    var end := FragmentEnd(nal, mtu, off);
    HeaderNumbers(nal[0], off == 1, end == |nal|);
  }

  lemma {:induction false} FragmentsNumbers(nal: seq<byte>, mtu: nat, off: nat)
    requires mtu >= 3 && 1 <= off < |nal|
    ensures var ps := FragmentsFrom(nal, mtu, off);
            forall k :: 0 <= k < |ps| ==> IsFuA(ps[k], nal[0], k == 0 && off == 1, k == |ps| - 1)
    decreases |nal| - off
  {
    hide Fragment, IsFuA;
    var end := FragmentEnd(nal, mtu, off);
    FragmentNumbers(nal, mtu, off);
    if end < |nal| {
      FragmentsNumbers(nal, mtu, end);
      assert FragmentsFrom(nal, mtu, off)[1..] == FragmentsFrom(nal, mtu, end);
    }
  }

  /** n is len / m rounded up. */
  predicate RoundedUp(n: int, len: int, m: int) {
    (n - 1) * m < len <= n * m
  }

  predicate AreFuAs(ps: seq<seq<byte>>, nal: seq<byte>, mtu: int)
    requires nal != []
  {
    && |ps| >= 2 && RoundedUp(|ps|, |nal| - 1, mtu - 2) && Gather(ps) == nal[1..]
    && (forall k :: 0 <= k < |ps| ==> IsFuA(ps[k], nal[0], k == 0, k == |ps| - 1))
    && (forall k :: 0 <= k < |ps| - 1 ==> |ps[k]| == mtu)
  }

  lemma PayloadsAreFuAs(nal: seq<byte>, mtu: nat)
    requires |nal| > mtu >= 3
    ensures AreFuAs(Payloads(nal, mtu), nal, mtu)
  {
    hide HasS, HasE, FragmentsFrom;
    FragmentShape(nal, mtu);
    FragmentsNumbers(nal, mtu, 1);
    var ps := Payloads(nal, mtu);
    assert ps == FragmentsFrom(nal, mtu, 1);
    assert forall k :: 0 <= k < |ps| ==> IsFuA(ps[k], nal[0], k == 0, k == |ps| - 1);
  }

  /** A unit longer than the mtu goes out in ceil((L - 1) / (mtu - 2)) FU-As, S on the first and
      no other, E on the last and no other, with the unit's bytes behind its octet as data. */
  lemma FragmentsOnTheWire(cfg: Config, four: bool, nal: seq<byte>)
    requires cfg.mtu >= 3 && !cfg.mode.SingleNal? && |nal| > cfg.mtu && NoStartCode(nal)
    ensures var run := PacketizeRun(cfg, Prefix(four) + nal, 0);
            run.Some? && AreFuAs(run.value, nal, cfg.mtu)
  {
    hide PacketizeRun, AreFuAs;
    RunEmitsPayloads(cfg, four, nal);
    PayloadsAreFuAs(nal, cfg.mtu);
  }

  // ----- refusals -----

  /** A call outside single-NAL mode is refused only when it finds no start code in its look
      and has fewer than mtu bytes behind it to read the headers from; in single-NAL mode only
      when the unit is longer than the mtu. */
  lemma RefusedExactly(cfg: Config, buf: seq<byte>, pos: nat)
    requires cfg.mtu >= 2 && pos <= |buf| && (cfg.mode.SingleNal? ==> UnitStart(buf, pos).Some?)
    ensures var step := PacketizeStep(cfg, buf, pos);
            if cfg.mode.SingleNal? then
              var n := UnitStart(buf, pos).value;
              if UnitEnd(cfg, buf, n) - n > cfg.mtu then step == Refused(ETooSmall) else step.Emitted?
            else if UnitStart(buf, pos).None? && pos < cfg.mtu then step == Refused(ECancelled)
            else step.Emitted?
  {
    hide UnitStart, UnitEnd, FuStep;
  }

  // ----- one call of the depacketizer -----

  lemma RebuiltOctet(p0: byte, p1: byte)
    ensures Octet(Nri(p0), NalType(p1)) == (p0 & 0x60) | (p1 & 0x1f)
  {
  }

  /** A payload too short to be one does what a loss report does, and is reported. */
  lemma ShortIsLost(st: Unpacker, p: seq<byte>, cap: nat)
    requires SyncOk(st) && |p| < 2
    ensures UnpackStep(st, Some(p), cap) == (UnpackStep(st, None, cap).0, EInval)
    ensures UnpackStep(st, None, cap) == (st.(prevLost := true), Success)
  {
  }

  /** Types 1 to 23: written behind a start code, synchronised, and no loss is pending any
      more; or, without room, nothing at all. */
  lemma SingleCallExactly(st: Unpacker, p: seq<byte>, cap: nat)
    requires SyncOk(st) && |p| >= 2 && 1 <= p[0] & 0x1f <= 23
    ensures var r, out := UnpackStep(st, Some(p), cap), st.out + ([0, 0, 0, 1] + p);
            if |out| <= cap then r == (Unpacker(out, |out|, false), Success)
            else r.1 == ETooSmall && r.0.out == st.out && SyncPoint(r.0) == SyncPoint(st) && r.0.prevLost == st.prevLost
  {
  }

  /** Type 28: refused without room, which counts as a loss; ignored, with a rollback, exactly
      when it does not start a unit and a loss is pending; otherwise appended. */
  lemma FuCallExactly(st: Unpacker, p: seq<byte>, cap: nat)
    requires SyncOk(st) && |p| >= 2 && p[0] & 0x1f == 28
    ensures var r := UnpackStep(st, Some(p), cap);
            var head := if p[1] & 0x80 != 0 then [0, 0, 0, 1] + [(p[0] & 0x60) | (p[1] & 0x1f)] else [];
            var out := st.out + (head + p[2..]);
            if |st.out| + |p| + 4 > cap then
              r.1 == ETooSmall && r.0.out == st.out && SyncPoint(r.0) == SyncPoint(st) && r.0.prevLost
            else if p[1] & 0x80 == 0 && st.prevLost then
              r.1 == EIgnored && r.0.out == st.out[..SyncPoint(st)] && SyncPoint(r.0) == SyncPoint(st) && r.0.prevLost
            else
              r.1 == Success && r.0.out == out && !r.0.prevLost
              && SyncPoint(r.0) == if p[1] & 0x40 != 0 then |out| else SyncPoint(st)
  {
    hide Octet, Nri, StapWalk;
    RebuiltOctet(p[0], p[1]);
  }

  /** Any other type but 24 empties the stream. */
  lemma UnsupportedCallExactly(st: Unpacker, p: seq<byte>, cap: nat)
    requires SyncOk(st) && |p| >= 2 && p[0] & 0x1f in {0, 25, 26, 27, 29, 30, 31}
    ensures var r := UnpackStep(st, Some(p), cap);
            r.1 == ENotSup && r.0.out == [] && r.0.prevLost == st.prevLost
  {
  }

  /** Sizes in an aggregate: two bytes, high byte first. */
  lemma SizesOnTheWire(nals: seq<seq<byte>>)
    requires nals != [] && forall i :: 0 <= i < |nals| ==> |nals[i]| < 0x1_0000
    ensures var q := StapBody(nals);
            && |q| >= 2 + |nals[0]| && 256 * (q[0] as nat) + q[1] as nat == |nals[0]|
            && q[2..] == nals[0] + StapBody(nals[1..])
  {
    hide U16, StapBody;
    BodyUnfolds(nals);
    var q, n := StapBody(nals), |nals[0]|;
    U16IsNumber(q[0], q[1]);
    assert q[2..] == q[2..2 + n] + q[2 + n..];
  }

  /** Type 24: an aggregate whose units are begun with room left and well formed is written and
      synchronised; one that is cut off or overrun by a size behind some units keeps those
      units, is reported, and leaves a pending loss pending. */
  lemma {:induction false} BadTail(nals: seq<seq<byte>>, bad: seq<byte>, room: int)
    requires forall i :: 0 <= i < |nals| ==> |nals[i]| < 0x1_0000
    requires |bad| == 1 || (|bad| >= 2 && 2 + 256 * (bad[0] as nat) + bad[1] as nat > |bad|)
    requires room > |JoinNals(nals)|
    ensures StapWalk(StapBody(nals) + bad, room) == Aggregate(JoinNals(nals), |nals|, false)
    decreases |nals|
  {
    hide U16, StapBody, StapWalk, JoinNals;
    if nals == [] {
      BadAlone(nals, bad, room);
    } else {
      JoinedUnfolds(nals);
      BodyUnfolds(nals);
      BadTail(nals[1..], bad, room - 4 - |nals[0]|);
      BodyAndTail(StapBody(nals), bad, nals[0], StapBody(nals[1..]));
      WalkOne(StapBody(nals) + bad, nals[0], StapBody(nals[1..]) + bad, room);
    }
  }

  lemma BadAlone(nals: seq<seq<byte>>, bad: seq<byte>, room: int)
    requires nals == [] && room > 0
    requires |bad| == 1 || (|bad| >= 2 && 2 + 256 * (bad[0] as nat) + bad[1] as nat > |bad|)
    ensures JoinNals(nals) == [] && StapWalk(StapBody(nals) + bad, room) == Aggregate([], 0, false)
  {
    hide U16;
    assert [] + bad == bad;
    if |bad| >= 2 {
      U16IsNumber(bad[0], bad[1]);
    }
  }

  lemma JoinedUnfolds(nals: seq<seq<byte>>)
    ensures JoinNals(nals) == if nals == [] then [] else START_CODE + nals[0] + JoinNals(nals[1..])
  {
  }

  lemma BodyAndTail(body: seq<byte>, bad: seq<byte>, nal: seq<byte>, later: seq<byte>)
    requires |body| >= 2 + |nal| && body[2..2 + |nal|] == nal && body[2 + |nal|..] == later
    ensures var q := body + bad;
            q[0] == body[0] && q[1] == body[1] && q[2..2 + |nal|] == nal && q[2 + |nal|..] == later + bad
  {
  }

  lemma AggregateCallExactly(st: Unpacker, octet: byte, nals: seq<seq<byte>>, bad: seq<byte>, cap: nat)
    requires SyncOk(st) && octet & 0x1f == 24 && forall i :: 0 <= i < |nals| ==> |nals[i]| < 0x1_0000
    requires |bad| == 1 || (|bad| >= 2 && 2 + 256 * (bad[0] as nat) + bad[1] as nat > |bad|)
    ensures var p := [octet] + (StapBody(nals) + bad);
            var r, out := UnpackStep(st, Some(p), cap), st.out + JoinNals(nals);
            if |st.out| + |p| + 32 > cap then
              r.1 == ETooSmall && r.0.out == st.out && SyncPoint(r.0) == SyncPoint(st) && r.0.prevLost == st.prevLost
            else |out| < cap ==>
              r.1 == EInval && r.0.out == out && r.0.prevLost == st.prevLost
              && SyncPoint(r.0) == if nals == [] then SyncPoint(st) else |out|
  {
    hide StapWalk, U16, StapBody, JoinNals;
    var p, room := [octet] + (StapBody(nals) + bad), cap - |st.out|;
    assert p[1..] == StapBody(nals) + bad;
    if room > |JoinNals(nals)| {
      BadTail(nals, bad, room);
      JoinedLength(nals);
    }
    assert st.out + [] == st.out;
  }

  lemma JoinedLength(nals: seq<seq<byte>>)
    ensures nals == [] <==> JoinNals(nals) == []
  {
  }

  // ----- what a run of calls returns -----

  function Statuses(st: Unpacker, es: seq<Option<seq<byte>>>, cap: nat): (ss: seq<Status>)
    requires SyncOk(st)
    ensures |ss| == |es|
    decreases |es|
  {
    if es == [] then []
    else [UnpackStep(st, es[0], cap).1] + Statuses(UnpackStep(st, es[0], cap).0, es[1..], cap)
  }

  /** What is expected for the payloads of one unit: a fragment behind a hole is ignored. */
  function HoleStatuses(got: seq<bool>, lost: bool): (ss: seq<Status>)
    ensures |ss| == |got|
  {
    if got == [] then []
    else [if got[0] && lost then EIgnored else Success] + HoleStatuses(got[1..], lost || !got[0])
  }

  lemma {:induction false} HoleStatusesExactly(got: seq<bool>, lost: bool)
    ensures forall i :: 0 <= i < |got| ==>
              HoleStatuses(got, lost)[i] == if got[i] && (lost || false in got[..i]) then EIgnored else Success
    decreases |got|
  {
    if got != [] {
      HoleStatusesExactly(got[1..], lost || !got[0]);
      forall i | 0 <= i < |got|
        ensures HoleStatuses(got, lost)[i] == if got[i] && (lost || false in got[..i]) then EIgnored else Success
      {
        if i > 0 {
          assert got[..i] == [got[0]] + got[1..][..i - 1];
        }
      }
    }
  }

  lemma {:induction false} StatusesConcat(st: Unpacker, a: seq<Option<seq<byte>>>, b: seq<Option<seq<byte>>>, cap: nat)
    requires SyncOk(st)
    ensures Statuses(st, a + b, cap) == Statuses(st, a, cap) + Statuses(UnpackRun(st, a, cap), b, cap)
    decreases |a|
  {
    hide UnpackStep;
    if a == [] {
      assert a + b == b;
    } else {
      assert (a + b)[1..] == a[1..] + b;
      StatusesConcat(UnpackStep(st, a[0], cap).0, a[1..], b, cap);
    }
  }

  /** One fragment, received or not. */
  lemma FragmentStatus(st: Unpacker, nal: seq<byte>, mtu: nat, off: nat, got: bool, cap: nat)
    requires mtu >= 3 && 1 <= off < |nal| && SyncOk(st) && cap >= |st.out| + |nal| - off + 6
    ensures var f := Fragment(nal, mtu, off);
            var r := UnpackStep(st, if got then Some(f) else None, cap);
            var ignored := got && off > 1 && st.prevLost;
            r.1 == (if ignored then EIgnored else Success) && r.0.prevLost == (!got || ignored)
  {
    hide Fragment, Octet, Nri, NalType;
    FragmentReads(nal, mtu, off);
    FragmentIsFu(nal, mtu, off);
    if got {
      FuCallExactly(st, Fragment(nal, mtu, off), cap);
    } else {
      ShortIsLost(st, [], cap);
    }
  }

  lemma FragmentIsFu(nal: seq<byte>, mtu: nat, off: nat)
    requires mtu >= 3 && 1 <= off < |nal|
    ensures Fragment(nal, mtu, off)[0] & 0x1f == 28
    ensures Fragment(nal, mtu, off)[1] & 0x80 != 0 <==> off == 1
  {
    FragmentNumbers(nal, mtu, off);
    TypeOfIndicator(nal[0]);
  }

  lemma TypeOfIndicator(b: byte)
    ensures ((b & 0x60) | 28) & 0x1f == 28
  {
  }

  lemma {:induction false} FragmentStatuses(st: Unpacker, nal: seq<byte>, mtu: nat, off: nat, got: seq<bool>, lost: bool, cap: nat)
    requires mtu >= 3 && 1 <= off < |nal| && SyncOk(st) && |got| == |FragmentsFrom(nal, mtu, off)|
    requires if off == 1 then !lost else st.prevLost == lost
    requires cap >= |st.out| + |nal| - off + (if off == 1 then 11 else 6)
    ensures Statuses(st, Channel(FragmentsFrom(nal, mtu, off), got), cap) == HoleStatuses(got, lost)
    decreases |nal| - off
  {
    hide UnpackStep, Fragment, FragmentEnd;
    var fs, end := FragmentsFrom(nal, mtu, off), FragmentEnd(nal, mtu, off);
    var es := Channel(fs, got);
    FragmentStatus(st, nal, mtu, off, got[0], cap);
    FragmentHasRoom(st, nal, mtu, off, cap);
    LossHasRoom(st, cap);
    assert es[0] == if got[0] then Some(Fragment(nal, mtu, off)) else None;
    assert es[1..] == Channel(fs[1..], got[1..]);
    if end < |nal| {
      assert fs[1..] == FragmentsFrom(nal, mtu, end);
      FragmentStatuses(UnpackStep(st, es[0], cap).0, nal, mtu, end, got[1..], lost || !got[0], cap);
    } else {
      assert fs[1..] == [] && got[1..] == [];
    }
  }

  lemma UnitStatuses(st: Unpacker, nal: seq<byte>, mtu: nat, got: seq<bool>, cap: nat)
    requires mtu >= 3 && Acceptable(nal, mtu) && SyncOk(st) && |got| == |Payloads(nal, mtu)|
    requires cap >= |st.out| + |nal| + 10
    ensures Statuses(st, Channel(Payloads(nal, mtu), got), cap) == HoleStatuses(got, false)
  {
    if |nal| > mtu {
      FragmentStatuses(st, nal, mtu, 1, got, false, cap);
    } else {
      assert Channel([nal], got)[1..] == [] && got[1..] == [];
    }
  }

  ghost function FrameStatuses(got: seq<seq<bool>>): seq<Status> {
    if got == [] then [] else HoleStatuses(got[0], false) + FrameStatuses(got[1..])
  }

  /** What every call over a frame returns, whatever is lost and whatever the state: success,
      but for the fragments behind a hole in their unit, which are ignored. */
  lemma {:induction false} FrameStatusesExactly(st: Unpacker, nals: seq<seq<byte>>, mtu: nat, got: seq<seq<bool>>, cap: nat)
    requires Matches(nals, mtu, got) && SyncOk(st)
    requires cap >= |st.out| + |JoinNals(nals)| + 6
    ensures Statuses(st, FrameEvents(nals, mtu, got), cap) == FrameStatuses(got)
    decreases |nals|
  {
    hide UnpackStep, Payloads, HoleStatuses;
    if nals != [] {
      var es := Channel(Payloads(nals[0], mtu), got[0]);
      UnitStatuses(st, nals[0], mtu, got[0], cap);
      UnitHasRoom(st, nals[0], mtu, got[0], cap);
      StatusesConcat(st, es, FrameEvents(nals[1..], mtu, got[1..]), cap);
      FrameStatusesExactly(UnpackRun(st, es, cap), nals[1..], mtu, got[1..], cap);
    }
  }

  /** Without loss every call succeeds. */
  lemma {:induction false} LosslessStatuses(st: Unpacker, nals: seq<seq<byte>>, mtu: nat, cap: nat)
    requires mtu >= 3 && SyncOk(st) && forall i :: 0 <= i < |nals| ==> Acceptable(nals[i], mtu)
    requires cap >= |st.out| + |JoinNals(nals)| + 6
    ensures forall i :: 0 <= i < |AllPayloads(nals, mtu)| ==> Statuses(st, AllReceived(AllPayloads(nals, mtu)), cap)[i] == Success
    decreases |nals|
  {
    hide UnpackStep, Payloads, HoleStatuses;
    if nals != [] {
      var ps, later := Payloads(nals[0], mtu), AllPayloads(nals[1..], mtu);
      var got := Trues(|ps|);
      AllReceivedIsChannel(ps);
      UnitStatuses(st, nals[0], mtu, got, cap);
      UnitHasRoom(st, nals[0], mtu, got, cap);
      AllReceivedConcat(ps, later);
      StatusesConcat(st, AllReceived(ps), AllReceived(later), cap);
      LosslessStatuses(UnpackRun(st, AllReceived(ps), cap), nals[1..], mtu, cap);
      NoHole(|ps|);
    }
  }

  lemma NoHole(n: nat)
    ensures forall i :: 0 <= i < n ==> HoleStatuses(Trues(n), false)[i] == Success
  {
    HoleStatusesExactly(Trues(n), false);
    AllTrue(n);
  }

  lemma AllTrue(n: nat)
    ensures false !in Trues(n)
  {
  }
}
