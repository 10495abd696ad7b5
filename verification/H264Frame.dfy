/** Whole frames: loss safety for any loss pattern, and the exact condition under which a
    unit survives packetizing and depacketizing. */
module H264Frame {
  import opened Bytes
  import opened H264Payload
  import opened H264Fragmentation
  import opened H264Unpack
  import opened H264Loss

  ghost predicate Matches(nals: seq<seq<byte>>, mtu: nat, got: seq<seq<bool>>) {
    mtu >= 3 && |got| == |nals|
    && forall i :: 0 <= i < |nals| ==> Acceptable(nals[i], mtu) && |got[i]| == |Payloads(nals[i], mtu)|
  }

  /** Every payload of a frame in sending order, lost ones reported as NULL. */
  ghost function FrameEvents(nals: seq<seq<byte>>, mtu: nat, got: seq<seq<bool>>): seq<Option<seq<byte>>>
    requires Matches(nals, mtu, got)
    decreases |nals|
  {
    if nals == [] then []
    else Channel(Payloads(nals[0], mtu), got[0]) + FrameEvents(nals[1..], mtu, got[1..])
  }

  ghost function RefRun(r: Ref, nals: seq<seq<byte>>, mtu: nat, got: seq<seq<bool>>): Ref
    requires Matches(nals, mtu, got)
    decreases |nals|
  {
    if nals == [] then r
    else RefRun(RefStep(r, nals[0], mtu, FateOf(got[0])), nals[1..], mtu, got[1..])
  }

  /** Any frame, any loss pattern: the depacketizer's state machine refines the reference. */
  lemma {:induction false} FrameRefines(st: Unpacker, r: Ref, nals: seq<seq<byte>>, mtu: nat, got: seq<seq<bool>>, cap: nat)
    requires Matches(nals, mtu, got) && Shows(st, r)
    requires cap >= |r.synced| + |r.open| + |JoinNals(nals)| + 6
    ensures Shows(UnpackRun(st, FrameEvents(nals, mtu, got), cap), RefRun(r, nals, mtu, got))
    decreases |nals|
  {
    if nals != [] {
      var es := Channel(Payloads(nals[0], mtu), got[0]);
      UnitRefines(st, r, nals[0], mtu, got[0], cap);
      RunConcat(st, es, FrameEvents(nals[1..], mtu, got[1..]), cap);
      FrameRefines(UnpackRun(st, es, cap), RefStep(r, nals[0], mtu, FateOf(got[0])), nals[1..], mtu, got[1..], cap);
    }
  }

  // ----- loss safety -----

  /** What a unit may leave in the output: all of it if everything arrived, nothing if a
      payload arrived behind a hole, otherwise nothing or the part before the loss. */
  ghost predicate Allowed(piece: seq<byte>, nal: seq<byte>, mtu: nat, got: seq<bool>)
    requires mtu >= 3 && Acceptable(nal, mtu)
  {
    match FateOf(got)
    case Whole => piece == START_CODE + Carried(nal, mtu)
    case Holed => piece == []
    case Cut(k) => piece == [] || piece == Piece(Carried(nal, mtu), mtu, k)
  }

  ghost predicate Kept(out: seq<byte>, pieces: seq<seq<byte>>, nals: seq<seq<byte>>, mtu: nat, got: seq<seq<bool>>)
    requires Matches(nals, mtu, got)
  {
    |pieces| == |nals| && out == Concat(pieces)
    && forall i :: 0 <= i < |nals| ==> Allowed(pieces[i], nals[i], mtu, got[i])
  }

  lemma KeptCons(first: seq<byte>, rest: seq<seq<byte>>, nals: seq<seq<byte>>, mtu: nat, got: seq<seq<bool>>)
    requires Matches(nals, mtu, got) && nals != []
    requires Kept(Concat(rest), rest, nals[1..], mtu, got[1..])
    requires Allowed(first, nals[0], mtu, got[0])
    ensures Kept(first + Concat(rest), [first] + rest, nals, mtu, got)
  {
  }

  /** What the first unit left once the later ones are in, and whether the bytes that were
      open before it survived. */
  lemma PieceOfFirst(r: Ref, nal: seq<byte>, mtu: nat, got: seq<bool>, laterKept: bool)
    returns (piece: seq<byte>, openKept: bool)
    requires mtu >= 3 && Acceptable(nal, mtu)
    ensures Allowed(piece, nal, mtu, got)
    ensures var r1 := RefStep(r, nal, mtu, FateOf(got));
            r1.synced + (if laterKept then r1.open else []) == r.synced + (if openKept then r.open else []) + piece
  {
    match FateOf(got) {
      case Whole => piece, openKept := START_CODE + Carried(nal, mtu), true;
      case Holed => piece, openKept := [], false;
      case Cut(k) => piece, openKept := if laterKept then Piece(Carried(nal, mtu), mtu, k) else [], laterKept;
    }
  }

  lemma {:induction false} RefPieces(r: Ref, nals: seq<seq<byte>>, mtu: nat, got: seq<seq<bool>>)
    returns (pieces: seq<seq<byte>>, openKept: bool)
    requires Matches(nals, mtu, got)
    ensures Kept(Concat(pieces), pieces, nals, mtu, got)
    ensures var r' := RefRun(r, nals, mtu, got);
            r'.synced + r'.open == r.synced + (if openKept then r.open else []) + Concat(pieces)
    decreases |nals|
  {
    hide Allowed, RefStep, FateOf, Carried, Piece;
    if nals == [] {
      pieces, openKept := [], true;
    } else {
      var rest, laterKept := RefPieces(RefStep(r, nals[0], mtu, FateOf(got[0])), nals[1..], mtu, got[1..]);
      var first, kept := PieceOfFirst(r, nals[0], mtu, got[0], laterKept);
      KeptCons(first, rest, nals, mtu, got);
      pieces, openKept := [first] + rest, kept;
      assert pieces[1..] == rest;
      var before := r.synced + (if openKept then r.open else []);
      assert before + first + Concat(rest) == before + (first + Concat(rest));
    }
  }

  lemma CarriedExactly(nal: seq<byte>, mtu: nat)
    requires Deliverable(nal, mtu)
    ensures Acceptable(nal, mtu) && Carried(nal, mtu) == nal
  {
  }

  /** Loss safety: whatever is lost, the output is one piece per unit in sending order, each a
      start code with a gap-free prefix of that unit or nothing; a unit that arrived whole is
      whole, and one with a hole in it is gone entirely. */
  lemma LossSafety(st: Unpacker, nals: seq<seq<byte>>, mtu: nat, got: seq<seq<bool>>, cap: nat)
    requires st.out == [] && Matches(nals, mtu, got)
    requires forall i :: 0 <= i < |nals| ==> Deliverable(nals[i], mtu)
    requires cap >= |JoinNals(nals)| + 6
    ensures exists pieces :: Kept(UnpackRun(st, FrameEvents(nals, mtu, got), cap).out, pieces, nals, mtu, got)
    ensures forall i :: 0 <= i < |nals| ==> Carried(nals[i], mtu) == nals[i]
  {
    FrameRefines(st, Ref([], []), nals, mtu, got, cap);
    var pieces, _ := RefPieces(Ref([], []), nals, mtu, got);
    assert Kept(UnpackRun(st, FrameEvents(nals, mtu, got), cap).out, pieces, nals, mtu, got);
    forall i | 0 <= i < |nals|
      ensures Carried(nals[i], mtu) == nals[i]
    {
      CarriedExactly(nals[i], mtu);
    }
  }

  /** One NULL for a gap of several packets. */
  function OneNullPerGap(es: seq<Option<seq<byte>>>): seq<Option<seq<byte>>> {
    if |es| >= 2 && es[0].None? && es[1].None? then OneNullPerGap(es[1..])
    else if es == [] then []
    else [es[0]] + OneNullPerGap(es[1..])
  }

  /** Reporting each gap once does what reporting each lost packet does. */
  lemma {:induction false} GapReportSuffices(st: Unpacker, es: seq<Option<seq<byte>>>, cap: nat)
    requires SyncOk(st)
    ensures UnpackRun(st, OneNullPerGap(es), cap) == UnpackRun(st, es, cap)
    decreases |es|
  {
    if es != [] {
      if |es| >= 2 && es[0].None? && es[1].None? {
        GapReportSuffices(st, es[1..], cap);
        assert UnpackStep(UnpackStep(st, es[0], cap).0, es[1], cap) == UnpackStep(st, es[1], cap);
      } else {
        GapReportSuffices(UnpackStep(st, es[0], cap).0, es[1..], cap);
        assert OneNullPerGap(es)[1..] == OneNullPerGap(es[1..]);
      }
    }
  }

  // ----- nothing lost -----

  /** The exact condition for a unit to come through unchanged. */
  predicate Deliverable(nal: seq<byte>, mtu: nat) {
    |nal| >= 1
    && if |nal| <= mtu then |nal| >= 2 && 1 <= NalType(nal[0]) <= 23
       else nal[0] & 0x80 == 0
  }

  function AllReceived(ps: seq<seq<byte>>): (es: seq<Option<seq<byte>>>)
    ensures |es| == |ps|
  {
    if ps == [] then [] else [Some(ps[0])] + AllReceived(ps[1..])
  }

  function Trues(n: nat): (got: seq<bool>)
    ensures |got| == n && LeadingTrues(got) == n && FateOf(got) == Whole
  {
    if n == 0 then [] else [true] + Trues(n - 1)
  }

  lemma {:induction false} AllReceivedIsChannel(ps: seq<seq<byte>>)
    ensures AllReceived(ps) == Channel(ps, Trues(|ps|))
  {
    if ps != [] {
      AllReceivedIsChannel(ps[1..]);
      assert Trues(|ps|)[1..] == Trues(|ps| - 1);
    }
  }

  ghost function AllPayloads(nals: seq<seq<byte>>, mtu: nat): seq<seq<byte>>
    requires mtu >= 3
  {
    if nals == [] then [] else Payloads(nals[0], mtu) + AllPayloads(nals[1..], mtu)
  }

  lemma {:induction false} AllReceivedConcat(a: seq<seq<byte>>, b: seq<seq<byte>>)
    ensures AllReceived(a + b) == AllReceived(a) + AllReceived(b)
  {
    if a == [] {
      assert a + b == b;
    } else {
      AllReceivedConcat(a[1..], b);
      assert (a + b)[1..] == a[1..] + b;
      ConcatAssociates([Some(a[0])], AllReceived(a[1..]), AllReceived(b));
    }
  }

  /** Everything written so far is final. */
  predicate Settled(st: Unpacker) {
    SyncOk(st) && SyncPoint(st) == |st.out|
  }

  lemma LosslessUnit(st: Unpacker, nal: seq<byte>, mtu: nat, cap: nat)
    requires mtu >= 3 && Settled(st) && Deliverable(nal, mtu)
    requires cap >= |st.out| + |nal| + 10
    ensures var st' := UnpackRun(st, AllReceived(Payloads(nal, mtu)), cap);
            Settled(st') && st'.out == st.out + (START_CODE + nal)
  {
    var ps := Payloads(nal, mtu);
    AllReceivedIsChannel(ps);
    CarriedExactly(nal, mtu);
    assert st.out == st.out + [];
    UnitRefines(st, Ref(st.out, []), nal, mtu, Trues(|ps|), cap);
  }

  ghost function LosslessEvents(nals: seq<seq<byte>>, mtu: nat): seq<Option<seq<byte>>>
    requires mtu >= 3
  {
    if nals == [] then [] else AllReceived(Payloads(nals[0], mtu)) + LosslessEvents(nals[1..], mtu)
  }

  lemma {:induction false} LosslessEventsAreAllPayloads(nals: seq<seq<byte>>, mtu: nat)
    requires mtu >= 3
    ensures LosslessEvents(nals, mtu) == AllReceived(AllPayloads(nals, mtu))
  {
    if nals != [] {
      AllReceivedConcat(Payloads(nals[0], mtu), AllPayloads(nals[1..], mtu));
      LosslessEventsAreAllPayloads(nals[1..], mtu);
    }
  }

  lemma {:induction false} LosslessFrom(st: Unpacker, nals: seq<seq<byte>>, mtu: nat, cap: nat)
    requires mtu >= 3 && Settled(st)
    requires forall i :: 0 <= i < |nals| ==> Deliverable(nals[i], mtu)
    requires cap >= |st.out| + |JoinNals(nals)| + 6
    ensures UnpackRun(st, LosslessEvents(nals, mtu), cap).out == st.out + JoinNals(nals)
    decreases |nals|
  {
    if nals != [] {
      var es := AllReceived(Payloads(nals[0], mtu));
      RunConcat(st, es, LosslessEvents(nals[1..], mtu), cap);
      LosslessUnit(st, nals[0], mtu, cap);
      LosslessFrom(UnpackRun(st, es, cap), nals[1..], mtu, cap);
      ConcatAssociates(st.out, START_CODE + nals[0], JoinNals(nals[1..]));
    }
  }

  /** Without loss every unit comes out whole, in order, behind a four-byte start code. */
  lemma LosslessRun(st: Unpacker, nals: seq<seq<byte>>, mtu: nat, cap: nat)
    requires mtu >= 3 && Settled(st)
    requires forall i :: 0 <= i < |nals| ==> Deliverable(nals[i], mtu)
    requires cap >= |st.out| + |JoinNals(nals)| + 6
    ensures UnpackRun(st, AllReceived(AllPayloads(nals, mtu)), cap).out == st.out + JoinNals(nals)
  {
    LosslessEventsAreAllPayloads(nals, mtu);
    LosslessFrom(st, nals, mtu, cap);
  }

  /** Output that holds a second start code is not the unit's, which holds none. */
  lemma SecondStartCodeShows(nal: seq<byte>, first: seq<byte>, rest: seq<byte>)
    requires NoStartCode(nal) && |rest| >= 4 && rest[..4] == START_CODE
    ensures first + rest != nal
  {
    var n := |first|;
    var s := first + rest;
    assert s[n] == rest[..4][0] && s[n + 1] == rest[..4][1] && s[n + 2] == rest[..4][2] && s[n + 3] == rest[..4][3];
    assert IsStartCode(s, n + 1);
  }

  lemma StapWalkStarts(q: seq<byte>, room: int)
    requires StapWalk(q, room).units > 0
    ensures |StapWalk(q, room).out| >= 4 && StapWalk(q, room).out[..4] == START_CODE
  {
  }

  lemma TwoUnitsAreNotTheUnit(nal: seq<byte>, first: seq<byte>, rest: seq<byte>)
    requires NoStartCode(nal) && |rest| >= 4 && rest[..4] == START_CODE
    ensures (START_CODE + first) + rest != START_CODE + nal
  {
    SecondStartCodeShows(nal, first, rest);
    assert ((START_CODE + first) + rest)[4..] == first + rest;
    assert (START_CODE + nal)[4..] == nal;
  }

  /** A payload of type 24 is read as an aggregate and never gives the unit back. */
  lemma AggregateIsNotTheUnit(nal: seq<byte>, room: int)
    requires |nal| >= 2 && NoStartCode(nal)
    ensures StapWalk(nal[1..], room).out != START_CODE + nal
  {
    hide U16, NoStartCode;
    var q := nal[1..];
    if StapWalk(q, room).units >= 2 {
      var n := U16(q[0], q[1]);
      StapWalkStarts(q[2 + n..], room - 4 - n);
      TwoUnitsAreNotTheUnit(nal, q[2..2 + n], StapWalk(q[2 + n..], room - 4 - n).out);
    }
  }

  /** Round trip of one unit, both directions: with room in the receiver's buffer, a unit
      comes back as start code plus unit if and only if it is Deliverable. */
  lemma UnitRoundTripExactly(st: Unpacker, nal: seq<byte>, mtu: nat, cap: nat)
    requires st.out == [] && mtu >= 3 && |nal| >= 1 && NoStartCode(nal)
    requires cap >= |nal| + 36
    ensures UnpackRun(st, AllReceived(Payloads(nal, mtu)), cap).out == START_CODE + nal
            <==> Deliverable(nal, mtu)
  {
    hide UnpackStep, NoStartCode, Rebuilt;
    var ps := Payloads(nal, mtu);
    if Acceptable(nal, mtu) {
      AcceptedRoundTrip(st, nal, mtu, cap);
      RebuiltExactly(nal);
      SameBehindStartCode(Carried(nal, mtu), nal);
    } else {
      assert AllReceived(ps)[1..] == [];
      assert UnpackRun(st, AllReceived(ps), cap) == UnpackStep(st, Some(nal), cap).0;
      RefusedRoundTrip(st, nal, cap);
    }
  }

  lemma AcceptedRoundTrip(st: Unpacker, nal: seq<byte>, mtu: nat, cap: nat)
    requires st.out == [] && mtu >= 3 && Acceptable(nal, mtu) && cap >= |nal| + 36
    ensures UnpackRun(st, AllReceived(Payloads(nal, mtu)), cap).out == START_CODE + Carried(nal, mtu)
  {
    var ps := Payloads(nal, mtu);
    AllReceivedIsChannel(ps);
    UnitRefines(st, Ref([], []), nal, mtu, Trues(|ps|), cap);
  }

  lemma SameBehindStartCode(a: seq<byte>, b: seq<byte>)
    ensures START_CODE + a == START_CODE + b <==> a == b
  {
    assert (START_CODE + a)[4..] == a && (START_CODE + b)[4..] == b;
  }

  lemma RefusedRoundTrip(st: Unpacker, nal: seq<byte>, cap: nat)
    requires st.out == [] && |nal| >= 1 && NoStartCode(nal) && !(|nal| >= 2 && 1 <= NalType(nal[0]) <= 23)
    ensures UnpackStep(st, Some(nal), cap).0.out != START_CODE + nal
  {
    hide NoStartCode, StapWalk, Octet, Nri;
    if |nal| >= 2 {
      AggregateIsNotTheUnit(nal, cap);
      assert [] + StapWalk(nal[1..], cap).out == StapWalk(nal[1..], cap).out;
    }
  }
}
