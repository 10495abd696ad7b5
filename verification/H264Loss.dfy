/** Round trip and loss safety: the depacketizer, fed the payloads of the packetizer with any
    of them replaced by a loss report, against a reference that works on whole units. */
module H264Loss {
  import opened Bytes
  import opened H264Payload
  import opened H264Fragmentation
  import opened H264Unpack

  // ----- what one unit's payloads carry -----

  /** A unit sent whole must look like a single NAL unit packet to the receiver. */
  predicate Acceptable(nal: seq<byte>, mtu: nat) {
    |nal| >= 1 && (|nal| <= mtu ==> |nal| >= 2 && 1 <= NalType(nal[0]) <= 23)
  }

  /** The FU header bytes carry NRI and type but not F. */
  function Rebuilt(nal: seq<byte>): (r: seq<byte>)
    requires |nal| >= 1
    ensures |r| == |nal|
  {
    nal[0 := Octet(Nri(nal[0]), NalType(nal[0]))]
  }

  function Carried(nal: seq<byte>, mtu: nat): (r: seq<byte>)
    requires |nal| >= 1
    ensures |r| == |nal|
  {
    if |nal| <= mtu then nal else Rebuilt(nal)
  }

  lemma RebuiltExactly(nal: seq<byte>)
    requires |nal| >= 1
    ensures Rebuilt(nal) == nal <==> nal[0] & 0x80 == 0
  {
  }

  // ----- the channel -----

  /** The payloads with the lost ones reported as NULL. */
  function Channel(ps: seq<seq<byte>>, got: seq<bool>): (es: seq<Option<seq<byte>>>)
    requires |ps| == |got|
    ensures |es| == |ps|
  {
    if ps == [] then []
    else [if got[0] then Some(ps[0]) else None] + Channel(ps[1..], got[1..])
  }

  function LeadingTrues(got: seq<bool>): (k: nat)
    ensures k <= |got| && (forall i :: 0 <= i < k ==> got[i]) && (k < |got| ==> !got[k])
  {
    if got == [] || !got[0] then 0 else 1 + LeadingTrues(got[1..])
  }

  /** Fate of a unit: all payloads arrived, a payload arrived behind a hole, or only the
      first k arrived. */
  datatype Fate = Whole | Holed | Cut(k: nat)

  function FateOf(got: seq<bool>): Fate {
    var k := LeadingTrues(got);
    if k == |got| then Whole else if true in got[k..] then Holed else Cut(k)
  }

  /** The fate when one more payload arrived in front. */
  function OneMore(fate: Fate): Fate {
    if fate.Cut? then Cut(fate.k + 1) else fate
  }

  lemma FateOfTail(got: seq<bool>)
    requires got != []
    ensures !got[0] ==> FateOf(got) == if true in got[1..] then Holed else Cut(0)
    ensures got[0] ==> FateOf(got) == OneMore(FateOf(got[1..]))
  {
  }

  // ----- the reference: units, not fragments -----

  /** Output as units see it: `synced` can no longer be taken back, `open` can. */
  datatype Ref = Ref(synced: seq<byte>, open: seq<byte>)

  /** How far into a unit of len bytes the next k fragments get from off: off plus
      k * (mtu - 2), up to the end. */
  function Reach(len: nat, mtu: nat, off: nat, k: nat): (end: nat)
    requires mtu >= 3 && off <= len
    ensures off <= end <= len
    decreases k
  {
    if k == 0 then off
    else Reach(len, mtu, if off + mtu - 2 < len then off + mtu - 2 else len, k - 1)
  }

  lemma {:induction false} ReachClosed(len: nat, mtu: nat, off: nat, k: nat)
    requires mtu >= 3 && off <= len
    ensures Reach(len, mtu, off, k) == if off + k * (mtu - 2) < len then off + k * (mtu - 2) else len
    decreases k
  {
    if k > 0 {
      assert k * (mtu - 2) == (k - 1) * (mtu - 2) + (mtu - 2);
      if off + mtu - 2 < len {
        ReachClosed(len, mtu, off + mtu - 2, k - 1);
      } else {
        ReachClosed(len, mtu, len, k - 1);
      }
    }
  }

  /** Start code and the part of a unit that its first k fragments carry. */
  function Piece(carried: seq<byte>, mtu: nat, k: nat): (p: seq<byte>)
    requires mtu >= 3 && |carried| >= 1
    ensures k == 0 ==> p == []
    ensures k > 0 ==> START_CODE <= p <= START_CODE + carried
  {
    if k == 0 then [] else START_CODE + carried[..Reach(|carried|, mtu, 1, k)]
  }

  function RefStep(r: Ref, nal: seq<byte>, mtu: nat, fate: Fate): Ref
    requires mtu >= 3 && |nal| >= 1
  {
    match fate
    case Whole => Ref(r.synced + r.open + START_CODE + Carried(nal, mtu), [])
    case Holed => Ref(r.synced, [])
    case Cut(k) => Ref(r.synced, r.open + Piece(Carried(nal, mtu), mtu, k))
  }

  ghost predicate Shows(st: Unpacker, r: Ref) {
    SyncOk(st) && st.out == r.synced + r.open && SyncPoint(st) == |r.synced|
  }

  // ----- one unit -----

  /** After a loss inside a unit: nothing is appended any more, and the first fragment that
      still arrives rolls back to the synchronisation point. */
  lemma {:induction false} AfterHole(st: Unpacker, r: Ref, nal: seq<byte>, mtu: nat, off: nat, got: seq<bool>, cap: nat)
    requires mtu >= 3 && 1 < off < |nal|
    requires Shows(st, r) && st.prevLost
    requires |got| == |FragmentsFrom(nal, mtu, off)|
    requires cap >= |st.out| + |nal| - off + 6
    ensures var st' := UnpackRun(st, Channel(FragmentsFrom(nal, mtu, off), got), cap);
            Shows(st', if true in got then Ref(r.synced, []) else r)
    decreases |nal| - off
  {
    var fs := FragmentsFrom(nal, mtu, off);
    var es := Channel(fs, got);
    var end := FragmentEnd(nal, mtu, off);
    var st1 := UnpackStep(st, es[0], cap).0;
    var r1 := if got[0] then Ref(r.synced, []) else r;
    FragmentReads(nal, mtu, off);
    assert Shows(st1, r1) && st1.prevLost;
    assert es[1..] == Channel(fs[1..], got[1..]);
    assert true in got <==> got[0] || true in got[1..];
    if end < |nal| {
      assert fs[1..] == FragmentsFrom(nal, mtu, end);
      AfterHole(st1, r1, nal, mtu, end, got[1..], cap);
    } else {
      assert fs[1..] == [];
    }
  }

  /** Output while fragments keep arriving: everything before, a start code and the rebuilt
      unit up to off. */
  ghost predicate Growing(st: Unpacker, r: Ref, nal: seq<byte>, off: nat)
    requires 1 <= off <= |nal|
  {
    && SyncOk(st) && !st.prevLost
    && st.out == r.synced + r.open + START_CODE + Rebuilt(nal)[..off]
    && st.lastSync == |r.synced|
  }

  lemma StartGrowing(st: Unpacker, r: Ref, nal: seq<byte>, mtu: nat, cap: nat)
    requires |nal| > mtu >= 3 && Shows(st, r)
    requires cap >= |r.synced| + |r.open| + |nal| + 10
    ensures Growing(UnpackStep(st, Some(Fragment(nal, mtu, 1)), cap).0, r, nal, FragmentEnd(nal, mtu, 1))
  {
  }

  lemma GrowOne(st: Unpacker, r: Ref, nal: seq<byte>, mtu: nat, off: nat, cap: nat)
    requires mtu >= 3 && 1 < off < |nal| && Growing(st, r, nal, off)
    requires cap >= |r.synced| + |r.open| + |nal| + 10
    ensures var end := FragmentEnd(nal, mtu, off);
            var st' := UnpackStep(st, Some(Fragment(nal, mtu, off)), cap).0;
            if end == |nal| then Shows(st', Ref(r.synced + r.open + START_CODE + Rebuilt(nal), []))
            else Growing(st', r, nal, end)
  {
  }

  ghost predicate Ended(st: Unpacker, r: Ref, nal: seq<byte>, mtu: nat, off: nat, fate: Fate)
    requires mtu >= 3 && 1 <= off <= |nal|
  {
    match fate
    case Whole => Shows(st, Ref(r.synced + r.open + START_CODE + Rebuilt(nal), []))
    case Holed => Shows(st, Ref(r.synced, []))
    case Cut(k) => Shows(st, Ref(r.synced, r.open + START_CODE + Rebuilt(nal)[..Reach(|nal|, mtu, off, k)]))
  }

  /** The fragment at off is lost after everything before it arrived. */
  lemma LoseOne(st: Unpacker, r: Ref, nal: seq<byte>, mtu: nat, off: nat, got: seq<bool>, cap: nat)
    requires mtu >= 3 && 1 < off < |nal|
    requires Growing(st, r, nal, off)
    requires |got| == |FragmentsFrom(nal, mtu, off)| && !got[0]
    requires cap >= |r.synced| + |r.open| + |nal| + 10
    ensures Ended(UnpackRun(st, Channel(FragmentsFrom(nal, mtu, off), got), cap), r, nal, mtu, off, FateOf(got))
  {
    var fs := FragmentsFrom(nal, mtu, off);
    var end := FragmentEnd(nal, mtu, off);
    var st1 := st.(prevLost := true);
    var open := Ref(r.synced, r.open + START_CODE + Rebuilt(nal)[..off]);
    FateOfTail(got);
    assert Shows(st1, open) by {
      assert st1.out == r.synced + open.open;
    }
    assert Channel(fs, got)[1..] == Channel(fs[1..], got[1..]);
    if end < |nal| {
      assert fs[1..] == FragmentsFrom(nal, mtu, end);
      AfterHole(st1, open, nal, mtu, end, got[1..], cap);
    }
  }

  /** Fragments from off on, everything before having arrived. */
  lemma {:induction false} FromFragment(st: Unpacker, r: Ref, nal: seq<byte>, mtu: nat, off: nat, got: seq<bool>, cap: nat)
    requires mtu >= 3 && 1 < off < |nal|
    requires Growing(st, r, nal, off)
    requires |got| == |FragmentsFrom(nal, mtu, off)|
    requires cap >= |r.synced| + |r.open| + |nal| + 10
    ensures Ended(UnpackRun(st, Channel(FragmentsFrom(nal, mtu, off), got), cap), r, nal, mtu, off, FateOf(got))
    decreases |nal| - off
  {
    hide UnpackStep, Shows, Fragment, Rebuilt;
    if !got[0] {
      LoseOne(st, r, nal, mtu, off, got, cap);
    } else {
      var fs := FragmentsFrom(nal, mtu, off);
      var end := FragmentEnd(nal, mtu, off);
      GrowOne(st, r, nal, mtu, off, cap);
      FateOfTail(got);
      assert Channel(fs, got)[1..] == Channel(fs[1..], got[1..]);
      if end < |nal| {
        assert fs[1..] == FragmentsFrom(nal, mtu, end);
        FromFragment(UnpackStep(st, Some(fs[0]), cap).0, r, nal, mtu, end, got[1..], cap);
      }
    }
  }

  lemma EndedIsRefStep(st: Unpacker, r: Ref, nal: seq<byte>, mtu: nat, fate: Fate)
    requires |nal| > mtu >= 3 && Ended(st, r, nal, mtu, FragmentEnd(nal, mtu, 1), fate)
    ensures Shows(st, RefStep(r, nal, mtu, OneMore(fate)))
  {
    if fate.Cut? {
      assert Reach(|nal|, mtu, 1, fate.k + 1) == Reach(|nal|, mtu, FragmentEnd(nal, mtu, 1), fate.k);
      assert r.open + START_CODE + Rebuilt(nal)[..Reach(|nal|, mtu, 1, fate.k + 1)]
          == r.open + Piece(Carried(nal, mtu), mtu, fate.k + 1);
    }
  }

  lemma FragmentedUnit(st: Unpacker, r: Ref, nal: seq<byte>, mtu: nat, got: seq<bool>, cap: nat)
    requires |nal| > mtu >= 3 && Shows(st, r)
    requires |got| == |FragmentsFrom(nal, mtu, 1)|
    requires cap >= |r.synced| + |r.open| + |nal| + 10
    ensures Shows(UnpackRun(st, Channel(FragmentsFrom(nal, mtu, 1), got), cap), RefStep(r, nal, mtu, FateOf(got)))
  {
    var fs := FragmentsFrom(nal, mtu, 1);
    var end := FragmentEnd(nal, mtu, 1);
    assert fs[1..] == FragmentsFrom(nal, mtu, end);
    assert Channel(fs, got)[1..] == Channel(fs[1..], got[1..]);
    FateOfTail(got);
    if got[0] {
      StartGrowing(st, r, nal, mtu, cap);
      var st1 := UnpackStep(st, Some(fs[0]), cap).0;
      FromFragment(st1, r, nal, mtu, end, got[1..], cap);
      EndedIsRefStep(UnpackRun(st1, Channel(fs[1..], got[1..]), cap), r, nal, mtu, FateOf(got[1..]));
    } else {
      AfterHole(st.(prevLost := true), r, nal, mtu, end, got[1..], cap);
      assert r.open + [] == r.open;
    }
  }

  /** One unit, any loss pattern: the fragment-level state machine does what the unit-level
      reference does with the unit's fate. */
  lemma UnitRefines(st: Unpacker, r: Ref, nal: seq<byte>, mtu: nat, got: seq<bool>, cap: nat)
    requires mtu >= 3 && Acceptable(nal, mtu) && Shows(st, r)
    requires |got| == |Payloads(nal, mtu)|
    requires cap >= |r.synced| + |r.open| + |nal| + 10
    ensures Shows(UnpackRun(st, Channel(Payloads(nal, mtu), got), cap), RefStep(r, nal, mtu, FateOf(got)))
  {
    if |nal| > mtu {
      FragmentedUnit(st, r, nal, mtu, got, cap);
    } else {
      var es := Channel([nal], got);
      assert es[1..] == [];
      assert UnpackRun(st, es, cap) == UnpackStep(st, es[0], cap).0;
      assert got[0..] == got;
      assert r.open + [] == r.open;
    }
  }
}
