/** Loss safety for a receiver's buffer of any size: a payload refused for lack of room counts
    as one more lost packet (packed/h264_packetizer.c, lines 495-500 and 581-587). The source
    asserts that there is room before it refuses, so this is about builds without assertions;
    for the others FrameHasRoom says how much room keeps every assertion true. */
module H264Room {
  import opened Bytes
  import opened H264Payload
  import opened H264Fragmentation
  import opened H264Unpack
  import opened H264Loss
  import opened H264Frame

  /** What later fragments and later units can tell of a state. */
  predicate Agree(a: Unpacker, b: Unpacker) {
    SyncOk(a) && SyncOk(b) && a.out == b.out && a.prevLost == b.prevLost && SyncPoint(a) == SyncPoint(b)
  }

  /** A loss pattern no better than another. */
  predicate NoBetter(seen: seq<bool>, got: seq<bool>) {
    |seen| == |got| && forall i :: 0 <= i < |got| && seen[i] ==> got[i]
  }

  predicate IsFragment(f: seq<byte>) {
    |f| >= 2 && NalType(f[0]) == FU_A
  }

  predicate AllFragments(fs: seq<seq<byte>>) {
    fs == [] || (IsFragment(fs[0]) && AllFragments(fs[1..]))
  }

  /** One fragment: with room it does in a small buffer what it does in a large one, and
      without room it does what a loss report does. */
  lemma FragmentInAnyRoom(a: Unpacker, b: Unpacker, f: seq<byte>, cap: nat, big: nat)
    requires Agree(a, b) && IsFragment(f) && cap <= big
    ensures var a' := UnpackStep(a, Some(f), cap).0;
            var e := if cap - |a.out| < |f| + 4 then None else Some(f);
            Agree(a', UnpackStep(b, e, big).0)
  {
  }

  lemma {:induction false} FragmentsInAnyRoom(a: Unpacker, b: Unpacker, fs: seq<seq<byte>>, got: seq<bool>, cap: nat, big: nat)
    returns (seen: seq<bool>)
    requires Agree(a, b) && |fs| == |got| && cap <= big
    requires AllFragments(fs)
    ensures NoBetter(seen, got)
    ensures Agree(UnpackRun(a, Channel(fs, got), cap), UnpackRun(b, Channel(fs, seen), big))
    decreases |fs|
  {
    hide UnpackStep, IsFragment;
    if fs == [] {
      return [];
    }
    var arrives := got[0] && cap - |a.out| >= |fs[0]| + 4;
    FragmentInAnyRoom(a, b, fs[0], cap, big);
    LossReportAgrees(a, b, cap, big);
    var e, e' := Channel(fs, got)[0], if arrives then Some(fs[0]) else None;
    var rest := FragmentsInAnyRoom(UnpackStep(a, e, cap).0, UnpackStep(b, e', big).0, fs[1..], got[1..], cap, big);
    seen := [arrives] + rest;
    assert seen[1..] == rest;
    assert Channel(fs, got)[1..] == Channel(fs[1..], got[1..]);
    assert Channel(fs, seen) == [e'] + Channel(fs[1..], rest);
    assert Channel(fs, seen)[1..] == Channel(fs[1..], rest);
  }

  lemma LossReportAgrees(a: Unpacker, b: Unpacker, cap: nat, big: nat)
    requires Agree(a, b)
    ensures Agree(UnpackStep(a, None, cap).0, UnpackStep(b, None, big).0)
  {
  }

  lemma {:induction false} AllAreFragments(nal: seq<byte>, mtu: nat, off: nat)
    requires mtu >= 3 && 1 <= off < |nal|
    ensures AllFragments(FragmentsFrom(nal, mtu, off))
    decreases |nal| - off
  {
    hide Fragment;
    FragmentReads(nal, mtu, off);
    var end := FragmentEnd(nal, mtu, off);
    if end < |nal| {
      AllAreFragments(nal, mtu, end);
      assert FragmentsFrom(nal, mtu, off)[1..] == FragmentsFrom(nal, mtu, end);
    }
  }

  /** One unit, any loss pattern, any room: the reference with some loss pattern that is no
      better than the channel's. */
  lemma UnitInAnyRoom(st: Unpacker, r: Ref, nal: seq<byte>, mtu: nat, got: seq<bool>, cap: nat) returns (seen: seq<bool>)
    requires mtu >= 3 && Acceptable(nal, mtu) && Shows(st, r)
    requires |got| == |Payloads(nal, mtu)|
    ensures NoBetter(seen, got)
    ensures Shows(UnpackRun(st, Channel(Payloads(nal, mtu), got), cap), RefStep(r, nal, mtu, FateOf(seen)))
  {
    var ps := Payloads(nal, mtu);
    var enough := |r.synced| + |r.open| + |nal| + 10;
    var big := if cap < enough then enough else cap;
    if |nal| > mtu {
      hide UnpackStep, RefStep, IsFragment;
      AllAreFragments(nal, mtu, 1);
      seen := FragmentsInAnyRoom(st, st, ps, got, cap, big);
    } else {
      seen := [got[0] && cap - |st.out| >= |nal| + 4];
      SingleInAnyRoom(st, r, nal, got, seen, cap, big);
    }
    UnitRefines(st, r, nal, mtu, seen, big);
  }

  lemma SingleInAnyRoom(st: Unpacker, r: Ref, nal: seq<byte>, got: seq<bool>, seen: seq<bool>, cap: nat, big: nat)
    requires Shows(st, r) && |nal| >= 2 && 1 <= NalType(nal[0]) <= 23 && cap <= big
    requires |got| == 1 && seen == [got[0] && cap - |st.out| >= |nal| + 4]
    requires big >= |st.out| + |nal| + 4
    ensures var a := UnpackRun(st, Channel([nal], got), cap);
            var b := UnpackRun(st, Channel([nal], seen), big);
            SyncOk(a) && a.out == b.out && SyncPoint(a) == SyncPoint(b)
  {
    assert Channel([nal], got)[1..] == [] && Channel([nal], seen)[1..] == [];
  }

  lemma {:induction false} FrameInAnyRoom(st: Unpacker, r: Ref, nals: seq<seq<byte>>, mtu: nat, got: seq<seq<bool>>, cap: nat)
    returns (seen: seq<seq<bool>>)
    requires Matches(nals, mtu, got) && Shows(st, r)
    ensures Matches(nals, mtu, seen) && forall i :: 0 <= i < |nals| ==> NoBetter(seen[i], got[i])
    ensures Shows(UnpackRun(st, FrameEvents(nals, mtu, got), cap), RefRun(r, nals, mtu, seen))
    decreases |nals|
  {
    hide UnpackStep, RefStep, FateOf, Payloads;
    if nals == [] {
      return [];
    }
    var es := Channel(Payloads(nals[0], mtu), got[0]);
    var first := UnitInAnyRoom(st, r, nals[0], mtu, got[0], cap);
    RunConcat(st, es, FrameEvents(nals[1..], mtu, got[1..]), cap);
    var rest := FrameInAnyRoom(UnpackRun(st, es, cap), RefStep(r, nals[0], mtu, FateOf(first)), nals[1..], mtu, got[1..], cap);
    seen := [first] + rest;
    assert seen[1..] == rest;
  }

  /** Loss safety without any condition on the receiver's buffer: what it has no room for is
      as safely lost as what the network lost. */
  lemma LossSafetyInAnyRoom(st: Unpacker, nals: seq<seq<byte>>, mtu: nat, got: seq<seq<bool>>, cap: nat)
    requires st.out == [] && Matches(nals, mtu, got)
    requires forall i :: 0 <= i < |nals| ==> Deliverable(nals[i], mtu)
    ensures exists seen, pieces ::
              && Matches(nals, mtu, seen) && (forall i :: 0 <= i < |nals| ==> NoBetter(seen[i], got[i]))
              && Kept(UnpackRun(st, FrameEvents(nals, mtu, got), cap).out, pieces, nals, mtu, seen)
    ensures forall i :: 0 <= i < |nals| ==> Carried(nals[i], mtu) == nals[i]
  {
    var seen := FrameInAnyRoom(st, Ref([], []), nals, mtu, got, cap);
    var pieces, _ := RefPieces(Ref([], []), nals, mtu, seen);
    assert Kept(UnpackRun(st, FrameEvents(nals, mtu, got), cap).out, pieces, nals, mtu, seen);
    forall i | 0 <= i < |nals|
      ensures Carried(nals[i], mtu) == nals[i]
    {
      CarriedExactly(nals[i], mtu);
    }
  }

  // ----- room enough -----

  /** No call of a run ends in a refusal for lack of room. Each of those refusals stands behind
      an assertion that fails. */
  predicate NeverRefused(st: Unpacker, es: seq<Option<seq<byte>>>, cap: nat)
    requires SyncOk(st)
    decreases |es|
  {
    es == [] || (UnpackStep(st, es[0], cap).1 != ETooSmall && NeverRefused(UnpackStep(st, es[0], cap).0, es[1..], cap))
  }

  lemma {:induction false} NeverRefusedConcat(st: Unpacker, a: seq<Option<seq<byte>>>, b: seq<Option<seq<byte>>>, cap: nat)
    requires SyncOk(st) && NeverRefused(st, a, cap) && NeverRefused(UnpackRun(st, a, cap), b, cap)
    ensures NeverRefused(st, a + b, cap)
    decreases |a|
  {
    hide UnpackStep;
    if a == [] {
      assert a + b == b;
    } else {
      assert (a + b)[1..] == a[1..] + b;
      NeverRefusedConcat(UnpackStep(st, a[0], cap).0, a[1..], b, cap);
    }
  }

  lemma FragmentHasRoom(st: Unpacker, nal: seq<byte>, mtu: nat, off: nat, cap: nat)
    requires mtu >= 3 && 1 <= off < |nal| && SyncOk(st)
    requires cap >= |st.out| + |nal| - off + 6
    ensures var step := UnpackStep(st, Some(Fragment(nal, mtu, off)), cap);
            && step.1 != ETooSmall
            && |step.0.out| <= |st.out| + FragmentEnd(nal, mtu, off) - off + (if off == 1 then 5 else 0)
  {
    hide Fragment, Octet, Nri, StapWalk;
    FragmentReads(nal, mtu, off);
  }

  lemma {:induction false} FragmentsHaveRoom(st: Unpacker, nal: seq<byte>, mtu: nat, off: nat, got: seq<bool>, cap: nat)
    requires mtu >= 3 && 1 <= off < |nal| && SyncOk(st) && |got| == |FragmentsFrom(nal, mtu, off)|
    requires cap >= |st.out| + |nal| - off + (if off == 1 then 11 else 6)
    ensures var es := Channel(FragmentsFrom(nal, mtu, off), got);
            && NeverRefused(st, es, cap)
            && |UnpackRun(st, es, cap).out| <= |st.out| + |nal| - off + (if off == 1 then 5 else 0)
    decreases |nal| - off
  {
    hide Fragment;
    var fs, end := FragmentsFrom(nal, mtu, off), FragmentEnd(nal, mtu, off);
    var es := Channel(fs, got);
    FragmentHasRoom(st, nal, mtu, off, cap);
    var st1 := UnpackStep(st, es[0], cap).0;
    LossHasRoom(st, cap);
    assert es[0] == if got[0] then Some(Fragment(nal, mtu, off)) else None;
    hide UnpackStep;
    assert es[1..] == Channel(fs[1..], got[1..]);
    if end < |nal| {
      assert fs[1..] == FragmentsFrom(nal, mtu, end);
      FragmentsHaveRoom(st1, nal, mtu, end, got[1..], cap);
    } else {
      assert fs[1..] == [];
    }
  }

  lemma LossHasRoom(st: Unpacker, cap: nat)
    requires SyncOk(st)
    ensures UnpackStep(st, None, cap) == (st.(prevLost := true), Success)
  {
  }

  lemma UnitHasRoom(st: Unpacker, nal: seq<byte>, mtu: nat, got: seq<bool>, cap: nat)
    requires mtu >= 3 && Acceptable(nal, mtu) && SyncOk(st) && |got| == |Payloads(nal, mtu)|
    requires cap >= |st.out| + |nal| + 10
    ensures var es := Channel(Payloads(nal, mtu), got);
            && NeverRefused(st, es, cap)
            && |UnpackRun(st, es, cap).out| <= |st.out| + |nal| + 4
  {
    if |nal| > mtu {
      FragmentsHaveRoom(st, nal, mtu, 1, got, cap);
    } else {
      assert Channel([nal], got)[1..] == [];
    }
  }

  /** With room for the units and six bytes, no call is refused for lack of it, whatever is
      lost and whatever the state at the start. */
  lemma {:induction false} FrameHasRoom(st: Unpacker, nals: seq<seq<byte>>, mtu: nat, got: seq<seq<bool>>, cap: nat)
    requires Matches(nals, mtu, got) && SyncOk(st)
    requires cap >= |st.out| + |JoinNals(nals)| + 6
    ensures NeverRefused(st, FrameEvents(nals, mtu, got), cap)
    decreases |nals|
  {
    hide UnpackStep, Payloads;
    if nals != [] {
      var es := Channel(Payloads(nals[0], mtu), got[0]);
      UnitHasRoom(st, nals[0], mtu, got[0], cap);
      FrameHasRoom(UnpackRun(st, es, cap), nals[1..], mtu, got[1..], cap);
      NeverRefusedConcat(st, es, FrameEvents(nals[1..], mtu, got[1..]), cap);
    }
  }
}
