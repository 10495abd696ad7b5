/** One call of the H.264 depacketizer as a function of the stream written so far
    (packed/h264_packetizer.c, lines 452-643), and what any run of calls keeps. */
module H264Unpack {
  import opened Bytes
  import opened H264Payload

  /** `out` is bits[..*bits_pos]; the other two are the fields the packetizer keeps. */
  datatype Unpacker = Unpacker(out: seq<byte>, lastSync: nat, prevLost: bool)

  /** The rollback's assertion: it is reached only after lastSync was cleared for an empty
      stream. */
  predicate SyncOk(st: Unpacker) {
    st.out == [] || st.lastSync <= |st.out|
  }

  // ----- STAP-A -----

  /** Units written from the part of an aggregate that follows its first byte, and whether
      the walk ended without a size that overruns the payload. */
  datatype Aggregate = Aggregate(out: seq<byte>, units: nat, ok: bool)

  /** The walk goes on while payload and room are left; what a round writes may leave less than
      no room. */
  function StapWalk(q: seq<byte>, room: int): (r: Aggregate)
    ensures 4 * r.units <= |r.out| <= |q| + 2 * r.units && (r.out == [] <==> r.units == 0)
    decreases |q|
  {
    if q == [] || room <= 0 then Aggregate([], 0, true)
    else if |q| < 2 || 2 + U16(q[0], q[1]) > |q| then Aggregate([], 0, false)
    else
      var n := U16(q[0], q[1]);
      var rest := StapWalk(q[2 + n..], room - 4 - n);
      Aggregate((START_CODE + q[2..2 + n]) + rest.out, rest.units + 1, rest.ok)
  }

  /** Everything the walk writes is inside the room: start codes, also the one in front of a bad
      size, and units. */
  predicate StapFits(q: seq<byte>, room: nat)
    decreases |q|
  {
    if q == [] || room == 0 then true
    else if |q| < 2 || 2 + U16(q[0], q[1]) > |q| then room >= 4
    else
      var n := U16(q[0], q[1]);
      room >= 4 + n && StapFits(q[2 + n..], room - 4 - n)
  }

  /** Start codes the walk writes when room is no matter: one for each unit, and one in front of
      a bad size. */
  function StartCodes(q: seq<byte>): nat
    decreases |q|
  {
    if q == [] then 0
    else if |q| < 2 || 2 + U16(q[0], q[1]) > |q| then 1
    else 1 + StartCodes(q[2 + U16(q[0], q[1])..])
  }

  /** The 32 bytes reserved beside a payload hold its start codes if there are at most 16 of
      them; nothing is cut off then. */
  lemma {:induction false} ReserveHoldsStartCodes(q: seq<byte>, room: nat)
    requires room >= |q| + 2 * StartCodes(q) + 1
    ensures StapFits(q, room)
    ensures StapWalk(q, room).units + (if StapWalk(q, room).ok then 0 else 1) == StartCodes(q)
    decreases |q|
  {
    hide U16;
    if |q| >= 2 && 2 + U16(q[0], q[1]) <= |q| {
      var n := U16(q[0], q[1]);
      ReserveHoldsStartCodes(q[2 + n..], room - 4 - n);
    }
  }

  // ----- one call -----

  function FuUnpack(st: Unpacker, p: seq<byte>, cap: nat): (r: (Unpacker, Status))
    requires |p| >= 2 && SyncOk(st) && (st.out == [] ==> st.lastSync == 0)
    ensures SyncOk(r.0)
  {
    if cap - |st.out| < |p| + 4 then
      (st.(prevLost := true), ETooSmall)
    else if p[1] & S_BIT == 0 && st.prevLost then
      (st.(out := st.out[..st.lastSync]), EIgnored)
    else
      var head := if p[1] & S_BIT != 0 then START_CODE + [Octet(Nri(p[0]), NalType(p[1]))] else [];
      var out := st.out + (head + p[2..]);
      (Unpacker(out, if p[1] & E_BIT != 0 then |out| else st.lastSync, false), Success)
  }

  /** pjmedia_h264_unpacketize; None is the NULL payload that reports a loss. */
  function UnpackStep(st: Unpacker, payload: Option<seq<byte>>, cap: nat): (r: (Unpacker, Status))
    requires SyncOk(st)
    ensures SyncOk(r.0)
  {
    match payload
    case None => (st.(prevLost := true), Success)
    case Some(p) =>
      if |p| < 2 then (st.(prevLost := true), EInval)
      else
        var st1 := if st.out == [] then st.(lastSync := 0) else st;
        var nalType := NalType(p[0]);
        if 1 <= nalType <= 23 then
          if cap - |st.out| < |p| + 4 then (st1, ETooSmall)
          else
            var out := st.out + (START_CODE + p);
            (Unpacker(out, |out|, false), Success)
        else if nalType == STAP_A then
          if cap - |st.out| < |p| + 32 then (st1, ETooSmall)
          else
            var a := StapWalk(p[1..], cap - |st.out|);
            var out := st.out + a.out;
            (Unpacker(out, if a.units == 0 then st1.lastSync else |out|, if a.ok then false else st.prevLost),
             if a.ok then Success else EInval)
        else if nalType == FU_A then
          FuUnpack(st1, p, cap)
        else
          (st1.(out := []), ENotSup)
  }

  function UnpackRun(st: Unpacker, events: seq<Option<seq<byte>>>, cap: nat): (r: Unpacker)
    requires SyncOk(st)
    ensures SyncOk(r)
    decreases |events|
  {
    if events == [] then st
    else UnpackRun(UnpackStep(st, events[0], cap).0, events[1..], cap)
  }

  lemma {:induction false} RunConcat(st: Unpacker, a: seq<Option<seq<byte>>>, b: seq<Option<seq<byte>>>, cap: nat)
    requires SyncOk(st)
    ensures UnpackRun(st, a + b, cap) == UnpackRun(UnpackRun(st, a, cap), b, cap)
    decreases |a|
  {
    if a == [] {
      assert a + b == b;
    } else {
      assert (a + b)[1..] == a[1..] + b;
      RunConcat(UnpackStep(st, a[0], cap).0, a[1..], b, cap);
    }
  }

  // ----- the synchronised prefix is never taken back -----

  /** The call does not end in "unsupported payload", the one outcome that discards the
      whole stream. */
  predicate Supported(payload: Option<seq<byte>>) {
    payload.None? || |payload.value| < 2
    || 1 <= NalType(payload.value[0]) <= 24 || NalType(payload.value[0]) == FU_A
  }

  function SyncPoint(st: Unpacker): nat {
    if st.out == [] then 0 else st.lastSync
  }

  /** Stable prefix, one call: the synchronisation point never moves back and the bytes
      below it stay. */
  lemma StepKeepsSyncedPrefix(st: Unpacker, payload: Option<seq<byte>>, cap: nat)
    requires SyncOk(st) && Supported(payload)
    ensures var st' := UnpackStep(st, payload, cap).0;
            && SyncPoint(st) <= SyncPoint(st') <= |st'.out|
            && st'.out[..SyncPoint(st)] == st.out[..SyncPoint(st)]
  {
  }

  /** Stable prefix over any run without an unsupported payload; with a reset of the offset
      by the caller or by an unsupported payload a new stream begins. */
  lemma {:induction false} RunKeepsSyncedPrefix(st: Unpacker, events: seq<Option<seq<byte>>>, cap: nat)
    requires SyncOk(st)
    requires forall i :: 0 <= i < |events| ==> Supported(events[i])
    ensures var st' := UnpackRun(st, events, cap);
            && SyncPoint(st) <= SyncPoint(st') <= |st'.out|
            && st'.out[..SyncPoint(st)] == st.out[..SyncPoint(st)]
    decreases |events|
  {
    if events != [] {
      StepKeepsSyncedPrefix(st, events[0], cap);
      var st1 := UnpackStep(st, events[0], cap).0;
      RunKeepsSyncedPrefix(st1, events[1..], cap);
      var st' := UnpackRun(st1, events[1..], cap);
      assert st'.out[..SyncPoint(st)] == st'.out[..SyncPoint(st1)][..SyncPoint(st)]
          == st1.out[..SyncPoint(st1)][..SyncPoint(st)] == st1.out[..SyncPoint(st)];
    }
  }

  // ----- STAP-A against section 5.7.1 of RFC 6184 -----

  /** Sizes and units behind the STAP-A octet. */
  function StapBody(nals: seq<seq<byte>>): (q: seq<byte>)
    requires forall i :: 0 <= i < |nals| ==> |nals[i]| < 0x1_0000
  {
    if nals == [] then [] else U16Bytes(|nals[0]|) + nals[0] + StapBody(nals[1..])
  }

  /** The units in order, each behind a four-byte start code. */
  function JoinNals(nals: seq<seq<byte>>): seq<byte> {
    if nals == [] then [] else START_CODE + nals[0] + JoinNals(nals[1..])
  }

  /** How many units of an aggregate are written: each that is begun with room left. */
  function Begun(nals: seq<seq<byte>>, room: int): (k: nat)
    ensures k <= |nals|
    decreases |nals|
  {
    if nals == [] || room <= 0 then 0 else 1 + Begun(nals[1..], room - 4 - |nals[0]|)
  }

  lemma BodyUnfolds(nals: seq<seq<byte>>)
    requires nals != [] && forall i :: 0 <= i < |nals| ==> |nals[i]| < 0x1_0000
    ensures var q, n := StapBody(nals), |nals[0]|;
            && |q| >= 2 + n && U16(q[0], q[1]) == n && q[2..2 + n] == nals[0] && q[2 + n..] == StapBody(nals[1..])
  {
    hide U16;
    var size, nal, rest := U16Bytes(|nals[0]|), nals[0], StapBody(nals[1..]);
    var q := size + nal + rest;
    assert q[0] == size[0] && q[1] == size[1];
    assert q[2..2 + |nal|] == nal;
    assert q[2 + |nal|..] == rest;
  }

  /** One round of the walk. */
  lemma WalkOne(q: seq<byte>, nal: seq<byte>, later: seq<byte>, room: int)
    requires |q| >= 2 + |nal| && U16(q[0], q[1]) == |nal| && room > 0
    requires q[2..2 + |nal|] == nal && q[2 + |nal|..] == later
    ensures var rest := StapWalk(later, room - 4 - |nal|);
            StapWalk(q, room) == Aggregate((START_CODE + nal) + rest.out, rest.units + 1, rest.ok)
  {
    hide U16;
  }

  lemma JoinedTake(nals: seq<seq<byte>>, k: nat)
    requires 0 < k <= |nals|
    ensures JoinNals(nals[..k]) == (START_CODE + nals[0]) + JoinNals(nals[1..][..k - 1])
  {
    assert nals[..k][1..] == nals[1..][..k - 1];
  }

  lemma NothingBegun(nals: seq<seq<byte>>, room: int)
    requires (nals == [] || room <= 0) && forall i :: 0 <= i < |nals| ==> |nals[i]| < 0x1_0000
    ensures Begun(nals, room) == 0 && JoinNals(nals[..0]) == []
    ensures StapWalk(StapBody(nals), room) == Aggregate([], 0, true)
  {
  }

  lemma BegunUnfolds(nals: seq<seq<byte>>, room: int)
    requires nals != [] && room > 0
    ensures Begun(nals, room) == 1 + Begun(nals[1..], room - 4 - |nals[0]|)
  {
  }

  /** Walking a well-formed aggregate gives the units that are begun, whole and in order. */
  lemma {:induction false} StapWalkInverts(nals: seq<seq<byte>>, room: int)
    requires forall i :: 0 <= i < |nals| ==> |nals[i]| < 0x1_0000
    ensures var k := Begun(nals, room);
            StapWalk(StapBody(nals), room) == Aggregate(JoinNals(nals[..k]), k, true)
    decreases |nals|
  {
    hide U16, StapWalk, StapBody, Begun, JoinNals;
    if nals == [] || room <= 0 {
      NothingBegun(nals, room);
    } else {
      BodyUnfolds(nals);
      BegunUnfolds(nals, room);
      StapWalkInverts(nals[1..], room - 4 - |nals[0]|);
      WalkOne(StapBody(nals), nals[0], StapBody(nals[1..]), room);
      JoinedTake(nals, Begun(nals, room));
    }
  }

  lemma FitsUnfolds(nals: seq<seq<byte>>, room: nat)
    requires nals != [] && room > 0 && forall i :: 0 <= i < |nals| ==> |nals[i]| < 0x1_0000
    ensures StapFits(StapBody(nals), room)
            <==> room >= 4 + |nals[0]| && StapFits(StapBody(nals[1..]), room - 4 - |nals[0]|)
  {
    hide U16, StapBody;
    BodyUnfolds(nals);
  }

  lemma BegunLength(nals: seq<seq<byte>>, room: int)
    requires nals != [] && room > 0
    ensures var left := room - 4 - |nals[0]|;
            |JoinNals(nals[..Begun(nals, room)])| == 4 + |nals[0]| + |JoinNals(nals[1..][..Begun(nals[1..], left)])|
  {
    var k := Begun(nals, room);
    assert nals[..k][1..] == nals[1..][..k - 1];
  }

  /** What is written is inside the room exactly when the units begun are. */
  lemma {:induction false} StapFitsExactly(nals: seq<seq<byte>>, room: nat)
    requires forall i :: 0 <= i < |nals| ==> |nals[i]| < 0x1_0000
    ensures StapFits(StapBody(nals), room) <==> |JoinNals(nals[..Begun(nals, room)])| <= room
    decreases |nals|
  {
    if nals != [] && room > 0 {
      hide StapFits, JoinNals, StapBody, Begun;
      FitsUnfolds(nals, room);
      BegunLength(nals, room);
      if room >= 4 + |nals[0]| {
        StapFitsExactly(nals[1..], room - 4 - |nals[0]|);
      }
    }
  }

  /** All units are begun exactly when the last one finds room left. */
  lemma {:induction false} AllBegunExactly(nals: seq<seq<byte>>, room: int)
    requires nals != []
    ensures Begun(nals, room) == |nals| <==> |JoinNals(nals[..|nals| - 1])| < room
    decreases |nals|
  {
    var front := nals[..|nals| - 1];
    if |nals| > 1 {
      assert front[1..] == nals[1..][..|nals[1..]| - 1];
      AllBegunExactly(nals[1..], room - 4 - |nals[0]|);
    }
  }

  lemma {:induction false} BodyLength(nals: seq<seq<byte>>)
    requires forall i :: 0 <= i < |nals| ==> |nals[i]| < 0x1_0000
    ensures |JoinNals(nals)| == |StapBody(nals)| + 2 * |nals|
    decreases |nals|
  {
    if nals != [] {
      BodyLength(nals[1..]);
    }
  }

  lemma SomeBegun(nals: seq<seq<byte>>, room: int)
    requires nals != [] && room > 0
    ensures Begun(nals, room) > 0
  {
  }

  /** Unpacking against the layout, with any room from the reserve up: the stream gains the units
      that are begun, and the sync point moves behind them. */
  lemma StapRoundTrip(st: Unpacker, octet: byte, nals: seq<seq<byte>>, cap: nat)
    requires SyncOk(st) && NalType(octet) == STAP_A && nals != []
    requires forall i :: 0 <= i < |nals| ==> |nals[i]| < 0x1_0000
    requires cap - |st.out| >= |[octet] + StapBody(nals)| + 32
    ensures var room := cap - |st.out|;
            var out := st.out + JoinNals(nals[..Begun(nals, room)]);
            && UnpackStep(st, Some([octet] + StapBody(nals)), cap) == (Unpacker(out, |out|, false), Success)
            && (StapFits(StapBody(nals), room) <==> |out| <= cap)
            && (Begun(nals, room) == |nals| <==> |JoinNals(nals[..|nals| - 1])| < room)
  {
    hide StapFits, U16, StapWalk, StapBody, JoinNals, Begun;
    var p, room := [octet] + StapBody(nals), cap - |st.out|;
    assert p[1..] == StapBody(nals);
    StapWalkInverts(nals, room);
    StapFitsExactly(nals, room);
    AllBegunExactly(nals, room);
    SomeBegun(nals, room);
  }

  /** With the reserve and nothing more, all units come out inside the buffer if and only if
      there are at most 16. */
  lemma ReserveHoldsSixteenExactly(octet: byte, nals: seq<seq<byte>>)
    requires nals != [] && forall i :: 0 <= i < |nals| ==> |nals[i]| < 0x1_0000
    ensures var room := |[octet] + StapBody(nals)| + 32;
            StapFits(StapBody(nals), room) && Begun(nals, room) == |nals| <==> |nals| <= 16
  {
    hide StapFits, StapBody, JoinNals;
    var room := |[octet] + StapBody(nals)| + 32;
    BodyLength(nals);
    StapFitsExactly(nals, room);
    AllBegunExactly(nals, room);
    assert nals[..|nals|] == nals;
    if |nals| <= 16 {
      FrontIsShorter(nals);
    }
  }

  lemma {:induction false} FrontIsShorter(nals: seq<seq<byte>>)
    requires nals != []
    ensures |JoinNals(nals[..|nals| - 1])| < |JoinNals(nals)|
    decreases |nals|
  {
    if |nals| > 1 {
      assert nals[..|nals| - 1][1..] == nals[1..][..|nals[1..]| - 1];
      FrontIsShorter(nals[1..]);
    }
  }
}
