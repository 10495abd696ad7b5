/** Whole streams through packetizer and depacketizer, both directions and without a condition
    on the units: the stream comes back exactly when each of its units does by itself. No unit
    makes up for what another one lost, gained or had dropped. */
module H264Exactness {
  import opened Bytes
  import opened AnnexB
  import opened H264Payload
  import opened H264Fragmentation
  import opened H264Unpack
  import opened H264Loss
  import opened H264Frame
  import opened H264Buffer
  import opened H264BufferRoundTrip
  import opened EndToEnd

  // ----- what is sent, what is expected -----

  /** A unit and the length of the start code behind it in its packetizer buffer. */
  datatype Sent = Sent(nal: seq<byte>, code: nat)

  ghost predicate Usable(u: Sent) {
    u.nal != [] && NoStartCode(u.nal) && (u.code == 0 || u.code == 3 || u.code == 4)
  }

  function SentPayloads(us: seq<Sent>, mtu: nat): (ps: seq<seq<byte>>)
    requires mtu >= 3 && forall i :: 0 <= i < |us| ==> us[i].nal != [] && us[i].code in {0, 3, 4}
  {
    if us == [] then [] else UnitPayloads(us[0].nal, mtu, us[0].code) + SentPayloads(us[1..], mtu)
  }

  function Expected(us: seq<Sent>): seq<byte> {
    if us == [] then [] else (START_CODE + us[0].nal) + Expected(us[1..])
  }

  /** The unit arrives as itself when everything before it has. */
  predicate Comes(u: Sent, mtu: nat)
    requires mtu >= 3
  {
    Travels(u.nal, mtu, u.code) && Unspoilt(u.nal, mtu, u.code)
  }

  // ----- output that falls behind -----

  /** If output c is the beginning of the whole stream at all, it has at most m bytes. */
  predicate Within(c: seq<byte>, m: int, whole: seq<byte>) {
    c <= whole ==> |c| <= m
  }

  /** What a rollback would leave. */
  function Synced(st: Unpacker): seq<byte>
    requires SyncOk(st)
  {
    st.out[..SyncPoint(st)]
  }

  ghost predicate AllWithin(st: Unpacker, m: int, whole: seq<byte>) {
    SyncOk(st) && Within(st.out, m, whole) && Within(Synced(st), m, whole)
  }

  /** The output has missed place n, where the next unit should begin: it is not there, and at
      most one byte behind. */
  ghost predicate Missed(st: Unpacker, n: nat, whole: seq<byte>) {
    AllWithin(st, n + 1, whole)
    && (st.out <= whole ==> |st.out| != n) && (Synced(st) <= whole ==> |Synced(st)| != n)
  }

  /** A unit stands at place n of the whole stream, behind a start code. */
  ghost predicate UnitAt(whole: seq<byte>, n: nat, nal: seq<byte>) {
    n + 4 + |nal| <= |whole| && whole[n..n + 4] == START_CODE && whole[n + 4..n + 4 + |nal|] == nal
  }

  /** Two start codes of one stream do not overlap. */
  lemma CodesApart(c: seq<byte>, x: seq<byte>, n: nat, whole: seq<byte>)
    requires c + (START_CODE + x) <= whole && |c| <= n + 1
    requires n + 4 <= |whole| && whole[n..n + 4] == START_CODE
    ensures |c| == n || |c| + 4 <= n
  {
    var s := c + (START_CODE + x);
    assert s[|c|] == 0 && s[|c| + 1] == 0 && s[|c| + 2] == 0 && s[|c| + 3] == 1;
    assert forall i :: 0 <= i < |s| ==> whole[i] == s[i];
    var code := whole[n..n + 4];
    assert whole[n] == code[0] && whole[n + 1] == code[1] && whole[n + 2] == code[2] && whole[n + 3] == code[3];
  }

  /** A start code appended to output that has come so far, and to output that has missed it. */
  lemma AppendedUnit(c: seq<byte>, x: seq<byte>, n: nat, whole: seq<byte>)
    requires Within(c, n + 1, whole) && n + 4 <= |whole| && whole[n..n + 4] == START_CODE
    ensures Within(c + (START_CODE + x), n + 4 + |x|, whole)
    ensures (c <= whole ==> |c| != n) ==> Within(c + (START_CODE + x), n + |x|, whole)
  {
    var s := c + (START_CODE + x);
    if s <= whole {
      assert c <= s;
      CodesApart(c, x, n, whole);
    }
  }

  // ----- an aggregate inside a unit -----

  lemma CodeBehind(u: seq<byte>, later: seq<byte>)
    requires |later| >= 4 && later[..4] == START_CODE
    ensures IsStartCode((START_CODE + u) + later, 4 + |u| + 1)
  {
    var s := (START_CODE + u) + later;
    assert forall i :: 0 <= i < 4 ==> s[4 + |u| + i] == later[..4][i];
  }

  /** Start codes of a unit's output and what follows: the one in front, and the later ones. */
  lemma WalkOutput(u: seq<byte>, later: seq<byte>, i: nat)
    requires NoStartCode(u) && (later == [] || (|later| >= 4 && later[..4] == START_CODE))
    requires IsStartCode((START_CODE + u) + later, i)
    ensures i == 1 || (i >= 4 + |u| && IsStartCode(later, i - 4 - |u|))
  {
    var s := (START_CODE + u) + later;
    assert s[0] == 0 && s[1] == 0 && s[2] == 0 && s[3] == 1;
    assert s[4..4 + |u|] == u;
    NoStartCodeSlice(s, 4, 4 + |u|);
    assert forall j :: 0 <= j < |later| ==> s[4 + |u| + j] == later[j];
    assert later != [] ==> later[0] == later[..4][0] == 0 && later[1] == later[..4][1] == 0;
  }

  lemma StretchInOutput(u: seq<byte>, later: seq<byte>, i: nat, n: nat)
    requires NoStartCode(u) && (later == [] || (|later| >= 4 && later[..4] == START_CODE))
    requires var o := (START_CODE + u) + later;
             i + 3 + n <= |o| && IsStartCode(o, i) && NoStartCodeIn(o, i + 3, i + 3 + n)
    ensures if i == 1 then n <= |u| + (if later == [] then 0 else 3)
            else var j := i - 4 - |u|;
                 j >= 0 && IsStartCode(later, j) && NoStartCodeIn(later, j + 3, j + 3 + n)
  {
    var o := (START_CODE + u) + later;
    WalkOutput(u, later, i);
    if i == 1 && later != [] {
      CodeBehind(u, later);
    }
    assert forall j :: 0 <= j < |later| ==> o[4 + |u| + j] == later[j];
    assert forall j :: 0 <= j <= |later| - 3 ==> IsStartCode(later, j) == IsStartCode(o, 4 + |u| + j);
  }

  lemma WalkSplits(q: seq<byte>, room: int)
    requires StapWalk(q, room).out != []
    ensures var k := U16(q[0], q[1]);
            && 2 + k <= |q|
            && var later := StapWalk(q[2 + k..], room - 4 - k).out;
            && StapWalk(q, room).out == (START_CODE + q[2..2 + k]) + later
            && (later == [] || (|later| >= 4 && later[..4] == START_CODE && 4 + k <= |q|))
  {
    hide U16;
    var k := U16(q[0], q[1]);
    if StapWalk(q[2 + k..], room - 4 - k).units > 0 {
      StapWalkStarts(q[2 + k..], room - 4 - k);
    }
  }

  /** Behind a start code of an aggregate's output there is no stretch without a start code
      that is longer than the aggregate's own body. */
  lemma {:induction false} StretchInWalk(q: seq<byte>, room: int, i: nat, n: nat)
    requires NoStartCode(q)
    requires var o := StapWalk(q, room).out;
             i + 3 + n <= |o| && IsStartCode(o, i) && NoStartCodeIn(o, i + 3, i + 3 + n)
    ensures n <= |q|
    decreases |q|
  {
    hide U16, IsStartCode, StapWalk;
    WalkSplits(q, room);
    var k := U16(q[0], q[1]);
    NoStartCodeSlice(q, 2, 2 + k);
    NoStartCodeSlice(q, 2 + k, |q|);
    assert q[2 + k..|q|] == q[2 + k..];
    StretchInOutput(q[2..2 + k], StapWalk(q[2 + k..], room - 4 - k).out, i, n);
    if i != 1 {
      StretchInWalk(q[2 + k..], room - 4 - k, i - 4 - k, n);
    }
  }

  // ----- one call -----

  /** The bytes a payload may add. */
  function Addition(p: seq<byte>, room: int): seq<byte> {
    if |p| < 2 then []
    else if 1 <= NalType(p[0]) <= 23 then START_CODE + p
    else if NalType(p[0]) == STAP_A then StapWalk(p[1..], room).out
    else if NalType(p[0]) == FU_A then
      (if p[1] & S_BIT != 0 then START_CODE + [Octet(Nri(p[0]), NalType(p[1]))] else []) + p[2..]
    else []
  }

  predicate Adds(st: Unpacker, st': Unpacker, x: seq<byte>)
    requires SyncOk(st) && SyncOk(st')
  {
    st'.out == st.out + x && (SyncPoint(st') == |st'.out| || SyncPoint(st') == SyncPoint(st))
  }

  /** What a call may leave: nothing new, the payload's bytes, what was synchronised, or an
      empty stream. */
  predicate Outcome(st: Unpacker, st': Unpacker, x: seq<byte>)
    requires SyncOk(st) && SyncOk(st')
  {
    Adds(st, st', []) || Adds(st, st', x) || (st'.out == Synced(st) && SyncPoint(st') == |st'.out|) || st'.out == []
  }

  lemma StepOutcome(st: Unpacker, p: seq<byte>, cap: nat)
    requires SyncOk(st)
    ensures Outcome(st, UnpackStep(st, Some(p), cap).0, Addition(p, cap - |st.out|))
  {
    hide Octet, Nri, StapWalk;
    assert st.out + [] == st.out;
  }

  lemma StepWithin(st: Unpacker, st': Unpacker, x: seq<byte>, m: int, m': int, whole: seq<byte>)
    requires SyncOk(st) && SyncOk(st') && Outcome(st, st', x)
    requires AllWithin(st, m, whole) && m <= m' && 0 <= m' && Within(st.out + x, m', whole)
    ensures AllWithin(st', m', whole)
  {
    assert st.out + [] == st.out;
    assert Synced(st') == st'.out || st'.out == [] || Synced(st') == Synced(st);
  }

  // ----- one unit, behind what was expected -----

  lemma SliceOfPrefix(c: seq<byte>, o: seq<byte>, whole: seq<byte>, i: nat, j: nat)
    requires c + o <= whole && |c| <= i <= j <= |c| + |o|
    ensures o[i - |c|..j - |c|] == whole[i..j]
  {
    var s := c + o;
    assert s[i..j] == whole[i..j];
    assert s[i..j] == o[i - |c|..j - |c|];
  }

  /** A unit that lies inside an aggregate's output, behind a start code. */
  lemma UnitInWalk(q: seq<byte>, room: int, d: nat, nal: seq<byte>)
    requires NoStartCode(nal) && NoStartCode(q)
    requires var o := StapWalk(q, room).out;
             d + 4 + |nal| <= |o| && o[d..d + 4] == START_CODE && o[d + 4..d + 4 + |nal|] == nal
    ensures |nal| <= |q|
  {
    hide StapWalk, NoStartCode, IsStartCode;
    var o := StapWalk(q, room).out;
    CodeAt(o, d);
    NoStartCodeSlice(o, d + 4, d + 4 + |nal|);
    StretchInWalk(q, room, d + 1, |nal|);
  }

  /** An aggregate inside the unit does not hold the unit. */
  lemma AggregateWithin(c: seq<byte>, nal: seq<byte>, room: int, n: nat, whole: seq<byte>)
    requires Within(c, n + 1, whole) && UnitAt(whole, n, nal) && |nal| >= 2 && NoStartCode(nal)
    ensures Within(c + StapWalk(nal[1..], room).out, n + 3 + |nal|, whole)
  {
    hide StapWalk, NoStartCode;
    var q, o := nal[1..], StapWalk(nal[1..], room).out;
    if o != [] && c + o <= whole && |c + o| >= n + 4 + |nal| {
      StapStarts(q, room);
      assert o == START_CODE + o[4..] && c <= c + o;
      CodesApart(c, o[4..], n, whole);
      SliceOfPrefix(c, o, whole, n, n + 4);
      SliceOfPrefix(c, o, whole, n + 4, n + 4 + |nal|);
      TailHasNone(nal);
      UnitInWalk(q, room, n - |c|, nal);
    }
  }

  lemma TailHasNone(nal: seq<byte>)
    requires nal != [] && NoStartCode(nal)
    ensures NoStartCode(nal[1..])
  {
    NoStartCodeSlice(nal, 1, |nal|);
    assert nal[1..|nal|] == nal[1..];
  }

  lemma StapStarts(q: seq<byte>, room: int)
    requires StapWalk(q, room).out != []
    ensures |StapWalk(q, room).out| >= 4 && StapWalk(q, room).out[..4] == START_CODE
  {
    StapWalkStarts(q, room);
  }

  lemma CodeAt(o: seq<byte>, d: nat)
    requires d + 4 <= |o| && o[d..d + 4] == START_CODE
    ensures IsStartCode(o, d + 1)
  {
    var code := o[d..d + 4];
    assert o[d + 1] == code[1] && o[d + 2] == code[2] && o[d + 3] == code[3];
  }

  /** A unit sent whole that is not taken for a single NAL unit packet. */
  lemma BadWholeWithin(st: Unpacker, nal: seq<byte>, n: nat, whole: seq<byte>, cap: nat)
    requires AllWithin(st, n + 1, whole) && UnitAt(whole, n, nal) && nal != [] && NoStartCode(nal)
    requires !(|nal| >= 2 && 1 <= NalType(nal[0]) <= 23)
    ensures AllWithin(UnpackStep(st, Some(nal), cap).0, n + 3 + |nal|, whole)
  {
    hide UnpackStep, NoStartCode, Outcome, Addition, Within;
    StepOutcome(st, nal, cap);
    BadAddition(st.out, nal, cap - |st.out|, n, whole);
    StepWithin(st, UnpackStep(st, Some(nal), cap).0, Addition(nal, cap - |st.out|), n + 1, n + 3 + |nal|, whole);
  }

  lemma BadAddition(c: seq<byte>, nal: seq<byte>, room: int, n: nat, whole: seq<byte>)
    requires Within(c, n + 1, whole) && UnitAt(whole, n, nal) && nal != [] && NoStartCode(nal)
    requires !(|nal| >= 2 && 1 <= NalType(nal[0]) <= 23)
    ensures Within(c + Addition(nal, room), n + 3 + |nal|, whole)
  {
    hide StapWalk, NoStartCode, Octet, Nri;
    if |nal| >= 2 && NalType(nal[0]) == STAP_A {
      AggregateWithin(c, nal, room, n, whole);
    } else if |nal| >= 2 && NalType(nal[0]) == FU_A && nal[1] & S_BIT != 0 {
      var y := [Octet(Nri(nal[0]), NalType(nal[1]))] + nal[2..];
      assert Addition(nal, room) == START_CODE + y;
      AppendedUnit(c, y, n, whole);
    } else {
      ShortAddition(c, Addition(nal, room), n + 1, whole);
    }
  }

  lemma ShortAddition(c: seq<byte>, x: seq<byte>, m: int, whole: seq<byte>)
    requires Within(c, m, whole)
    ensures Within(c + x, m + |x|, whole)
  {
    assert c <= c + x;
  }

  lemma GoodWholeWithin(st: Unpacker, nal: seq<byte>, n: nat, whole: seq<byte>, cap: nat)
    requires Missed(st, n, whole) && UnitAt(whole, n, nal) && |nal| >= 2 && 1 <= NalType(nal[0]) <= 23
    ensures AllWithin(UnpackStep(st, Some(nal), cap).0, n + 3 + |nal|, whole)
  {
    hide UnpackStep, Outcome;
    StepOutcome(st, nal, cap);
    AppendedUnit(st.out, nal, n, whole);
    StepWithin(st, UnpackStep(st, Some(nal), cap).0, START_CODE + nal, n + 1, n + 3 + |nal|, whole);
  }

  lemma FirstFragmentWithin(st: Unpacker, b: byte, data: seq<byte>, n: nat, whole: seq<byte>, cap: nat)
    requires Missed(st, n, whole) && n + 4 <= |whole| && whole[n..n + 4] == START_CODE
    ensures var f := [Octet(Nri(b), FU_A), FuHeader(NalType(b), true, false)] + data;
            AllWithin(UnpackStep(st, Some(f), cap).0, n + 3 + |data|, whole)
  {
    hide UnpackStep, Outcome, StapWalk;
    var f := [Octet(Nri(b), FU_A), FuHeader(NalType(b), true, false)] + data;
    HeaderBits(b, true, false);
    FlagBits(b, true, false);
    StepOutcome(st, f, cap);
    var y := [Octet(Nri(f[0]), NalType(f[1]))] + data;
    assert f[2..] == data && Addition(f, cap - |st.out|) == START_CODE + y;
    AppendedUnit(st.out, y, n, whole);
    StepWithin(st, UnpackStep(st, Some(f), cap).0, START_CODE + y, n + 1, n + 3 + |data|, whole);
  }

  lemma NextFragmentWithin(st: Unpacker, b: byte, last: bool, data: seq<byte>, m: nat, whole: seq<byte>, cap: nat)
    requires AllWithin(st, m, whole)
    ensures var f := [Octet(Nri(b), FU_A), FuHeader(NalType(b), false, last)] + data;
            AllWithin(UnpackStep(st, Some(f), cap).0, m + |data|, whole)
  {
    hide UnpackStep, Outcome, StapWalk;
    var f := [Octet(Nri(b), FU_A), FuHeader(NalType(b), false, last)] + data;
    HeaderBits(b, false, last);
    FlagBits(b, false, last);
    StepOutcome(st, f, cap);
    assert f[2..] == data && Addition(f, cap - |st.out|) == [] + data == data;
    ShortAddition(st.out, data, m, whole);
    StepWithin(st, UnpackStep(st, Some(f), cap).0, data, m, m + |data|, whole);
  }

  lemma {:induction false} RestWithin(st: Unpacker, nal: seq<byte>, mtu: nat, code: nat, off: nat, m: nat,
                                      whole: seq<byte>, cap: nat)
    requires mtu >= 3 && nal != [] && (code == 0 || code == 3 || code == 4) && AllWithin(st, m, whole)
    ensures AllWithin(UnpackRun(st, AllReceived(RestOfUnit(nal, mtu, code, off)), cap),
                      m + |RestData(nal, mtu, code, off)|, whole)
    decreases |nal| - off
  {
    hide UnpackStep, UnpackRun, Octet, Nri, NalType, FuHeader, EndInSight, Within;
    var left, fs := |nal| - off, RestOfUnit(nal, mtu, code, off);
    if left <= 0 || Skipped(left, code) {
      RunEnds(st, cap);
    } else {
      hide RestData, StopsAt;
      var last := EndInSight(left, mtu, code) && left + 2 <= mtu;
      RestDataUnfolds(nal, mtu, code, off);
      var end := if last then |nal| else off + mtu - 2;
      var data := nal[off..end];
      NextFragmentWithin(st, nal[0], last, data, m, whole, cap);
      RunUnfolds(st, fs, cap);
      var st1 := UnpackStep(st, Some(fs[0]), cap).0;
      assert fs[0] == [Octet(Nri(nal[0]), FU_A), FuHeader(NalType(nal[0]), false, last)] + data;
      if last {
        assert fs[1..] == [];
        RunEnds(st1, cap);
      } else {
        assert fs[1..] == RestOfUnit(nal, mtu, code, end);
        RestWithin(st1, nal, mtu, code, end, m + |data|, whole, cap);
      }
    }
  }

  lemma CutWithin(st: Unpacker, nal: seq<byte>, mtu: nat, code: nat, n: nat, whole: seq<byte>, cap: nat)
    requires mtu >= 3 && nal != [] && (code == 0 || code == 3 || code == 4) && !EndInSight(|nal|, mtu, code)
    requires Missed(st, n, whole) && UnitAt(whole, n, nal)
    ensures AllWithin(UnpackRun(st, AllReceived(UnitPayloads(nal, mtu, code)), cap), n + 3 + |nal|, whole)
  {
    hide UnpackStep, UnpackRun, Octet, Nri, NalType, FuHeader, Arrived, EndInSight, RestData, RestOfUnit, Within;
    CutUnitHolds(nal, mtu, code);
    ArrivedExactly(nal, mtu, code);
    var ps, first := UnitPayloads(nal, mtu, code), (nal + [0])[1..mtu - 1];
    FirstFragmentWithin(st, nal[0], first, n, whole, cap);
    RunUnfolds(st, ps, cap);
    var st1 := UnpackStep(st, Some(ps[0]), cap).0;
    assert ps[1..] == RestOfUnit(nal, mtu, code, mtu - 1);
    RestWithin(st1, nal, mtu, code, mtu - 1, n + 3 + |first|, whole, cap);
    WithinMore(UnpackRun(st, AllReceived(ps), cap), n + 3 + |first| + |RestData(nal, mtu, code, mtu - 1)|, n + 3 + |nal|, whole);
  }

  lemma WithinMore(st: Unpacker, m: int, m': int, whole: seq<byte>)
    requires AllWithin(st, m, whole) && m <= m'
    ensures AllWithin(st, m', whole)
  {
  }

  /** Output that has missed a unit's place misses the next one's. */
  lemma UnitStaysMissed(st: Unpacker, u: Sent, n: nat, whole: seq<byte>, mtu: nat, cap: nat)
    requires mtu >= 3 && Usable(u) && Missed(st, n, whole) && UnitAt(whole, n, u.nal)
    ensures Missed(UnpackRun(st, AllReceived(UnitPayloads(u.nal, mtu, u.code)), cap), n + 4 + |u.nal|, whole)
  {
    hide UnpackStep, UnpackRun, NoStartCode, RestOfUnit;
    var ps := UnitPayloads(u.nal, mtu, u.code);
    if EndInSight(|u.nal|, mtu, u.code) {
      RunUnfolds(st, ps, cap);
      assert ps[1..] == [];
      RunEnds(UnpackStep(st, Some(u.nal), cap).0, cap);
      if |u.nal| >= 2 && 1 <= NalType(u.nal[0]) <= 23 {
        GoodWholeWithin(st, u.nal, n, whole, cap);
      } else {
        BadWholeWithin(st, u.nal, n, whole, cap);
      }
    } else {
      CutWithin(st, u.nal, mtu, u.code, n, whole, cap);
    }
  }

  // ----- one unit, after all that was expected -----

  /** The zero that a unit gains leaves the sync point where it was. */
  lemma GainLeavesSync(st: Unpacker, nal: seq<byte>, mtu: nat, code: nat, cap: nat)
    requires mtu >= 3 && nal != [] && GainsZero(|nal|, mtu, code)
    requires SyncOk(st) && cap >= |st.out| + |nal| + 12
    ensures SyncPoint(UnpackRun(st, AllReceived(UnitPayloads(nal, mtu, code)), cap)) == SyncPoint(st)
  {
    hide StapWalk, Octet, Nri;
    var ps := UnitPayloads(nal, mtu, code);
    HeaderBits(nal[0], true, false);
    FlagBits(nal[0], true, false);
    RunUnfolds(st, ps, cap);
    assert ps[1..] == [];
    RunEnds(UnpackStep(st, Some(ps[0]), cap).0, cap);
  }

  lemma RebuiltFirst(nal: seq<byte>)
    requires nal != []
    ensures Rebuilt(nal)[0] == nal[0] <==> nal[0] & 0x80 == 0
  {
  }

  lemma FirstByteDiffers(c: seq<byte>, done: seq<byte>, x: seq<byte>, nal: seq<byte>, whole: seq<byte>)
    requires c <= done + (START_CODE + x) && UnitAt(whole, |done|, nal)
    requires x != [] && nal != [] && x[0] != nal[0]
    ensures Within(c, |done| + 4, whole)
  {
    var k := |done| + 4;
    assert (done + (START_CODE + x))[k] == x[0];
    assert whole[k] == whole[k..k + |nal|][0] == nal[0];
  }

  /** A unit that travels and is spoilt. */
  lemma SpoiltIsMissed(st: Unpacker, nal: seq<byte>, mtu: nat, code: nat, n: nat, whole: seq<byte>, cap: nat)
    requires mtu >= 3 && Usable(Sent(nal, code)) && !EndInSight(|nal|, mtu, code) && !Unspoilt(nal, mtu, code)
    requires SyncOk(st) && |st.out| == n && UnitAt(whole, n, nal) && st.out <= whole && cap >= n + |nal| + 12
    ensures Missed(UnpackRun(st, AllReceived(UnitPayloads(nal, mtu, code)), cap), n + 4 + |nal|, whole)
  {
    hide UnpackStep, UnpackRun, UnitPayloads, Octet, Nri, NalType, NoStartCode, EndInSight, Multiple;
    CutUnitArrives(st, nal, mtu, code, cap);
    var st' := UnpackRun(st, AllReceived(UnitPayloads(nal, mtu, code)), cap);
    var x := Arrived(nal, mtu, code);
    assert st'.out == st.out + (START_CODE + x);
    if nal[0] & 0x80 != 0 {
      RebuiltFirst(nal);
      FirstByteDiffers(st'.out, st.out, x, nal, whole);
      FirstByteDiffers(Synced(st'), st.out, x, nal, whole);
    } else if GainsZero(|nal|, mtu, code) {
      GainLeavesSync(st, nal, mtu, code, cap);
    }
  }

  lemma UnitFallsBehind(st: Unpacker, u: Sent, n: nat, whole: seq<byte>, mtu: nat, cap: nat)
    requires mtu >= 3 && Usable(u) && !Comes(u, mtu)
    requires SyncOk(st) && |st.out| == n && UnitAt(whole, n, u.nal) && st.out <= whole && cap >= n + |u.nal| + 12
    ensures Missed(UnpackRun(st, AllReceived(UnitPayloads(u.nal, mtu, u.code)), cap), n + 4 + |u.nal|, whole)
  {
    hide UnpackStep, UnpackRun, NoStartCode, RestOfUnit, Multiple;
    var ps := UnitPayloads(u.nal, mtu, u.code);
    if EndInSight(|u.nal|, mtu, u.code) {
      RunUnfolds(st, ps, cap);
      assert ps[1..] == [];
      RunEnds(UnpackStep(st, Some(u.nal), cap).0, cap);
      BadWholeWithin(st, u.nal, n, whole, cap);
    } else {
      SpoiltIsMissed(st, u.nal, mtu, u.code, n, whole, cap);
    }
  }

  // ----- the stream -----

  ghost predicate AllUsable(us: seq<Sent>) {
    forall i :: 0 <= i < |us| ==> Usable(us[i])
  }

  lemma FirstExpected(us: seq<Sent>, n: nat, whole: seq<byte>)
    requires us != [] && n <= |whole| && whole[n..] == Expected(us)
    ensures UnitAt(whole, n, us[0].nal) && n + 4 + |us[0].nal| <= |whole|
    ensures whole[n + 4 + |us[0].nal|..] == Expected(us[1..])
  {
    var tail, nal := whole[n..], us[0].nal;
    assert tail == (START_CODE + nal) + Expected(us[1..]);
    assert whole[n..n + 4] == tail[..4] && whole[n + 4..n + 4 + |nal|] == tail[4..4 + |nal|];
    assert whole[n + 4 + |nal|..] == tail[4 + |nal|..];
  }

  lemma RunSplits(st: Unpacker, us: seq<Sent>, mtu: nat, cap: nat)
    requires mtu >= 3 && us != [] && AllUsable(us) && SyncOk(st)
    ensures UnpackRun(st, AllReceived(SentPayloads(us, mtu)), cap)
         == UnpackRun(UnpackRun(st, AllReceived(UnitPayloads(us[0].nal, mtu, us[0].code)), cap),
                      AllReceived(SentPayloads(us[1..], mtu)), cap)
  {
    hide UnitPayloads, UnpackStep;
    var ps, later := UnitPayloads(us[0].nal, mtu, us[0].code), SentPayloads(us[1..], mtu);
    AllReceivedConcat(ps, later);
    RunConcat(st, AllReceived(ps), AllReceived(later), cap);
  }

  /** Output that has missed its place never becomes the whole stream. */
  lemma {:induction false} MissedForGood(st: Unpacker, us: seq<Sent>, n: nat, whole: seq<byte>, mtu: nat, cap: nat)
    requires mtu >= 3 && AllUsable(us) && Missed(st, n, whole)
    requires n <= |whole| && whole[n..] == Expected(us)
    ensures UnpackRun(st, AllReceived(SentPayloads(us, mtu)), cap).out != whole
    decreases |us|
  {
    if us != [] {
      hide UnpackStep, UnpackRun, UnitPayloads, SentPayloads, Usable, Missed;
      FirstExpected(us, n, whole);
      RunSplits(st, us, mtu, cap);
      UnitStaysMissed(st, us[0], n, whole, mtu, cap);
      MissedForGood(UnpackRun(st, AllReceived(UnitPayloads(us[0].nal, mtu, us[0].code)), cap),
                    us[1..], n + 4 + |us[0].nal|, whole, mtu, cap);
    }
  }

  /** A stream comes back if and only if every unit comes. */
  lemma {:induction false} ComesExactly(st: Unpacker, us: seq<Sent>, whole: seq<byte>, mtu: nat, cap: nat)
    requires mtu >= 3 && AllUsable(us) && SyncOk(st)
    requires whole == st.out + Expected(us) && cap >= |whole| + |us| + 12
    ensures UnpackRun(st, AllReceived(SentPayloads(us, mtu)), cap).out == whole
            <==> forall i :: 0 <= i < |us| ==> Comes(us[i], mtu)
    decreases |us|
  {
    hide UnpackStep, UnitPayloads, Travels, Unspoilt, Missed;
    if us == [] {
      assert st.out + [] == st.out;
    } else {
      hide UnpackRun, SentPayloads;
      var u, n := us[0], |st.out|;
      assert whole[n..] == Expected(us) && st.out <= whole;
      FirstExpected(us, n, whole);
      RunSplits(st, us, mtu, cap);
      var st1 := UnpackRun(st, AllReceived(UnitPayloads(u.nal, mtu, u.code)), cap);
      if Comes(u, mtu) {
        UnitArrives(st, u.nal, mtu, u.code, cap);
        ArrivedExactly(u.nal, mtu, u.code);
        ConcatAssociates(st.out, START_CODE + u.nal, Expected(us[1..]));
        ComesExactly(st1, us[1..], whole, mtu, cap);
        assert forall i :: 0 < i < |us| ==> us[i] == us[1..][i - 1];
      } else {
        UnitFallsBehind(st, u, n, whole, mtu, cap);
        MissedForGood(st1, us[1..], n + 4 + |u.nal|, whole, mtu, cap);
      }
    }
  }

  // ----- one buffer for all units -----

  function InOneBuffer(us: seq<StreamUnit>): (r: seq<Sent>)
    ensures |r| == |us|
    ensures forall i :: 0 <= i < |us| ==> r[i] == Sent(us[i].nal, CodeLen(us[i + 1..]))
  {
    if us == [] then []
    else
      assert forall i :: 0 < i < |us| ==> us[i] == us[1..][i - 1] && us[1..][i..] == us[i + 1..];
      [Sent(us[0].nal, CodeLen(us[1..]))] + InOneBuffer(us[1..])
  }

  lemma {:induction false} InOneBufferSends(us: seq<StreamUnit>, mtu: nat)
    requires mtu >= 3 && forall i :: 0 <= i < |us| ==> us[i].nal != []
    ensures SentPayloads(InOneBuffer(us), mtu) == BufferPayloads(us, mtu)
    ensures Expected(InOneBuffer(us)) == Join(FourByte(us))
    decreases |us|
  {
    hide UnitPayloads;
    if us != [] {
      InOneBufferSends(us[1..], mtu);
      assert InOneBuffer(us)[1..] == InOneBuffer(us[1..]);
      assert FourByte(us)[1..] == FourByte(us[1..]);
    }
  }

  /** Several units in one buffer, both directions, after any stream: the run goes through, and
      what the depacketizer adds is the same units if and only if each of them travels, and
      none is spoilt by its length and the start code behind it or by its forbidden bit. */
  lemma BufferRoundTripExactly(cfg: Config, st: Unpacker, us: seq<StreamUnit>, cap: nat)
    requires cfg.mtu >= 3 && !cfg.mode.SingleNal? && Proper(us) && SyncOk(st)
    requires cap >= |st.out| + |Join(FourByte(us))| + |us| + 12
    ensures PacketizeRun(cfg, Join(us), 0) == Some(BufferPayloads(us, cfg.mtu))
    ensures UnpackRun(st, AllReceived(BufferPayloads(us, cfg.mtu)), cap).out == st.out + Join(FourByte(us))
            <==> forall i :: 0 <= i < |us| ==>
                   Travels(us[i].nal, cfg.mtu, CodeLen(us[i + 1..])) && Unspoilt(us[i].nal, cfg.mtu, CodeLen(us[i + 1..]))
  {
    hide Join, NoStartCode, Travels, Unspoilt, PacketizeRun, UnpackRun, BufferPayloads, SentPayloads;
    BufferEmits(cfg, us);
    InOneBufferSends(us, cfg.mtu);
    var sent := InOneBuffer(us);
    forall i | 0 <= i < |us|
      ensures Usable(sent[i])
    {
      assert Delimited(us[i].nal, us[i + 1..]);
    }
    ComesExactly(st, sent, st.out + Expected(sent), cfg.mtu, cap);
    assert forall i :: 0 <= i < |us| ==> us[i].nal == sent[i].nal && CodeLen(us[i + 1..]) == sent[i].code;
  }

  // ----- a buffer for each unit, as the driver has it -----

  /** With nothing behind it a unit's payloads are the RFC 6184 ones. */
  lemma AloneInBuffer(nal: seq<byte>, mtu: nat)
    requires mtu >= 3 && nal != []
    ensures UnitPayloads(nal, mtu, 0) == Payloads(nal, mtu)
    ensures Comes(Sent(nal, 0), mtu) <==> Deliverable(nal, mtu)
  {
    hide FuHeader, Octet, Nri;
    if |nal| > mtu {
      RestIsFragments(nal, mtu, mtu - 1);
      assert (nal + [0])[1..mtu - 1] == nal[1..mtu - 1];
    }
  }

  lemma {:induction false} RestIsFragments(nal: seq<byte>, mtu: nat, off: nat)
    requires mtu >= 3 && 1 < off < |nal|
    ensures RestOfUnit(nal, mtu, 0, off) == FragmentsFrom(nal, mtu, off)
    decreases |nal| - off
  {
    hide FuHeader, Octet, Nri, NalType;
    var end := FragmentEnd(nal, mtu, off);
    if end < |nal| {
      RestIsFragments(nal, mtu, end);
    } else {
      assert nal[off..] == nal[off..end];
    }
  }

  function Alone(us: seq<StreamUnit>): (r: seq<Sent>)
    ensures |r| == |us| && forall i :: 0 <= i < |us| ==> r[i] == Sent(us[i].nal, 0)
  {
    if us == [] then [] else [Sent(us[0].nal, 0)] + Alone(us[1..])
  }

  lemma {:induction false} AloneSends(us: seq<StreamUnit>, mtu: nat)
    requires mtu >= 3 && forall i :: 0 <= i < |us| ==> us[i].nal != []
    ensures SentPayloads(Alone(us), mtu) == AllPayloads(Nals(us), mtu)
    ensures Expected(Alone(us)) == Join(FourByte(us))
    decreases |us|
  {
    hide UnitPayloads, Payloads;
    if us != [] {
      AloneInBuffer(us[0].nal, mtu);
      AloneSends(us[1..], mtu);
      assert Alone(us)[1..] == Alone(us[1..]) && Nals(us)[1..] == Nals(us[1..]);
      assert FourByte(us)[1..] == FourByte(us[1..]);
    }
  }

  /** End to end, both directions, for every stream that can be split and a receiver that has
      any stream already: splitting, packetizing and depacketizing adds the same units, with
      four-byte start codes, if and only if every unit is Deliverable. */
  lemma StreamRoundTripExactly(cfg: Config, st: Unpacker, us: seq<StreamUnit>, cap: nat)
    requires cfg.mtu >= 3 && !cfg.mode.SingleNal? && us != [] && Proper(us) && SyncOk(st)
    requires cap >= |st.out| + |Join(FourByte(us))| + |us| + 12
    ensures SendAll(cfg, Join(us)).Some?
    ensures UnpackRun(st, AllReceived(SendAll(cfg, Join(us)).value), cap).out == st.out + Join(FourByte(us))
            <==> forall i :: 0 <= i < |us| ==> Deliverable(us[i].nal, cfg.mtu)
  {
    hide Join, NoStartCode, Travels, Unspoilt, Deliverable, UnpackRun, SendAll, AllPayloads, SentPayloads;
    StreamPayloads(cfg, us);
    AloneSends(us, cfg.mtu);
    var sent := Alone(us);
    forall i | 0 <= i < |us|
      ensures Usable(sent[i]) && (Comes(sent[i], cfg.mtu) <==> Deliverable(us[i].nal, cfg.mtu))
    {
      assert Delimited(us[i].nal, us[i + 1..]);
      AloneInBuffer(us[i].nal, cfg.mtu);
    }
    ComesExactly(st, sent, st.out + Expected(sent), cfg.mtu, cap);
  }
}
