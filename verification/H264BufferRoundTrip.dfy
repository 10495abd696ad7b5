/** Several NAL units in one packetizer buffer, depacketized: what arrives of each, and the
    exact condition on lengths and start codes under which all of them come through. */
module H264BufferRoundTrip {
  import opened Bytes
  import opened AnnexB
  import opened H264Payload
  import opened H264Fragmentation
  import opened H264Unpack
  import opened H264Loss
  import opened H264Frame
  import opened H264Buffer
  import opened EndToEnd

  predicate Multiple(a: nat, m: nat)
    requires m >= 1
  {
    a % m == 0
  }

  /** A unit in front of a three-byte start code is one byte longer than its fragments hold. */
  predicate LosesByte(len: nat, mtu: nat, code: nat)
    requires mtu >= 3
  {
    code == 3 && len >= mtu && Multiple(len - 2, mtu - 2)
  }

  /** A unit in front of a four-byte start code is one byte too short for its first fragment. */
  predicate GainsZero(len: nat, mtu: nat, code: nat) {
    code == 4 && len + 2 == mtu
  }

  /** A unit that the receiver takes for what it is: fragments, or a single NAL unit packet. */
  predicate Travels(nal: seq<byte>, mtu: nat, code: nat) {
    nal != [] && (EndInSight(|nal|, mtu, code) ==> |nal| >= 2 && 1 <= NalType(nal[0]) <= 23)
  }

  /** What arrives of such a unit; fragments do not carry its forbidden bit. */
  function Arrived(nal: seq<byte>, mtu: nat, code: nat): (r: seq<byte>)
    requires mtu >= 3 && nal != []
  {
    var x := if EndInSight(|nal|, mtu, code) then nal else Rebuilt(nal);
    if GainsZero(|nal|, mtu, code) then x + [0]
    else if LosesByte(|nal|, mtu, code) then x[..|nal| - 1]
    else x
  }

  /** Where the fragments from off on stop. */
  function StopsAt(len: nat, mtu: nat, code: nat, off: nat): (end: nat)
    requires mtu >= 3 && off <= len && (code == 0 || code == 3 || code == 4)
    ensures off <= end <= len
    decreases len - off
  {
    var left := len - off;
    if left == 0 || Skipped(left, code) then off
    else if EndInSight(left, mtu, code) && left + 2 <= mtu then len
    else StopsAt(len, mtu, code, off + mtu - 2)
  }

  lemma MultipleBelow(a: nat, m: nat)
    requires a < m
    ensures Multiple(a, m) <==> a == 0
  {
  }

  lemma MultipleStep(a: nat, m: nat)
    requires 1 <= m <= a
    ensures Multiple(a - m, m) <==> Multiple(a, m)
  {
    var q, r, p, t := a / m, a % m, (a - m) / m, (a - m) % m;
    assert m * (q - 1 - p) == t - r;
    if q - 1 - p >= 1 {
      AtLeastOnce(m, q - 1 - p);
    } else if q - 1 - p <= -1 {
      AtLeastOnce(m, p + 1 - q);
    }
  }

  lemma AtLeastOnce(m: nat, n: nat)
    requires n >= 1
    ensures m * n >= m
  {
  }

  lemma {:induction false} StopsAtExactly(len: nat, mtu: nat, code: nat, off: nat)
    requires mtu >= 3 && off <= len && (code == 0 || code == 3 || code == 4)
    ensures StopsAt(len, mtu, code, off)
         == if code == 3 && off < len && Multiple(len - off - 1, mtu - 2) then len - 1 else len
    decreases len - off
  {
    hide Multiple;
    var left := len - off;
    if left > 0 && left - 1 < mtu - 2 {
      MultipleBelow(left - 1, mtu - 2);
    } else if left > 0 {
      StopsAtExactly(len, mtu, code, off + mtu - 2);
      MultipleStep(left - 1, mtu - 2);
    }
  }

  /** The bytes that the fragments from off on hold. */
  function RestData(nal: seq<byte>, mtu: nat, code: nat, off: nat): seq<byte>
    requires mtu >= 3 && (code == 0 || code == 3 || code == 4)
  {
    if off <= |nal| then nal[off..StopsAt(|nal|, mtu, code, off)] else []
  }

  // ----- the receiver -----

  lemma RunUnfolds(st: Unpacker, ps: seq<seq<byte>>, cap: nat)
    requires SyncOk(st) && ps != []
    ensures UnpackRun(st, AllReceived(ps), cap)
         == UnpackRun(UnpackStep(st, Some(ps[0]), cap).0, AllReceived(ps[1..]), cap)
  {
    hide UnpackStep;
    assert AllReceived(ps)[1..] == AllReceived(ps[1..]);
  }

  lemma RunEnds(st: Unpacker, cap: nat)
    requires SyncOk(st)
    ensures UnpackRun(st, AllReceived([]), cap) == st
  {
  }

  /** One fragment, in order. */
  lemma FragmentArrives(st: Unpacker, b: byte, first: bool, last: bool, data: seq<byte>, cap: nat)
    requires SyncOk(st) && (first || !st.prevLost) && cap >= |st.out| + |data| + 6
    ensures var f := [Octet(Nri(b), FU_A), FuHeader(NalType(b), first, last)] + data;
            var st' := UnpackStep(st, Some(f), cap).0;
            && !st'.prevLost
            && st'.out == st.out + ((if first then START_CODE + [Octet(Nri(b), NalType(b))] else []) + data)
  {
    hide StapWalk;
    HeaderBits(b, first, last);
    FlagBits(b, first, last);
    assert ([Octet(Nri(b), FU_A), FuHeader(NalType(b), first, last)] + data)[2..] == data;
  }

  lemma RestDataUnfolds(nal: seq<byte>, mtu: nat, code: nat, off: nat)
    requires mtu >= 3 && (code == 0 || code == 3 || code == 4)
    requires off < |nal| && !Skipped(|nal| - off, code)
    ensures var last := EndInSight(|nal| - off, mtu, code) && |nal| - off + 2 <= mtu;
            var end := if last then |nal| else off + mtu - 2;
            end <= |nal| && RestData(nal, mtu, code, off) == nal[off..end] + if last then [] else RestData(nal, mtu, code, end)
  {
  }

  lemma {:induction false} RestArrives(st: Unpacker, nal: seq<byte>, mtu: nat, code: nat, off: nat, cap: nat)
    requires mtu >= 3 && nal != [] && (code == 0 || code == 3 || code == 4)
    requires SyncOk(st) && !st.prevLost && cap + off >= |st.out| + |nal| + 6
    ensures UnpackRun(st, AllReceived(RestOfUnit(nal, mtu, code, off)), cap).out
         == st.out + RestData(nal, mtu, code, off)
    decreases |nal| - off
  {
    hide UnpackStep, UnpackRun, Octet, Nri, NalType, FuHeader, EndInSight;
    var left, fs := |nal| - off, RestOfUnit(nal, mtu, code, off);
    if left <= 0 || Skipped(left, code) {
      RunEnds(st, cap);
    } else {
      hide RestData, StopsAt;
      var last := EndInSight(left, mtu, code) && left + 2 <= mtu;
      RestDataUnfolds(nal, mtu, code, off);
      var end := if last then |nal| else off + mtu - 2;
      var data := nal[off..end];
      FragmentArrives(st, nal[0], false, last, data, cap);
      RunUnfolds(st, fs, cap);
      var st1 := UnpackStep(st, Some(fs[0]), cap).0;
      assert fs[0] == [Octet(Nri(nal[0]), FU_A), FuHeader(NalType(nal[0]), false, last)] + data;
      assert st1.out == st.out + data by {
        assert [] + data == data;
      }
      if last {
        assert fs[1..] == [];
        RunEnds(st1, cap);
      } else {
        assert fs[1..] == RestOfUnit(nal, mtu, code, end);
        RestArrives(st1, nal, mtu, code, end, cap);
        ConcatAssociates(st.out, data, RestData(nal, mtu, code, end));
      }
    }
  }

  lemma UnitArrives(st: Unpacker, nal: seq<byte>, mtu: nat, code: nat, cap: nat)
    requires mtu >= 3 && Travels(nal, mtu, code) && (code == 0 || code == 3 || code == 4)
    requires SyncOk(st) && cap >= |st.out| + |nal| + 12
    ensures UnpackRun(st, AllReceived(UnitPayloads(nal, mtu, code)), cap).out
         == st.out + (START_CODE + Arrived(nal, mtu, code))
  {
    hide StapWalk;
    var ps := UnitPayloads(nal, mtu, code);
    assert AllReceived(ps)[1..] == AllReceived(ps[1..]);
    if EndInSight(|nal|, mtu, code) {
      assert ps[1..] == [];
    } else {
      CutUnitArrives(st, nal, mtu, code, cap);
    }
  }

  /** Where the fragments of a cut unit end: behind the unit, at its end, or one byte before. */
  lemma CutUnitStops(len: nat, mtu: nat, code: nat)
    requires mtu >= 3 && (code == 0 || code == 3 || code == 4) && !EndInSight(len, mtu, code)
    ensures mtu - 1 <= len + 1 && (mtu - 1 == len + 1 <==> GainsZero(len, mtu, code))
    ensures mtu - 1 <= len ==>
              StopsAt(len, mtu, code, mtu - 1) == if LosesByte(len, mtu, code) then len - 1 else len
  {
    hide Multiple;
    if mtu - 1 <= len {
      StopsAtExactly(len, mtu, code, mtu - 1);
      if len >= mtu {
        MultipleStep(len - 2, mtu - 2);
      }
    }
  }

  lemma Reassembled(x: seq<byte>, k: nat, stop: nat)
    requires 1 <= k <= |x| && stop <= |x|
    ensures [x[0]] + x[1..k] == x[..k]
    ensures k <= stop ==> [x[0]] + x[1..k] + x[k..stop] == x[..stop]
  {
  }

  lemma RebuiltTail(nal: seq<byte>, k: nat)
    requires nal != [] && 1 <= k <= |nal| + 1
    ensures (nal + [0])[1..k] == (Rebuilt(nal) + [0])[1..k]
  {
    hide Octet, Nri, NalType;
  }

  lemma RestOfRebuilt(nal: seq<byte>, mtu: nat, code: nat)
    requires mtu >= 3 && nal != [] && (code == 0 || code == 3 || code == 4) && mtu - 1 <= |nal|
    ensures RestData(nal, mtu, code, mtu - 1) == (Rebuilt(nal) + [0])[mtu - 1..StopsAt(|nal|, mtu, code, mtu - 1)]
  {
    hide Octet, Nri, NalType, StopsAt;
  }

  /** What the fragments of a cut unit hold together. */
  lemma CutUnitHolds(nal: seq<byte>, mtu: nat, code: nat)
    requires mtu >= 3 && nal != [] && (code == 0 || code == 3 || code == 4) && !EndInSight(|nal|, mtu, code)
    ensures mtu - 1 <= |nal| + 1
    ensures [Rebuilt(nal)[0]] + (nal + [0])[1..mtu - 1] + RestData(nal, mtu, code, mtu - 1) == Arrived(nal, mtu, code)
  {
    hide LosesByte, EndInSight, StopsAt, Rebuilt;
    CutUnitStops(|nal|, mtu, code);
    RebuiltTail(nal, mtu - 1);
    var zero, stop := Rebuilt(nal) + [0], mtu - 1;
    if mtu - 1 <= |nal| {
      RestOfRebuilt(nal, mtu, code);
      stop := StopsAt(|nal|, mtu, code, mtu - 1);
    }
    Reassembled(zero, mtu - 1, stop);
    assert Arrived(nal, mtu, code) == zero[..stop];
  }

  lemma CutUnitArrives(st: Unpacker, nal: seq<byte>, mtu: nat, code: nat, cap: nat)
    requires mtu >= 3 && nal != [] && (code == 0 || code == 3 || code == 4) && !EndInSight(|nal|, mtu, code)
    requires SyncOk(st) && cap >= |st.out| + |nal| + 12
    ensures UnpackRun(st, AllReceived(UnitPayloads(nal, mtu, code)), cap).out
         == st.out + (START_CODE + Arrived(nal, mtu, code))
  {
    hide UnpackStep, UnpackRun, Octet, Nri, NalType, FuHeader, Arrived, EndInSight, RestData, RestOfUnit;
    CutUnitHolds(nal, mtu, code);
    var ps, first := UnitPayloads(nal, mtu, code), (nal + [0])[1..mtu - 1];
    FragmentArrives(st, nal[0], true, false, first, cap);
    RunUnfolds(st, ps, cap);
    var st1 := UnpackStep(st, Some(ps[0]), cap).0;
    assert ps[1..] == RestOfUnit(nal, mtu, code, mtu - 1);
    RestArrives(st1, nal, mtu, code, mtu - 1, cap);
    Regroup(st.out, [Rebuilt(nal)[0]], first, RestData(nal, mtu, code, mtu - 1));
  }

  lemma Regroup(out: seq<byte>, head: seq<byte>, a: seq<byte>, b: seq<byte>)
    ensures out + (START_CODE + head + a) + b == out + (START_CODE + ((head + a) + b))
  {
  }

  // ----- the buffer -----

  ghost predicate AllTravel(us: seq<StreamUnit>, mtu: nat) {
    Proper(us) && forall i :: 0 <= i < |us| ==> Travels(us[i].nal, mtu, CodeLen(us[i + 1..]))
  }

  lemma RestTravels(us: seq<StreamUnit>, mtu: nat)
    requires us != [] && AllTravel(us, mtu)
    ensures Travels(us[0].nal, mtu, CodeLen(us[1..])) && AllTravel(us[1..], mtu)
  {
    hide Travels, Separable, CodeLen;
    ProperRest(us);
    var rest := us[1..];
    forall i | 0 <= i < |rest|
      ensures Travels(rest[i].nal, mtu, CodeLen(rest[i + 1..]))
    {
      assert rest[i] == us[i + 1] && rest[i + 1..] == us[i + 1 + 1..];
    }
  }

  /** What arrives of each unit, behind four-byte start codes. */
  function ArrivedUnits(us: seq<StreamUnit>, mtu: nat): (r: seq<StreamUnit>)
    requires mtu >= 3 && forall i :: 0 <= i < |us| ==> us[i].nal != []
    ensures |r| == |us|
    ensures forall i :: 0 <= i < |us| ==> r[i] == StreamUnit(true, Arrived(us[i].nal, mtu, CodeLen(us[i + 1..])))
  {
    if us == [] then []
    else
      assert forall i :: 0 < i < |us| ==> us[i] == us[1..][i - 1] && us[1..][i..] == us[i + 1..];
      [StreamUnit(true, Arrived(us[0].nal, mtu, CodeLen(us[1..])))] + ArrivedUnits(us[1..], mtu)
  }

  lemma {:induction false} BufferArrives(st: Unpacker, us: seq<StreamUnit>, mtu: nat, cap: nat)
    requires mtu >= 3 && AllTravel(us, mtu) && SyncOk(st)
    requires cap >= |st.out| + |Join(FourByte(us))| + |us| + 12
    ensures UnpackRun(st, AllReceived(BufferPayloads(us, mtu)), cap).out == st.out + Join(ArrivedUnits(us, mtu))
    decreases |us|
  {
    hide UnpackStep, Separable, Arrived, UnitPayloads, Travels;
    if us == [] {
      assert st.out + [] == st.out;
    } else {
      var nal, rest, code := us[0].nal, us[1..], CodeLen(us[1..]);
      var ps, later := UnitPayloads(nal, mtu, code), BufferPayloads(rest, mtu);
      RestTravels(us, mtu);
      UnitArrives(st, nal, mtu, code, cap);
      AllReceivedConcat(ps, later);
      RunConcat(st, AllReceived(ps), AllReceived(later), cap);
      ArrivedExactly(nal, mtu, code);
      BufferArrives(UnpackRun(st, AllReceived(ps), cap), rest, mtu, cap);
      ConcatAssociates(st.out, START_CODE + Arrived(nal, mtu, code), Join(ArrivedUnits(rest, mtu)));
    }
  }

  /** The unit itself arrives. */
  predicate Unspoilt(nal: seq<byte>, mtu: nat, code: nat)
    requires mtu >= 3 && nal != []
  {
    && !GainsZero(|nal|, mtu, code) && !LosesByte(|nal|, mtu, code)
    && (EndInSight(|nal|, mtu, code) || nal[0] & 0x80 == 0)
  }

  lemma ArrivedExactly(nal: seq<byte>, mtu: nat, code: nat)
    requires mtu >= 3 && nal != []
    ensures |Arrived(nal, mtu, code)| <= |nal| + 1
    ensures Arrived(nal, mtu, code) == nal <==> Unspoilt(nal, mtu, code)
  {
    hide Octet, Rebuilt, Multiple;
    RebuiltExactly(nal);
  }
}
