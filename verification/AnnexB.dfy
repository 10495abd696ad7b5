/** The Annex B splitter as a function of the bytes left in the file (NALDecoder.c, lines
    83-177; the loop around it, UnitTest.c, lines 217-228). */
module AnnexB {
  import opened Bytes

  /** No data left, no start code, or a unit of so many bytes behind a start code of prefix
      bytes; last when the end of the file ended it. */
  datatype Next = NoData | NotStart | Unit(prefix: nat, size: nat, last: bool)

  /** GetAnnexbNALU: the unit ends where the packetizer's own search finds the next start
      code, counting a third zero before it as part of that start code. */
  function NextUnit(rest: seq<byte>): (r: Next)
    ensures r.Unit? ==> 3 <= r.prefix <= 4 && r.prefix <= r.size <= |rest| && (!r.last ==> r.size < |rest|)
    ensures r.Unit? <==> BeginsUnit(rest)
  {
    if |rest| < 3 then NoData
    else if IsStartCode(rest, 0) then Behind(rest, 3)
    else if |rest| < 4 then NoData
    else if rest[0] == 0 && IsStartCode(rest, 1) then Behind(rest, 4)
    else NotStart
  }

  function Behind(rest: seq<byte>, prefix: nat): (r: Next)
    requires prefix <= |rest|
    ensures r.Unit? && r.prefix == prefix && prefix <= r.size <= |rest| && (!r.last ==> r.size < |rest|)
  {
    match FindNalUnit(rest, prefix, |rest|)
    case None => Unit(prefix, |rest|, true)
    case Some(e) => Unit(prefix, e, false)
  }

  predicate BeginsUnit(s: seq<byte>) {
    (|s| >= 3 && IsStartCode(s, 0)) || (|s| >= 4 && s[0] == 0 && IsStartCode(s, 1))
  }

  /** What the front of a file is taken for, in bytes. */
  lemma FrontExactly(rest: seq<byte>)
    ensures NextUnit(rest).Unit? && NextUnit(rest).prefix == 3 <==> |rest| >= 3 && rest[..3] == [0, 0, 1]
    ensures NextUnit(rest).Unit? && NextUnit(rest).prefix == 4 <==> |rest| >= 4 && rest[..4] == [0, 0, 0, 1]
    ensures NextUnit(rest) == NotStart <==> |rest| >= 4 && rest[..3] != [0, 0, 1] && rest[..4] != [0, 0, 0, 1]
    ensures NextUnit(rest) == NoData <==> |rest| < 3 || (|rest| == 3 && rest != [0, 0, 1])
  {
    if |rest| >= 3 {
      assert rest[..3] == [rest[0], rest[1], rest[2]];
      assert |rest| == 3 ==> rest == [rest[0], rest[1], rest[2]];
    }
    if |rest| >= 4 {
      assert rest[..4] == [rest[0], rest[1], rest[2], rest[3]];
    }
  }

  /** Bytes that have to fit the reader's buffer: the unit, and the next start code or the
      value stored for the end of the file. */
  function ReadExtent(rest: seq<byte>): nat {
    match NextUnit(rest)
    case Unit(prefix, size, last) => if last then |rest| + 1 else ScanStartCode(rest, prefix, |rest|).value + 3
    case _ => 4
  }

  /** Units of a file in order; None when some call reports that there is no start code. */
  function SplitRun(rest: seq<byte>): (r: Option<seq<seq<byte>>>)
    decreases |rest|
  {
    match NextUnit(rest)
    case NoData => Some([])
    case NotStart => None
    case Unit(_, size, last) =>
      if last then Some([rest])
      else
        match SplitRun(rest[size..])
        case None => None
        case Some(us) => Some([rest[..size]] + us)
  }

  // ----- losslessness -----

  /** One start code, at the front, and none after it. */
  ghost predicate OneStartCode(u: seq<byte>) {
    BeginsUnit(u)
    && forall i, j {:trigger IsStartCode(u, i), IsStartCode(u, j)} :: IsStartCode(u, i) && IsStartCode(u, j) ==> i == j
  }

  /** What one call hands out: no start code behind the first, and the rewind has put the
      cursor on the next start code. */
  lemma NextUnitIsOne(rest: seq<byte>)
    requires BeginsUnit(rest)
    ensures var n := NextUnit(rest);
            && NoStartCode(rest[n.prefix..n.size])
            && OneStartCode(rest[..n.size])
            && (n.last <==> n.size == |rest|)
            && (!n.last ==> BeginsUnit(rest[n.size..]))
  {
    var n := NextUnit(rest);
    NoStartCodeSlice(rest, n.prefix, n.size);
    var u := rest[..n.size];
    forall i | IsStartCode(u, i)
      ensures i == n.prefix - 3
    {
      assert IsStartCode(rest, i);
    }
    assert forall k :: 0 <= k < 4 && k < n.size ==> u[k] == rest[k];
    assert BeginsUnit(u) by {
      assert IsStartCode(u, n.prefix - 3) == IsStartCode(rest, n.prefix - 3);
    }
    if !n.last {
      var p := ScanStartCode(rest, n.prefix, |rest|).value;
      assert IsStartCode(rest, p);
      assert IsStartCode(rest[n.size..], p - n.size);
    }
  }

  /** Losslessness: on any file that begins with a start code no call returns -1, the units
      are the file cut in pieces, and each has one start code, at its front. */
  lemma {:induction false} SplitIsLossless(rest: seq<byte>)
    requires BeginsUnit(rest)
    ensures SplitRun(rest).Some?
    ensures var us := SplitRun(rest).value;
            us != [] && Concat(us) == rest && forall i :: 0 <= i < |us| ==> OneStartCode(us[i])
    decreases |rest|
  {
    hide OneStartCode, BeginsUnit, NextUnit;
    NextUnitIsOne(rest);
    var n := NextUnit(rest);
    if n.last {
      assert rest[..n.size] == rest;
      assert Concat([rest]) == rest + [];
    } else {
      SplitIsLossless(rest[n.size..]);
      var us := SplitRun(rest[n.size..]).value;
      var all := [rest[..n.size]] + us;
      assert all[1..] == us;
      assert Concat(all) == rest[..n.size] + rest[n.size..] == rest;
      forall i | 0 <= i < |all|
        ensures OneStartCode(all[i])
      {
        assert i > 0 ==> all[i] == us[i - 1];
      }
    }
  }

  // ----- streams written by an encoder -----

  datatype StreamUnit = StreamUnit(four: bool, nal: seq<byte>)

  function UnitBytes(u: StreamUnit): seq<byte> {
    Prefix(u.four) + u.nal
  }

  function Join(us: seq<StreamUnit>): seq<byte> {
    if us == [] then [] else UnitBytes(us[0]) + Join(us[1..])
  }

  function Pieces(us: seq<StreamUnit>): (ps: seq<seq<byte>>)
    ensures |ps| == |us|
    ensures forall i :: 0 <= i < |us| ==> ps[i] == UnitBytes(us[i])
  {
    if us == [] then [] else [UnitBytes(us[0])] + Pieces(us[1..])
  }

  predicate EndsInZero(s: seq<byte>) {
    s != [] && s[|s| - 1] == 0
  }

  /** The boundary after a unit can be told from its bytes: no start code inside, and no
      trailing zero that a following three-byte start code would take over. */
  ghost predicate Delimited(nal: seq<byte>, next: seq<StreamUnit>) {
    NoStartCode(nal) && (next != [] && !next[0].four ==> !EndsInZero(nal))
  }

  ghost predicate Separable(us: seq<StreamUnit>) {
    forall i :: 0 <= i < |us| ==> Delimited(us[i].nal, us[i + 1..])
  }

  lemma JoinStarts(us: seq<StreamUnit>)
    requires us != []
    ensures BeginsUnit(Join(us)) && NextUnit(Join(us)).prefix == |Prefix(us[0].four)|
    ensures Join(us)[..|Prefix(us[0].four)|] == Prefix(us[0].four)
  {
  }

  /** Behind a unit without a start code stands the next unit's, and no earlier one, even
      across the boundary. */
  lemma BoundaryStartCode(first: StreamUnit, four: bool, tail: seq<byte>)
    requires NoStartCode(first.nal)
    ensures var s, u, h := UnitBytes(first) + (Prefix(four) + tail), |UnitBytes(first)|, |Prefix(first.four)|;
            var p := u + if four then 1 else 0;
            && IsStartCode(s, p) && NoStartCodeIn(s, h, p + 2) && (four ==> s[u] == 0)
  {
    var head, q := UnitBytes(first), Prefix(four);
    var s, u, h := head + (q + tail), |head|, |Prefix(first.four)|;
    Indices(head, q, tail);
    assert head[h..u] == first.nal;
    NoStartCodeSlice(head, h, u);
    forall i | h <= i < u + |q| - 3
      ensures !IsStartCode(s, i)
    {
      if i + 3 <= u {
        assert IsStartCode(s, i) == IsStartCode(head, i);
      } else {
        assert s[i + 2] == q[i + 2 - u] == 0;
      }
    }
  }

  lemma FirstStartCodeIsNext(us: seq<StreamUnit>)
    requires |us| >= 2 && NoStartCode(us[0].nal)
    ensures var u, h := |UnitBytes(us[0])|, |Prefix(us[0].four)|;
            var p := u + if us[1].four then 1 else 0;
            && p + 3 <= |Join(us)| && IsStartCode(Join(us), p) && NoStartCodeIn(Join(us), h, p + 2)
            && (us[1].four ==> Join(us)[u] == 0)
  {
    hide Prefix, NoStartCode;
    var tail := us[1].nal + Join(us[2..]);
    assert us[1..][1..] == us[2..];
    ConcatAssociates(Prefix(us[1].four), us[1].nal, Join(us[2..]));
    BoundaryStartCode(us[0], us[1].four, tail);
  }

  lemma MiddleSlice(p: seq<byte>, m: seq<byte>, rest: seq<byte>)
    ensures var s := (p + m) + rest;
            s[|p|..|p| + |m|] == m && (m != [] ==> s[|p| + |m| - 1] == m[|m| - 1])
  {
  }

  lemma NalInStream(us: seq<StreamUnit>)
    requires us != []
    ensures var h := |Prefix(us[0].four)|;
            && |Join(us)| >= h + |us[0].nal| == |UnitBytes(us[0])|
            && (us[0].nal != [] ==> Join(us)[h + |us[0].nal| - 1] == us[0].nal[|us[0].nal| - 1])
            && (NoStartCode(us[0].nal) <==> NoStartCodeIn(Join(us), h, h + |us[0].nal|))
            && (|us| == 1 ==> |Join(us)| == h + |us[0].nal|)
  {
    hide Prefix, NoStartCode, NoStartCodeIn;
    MiddleSlice(Prefix(us[0].four), us[0].nal, Join(us[1..]));
    NoStartCodeSlice(Join(us), |Prefix(us[0].four)|, |UnitBytes(us[0])|);
  }

  lemma InnerUnitExactly(us: seq<StreamUnit>)
    requires |us| >= 2 && NoStartCode(us[0].nal)
    ensures var n := NextUnit(Join(us));
            !n.last && (n.size == |UnitBytes(us[0])| <==> us[1].four || !EndsInZero(us[0].nal))
  {
    hide UnitBytes, Join, Prefix, IsStartCode;
    var s, h, u := Join(us), |Prefix(us[0].four)|, |UnitBytes(us[0])|;
    JoinStarts(us);
    NalInStream(us);
    FirstStartCodeIsNext(us);
    FindNalUnitMeaning(s, h, |s|, u + if us[1].four then 1 else 0);
  }

  /** The first unit comes out as it went in exactly when its end can be told. */
  lemma FirstUnitExactly(us: seq<StreamUnit>)
    requires us != []
    ensures NextUnit(Join(us)).size == |UnitBytes(us[0])| <==> Delimited(us[0].nal, us[1..])
    ensures NextUnit(Join(us)).size == |UnitBytes(us[0])| ==> (NextUnit(Join(us)).last <==> |us| == 1)
  {
    hide UnitBytes, Join, Prefix, IsStartCode;
    JoinStarts(us);
    NalInStream(us);
    if NoStartCode(us[0].nal) && |us| > 1 {
      InnerUnitExactly(us);
    } else if !NoStartCode(us[0].nal) {
      NextUnitIsOne(Join(us));
      var h := |Prefix(us[0].four)|;
      var i :| h <= i <= |UnitBytes(us[0])| - 3 && IsStartCode(Join(us), i);
      NextUnitStopsBefore(Join(us), i);
    }
  }

  lemma NextUnitStopsBefore(rest: seq<byte>, i: nat)
    requires BeginsUnit(rest) && NextUnit(rest).prefix <= i && IsStartCode(rest, i)
    ensures NextUnit(rest).size <= i
  {
  }

  /** Splitting recovers a stream's units if and only if every boundary can be told. */
  lemma {:induction false} SplitInvertsExactly(us: seq<StreamUnit>)
    requires us != []
    ensures SplitRun(Join(us)) == Some(Pieces(us)) <==> Separable(us)
    decreases |us|
  {
    hide IsStartCode, Prefix, FindNalUnit, Delimited, UnitBytes;
    var s := Join(us);
    var first := UnitBytes(us[0]);
    JoinStarts(us);
    FirstUnitExactly(us);
    SplitIsLossless(s);
    SeparableUnfolds(us);
    var n := NextUnit(s);
    assert s == first + Join(us[1..]);
    if n.size == |first| {
      assert s[..n.size] == first && s[n.size..] == Join(us[1..]);
      if |us| > 1 {
        SplitInvertsExactly(us[1..]);
        var rest := SplitRun(Join(us[1..]));
        SplitIsLosslessNext(us);
        assert SplitRun(s) == Some([first] + rest.value);
        assert ([first] + rest.value)[1..] == rest.value && Pieces(us)[1..] == Pieces(us[1..]);
      } else {
        assert s == first && Pieces(us) == [first];
        assert n.last && SplitRun(s) == Some([s]);
      }
    } else {
      assert |SplitRun(s).value[0]| == n.size;
    }
  }

  lemma SplitIsLosslessNext(us: seq<StreamUnit>)
    requires |us| >= 2
    ensures SplitRun(Join(us[1..])).Some?
  {
    JoinStarts(us[1..]);
    SplitIsLossless(Join(us[1..]));
  }

  lemma SeparableUnfolds(us: seq<StreamUnit>)
    requires us != []
    ensures Separable(us) <==> Delimited(us[0].nal, us[1..]) && Separable(us[1..])
  {
  }
}
