/** H.265 in the numbers of section 4.4 of RFC 7798: the bytes of every fragment the packetizer
    hands out, which units it fragments, and what the depacketizer makes of any sender's
    fragments and of every bad packet. */
module H265Wire {
  import opened Bytes
  import opened H265Payload
  import opened H265RoundTrip
  import H265Unpack
  import Rtp

  // ----- fragments on the wire -----

  /** Type and layout of one fragment: payload header for type 49, LayerId 0, TID 1; S, E and
      the unit's type; data. */
  predicate IsFu(p: seq<byte>, nalType: byte, start: bool, end: bool) {
    && |p| > 3 && p[0] == 98 && p[1] == 1 && p[2] & 0x3f == nalType
    && (p[2] & 0x80 != 0 <==> start) && (p[2] & 0x40 != 0 <==> end)
  }

  /** Data of the fragments in order, without the three header bytes. */
  function FuData(ps: seq<seq<byte>>): seq<byte> {
    if ps == [] then [] else (if |ps[0]| >= 3 then ps[0][3..] else []) + FuData(ps[1..])
  }

  lemma HeaderBytes(b: byte, start: bool, end: bool, data: seq<byte>)
    requires data != []
    ensures IsFu(FuHeaders(NalType(b), start, end) + data, (b >> 1) & 0x3f, start, end)
    ensures (FuHeaders(NalType(b), start, end) + data)[3..] == data
  {
    var f := FuHeaders(NalType(b), start, end);
    FlagsOfType(b, start, end);
    assert (f + data)[0] == f[0] && (f + data)[1] == f[1] && (f + data)[2] == f[2];
  }

  lemma FlagsOfType(b: byte, start: bool, end: bool)
    ensures var t := (b >> 1) & 0x3f;
            var f := t | (if start then 0x80 else 0) | (if end then 0x40 else 0);
            && f & 0x3f == t && (f & 0x80 != 0 <==> start) && (f & 0x40 != 0 <==> end)
            && FU_TYPE << 1 == 98
  {
  }

  /** Fragments of one unit in order: S on the first if it starts the unit, E on the last if
      it ends it, and only the last holds fewer than 970 bytes. */
  predicate AreFus(ps: seq<seq<byte>>, nalType: byte, start: bool, end: bool) {
    && (forall k :: 0 <= k < |ps| ==> IsFu(ps[k], nalType, k == 0 && start, k == |ps| - 1 && end))
    && (forall k :: 0 < k < |ps| - 1 ==> |ps[k]| == 973)
  }

  lemma OneMoreFu(p: seq<byte>, rest: seq<seq<byte>>, nalType: byte, start: bool, end: bool)
    requires IsFu(p, nalType, start, rest == [] && end) && AreFus(rest, nalType, false, end)
    requires |p| >= 3 && (|rest| > 1 ==> |rest[0]| == 973)
    ensures AreFus([p] + rest, nalType, start, end) && FuData([p] + rest) == p[3..] + FuData(rest)
  {
    hide IsFu;
    assert ([p] + rest)[1..] == rest;
  }

  /** The first of the fragments from pos on, and the others. */
  lemma FusFromUnfolds(four: bool, nal: seq<byte>, pos: nat, n: nat)
    requires |nal| >= 1 && |Prefix(four)| <= pos < Size(four, nal)
    requires n == if Size(four, nal) - pos < 970 then Size(four, nal) - pos else 970
    ensures var at, ps, rest := pos - |Prefix(four)|, FusFrom(four, nal, pos), FusFrom(four, nal, pos + n);
            && |ps| == 1 + |rest| && ps == [ps[0]] + rest && (rest == [] <==> pos + n == Size(four, nal))
            && |ps[0]| == n + 3 && IsFu(ps[0], (nal[0] >> 1) & 0x3f, false, Size(four, nal) - pos < 970)
            && nal[at..] == ps[0][3..] + nal[at + n..]
  {
    hide IsFu, FuHeaders, NalType, Prefix;
    var at, left := pos - |Prefix(four)|, Size(four, nal) - pos;
    HeaderBytes(nal[0], false, left < 970, nal[at..at + n]);
    FuHeadersLength(NalType(nal[0]), false, left < 970);
    assert nal[at..] == nal[at..at + n] + nal[at + n..];
  }

  lemma NoFus(four: bool, nal: seq<byte>)
    requires |nal| >= 1
    ensures var ps := FusFrom(four, nal, Size(four, nal));
            ps == [] && FuData(ps) == nal[|nal|..] && forall t, e :: AreFus(ps, t, false, e)
  {
  }

  lemma {:induction false} FusFromShape(four: bool, nal: seq<byte>, pos: nat)
    requires |nal| >= 1 && |Prefix(four)| <= pos <= Size(four, nal)
    ensures var ps := FusFrom(four, nal, pos);
            var left := Size(four, nal) - pos;
            && 970 * (|ps| - 1) < left <= 970 * |ps|
            && FuData(ps) == nal[pos - |Prefix(four)|..]
            && AreFus(ps, (nal[0] >> 1) & 0x3f, false, LastIsShort(left))
            && (|ps| > 1 ==> |ps[0]| == 973)
    decreases Size(four, nal) - pos
  {
    hide IsFu, FuHeaders, NalType, LastIsShort, AreFus, FuData, FusFrom, Prefix;
    var size := Size(four, nal);
    if pos == size {
      NoFus(four, nal);
    } else {
      var n := if size - pos < 970 then size - pos else 970;
      var t, e := (nal[0] >> 1) & 0x3f, LastIsShort(size - pos);
      var ps, rest := FusFrom(four, nal, pos), FusFrom(four, nal, pos + n);
      LastIsShortFrom(size - pos);
      FusFromUnfolds(four, nal, pos, n);
      FusFromShape(four, nal, pos + n);
      if pos + n == size {
        NoFus(four, nal);
      }
      OneMoreFu(ps[0], rest, t, false, e);
    }
  }

  lemma FuHeadersLength(nalType: byte, start: bool, end: bool)
    ensures |FuHeaders(nalType, start, end)| == 3
  {
  }

  /** Which units are fragmented, and into what: with at least 970 bytes and a type that is not
      32, 33, 34 or 39, ceil(size / 970) fragments, S on the first, E on the last unless that is
      full too. */
  lemma FragmentsOnTheWire(four: bool, nal: seq<byte>, slack: seq<byte>, msg: Msg)
    requires Clean(nal, slack) && msg.headerLen <= 4
    requires |nal| >= 970 && (nal[0] >> 1) & 0x3f !in {32, 33, 34, 39}
    ensures var run := PacketizeRun(msg, Memory(four, nal, slack), |Prefix(four)| + |nal|, 0);
            && run.Some?
            && var ps, size, t := run.value, |Prefix(four)| + |nal|, (nal[0] >> 1) & 0x3f;
            && |ps| >= 2 && 970 * (|ps| - 1) < size <= 970 * |ps|
            && AreFus(ps, t, true, size % 970 != 0) && FuData(ps) == nal[2..]
  {
    hide IsFu, FuHeaders, PacketizeRun, AreFus, FusFrom, NalType, FuData, Clean, IsParameterSet, LastIsShort;
    TypeInNumbers(nal[0]);
    RunEmitsFus(four, nal, slack, msg);
    var k, rest := 970 - |Prefix(four)|, FusFrom(four, nal, 970);
    FusFromShape(four, nal, 970);
    LastIsShortFrom(Size(four, nal));
    HeaderBytes(nal[0], true, false, nal[2..k]);
    OneMoreFu(FuHeaders(NalType(nal[0]), true, false) + nal[2..k], rest, (nal[0] >> 1) & 0x3f, true,
              LastIsShort(Size(four, nal)));
    LastIsShortIs(Size(four, nal));
    FuHeadersLength(NalType(nal[0]), true, false);
    assert nal[2..] == nal[2..k] + nal[k..];
  }

  lemma LastIsShortIs(size: nat)
    ensures LastIsShort(size) <==> size % 970 != 0
  {
  }

  lemma TypeInNumbers(b: byte)
    ensures IsParameterSet(NalType(b)) <==> (b >> 1) & 0x3f in {32, 33, 34, 39}
  {
  }

  lemma {:induction false} PiecesFromShape(four: bool, nal: seq<byte>, pos: nat)
    requires |Prefix(four)| <= pos <= Size(four, nal)
    ensures var ps := PiecesFrom(four, nal, pos);
            var left := Size(four, nal) - pos;
            && 970 * (|ps| - 1) < left <= 970 * |ps|
            && Concat(ps) == nal[pos - |Prefix(four)|..]
            && (forall k :: 0 <= k < |ps| - 1 ==> |ps[k]| == 970)
    decreases Size(four, nal) - pos
  {
    var h, left := |Prefix(four)|, Size(four, nal) - pos;
    if left > 0 {
      var n := Min(left, PAYLOAD_SIZE);
      PiecesFromShape(four, nal, pos + n);
      var ps, rest := PiecesFrom(four, nal, pos), PiecesFrom(four, nal, pos + n);
      assert ps[1..] == rest;
      assert nal[pos - h..] == nal[pos - h..pos - h + n] + nal[pos + n - h..];
      if n == left {
        assert rest == [];
      }
    }
  }

  /** All other units: ceil(size / 970) pieces of the unit as it is, every one but the last
      full. */
  lemma PiecesOnTheWire(four: bool, nal: seq<byte>, slack: seq<byte>, msg: Msg)
    requires Clean(nal, slack) && msg.headerLen <= 4
    requires |nal| < 970 || (nal[0] >> 1) & 0x3f in {32, 33, 34, 39}
    ensures var run := PacketizeRun(msg, Memory(four, nal, slack), |Prefix(four)| + |nal|, 0);
            && run.Some?
            && var ps, size := run.value, |Prefix(four)| + |nal|;
            && 970 * (|ps| - 1) < size <= 970 * |ps| && Concat(ps) == nal
            && (forall k :: 0 < k < |ps| - 1 ==> |ps[k]| == 970)
            && (|ps| > 1 ==> |ps[0]| == 970 - |Prefix(four)|)
  {
    hide PacketizeRun;
    RunEmitsPieces(four, nal, slack, msg);
    var to, h := Min(Size(four, nal), PAYLOAD_SIZE), |Prefix(four)|;
    PiecesFromShape(four, nal, to);
    var ps := Pieces(four, nal);
    assert ps[1..] == PiecesFrom(four, nal, to);
    assert nal == nal[..to - h] + nal[to - h..];
  }

  /** A call refuses a bitstream of fewer than four bytes, and no other. */
  lemma RefusedExactly(msg: Msg, mem: seq<byte>, bufLen: nat, pos: nat)
    requires bufLen <= |mem| && msg.headerLen <= 4 && (bufLen > 3 ==> LookSafe(mem, bufLen, pos))
    ensures PacketizeStep(msg, mem, bufLen, pos).Refused? <==> bufLen < 4
  {
    hide LookSafe, Prepare;
  }

  /** Delivery in numbers: among the units that are fragmented exactly those arrive whose
      header has F = 0, LayerId = 0 and TID = 1 and whose size is not a multiple of 970; the
      last call then returns the length of the stream and resets the offset. */
  lemma FragmentedArrivesExactly(four: bool, nal: seq<byte>, slack: seq<byte>, msg: Msg,
                                 headers: seq<Rtp.Header>, out: seq<byte>)
    requires Clean(nal, slack) && msg.headerLen <= 4
    requires |nal| >= 970 && (nal[0] >> 1) & 0x3f !in {32, 33, 34, 39}
    requires AllAccepted(headers) && |headers| == |Fus(four, nal)|
    ensures var run := PacketizeRun(msg, Memory(four, nal, slack), |Prefix(four)| + |nal|, 0);
            && run.Some? && |run.value| == |headers|
            && var r, data := H265Unpack.ReceiveRun(Packets(headers, run.value), out), out + ([0, 0, 0, 1] + nal);
            (r.data == data && r.pos == 0 && r.results != [] && r.results[|r.results| - 1] == |data|
             && forall k :: 0 <= k < |r.results| - 1 ==> r.results[k] == 0)
            <==> nal[0] & 0x81 == 0 && nal[1] == 1 && (|Prefix(four)| + |nal|) % 970 != 0
  {
    hide PacketizeRun, Packets, H265Unpack.ReceiveRun, Clean, Fus;
    FragmentedRoundTripExactly(four, nal, slack, msg, headers, out);
  }

  // ----- any sender's fragments -----

  /** A fragment as section 4.4.3 of RFC 7798 lays it out: the unit's header with type 49 in
      place of its own, then S, E and the unit's type, then data. */
  function AnyFu(nal: seq<byte>, start: bool, end: bool, data: seq<byte>): (p: seq<byte>)
    requires |nal| >= 2
    ensures |p| == 3 + |data|
  {
    [(nal[0] & 0x81) | 98, nal[1], (if start then 0x80 else 0) | (if end then 0x40 else 0) | ((nal[0] >> 1) & 0x3f)] + data
  }

  /** A unit's fragments for data cut anywhere; the chunks from the first on or from a later
      one on. */
  function AnyFus(nal: seq<byte>, chunks: seq<seq<byte>>, start: bool): (ps: seq<seq<byte>>)
    requires |nal| >= 2
    ensures |ps| == |chunks|
  {
    if chunks == [] then []
    else [AnyFu(nal, start, |chunks| == 1, chunks[0])] + AnyFus(nal, chunks[1..], false)
  }

  /** LayerId = 0 and a legal TID, in numbers. */
  predicate BaseLayer(nal: seq<byte>) {
    |nal| >= 2 && nal[0] & 0x01 == 0 && nal[1] & 0xf8 == 0 && nal[1] & 0x07 != 0
  }

  lemma AnyFuBits(b0: byte, b1: byte, start: bool, end: bool)
    ensures var h0 := (b0 & 0x81) | 98;
            var f := (if start then 0x80 else 0) | (if end then 0x40 else 0) | ((b0 >> 1) & 0x3f);
            && (h0 >> 1) & 0x3f == 49
            && (f & 0x80 != 0 <==> start) && (f & 0x40 != 0 <==> end)
            && (h0 & 0x81) | ((f & 0x3f) << 1) == b0
            && (((h0 << 5) & 0x20) | ((b1 >> 3) & 0x1f) == 0 <==> b0 & 0x01 == 0 && b1 & 0xf8 == 0)
  {
  }

  lemma UnpackAnyFu(h: Rtp.Header, nal: seq<byte>, start: bool, end: bool, data: seq<byte>, out: seq<byte>)
    requires Rtp.Valid(h) && Rtp.Accepted(h) && BaseLayer(nal) && data != [] && !(start && end)
    ensures H265Unpack.Unpack(Rtp.Encode(h) + AnyFu(nal, start, end, data), out)
         == CallResult(out + if start then START_CODE + [nal[0], nal[1]] + data else data, end)
  {
    hide Rtp.Encode, H265Unpack.Unpack;
    var p := AnyFu(nal, start, end, data);
    HeaderIsSkipped(h, p, out);
    AnyFuBits(nal[0], nal[1], start, end);
    assert p[3..] == data;
  }

  lemma {:induction false} LaterFusArrive(nal: seq<byte>, chunks: seq<seq<byte>>, headers: seq<Rtp.Header>, out: seq<byte>)
    requires BaseLayer(nal) && chunks != [] && |headers| == |chunks| && AllAccepted(headers)
    requires forall i :: 0 <= i < |chunks| ==> chunks[i] != []
    ensures Leaves(H265Unpack.ReceiveRun(Packets(headers, AnyFus(nal, chunks, false)), out), out + Concat(chunks), true)
    decreases |chunks|
  {
    hide H265Unpack.Unpack, H265Unpack.ReceiveRun, Rtp.Encode, Rtp.Valid, Rtp.Accepted, Leaves, AnyFu;
    var ps, c := AnyFus(nal, chunks, false), chunks[0];
    var rtps := Packets(headers, ps);
    UnpackAnyFu(headers[0], nal, false, |chunks| == 1, c, out);
    ReceiveUnfolds(rtps, out, out + c, out + Concat(chunks), true);
    assert rtps[1..] == Packets(headers[1..], ps[1..]);
    ConcatAssociates(out, c, Concat(chunks[1..]));
    if |chunks| > 1 {
      LaterFusArrive(nal, chunks[1..], headers[1..], out + c);
    } else {
      assert Concat(chunks[1..]) == [] && c + [] == c;
    }
  }

  /** Any sender's fragments of a base-layer unit, of any type and temporal sub-layer, cut
      anywhere, behind any accepted headers and after any stream: the unit is rebuilt byte for
      byte, header included, and its last fragment reports the length. */
  lemma AnyFusArrive(nal: seq<byte>, chunks: seq<seq<byte>>, headers: seq<Rtp.Header>, out: seq<byte>)
    requires |nal| >= 2 && BaseLayer(nal) && |chunks| >= 2 && |headers| == |chunks| && AllAccepted(headers)
    requires Concat(chunks) == nal[2..] && forall i :: 0 <= i < |chunks| ==> chunks[i] != []
    ensures Leaves(H265Unpack.ReceiveRun(Packets(headers, AnyFus(nal, chunks, true)), out), out + ([0, 0, 0, 1] + nal), true)
  {
    hide H265Unpack.Unpack, H265Unpack.ReceiveRun, Rtp.Encode, Rtp.Valid, Rtp.Accepted, Leaves, AnyFu, BaseLayer;
    var ps, c, rest := AnyFus(nal, chunks, true), chunks[0], Concat(chunks[1..]);
    var rtps := Packets(headers, ps);
    var first := START_CODE + [nal[0], nal[1]] + c;
    UnpackAnyFu(headers[0], nal, true, false, c, out);
    ReceiveUnfolds(rtps, out, out + first, out + ([0, 0, 0, 1] + nal), true);
    assert ps[1..] == AnyFus(nal, chunks[1..], false);
    assert rtps[1..] == Packets(headers[1..], ps[1..]);
    LaterFusArrive(nal, chunks[1..], headers[1..], out + first);
    HeaderAndData(nal, c, rest, out);
  }

  lemma HeaderAndData(nal: seq<byte>, c: seq<byte>, rest: seq<byte>, out: seq<byte>)
    requires |nal| >= 2 && nal[2..] == c + rest
    ensures (out + (START_CODE + [nal[0], nal[1]] + c)) + rest == out + ([0, 0, 0, 1] + nal)
  {
    assert nal == [nal[0], nal[1]] + (c + rest);
  }

  // ----- every packet -----

  /** What a call returns, by the fields of the payload header: layer and temporal identifiers
      first, then the type, then the FU header. Without an error a single unit is behind a
      start code; on an error nothing is added. */
  lemma CallInNumbers(h: Rtp.Header, p: seq<byte>, out: seq<byte>)
    requires Rtp.Valid(h)
    ensures var r := H265Unpack.Unpack(Rtp.Encode(h) + p, out);
            if !Rtp.Accepted(h) || |p| < 3 then r == H265Unpack.Result(-1, out, |out|)
            else
              var t, tid := (p[0] >> 1) & 0x3f, p[1] & 0x07;
              if p[0] & 0x01 != 0 || p[1] & 0xf8 != 0 then r == H265Unpack.Result(-2, out, |out|)
              else if tid == 0 then r == H265Unpack.Result(-1, out, |out|)
              else if t > 50 then r == H265Unpack.Result(-3, out, |out|)
              else if t == 48 || t == 50 then r == H265Unpack.Result(-2, out, |out|)
              else if t == 49 then
                && (|p| == 3 ==> r == H265Unpack.Result(-4, out, |out|))
                && (|p| > 3 && p[2] & 0xc0 == 0xc0 ==> r == H265Unpack.Result(-1, out, |out|))
                && (|p| > 3 && p[2] & 0xc0 != 0xc0 ==> r.res >= 0 && |r.data| > |out|)
              else r == H265Unpack.Result(0, out + ([0, 0, 0, 1] + p), |out| + 4 + |p|)
  {
    hide Rtp.Encode, Rtp.HeaderLength;
    var rtp := Rtp.Encode(h) + p;
    Rtp.HeaderLengthExactly(h, p);
    if Rtp.Accepted(h) {
      assert rtp[|Rtp.Encode(h)|..] == p;
      if |p| >= 3 {
        LayerBits(p[0], p[1], p[2]);
      }
    }
  }

  lemma LayerBits(b0: byte, b1: byte, b2: byte)
    ensures ((b0 << 5) & 0x20) | ((b1 >> 3) & 0x1f) == 0 <==> b0 & 0x01 == 0 && b1 & 0xf8 == 0
    ensures b2 & 0xc0 == 0xc0 <==> b2 & 0x80 != 0 && b2 & 0x40 != 0
  {
  }
}
