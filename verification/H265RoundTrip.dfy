/** What a run of the H.265 packetizer over one NAL unit emits, against the fragmentation units
    of section 4.4.3 of RFC 7798, and what the depacketizer makes of it. */
module H265RoundTrip {
  import opened Bytes
  import opened H265Payload
  import H265Unpack
  import Rtp

  // ----- what the calls see -----

  /** Memory with one unit in it and whatever lies behind. */
  function Memory(four: bool, nal: seq<byte>, slack: seq<byte>): (m: seq<byte>)
    ensures |m| == |Prefix(four)| + |nal| + |slack|
  {
    Prefix(four) + nal + slack
  }

  function Size(four: bool, nal: seq<byte>): nat {
    |Prefix(four)| + |nal|
  }

  /** The unit holds no start code, not even together with the three bytes behind it that the
      four-byte look can see. Zeros behind a clean unit never spoil it. */
  ghost predicate Clean(nal: seq<byte>, slack: seq<byte>) {
    |slack| >= SLACK && |nal| >= 2 && NoStartCode(nal + slack[..3])
  }

  lemma ZeroSlackIsClean(nal: seq<byte>, n: nat)
    requires n >= SLACK && |nal| >= 2 && NoStartCode(nal)
    ensures Clean(nal, Zeros(n))
  {
    var s := nal + Zeros(n)[..3];
    forall i | 0 <= i <= |s| - 3
      ensures !IsStartCode(s, i)
    {
      if i + 3 <= |nal| {
        assert !IsStartCode(nal, i);
      }
    }
  }

  lemma MemorySlice(four: bool, nal: seq<byte>, slack: seq<byte>, a: nat, b: nat)
    requires |Prefix(four)| <= a <= b <= Size(four, nal)
    ensures Memory(four, nal, slack)[a..b] == nal[a - |Prefix(four)|..b - |Prefix(four)|]
  {
  }

  lemma SliceBehind(p: seq<byte>, m: seq<byte>, t: seq<byte>, n: nat)
    requires n <= |t|
    ensures ((p + m) + t)[|p|..|p| + |m| + n] == m + t[..n]
  {
  }

  lemma CleanMemory(four: bool, nal: seq<byte>, slack: seq<byte>)
    requires Clean(nal, slack)
    ensures var mem, h := Memory(four, nal, slack), |Prefix(four)|;
            NoStartCodeIn(mem, h, Size(four, nal) + 3) && |mem| >= Size(four, nal) + SLACK && |nal| >= 2
  {
    var mem, h := Memory(four, nal, slack), |Prefix(four)|;
    SliceBehind(Prefix(four), nal, slack, 3);
    NoStartCodeSlice(mem, h, Size(four, nal) + 3);
  }

  lemma FirstLook(four: bool, nal: seq<byte>, slack: seq<byte>)
    requires |nal| >= 2
    ensures var mem := Memory(four, nal, slack);
            HeaderLen(mem) == |Prefix(four)| && FindNalUnit(mem, 0, LOOK) == Some(0)
            && mem[|Prefix(four)|] == nal[0]
  {
  }

  // ----- the run -----

  /** A unit too short for fragmentation travels as it is, and so does a parameter set. */
  predicate Fragmented(nal: seq<byte>)
    requires |nal| >= 1
  {
    |nal| >= PAYLOAD_SIZE && !IsParameterSet(NalType(nal[0]))
  }

  /** Record after a call inside a fragmented unit. */
  predicate Under(msg: Msg, four: bool, nal: seq<byte>)
    requires |nal| >= 1
  {
    msg.fuPacket && msg.headerLen == |Prefix(four)| && msg.nalType == NalType(nal[0])
  }

  /** The fragments from buffer position pos on: 970 bytes each, E on one that is shorter. */
  function FusFrom(four: bool, nal: seq<byte>, pos: nat): (fs: seq<seq<byte>>)
    requires |nal| >= 1 && |Prefix(four)| <= pos <= Size(four, nal)
    decreases Size(four, nal) - pos
  {
    var h := |Prefix(four)|;
    var left := Size(four, nal) - pos;
    if left == 0 then []
    else [FuHeaders(NalType(nal[0]), false, left < PAYLOAD_SIZE) + nal[pos - h..pos - h + Min(left, PAYLOAD_SIZE)]]
         + FusFrom(four, nal, pos + Min(left, PAYLOAD_SIZE))
  }

  function Fus(four: bool, nal: seq<byte>): seq<seq<byte>>
    requires |nal| >= PAYLOAD_SIZE
  {
    [FuHeaders(NalType(nal[0]), true, false) + nal[2..PAYLOAD_SIZE - |Prefix(four)|]] + FusFrom(four, nal, PAYLOAD_SIZE)
  }

  lemma NoStartCodeInside(mem: seq<byte>, a: nat, b: nat, from: nat, to: nat)
    requires NoStartCodeIn(mem, a, b) && a <= from && to <= b && to <= |mem|
    ensures FindNalUnit(mem, from, to) == None
  {
  }

  /** A call that sees no start code at all, in any memory. */
  lemma StepInside(msg: Msg, mem: seq<byte>, bufLen: nat, pos: nat)
    requires 0 < pos < bufLen && LOOK <= bufLen && bufLen + SLACK <= |mem| && msg.headerLen <= 4
    requires FindNalUnit(mem, pos, pos + LOOK).None? && FindNalUnit(mem, pos, pos + Min(bufLen - pos, WITHIN)).None?
    ensures LookSafe(mem, bufLen, pos)
    ensures var left := bufLen - pos;
            var to := pos + Min(left, PAYLOAD_SIZE);
            var m := msg.(pos := pos, start := false, startCode := false, len := Min(left, PAYLOAD_SIZE), end := left < PAYLOAD_SIZE);
            PacketizeStep(msg, mem, bufLen, pos)
            == Emitted(m, to, if IsParameterSet(msg.nalType) || !msg.fuPacket then mem[pos..to]
                              else FuHeaders(msg.nalType, false, left < PAYLOAD_SIZE) + mem[pos..to])
  {
    hide FindNalUnit, FuHeaders;
  }

  lemma InnerStep(four: bool, nal: seq<byte>, slack: seq<byte>, msg: Msg, pos: nat)
    requires Clean(nal, slack) && |nal| >= 1 && Under(msg, four, nal) && !IsParameterSet(msg.nalType)
    requires PAYLOAD_SIZE <= pos < Size(four, nal)
    ensures LookSafe(Memory(four, nal, slack), Size(four, nal), pos)
    ensures var step := PacketizeStep(msg, Memory(four, nal, slack), Size(four, nal), pos);
            var h, left := |Prefix(four)|, Size(four, nal) - pos;
            var to := pos + Min(left, PAYLOAD_SIZE);
            && step.Emitted? && Under(step.msg, four, nal) && step.pos == to
            && step.payload == FuHeaders(NalType(nal[0]), false, left < PAYLOAD_SIZE) + nal[pos - h..to - h]
  {
    hide FindNalUnit, FuHeaders, NoStartCodeIn, NalType, Memory, Clean, PacketizeStep, LookSafe, IsParameterSet, Min;
    var mem, h, size := Memory(four, nal, slack), |Prefix(four)|, Size(four, nal);
    CleanMemory(four, nal, slack);
    var left := size - pos;
    var to := pos + Min(left, PAYLOAD_SIZE);
    assert LookSafe(mem, size, pos) && PacketizeStep(msg, mem, size, pos).Emitted? by {
      NoStartCodeInside(mem, h, size + 3, pos, pos + LOOK);
      NoStartCodeInside(mem, h, size + 3, pos, pos + Min(left, WITHIN));
      StepInside(msg, mem, size, pos);
    }
    var step := PacketizeStep(msg, mem, size, pos);
    assert step.pos == to && Under(step.msg, four, nal)
        && step.payload == FuHeaders(msg.nalType, false, left < PAYLOAD_SIZE) + mem[pos..to] by {
      NoStartCodeInside(mem, h, size + 3, pos, pos + LOOK);
      NoStartCodeInside(mem, h, size + 3, pos, pos + Min(left, WITHIN));
      StepInside(msg, mem, size, pos);
    }
    MemorySlice(four, nal, slack, pos, to);
  }

  lemma {:induction false} InnerRun(four: bool, nal: seq<byte>, slack: seq<byte>, msg: Msg, pos: nat)
    requires Clean(nal, slack) && Fragmented(nal) && Under(msg, four, nal)
    requires PAYLOAD_SIZE <= pos <= Size(four, nal)
    ensures PacketizeRun(msg, Memory(four, nal, slack), Size(four, nal), pos) == Some(FusFrom(four, nal, pos))
    decreases Size(four, nal) - pos
  {
    hide PacketizeStep, LookSafe, FuHeaders, Clean;
    if pos < Size(four, nal) {
      InnerStep(four, nal, slack, msg, pos);
      var step := PacketizeStep(msg, Memory(four, nal, slack), Size(four, nal), pos);
      InnerRun(four, nal, slack, step.msg, step.pos);
    }
  }

  lemma FirstStep(four: bool, nal: seq<byte>, slack: seq<byte>, msg: Msg)
    requires Clean(nal, slack) && Fragmented(nal) && msg.headerLen <= 4
    ensures LookSafe(Memory(four, nal, slack), Size(four, nal), 0)
    ensures var step := PacketizeStep(msg, Memory(four, nal, slack), Size(four, nal), 0);
            && step.Emitted? && Under(step.msg, four, nal) && step.pos == PAYLOAD_SIZE
            && step.payload == FuHeaders(NalType(nal[0]), true, false) + nal[2..PAYLOAD_SIZE - |Prefix(four)|]
  {
    hide FindNalUnit, FuHeaders, NoStartCodeIn, NalType, HeaderLen;
    var mem, h, size := Memory(four, nal, slack), |Prefix(four)|, Size(four, nal);
    CleanMemory(four, nal, slack);
    FirstLook(four, nal, slack);
    NoStartCodeInside(mem, h, size + 3, h, size);
    NoStartCodeInside(mem, h, size + 3, h, Min(size, WITHIN));
    MemorySlice(four, nal, slack, h + 2, PAYLOAD_SIZE);
  }

  /** Fragmented units: every call emits the fragment at its place, and the run ends. */
  lemma RunEmitsFus(four: bool, nal: seq<byte>, slack: seq<byte>, msg: Msg)
    requires Clean(nal, slack) && Fragmented(nal) && msg.headerLen <= 4
    ensures PacketizeRun(msg, Memory(four, nal, slack), Size(four, nal), 0) == Some(Fus(four, nal))
  {
    hide PacketizeStep, LookSafe, FuHeaders, Clean, NalType;
    FirstStep(four, nal, slack, msg);
    var step := PacketizeStep(msg, Memory(four, nal, slack), Size(four, nal), 0);
    InnerRun(four, nal, slack, step.msg, PAYLOAD_SIZE);
  }

  lemma WholeFirstStep(four: bool, nal: seq<byte>, slack: seq<byte>, msg: Msg)
    requires Clean(nal, slack) && !Fragmented(nal) && msg.headerLen <= 4
    ensures LookSafe(Memory(four, nal, slack), Size(four, nal), 0)
    ensures var step := PacketizeStep(msg, Memory(four, nal, slack), Size(four, nal), 0);
            var to := Min(Size(four, nal), PAYLOAD_SIZE);
            && step.Emitted? && step.pos == to && step.payload == nal[..to - |Prefix(four)|]
            && step.msg.headerLen <= 4 && !step.msg.fuPacket
  {
    hide FindNalUnit, NoStartCodeIn, NalType, HeaderLen, Clean, Memory, FuHeaders;
    var mem, h, size := Memory(four, nal, slack), |Prefix(four)|, Size(four, nal);
    CleanMemory(four, nal, slack);
    FirstLook(four, nal, slack);
    NoStartCodeInside(mem, h, size + 3, h, size);
    NoStartCodeInside(mem, h, size + 3, h, Min(size, WITHIN));
    MemorySlice(four, nal, slack, h, Min(size, PAYLOAD_SIZE));
  }

  /** A unit that is not fragmented, cut into pieces of 970 bytes without any header. */
  function PiecesFrom(four: bool, nal: seq<byte>, pos: nat): (ps: seq<seq<byte>>)
    requires |Prefix(four)| <= pos <= Size(four, nal)
    decreases Size(four, nal) - pos
  {
    var h := |Prefix(four)|;
    var left := Size(four, nal) - pos;
    if left == 0 then []
    else [nal[pos - h..pos - h + Min(left, PAYLOAD_SIZE)]] + PiecesFrom(four, nal, pos + Min(left, PAYLOAD_SIZE))
  }

  /** The first piece and the start code left out before it make up 970 bytes. */
  function Pieces(four: bool, nal: seq<byte>): (ps: seq<seq<byte>>)
    ensures |ps| >= 1
  {
    var to := Min(Size(four, nal), PAYLOAD_SIZE);
    [nal[..to - |Prefix(four)|]] + PiecesFrom(four, nal, to)
  }

  lemma {:induction false} InnerPieces(four: bool, nal: seq<byte>, slack: seq<byte>, msg: Msg, pos: nat)
    requires Clean(nal, slack) && msg.headerLen <= 4 && !msg.fuPacket
    requires PAYLOAD_SIZE <= pos <= Size(four, nal)
    ensures PacketizeRun(msg, Memory(four, nal, slack), Size(four, nal), pos) == Some(PiecesFrom(four, nal, pos))
    decreases Size(four, nal) - pos
  {
    hide FindNalUnit, NoStartCodeIn, Clean, Memory, FuHeaders, PacketizeStep, LookSafe, NalType;
    var mem, h, size := Memory(four, nal, slack), |Prefix(four)|, Size(four, nal);
    if pos < size {
      var left := size - pos;
      CleanMemory(four, nal, slack);
      NoStartCodeInside(mem, h, size + 3, pos, pos + LOOK);
      NoStartCodeInside(mem, h, size + 3, pos, pos + Min(left, WITHIN));
      StepInside(msg, mem, size, pos);
      MemorySlice(four, nal, slack, pos, pos + Min(left, PAYLOAD_SIZE));
      var step := PacketizeStep(msg, mem, size, pos);
      InnerPieces(four, nal, slack, step.msg, step.pos);
      RunPrepends(msg, mem, size, pos, PiecesFrom(four, nal, step.pos));
    }
  }

  /** Units sent as they are: one call hands out a unit that fits together with its start code
      in 970 bytes; the others, among them every longer parameter set, are cut. */
  lemma RunEmitsPieces(four: bool, nal: seq<byte>, slack: seq<byte>, msg: Msg)
    requires Clean(nal, slack) && !Fragmented(nal) && msg.headerLen <= 4
    ensures PacketizeRun(msg, Memory(four, nal, slack), Size(four, nal), 0) == Some(Pieces(four, nal))
  {
    hide NalType, Memory, PacketizeStep, LookSafe, IsParameterSet;
    var mem, size := Memory(four, nal, slack), Size(four, nal);
    WholeFirstStep(four, nal, slack, msg);
    var step := PacketizeStep(msg, mem, size, 0);
    if size > PAYLOAD_SIZE {
      InnerPieces(four, nal, slack, step.msg, PAYLOAD_SIZE);
    }
    RunPrepends(msg, mem, size, 0, PiecesFrom(four, nal, step.pos));
  }

  // ----- the receiving side -----

  /** RTP packets: a header in front of every payload. */
  function Packets(headers: seq<Rtp.Header>, payloads: seq<seq<byte>>): (rtps: seq<seq<byte>>)
    requires |headers| == |payloads| && AllAccepted(headers)
    ensures |rtps| == |payloads| && forall i :: 0 <= i < |rtps| ==> |rtps[i]| >= 1
  {
    if headers == [] then []
    else [Rtp.Encode(headers[0]) + payloads[0]] + Packets(headers[1..], payloads[1..])
  }

  predicate AllAccepted(headers: seq<Rtp.Header>) {
    forall i :: 0 <= i < |headers| ==> Rtp.Valid(headers[i]) && Rtp.Accepted(headers[i])
  }

  lemma HeaderIsSkipped(h: Rtp.Header, p: seq<byte>, out: seq<byte>)
    requires Rtp.Valid(h) && Rtp.Accepted(h)
    ensures H265Unpack.Unpack(Rtp.Encode(h) + p, out)
         == if |p| < 3 then H265Unpack.Result(H265Unpack.INVALID_DATA, out, |out|) else H265Unpack.PayloadUnpack(p, out)
  {
    hide Rtp.HeaderLength, H265Unpack.PayloadUnpack;
    Rtp.HeaderLengthExactly(h, p);
    assert (Rtp.Encode(h) + p)[|Rtp.Encode(h)|..] == p;
  }

  /** What the depacketizer reads in the three header bytes the packetizer wrote. */
  lemma FuHeadersRead(b: byte, start: bool, end: bool, data: seq<byte>)
    ensures var p := FuHeaders(NalType(b), start, end) + data;
            && H265Unpack.NalType(p) == 49 && H265Unpack.LayerId(p) == 0 && H265Unpack.TemporalId(p) == 1
            && (p[2] & 0x80 != 0 <==> start) && (p[2] & 0x40 != 0 <==> end) && p[2] & 0x3f == NalType(b)
            && p[3..] == data && |p| == |data| + 3
            && (p[0] & 0x81) | (NalType(b) << 1) == b & 0x7e && p[1] == 1
  {
  }

  lemma UnpackFu(h: Rtp.Header, b: byte, start: bool, end: bool, data: seq<byte>, out: seq<byte>)
    requires Rtp.Valid(h) && Rtp.Accepted(h) && data != [] && !(start && end)
    ensures H265Unpack.Unpack(Rtp.Encode(h) + (FuHeaders(NalType(b), start, end) + data), out)
         == var d := out + (if start then START_CODE + [b & 0x7e, 1] + data else data);
            H265Unpack.Result(if end then |d| else 0, d, if end then 0 else |d|)
  {
    hide H265Unpack.NalType, H265Unpack.LayerId, H265Unpack.TemporalId, FuHeaders, NalType, Rtp.Encode, H265Unpack.Unpack;
    var p := FuHeaders(NalType(b), start, end) + data;
    FuHeadersRead(b, start, end, data);
    HeaderIsSkipped(h, p, out);
  }

  /** Every value but the last is 0. */
  predicate QuietBeforeLast(results: seq<int>) {
    results != [] && forall i :: 0 <= i < |results| - 1 ==> results[i] == 0
  }

  /** The last fragment is shorter than the others, which is what sets E on it. */
  predicate LastIsShort(size: nat) {
    size % PAYLOAD_SIZE != 0
  }

  lemma LastIsShortFrom(left: nat)
    requires left > 0
    ensures left <= PAYLOAD_SIZE ==> (LastIsShort(left) <==> left < PAYLOAD_SIZE)
    ensures left > PAYLOAD_SIZE ==> (LastIsShort(left) <==> LastIsShort(left - PAYLOAD_SIZE))
  {
  }

  /** A run that leaves this data: quiet until its last call, which, if the unit was finished,
      reports the length and resets the offset. */
  predicate Leaves(r: H265Unpack.Received, data: seq<byte>, done: bool) {
    && QuietBeforeLast(r.results)
    && r.data == data
    && r.results[|r.results| - 1] == (if done then |data| else 0)
    && r.pos == (if done then 0 else |data|)
  }

  /** What one call returns when it leaves this data. */
  function CallResult(data: seq<byte>, done: bool): H265Unpack.Result {
    H265Unpack.Result(if done then |data| else 0, data, if done then 0 else |data|)
  }

  lemma ReceiveUnfolds(rtps: seq<seq<byte>>, out: seq<byte>, mid: seq<byte>, data: seq<byte>, done: bool)
    requires rtps != [] && forall i :: 0 <= i < |rtps| ==> |rtps[i]| >= 1
    ensures |rtps| == 1 && H265Unpack.Unpack(rtps[0], out) == CallResult(data, done)
            ==> Leaves(H265Unpack.ReceiveRun(rtps, out), data, done)
    ensures |rtps| > 1 && H265Unpack.Unpack(rtps[0], out) == CallResult(mid, false)
            && Leaves(H265Unpack.ReceiveRun(rtps[1..], mid), data, done)
            ==> Leaves(H265Unpack.ReceiveRun(rtps, out), data, done)
  {
    hide H265Unpack.Unpack;
    assert mid[..|mid|] == mid;
  }

  /** Fragments from position pos on, behind any headers: their data is appended, and only a
      last fragment shorter than 970 bytes reports the finished length and resets the offset. */
  lemma {:induction false} ReceiveFus(four: bool, nal: seq<byte>, pos: nat, headers: seq<Rtp.Header>, out: seq<byte>)
    requires |nal| >= 1 && |Prefix(four)| <= pos < Size(four, nal)
    requires |headers| == |FusFrom(four, nal, pos)| && AllAccepted(headers)
    ensures var r := H265Unpack.ReceiveRun(Packets(headers, FusFrom(four, nal, pos)), out);
            Leaves(r, out + nal[pos - |Prefix(four)|..], LastIsShort(Size(four, nal) - pos))
    decreases Size(four, nal) - pos
  {
    hide H265Unpack.Unpack, H265Unpack.ReceiveRun, FuHeaders, Rtp.Encode, Rtp.Valid, Rtp.Accepted, NalType, Leaves, LastIsShort;
    var h, left := |Prefix(four)|, Size(four, nal) - pos;
    var n := Min(left, PAYLOAD_SIZE);
    LastIsShortFrom(left);
    var chunk := nal[pos - h..pos - h + n];
    var rest := FusFrom(four, nal, pos + n);
    var rtps := Packets(headers, FusFrom(four, nal, pos));
    UnpackFu(headers[0], nal[0], false, left < PAYLOAD_SIZE, chunk, out);
    assert rtps[1..] == Packets(headers[1..], rest);
    ReceiveUnfolds(rtps, out, out + chunk, out + nal[pos - h..], LastIsShort(left));
    if n < left {
      ReceiveFus(four, nal, pos + n, headers[1..], out + chunk);
      assert nal[pos - h..] == chunk + nal[pos + n - h..];
      ConcatAssociates(out, chunk, nal[pos + n - h..]);
    } else {
      assert rest == [];
      assert nal[pos - h..] == chunk;
    }
  }

  /** The two header bytes that fragments can carry: F = 0, LayerId = 0, TID = 1. */
  predicate PlainHeader(nal: seq<byte>) {
    |nal| >= 2 && nal[0] & 0x81 == 0 && nal[1] == 1
  }

  lemma PlainHeaderExactly(nal: seq<byte>)
    requires |nal| >= 2
    ensures [nal[0] & 0x7e, 1] + nal[2..] == nal <==> PlainHeader(nal)
  {
  }

  /** A whole run received: quiet until the last packet, which reports the length of the
      finished stream, resets the offset and has the unit behind what was there before. */
  predicate Delivered(r: H265Unpack.Received, before: seq<byte>, nal: seq<byte>) {
    Leaves(r, before + (START_CODE + nal), true)
  }

  lemma ReceiveFragmented(four: bool, nal: seq<byte>, headers: seq<Rtp.Header>, out: seq<byte>)
    requires |nal| >= PAYLOAD_SIZE && |headers| == |Fus(four, nal)| && AllAccepted(headers)
    ensures var r := H265Unpack.ReceiveRun(Packets(headers, Fus(four, nal)), out);
            Leaves(r, out + (START_CODE + ([nal[0] & 0x7e, 1] + nal[2..])), LastIsShort(Size(four, nal)))
  {
    hide H265Unpack.Unpack, H265Unpack.ReceiveRun, FuHeaders, Rtp.Encode, Rtp.Valid, Rtp.Accepted, NalType, Leaves, LastIsShort;
    var first := nal[2..PAYLOAD_SIZE - |Prefix(four)|];
    var rest := FusFrom(four, nal, PAYLOAD_SIZE);
    var rtps := Packets(headers, Fus(four, nal));
    UnpackFu(headers[0], nal[0], true, false, first, out);
    assert Fus(four, nal)[1..] == rest;
    assert rtps[1..] == Packets(headers[1..], rest);
    var out1 := out + (START_CODE + [nal[0] & 0x7e, 1] + first);
    ReceiveUnfolds(rtps, out, out1, out + (START_CODE + ([nal[0] & 0x7e, 1] + nal[2..])), LastIsShort(Size(four, nal)));
    LastIsShortFrom(Size(four, nal));
    ReceiveFus(four, nal, PAYLOAD_SIZE, headers[1..], out1);
    FirstAndRest(out, [nal[0] & 0x7e, 1], nal, PAYLOAD_SIZE - |Prefix(four)|);
  }

  lemma FirstAndRest(out: seq<byte>, head: seq<byte>, nal: seq<byte>, k: nat)
    requires 2 <= k <= |nal|
    ensures out + (START_CODE + head + nal[2..k]) + nal[k..] == out + (START_CODE + (head + nal[2..]))
  {
  }

  /** H.265 round trip, both directions: a fragmented unit, sent behind any RTP headers the
      receiver accepts and appended to any stream, is delivered if and only if its header is
      plain and its size with the start code is not a multiple of 970. */
  lemma FragmentedRoundTripExactly(four: bool, nal: seq<byte>, slack: seq<byte>, msg: Msg,
                                   headers: seq<Rtp.Header>, out: seq<byte>)
    requires Clean(nal, slack) && Fragmented(nal) && msg.headerLen <= 4
    requires |headers| == |Fus(four, nal)| && AllAccepted(headers)
    ensures PacketizeRun(msg, Memory(four, nal, slack), Size(four, nal), 0) == Some(Fus(four, nal))
    ensures Delivered(H265Unpack.ReceiveRun(Packets(headers, Fus(four, nal)), out), out, nal)
            <==> PlainHeader(nal) && LastIsShort(Size(four, nal))
  {
    hide PacketizeRun, Fus, Packets, H265Unpack.ReceiveRun, Clean;
    RunEmitsFus(four, nal, slack, msg);
    ReceiveFragmented(four, nal, headers, out);
    PlainHeaderExactly(nal);
    SameBehind(out, [nal[0] & 0x7e, 1] + nal[2..], nal);
  }

  lemma SameBehind(out: seq<byte>, a: seq<byte>, b: seq<byte>)
    ensures out + (START_CODE + a) == out + (START_CODE + b) <==> a == b
  {
    assert (out + (START_CODE + a))[|out| + 4..] == a && (out + (START_CODE + b))[|out| + 4..] == b;
  }

  // ----- units sent whole -----

  /** What the receiver accepts as a single NAL unit packet. */
  predicate SingleAccepted(nal: seq<byte>) {
    |nal| >= 3 && H265Unpack.LayerId(nal) == 0 && H265Unpack.TemporalId(nal) != 0 && H265Unpack.NalType(nal) < 48
  }

  lemma ReceiveWhole(nal: seq<byte>, h: Rtp.Header, out: seq<byte>)
    requires Rtp.Valid(h) && Rtp.Accepted(h)
    ensures var r := H265Unpack.Unpack(Rtp.Encode(h) + nal, out);
            && (r.data == out + (START_CODE + nal) <==> SingleAccepted(nal))
            && (SingleAccepted(nal) ==> r.res == 0 && r.pos == |r.data|)
            && |r.data| <= |out| + 4 + |nal|
  {
    HeaderIsSkipped(h, nal, out);
  }

  ghost predicate StartCodeAt(s: seq<byte>, p: nat) {
    p + 4 <= |s| && s[p..p + 4] == START_CODE
  }

  /** What cannot be a stream that has gained a whole unit of more than m bytes: it is too
      short for that, or a start code stands at most m bytes before its end. */
  ghost predicate Lags(data: seq<byte>, m: nat, floor: nat) {
    |data| <= floor + m || exists p: nat :: StartCodeAt(data, p) && |data| - p - 4 <= m
  }

  lemma LagsAfterAppend(data: seq<byte>, x: seq<byte>, m: nat, floor: nat)
    requires Lags(data, m, floor)
    ensures Lags(data + x, m + |x|, floor)
  {
    if p: nat :| StartCodeAt(data, p) && |data| - p - 4 <= m {
      assert (data + x)[p..p + 4] == data[p..p + 4];
      assert StartCodeAt(data + x, p);
    }
  }

  lemma LagsAfterStartCode(data: seq<byte>, x: seq<byte>, m: nat, floor: nat)
    requires |x| <= m
    ensures Lags(data + (START_CODE + x), m, floor)
  {
    var s := data + (START_CODE + x);
    assert s[|data|..|data| + 4] == START_CODE;
    assert StartCodeAt(s, |data|);
  }

  lemma LaggingIsNotWhole(data: seq<byte>, out: seq<byte>, nal: seq<byte>, m: nat)
    requires NoStartCode(nal) && m < |nal| && Lags(data, m, |out|)
    ensures data != out + (START_CODE + nal)
  {
    var s := out + (START_CODE + nal);
    if data == s {
      var p: nat :| StartCodeAt(s, p) && |s| - p - 4 <= m;
      assert s[p..p + 4][0] == s[p] && s[p..p + 4][1] == s[p + 1] && s[p..p + 4][2] == s[p + 2] && s[p..p + 4][3] == s[p + 3];
      var i := p - |out| - 3;
      assert s[|out| + 3] == 1;
      assert i >= 0 && IsStartCode(nal, i);
      assert false;
    }
  }

  /** No call puts more behind the last start code than its payload has; and behind what was
      there before it never puts the whole payload. */
  lemma CallLags(h: Rtp.Header, piece: seq<byte>, out: seq<byte>, m: nat, floor: nat, n: nat)
    requires Rtp.Valid(h) && Rtp.Accepted(h) && piece != [] && Lags(out, m, floor)
    requires n >= |piece| && n >= m + |piece| - 1
    ensures var r := H265Unpack.Unpack(Rtp.Encode(h) + piece, out);
            Lags(r.data, n, floor) && Lags(r.data[..r.pos], n, floor)
  {
    hide Lags, Rtp.Encode, Rtp.Valid, Rtp.Accepted;
    var r := H265Unpack.Unpack(Rtp.Encode(h) + piece, out);
    HeaderIsSkipped(h, piece, out);
    LagsMonotone(out, m, n, floor);
    LagsAfterStartCode(out, piece, n, floor);
    if |piece| >= 3 {
      var b := [(piece[0] & 0x81) | ((piece[2] & 0x3f) << 1), piece[1]];
      LagsAfterStartCode(out, b + piece[3..], n, floor);
      assert START_CODE + (b + piece[3..]) == START_CODE + b + piece[3..];
      LagsAfterAppend(out, piece[3..], m, floor);
      LagsMonotone(out + piece[3..], m + |piece[3..]|, n, floor);
    }
    LagsEmpty(n, floor);
    assert r.data[..|r.data|] == r.data;
  }

  lemma LagsMonotone(data: seq<byte>, m: nat, n: nat, floor: nat)
    requires Lags(data, m, floor) && m <= n
    ensures Lags(data, n, floor)
  {
  }

  lemma LagsAtFirst(out: seq<byte>)
    ensures Lags(out, 0, |out|)
  {
  }

  lemma LagsEmpty(m: nat, floor: nat)
    ensures Lags([], m, floor)
  {
  }

  lemma {:induction false} PiecesLag(four: bool, nal: seq<byte>, pos: nat, headers: seq<Rtp.Header>, out: seq<byte>,
                                     m: nat, floor: nat)
    requires |Prefix(four)| <= pos < Size(four, nal) && m >= 1 && Lags(out, m, floor)
    requires |headers| == |PiecesFrom(four, nal, pos)| && AllAccepted(headers)
    ensures Lags(H265Unpack.ReceiveRun(Packets(headers, PiecesFrom(four, nal, pos)), out).data,
                 m + Size(four, nal) - pos - 1, floor)
    decreases Size(four, nal) - pos
  {
    hide Lags, Rtp.Encode, Rtp.Valid, Rtp.Accepted, H265Unpack.Unpack;
    var h, left := |Prefix(four)|, Size(four, nal) - pos;
    var n := Min(left, PAYLOAD_SIZE);
    var piece := nal[pos - h..pos - h + n];
    var rtps := Packets(headers, PiecesFrom(four, nal, pos));
    CallLags(headers[0], piece, out, m, floor, m + n - 1);
    if n < left {
      var r := H265Unpack.Unpack(rtps[0], out);
      assert rtps[1..] == Packets(headers[1..], PiecesFrom(four, nal, pos + n));
      PiecesLag(four, nal, pos + n, headers[1..], r.data[..r.pos], m + n - 1, floor);
      LagsMonotone(H265Unpack.ReceiveRun(rtps, out).data, m + n - 1 + left - n - 1, m + left - 1, floor);
    }
  }

  /** A unit that is sent without fragmentation arrives if and only if it fits, with its start
      code, in one payload of 970 bytes and looks like a single NAL unit packet; and then the
      call returns 0 and leaves the offset behind the unit. */
  lemma WholeRoundTripExactly(four: bool, nal: seq<byte>, slack: seq<byte>, msg: Msg,
                              headers: seq<Rtp.Header>, out: seq<byte>)
    requires Clean(nal, slack) && !Fragmented(nal) && msg.headerLen <= 4
    requires AllAccepted(headers) && |headers| == |Pieces(four, nal)|
    ensures PacketizeRun(msg, Memory(four, nal, slack), Size(four, nal), 0) == Some(Pieces(four, nal))
    ensures var r, data := H265Unpack.ReceiveRun(Packets(headers, Pieces(four, nal)), out), out + (START_CODE + nal);
            && (r.data == data <==> Size(four, nal) <= PAYLOAD_SIZE && SingleAccepted(nal))
            && (r.data == data <==> Leaves(r, data, false))
  {
    hide PacketizeRun, SingleAccepted, H265Unpack.ReceiveRun, Packets, IsParameterSet, NalType;
    RunEmitsPieces(four, nal, slack, msg);
    if Size(four, nal) <= PAYLOAD_SIZE {
      assert nal[..|nal|] == nal && Pieces(four, nal) == [nal] + [] == [nal];
      ReceiveOne(nal, headers, out);
    } else {
      CleanIsClean(nal, slack);
      ReceiveCut(four, nal, headers, out);
    }
  }

  lemma CleanIsClean(nal: seq<byte>, slack: seq<byte>)
    requires Clean(nal, slack)
    ensures NoStartCode(nal)
  {
    var s := nal + slack[..3];
    forall i | 0 <= i <= |nal| - 3
      ensures !IsStartCode(nal, i)
    {
      assert !IsStartCode(s, i);
    }
  }

  lemma ReceiveOne(nal: seq<byte>, headers: seq<Rtp.Header>, out: seq<byte>)
    requires |headers| == 1 && AllAccepted(headers)
    ensures var r := H265Unpack.ReceiveRun(Packets(headers, [nal]), out);
            && (r.data == out + (START_CODE + nal) <==> SingleAccepted(nal))
            && (SingleAccepted(nal) ==> Leaves(r, out + (START_CODE + nal), false))
  {
    hide H265Unpack.Unpack, SingleAccepted, Rtp.Encode;
    ReceiveWhole(nal, headers[0], out);
  }

  /** A unit cut in pieces never arrives, whatever the receiver takes the pieces for. */
  lemma ReceiveCut(four: bool, nal: seq<byte>, headers: seq<Rtp.Header>, out: seq<byte>)
    requires NoStartCode(nal) && Size(four, nal) > PAYLOAD_SIZE
    requires |headers| == |Pieces(four, nal)| && AllAccepted(headers)
    ensures H265Unpack.ReceiveRun(Packets(headers, Pieces(four, nal)), out).data != out + (START_CODE + nal)
  {
    hide H265Unpack.Unpack, Lags, Rtp.Encode, Rtp.Valid, Rtp.Accepted, NoStartCode;
    var k := PAYLOAD_SIZE - |Prefix(four)|;
    var rtps := Packets(headers, Pieces(four, nal));
    LagsAtFirst(out);
    CallLags(headers[0], nal[..k], out, 0, |out|, k);
    var r := H265Unpack.Unpack(rtps[0], out);
    assert Pieces(four, nal)[1..] == PiecesFrom(four, nal, PAYLOAD_SIZE);
    assert rtps[1..] == Packets(headers[1..], PiecesFrom(four, nal, PAYLOAD_SIZE));
    PiecesLag(four, nal, PAYLOAD_SIZE, headers[1..], r.data[..r.pos], k, |out|);
    LaggingIsNotWhole(H265Unpack.ReceiveRun(rtps, out).data, out, nal, |nal| - 1);
  }
}
