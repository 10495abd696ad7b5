/** Several NAL units in one H.265 packetizer buffer, all behind start codes of one length: what
    the run emits, unit by unit, when the looks of 4 and of 974 bytes may or may not show the
    next start code (packed/h264_packetizer.c, lines 697-920). */
module H265Buffer {
  import opened Bytes
  import opened H265Payload
  import opened H265RoundTrip
  import opened H265Wire
  import H265Unpack
  import Rtp

  // ----- the reference -----

  /** The look of 974 bytes shows the unit's end: left bytes before the end, and a start code
      of code bytes behind it; code is 0 behind the last unit. */
  predicate EndShown(left: nat, code: nat) {
    code > 0 && left + code <= 974
  }

  /** How many bytes of the buffer a call takes. */
  function Taken(left: nat, code: nat): (n: nat)
    ensures n <= left && (left > 0 ==> n > 0)
  {
    if EndShown(left, code) then left else Min(left, 970)
  }

  /** Payloads from offset off of the unit on. E goes on a fragment that ends where the next
      start code was shown, or that is short. */
  function RestPackets(nal: seq<byte>, off: nat, code: nat): (ps: seq<seq<byte>>)
    requires nal != []
    decreases |nal| - off
  {
    if off >= |nal| then []
    else
      var left := |nal| - off;
      var n := Taken(left, code);
      var data := nal[off..off + n];
      [if Fragmented(nal) then FuHeaders(NalType(nal[0]), false, EndShown(left, code) || left < 970) + data else data]
      + RestPackets(nal, off + n, code)
  }

  /** The first payload of a unit. */
  function FirstPacket(four: bool, nal: seq<byte>, code: nat): seq<byte>
    requires |nal| >= 2
  {
    var k := Taken(|Prefix(four)| + |nal|, code) - |Prefix(four)|;
    if Fragmented(nal) then FuHeaders(NalType(nal[0]), true, false) + nal[2..k] else nal[..k]
  }

  function UnitPackets(four: bool, nal: seq<byte>, code: nat): (ps: seq<seq<byte>>)
    requires |nal| >= 2
  {
    var h := |Prefix(four)|;
    var k := Taken(h + |nal|, code) - h;
    [FirstPacket(four, nal, code)] + RestPackets(nal, k, code)
  }

  function CodeBehind(four: bool, rest: seq<seq<byte>>): nat {
    if rest == [] then 0 else |Prefix(four)|
  }

  function BufferPackets(four: bool, nals: seq<seq<byte>>): (ps: seq<seq<byte>>)
    requires forall i :: 0 <= i < |nals| ==> |nals[i]| >= 2
  {
    if nals == [] then []
    else UnitPackets(four, nals[0], CodeBehind(four, nals[1..])) + BufferPackets(four, nals[1..])
  }

  function Stream(four: bool, nals: seq<seq<byte>>): seq<byte> {
    if nals == [] then [] else Prefix(four) + (nals[0] + Stream(four, nals[1..]))
  }

  // ----- what the calls see -----

  /** Part of a unit, told apart from what is behind it: the next unit's start code, or, behind
      the last one, three bytes beyond the bitstream that complete no start code. */
  ghost predicate Apart(four: bool, x: seq<byte>, rest: seq<seq<byte>>, slack: seq<byte>) {
    && |slack| >= SLACK
    && (if rest == [] then NoStartCode(x + slack[..3])
        else NoStartCode(x) && (four || x == [] || x[|x| - 1] != 0))
  }

  ghost predicate AllApart(four: bool, nals: seq<seq<byte>>, slack: seq<byte>) {
    forall i :: 0 <= i < |nals| ==> |nals[i]| >= 2 && Apart(four, nals[i], nals[i + 1..], slack)
  }

  lemma ApartUnfolds(four: bool, nals: seq<seq<byte>>, slack: seq<byte>)
    requires nals != [] && AllApart(four, nals, slack)
    ensures |nals[0]| >= 2 && Apart(four, nals[0], nals[1..], slack) && AllApart(four, nals[1..], slack)
  {
    hide Apart;
    var rest := nals[1..];
    forall i | 0 <= i < |rest|
      ensures |rest[i]| >= 2 && Apart(four, rest[i], rest[i + 1..], slack)
    {
      assert rest[i] == nals[i + 1] && rest[i + 1..] == nals[i + 1 + 1..];
    }
  }

  lemma ApartTail(four: bool, x: seq<byte>, k: nat, rest: seq<seq<byte>>, slack: seq<byte>)
    requires k <= |x| && Apart(four, x, rest, slack)
    ensures Apart(four, x[k..], rest, slack)
  {
    var y := if rest == [] then x + slack[..3] else x;
    NoStartCodeSlice(y, k, |y|);
    assert y[k..|y|] == if rest == [] then x[k..] + slack[..3] else x[k..];
  }

  /** A search behind which the next unit stands. */
  lemma SearchBefore(mem: seq<byte>, start: nat, x: seq<byte>, four: bool, tail: seq<byte>, end: nat)
    requires start <= |mem| && mem[start..] == x + (Prefix(four) + tail) && end <= |mem|
    requires NoStartCode(x) && (four || x == [] || x[|x| - 1] != 0)
    ensures FindNalUnit(mem, start, end)
         == if start + |x| + |Prefix(four)| <= end then Some(start + |x|) else None
  {
    hide NoStartCode, IsStartCode;
    NextCode(mem, start, x, four, tail);
    var p := start + |x| + if four then 1 else 0;
    if p + 3 <= end {
      FindNalUnitMeaning(mem, start, end, p);
    }
  }

  lemma SearchAtEnd(mem: seq<byte>, start: nat, x: seq<byte>, slack: seq<byte>, end: nat)
    requires start <= |mem| && |slack| >= 3 && mem[start..] == x + slack && end <= start + |x| + 3
    requires NoStartCode(x + slack[..3])
    ensures FindNalUnit(mem, start, end) == None
  {
    var n := start + |x| + 3;
    assert mem[start..n] == mem[start..][..|x| + 3] == x + slack[..3];
    NoStartCodeSlice(mem, start, n);
  }

  /** Both at once: from inside or before a unit, searches up to the bitstream's end, or up to
      three bytes beyond it behind the last unit. */
  lemma Search(four: bool, mem: seq<byte>, start: nat, x: seq<byte>, rest: seq<seq<byte>>, slack: seq<byte>, end: nat)
    requires start <= |mem| && mem[start..] == x + (Stream(four, rest) + slack) && Apart(four, x, rest, slack)
    requires end <= |mem| - |slack| + (if rest == [] then 3 else 0)
    ensures FindNalUnit(mem, start, end)
         == if rest != [] && start + |x| + |Prefix(four)| <= end then Some(start + |x|) else None
  {
    if rest == [] {
      assert [] + slack == slack;
      SearchAtEnd(mem, start, x, slack, end);
    } else {
      var tail := rest[0] + Stream(four, rest[1..]);
      ConcatAssociates(Prefix(four), tail, slack);
      SearchBefore(mem, start, x, four, tail + slack, end);
    }
  }

  // ----- one call -----

  /** The record inside a unit. */
  predicate Inside(msg: Msg, four: bool, nal: seq<byte>)
    requires nal != []
  {
    && msg.headerLen == |Prefix(four)| && msg.nalType == NalType(nal[0])
    && (Fragmented(nal) <==> !IsParameterSet(msg.nalType) && msg.fuPacket)
  }

  /** Bytes from offset off of the unit on, the later units and the slack. */
  ghost predicate AtByte(four: bool, mem: seq<byte>, pos: nat, nal: seq<byte>, off: nat, rest: seq<seq<byte>>, slack: seq<byte>)
  {
    off <= |nal| && pos <= |mem| && mem[pos..] == nal[off..] + (Stream(four, rest) + slack)
  }

  lemma BytesAhead(four: bool, mem: seq<byte>, pos: nat, nal: seq<byte>, off: nat, rest: seq<seq<byte>>, slack: seq<byte>, n: nat)
    requires AtByte(four, mem, pos, nal, off, rest, slack) && off + n <= |nal|
    ensures pos + n <= |mem| && mem[pos..pos + n] == nal[off..off + n]
    ensures AtByte(four, mem, pos + n, nal, off + n, rest, slack)
  {
    var x := nal[off..];
    assert mem[pos..pos + n] == mem[pos..][..n] == x[..n] == nal[off..off + n];
    assert mem[pos + n..] == mem[pos..][n..];
    assert x[n..] == nal[off + n..];
  }

  /** What the looks of a call inside a unit show. */
  lemma InsideLooks(four: bool, mem: seq<byte>, pos: nat, nal: seq<byte>, off: nat, rest: seq<seq<byte>>, slack: seq<byte>)
    requires off < |nal| && 0 < pos && AtByte(four, mem, pos, nal, off, rest, slack)
    requires Apart(four, nal, rest, slack) && |mem| - |slack| >= 4
    requires rest != [] && !four ==> |nal| - off >= 2
    ensures pos < |mem| - |slack| && LookSafe(mem, |mem| - |slack|, pos) && FindNalUnit(mem, pos, pos + LOOK).None?
    ensures var bufLen, left, code := |mem| - |slack|, |nal| - off, CodeBehind(four, rest);
            && FindNalUnit(mem, pos, pos + Min(bufLen - pos, WITHIN))
               == (if EndShown(left, code) then Some(pos + left) else None)
            && (!EndShown(left, code) ==> Min(bufLen - pos, 970) == Taken(left, code) && (bufLen - pos < 970 <==> left < 970))
  {
    hide FindNalUnit, NoStartCodeIn, Apart, NoStartCode, Stream;
    var x, bufLen := nal[off..], |mem| - |slack|;
    ApartTail(four, nal, off, rest, slack);
    StreamLength(four, rest);
    assert |mem| == pos + |x| + (|Stream(four, rest)| + |slack|);
    SlackIsThere(four, nal, rest, slack);
    Search(four, mem, pos, x, rest, slack, pos + LOOK);
    Search(four, mem, pos, x, rest, slack, pos + Min(bufLen - pos, WITHIN));
  }

  /** A call inside a unit whose looks show nothing, or the unit's end. */
  lemma StepFromLooks(msg: Msg, mem: seq<byte>, bufLen: nat, pos: nat, shown: bool, n: nat, fu: bool)
    requires 0 < pos < bufLen && LOOK <= bufLen && LookSafe(mem, bufLen, pos) && msg.headerLen <= 4 && n > 0
    requires FindNalUnit(mem, pos, pos + LOOK).None?
    requires FindNalUnit(mem, pos, pos + Min(bufLen - pos, WITHIN)) == if shown then Some(pos + n) else None
    requires !shown ==> n == Min(bufLen - pos, 970)
    requires fu <==> !IsParameterSet(msg.nalType) && msg.fuPacket
    ensures var step := PacketizeStep(msg, mem, bufLen, pos);
            var end := shown || bufLen - pos < 970;
            && step.Emitted? && step.pos == pos + n <= |mem|
            && step.msg.headerLen == msg.headerLen && step.msg.nalType == msg.nalType && step.msg.fuPacket == msg.fuPacket
            && step.payload == (if fu then FuHeaders(msg.nalType, false, end) else []) + mem[pos..pos + n]
  {
    hide FindNalUnit, NoStartCodeIn, FuHeaders, PrepareUnit, IsParameterSet;
    assert [] + mem[pos..pos + n] == mem[pos..pos + n];
  }

  /** The first of the payloads that are left of a unit. */
  function NextPacket(nal: seq<byte>, off: nat, code: nat): seq<byte>
    requires off < |nal|
  {
    var left := |nal| - off;
    (if Fragmented(nal) then FuHeaders(NalType(nal[0]), false, EndShown(left, code) || left < 970) else [])
    + nal[off..off + Taken(left, code)]
  }

  lemma RestUnfolds(nal: seq<byte>, off: nat, code: nat)
    requires off < |nal|
    ensures RestPackets(nal, off, code) == [NextPacket(nal, off, code)] + RestPackets(nal, off + Taken(|nal| - off, code), code)
  {
    hide FuHeaders, NalType, Fragmented;
    var data := nal[off..off + Taken(|nal| - off, code)];
    assert [] + data == data;
  }

  lemma InsideStep(four: bool, mem: seq<byte>, pos: nat, nal: seq<byte>, off: nat, rest: seq<seq<byte>>,
                   slack: seq<byte>, msg: Msg)
    requires nal != [] && off < |nal| && 0 < pos && AtByte(four, mem, pos, nal, off, rest, slack)
    requires Apart(four, nal, rest, slack) && Inside(msg, four, nal) && |mem| - |slack| >= 4
    requires rest != [] && !four ==> |nal| - off >= 2
    ensures LookSafe(mem, |mem| - |slack|, pos)
    ensures var left := |nal| - off;
            var n := Taken(left, CodeBehind(four, rest));
            var step := PacketizeStep(msg, mem, |mem| - |slack|, pos);
            && step.Emitted? && step.pos == pos + n && Inside(step.msg, four, nal)
            && step.payload == NextPacket(nal, off, CodeBehind(four, rest))
            && AtByte(four, mem, pos + n, nal, off + n, rest, slack)
  {
    hide FindNalUnit, NoStartCodeIn, FuHeaders, NalType, Apart, IsParameterSet, LookSafe, PacketizeStep, AtByte, Fragmented, EndShown, Prefix, Stream;
    var left, code := |nal| - off, CodeBehind(four, rest);
    var n := Taken(left, code);
    InsideLooks(four, mem, pos, nal, off, rest, slack);
    BytesAhead(four, mem, pos, nal, off, rest, slack, n);
    PrefixLength(four);
    StepFromLooks(msg, mem, |mem| - |slack|, pos, EndShown(left, code), n, Fragmented(nal));
  }

  lemma PrefixLength(four: bool)
    ensures |Prefix(four)| == if four then 4 else 3
  {
  }

  lemma SlackIsThere(four: bool, x: seq<byte>, rest: seq<seq<byte>>, slack: seq<byte>)
    requires Apart(four, x, rest, slack)
    ensures |slack| >= SLACK
  {
  }

  lemma StreamLength(four: bool, rest: seq<seq<byte>>)
    ensures rest != [] ==> |Stream(four, rest)| >= |Prefix(four)|
    ensures rest == [] ==> Stream(four, rest) == []
  {
  }

  // ----- the first call on a unit -----

  ghost predicate AtUnit(four: bool, mem: seq<byte>, pos: nat, nals: seq<seq<byte>>, slack: seq<byte>) {
    pos <= |mem| && mem[pos..] == Stream(four, nals) + slack
  }

  lemma CodeAhead(four: bool, mem: seq<byte>, pos: nat, nals: seq<seq<byte>>, slack: seq<byte>)
    requires nals != [] && AtUnit(four, mem, pos, nals, slack)
    ensures var h := |Prefix(four)|;
            pos + h <= |mem| && mem[pos..] == Prefix(four) + (nals[0] + (Stream(four, nals[1..]) + slack))
            && AtByte(four, mem, pos + h, nals[0], 0, nals[1..], slack)
  {
    var h, x, tail := |Prefix(four)|, nals[0], Stream(four, nals[1..]);
    ConcatAssociates(Prefix(four), x + tail, slack);
    ConcatAssociates(x, tail, slack);
    assert mem[pos + h..] == mem[pos..][h..];
    assert x[0..] == x;
  }

  /** The searches of the first call on a unit. */
  lemma UnitSearches(four: bool, mem: seq<byte>, pos: nat, nals: seq<seq<byte>>, slack: seq<byte>, end: nat)
    requires nals != [] && AllApart(four, nals, slack) && AtUnit(four, mem, pos, nals, slack)
    requires end + |slack| <= |mem|
    ensures var h, nal := |Prefix(four)|, nals[0];
            && |slack| >= SLACK && |nal| >= 2
            && |mem| == pos + h + |nal| + |Stream(four, nals[1..])| + |slack|
            && FindNalUnit(mem, pos, pos + LOOK) == Some(pos) && mem[pos + h] == nal[0]
            && FindNalUnit(mem, pos + h, end)
               == (if nals[1..] != [] && pos + h + |nal| + h <= end then Some(pos + h + |nal|) else None)
  {
    hide FindNalUnit, NoStartCodeIn, Apart, AllApart, AtUnit, NoStartCode, Stream, Prefix;
    var h, nal, rest := |Prefix(four)|, nals[0], nals[1..];
    var later := Stream(four, rest) + slack;
    PrefixLength(four);
    ApartUnfolds(four, nals, slack);
    SlackIsThere(four, nal, rest, slack);
    CodeAhead(four, mem, pos, nals, slack);
    AheadLength(four, mem, pos, nal, later);
    FirstSearch(mem, pos, four, nal + later);
    assert nal[0..] == nal;
    Search(four, mem, pos + h, nal, rest, slack, end);
  }

  lemma AheadLength(four: bool, mem: seq<byte>, pos: nat, nal: seq<byte>, later: seq<byte>)
    requires pos <= |mem| && mem[pos..] == Prefix(four) + (nal + later) && nal != []
    ensures |mem| == pos + |Prefix(four)| + |nal| + |later| && mem[pos + |Prefix(four)|] == nal[0]
  {
    assert mem[pos + |Prefix(four)|] == mem[pos..][|Prefix(four)|];
  }

  lemma FirstSearch(mem: seq<byte>, pos: nat, four: bool, ahead: seq<byte>)
    requires pos <= |mem| && mem[pos..] == Prefix(four) + ahead && ahead != []
    ensures pos + LOOK <= |mem| && FindNalUnit(mem, pos, pos + LOOK) == Some(pos)
  {
    NothingHasNone();
    assert [] + (Prefix(four) + ahead) == Prefix(four) + ahead;
    SearchBefore(mem, pos, [], four, ahead, pos + LOOK);
  }

  /** What the looks of the first call on a unit show: its start code, its octet, whether it
      is long, ... */
  lemma UnitLooks(four: bool, mem: seq<byte>, pos: nat, nals: seq<seq<byte>>, slack: seq<byte>)
    requires nals != [] && AllApart(four, nals, slack) && AtUnit(four, mem, pos, nals, slack)
    ensures var bufLen, h, nal := |mem| - |slack|, |Prefix(four)|, nals[0];
            && |slack| >= SLACK && |nal| >= 2 && pos + h + |nal| <= bufLen
            && FindNalUnit(mem, pos, pos + LOOK) == Some(pos) && mem[pos + h] == nal[0]
            && (IsLong(mem, bufLen, pos, h) <==> |nal| >= 970)
  {
    hide FindNalUnit, NoStartCodeIn, Stream, AllApart, AtUnit, Prefix, IsLong;
    SlackInside(four, mem, pos, nals, slack);
    var bufLen, h := |mem| - |slack|, |Prefix(four)|;
    UnitSearches(four, mem, pos, nals, slack, bufLen);
    StreamLength(four, nals[1..]);
    LongIs(mem, bufLen, pos, h, |nals[0]|);
  }

  /** ... and how much of it the call takes. */
  lemma UnitWindow(four: bool, mem: seq<byte>, pos: nat, nals: seq<seq<byte>>, slack: seq<byte>)
    requires nals != [] && AllApart(four, nals, slack) && AtUnit(four, mem, pos, nals, slack)
    requires |slack| + pos + |Prefix(four)| + |nals[0]| <= |mem| && |nals[0]| >= 2
    ensures var left, h, code := |mem| - |slack| - pos, |Prefix(four)|, CodeBehind(four, nals[1..]);
            var size := h + |nals[0]|;
            && FindNalUnit(mem, pos + h, pos + Min(left, WITHIN)) == (if EndShown(size, code) then Some(pos + size) else None)
            && (!EndShown(size, code) ==> Min(left, 970) == Taken(size, code))
  {
    hide FindNalUnit, NoStartCodeIn, Stream, AllApart, AtUnit, Min, Taken, EndShown, Prefix;
    var left, rest := |mem| - |slack| - pos, nals[1..];
    StreamLength(four, rest);
    PrefixLength(four);
    MinFits(left);
    UnitSearches(four, mem, pos, nals, slack, pos + Min(left, WITHIN));
    LookArithmetic(|Prefix(four)|, |nals[0]|, |Stream(four, rest)|, rest == []);
  }

  lemma MinFits(left: nat)
    ensures Min(left, WITHIN) <= left
  {
  }

  lemma LongIs(mem: seq<byte>, bufLen: nat, pos: nat, h: nat, len: nat)
    requires bufLen <= |mem| && pos + h + len <= bufLen
    requires var found := FindNalUnit(mem, pos + h, bufLen);
             if found.Some? then found.value == pos + h + len else pos + h + len == bufLen
    ensures IsLong(mem, bufLen, pos, h) <==> len >= 970
  {
    hide FindNalUnit, NoStartCodeIn;
  }

  lemma LookArithmetic(h: nat, len: nat, later: nat, last: bool)
    requires 3 <= h <= 4 && len >= 2 && (if last then later == 0 else later >= h)
    ensures var left, size, code := h + len + later, h + len, if last then 0 else h;
            && (EndShown(size, code) <==> !last && size + h <= Min(left, WITHIN))
            && (!EndShown(size, code) ==> Min(left, 970) == Taken(size, code))
  {
  }

  lemma SlackInside(four: bool, mem: seq<byte>, pos: nat, nals: seq<seq<byte>>, slack: seq<byte>)
    requires AtUnit(four, mem, pos, nals, slack)
    ensures pos + |slack| <= |mem|
  {
    assert |mem[pos..]| == |Stream(four, nals)| + |slack|;
  }

  lemma NothingHasNone()
    ensures NoStartCode([])
  {
  }

  /** The first call on a unit, from what its looks show. */
  lemma FirstFromLooks(msg: Msg, mem: seq<byte>, bufLen: nat, pos: nat, h: nat, octet: byte, long: bool, shown: bool, n: nat)
    requires bufLen + SLACK <= |mem| && pos + h + 2 <= pos + n <= bufLen && 3 <= h <= 4 && LOOK <= bufLen - pos
    requires msg.headerLen <= 4 && h == if pos == 0 then HeaderLen(mem) else msg.headerLen
    requires FindNalUnit(mem, pos, pos + LOOK) == Some(pos) && mem[pos + h] == octet
    requires IsLong(mem, bufLen, pos, h) <==> long
    requires FindNalUnit(mem, pos + h, pos + Min(bufLen - pos, WITHIN)) == if shown then Some(pos + n) else None
    requires !shown ==> n == Min(bufLen - pos, 970)
    requires long ==> !shown && bufLen - pos >= 970
    ensures LookSafe(mem, bufLen, pos)
    ensures var step := PacketizeStep(msg, mem, bufLen, pos);
            var fu := long && !IsParameterSet(NalType(octet));
            && step.Emitted? && step.pos == pos + n && step.msg.headerLen == h && step.msg.nalType == NalType(octet)
            && (fu <==> !IsParameterSet(step.msg.nalType) && step.msg.fuPacket)
            && step.payload == if fu then FuHeaders(NalType(octet), true, false) + mem[pos + h + 2..pos + n] else mem[pos + h..pos + n]
  {
    hide FindNalUnit, NoStartCodeIn, FuHeaders, PrepareInside, IsParameterSet, IsLong, NalType, HeaderLen;
  }

  lemma TakenFacts(h: nat, len: nat, code: nat)
    requires 3 <= h <= 4 && len >= 2 && (code == 0 || code == h)
    ensures var n := Taken(h + len, code);
            && h + 2 <= n <= h + len && (EndShown(h + len, code) ==> n == h + len) && (len >= 970 ==> !EndShown(h + len, code))
  {
  }

  lemma FirstStep(four: bool, mem: seq<byte>, pos: nat, nals: seq<seq<byte>>, slack: seq<byte>, msg: Msg)
    requires nals != [] && AllApart(four, nals, slack) && AtUnit(four, mem, pos, nals, slack)
    requires |mem| >= 4 && msg.headerLen <= 4
    requires |Prefix(four)| == if pos == 0 then HeaderLen(mem) else msg.headerLen
    ensures |nals[0]| >= 2 && |slack| <= |mem| && LookSafe(mem, |mem| - |slack|, pos)
    ensures var h, nal, code := |Prefix(four)|, nals[0], CodeBehind(four, nals[1..]);
            var n := Taken(h + |nal|, code);
            var step := PacketizeStep(msg, mem, |mem| - |slack|, pos);
            && h + 2 <= n && pos + n <= |mem|
            && step.Emitted? && step.pos == pos + n && Inside(step.msg, four, nal)
            && step.payload == if Fragmented(nal) then FuHeaders(NalType(nal[0]), true, false) + mem[pos + h + 2..pos + n]
                               else mem[pos + h..pos + n]
  {
    hide FindNalUnit, NoStartCodeIn, FuHeaders, NalType, Apart, IsParameterSet, PacketizeStep, LookSafe, AtByte, AllApart, AtUnit, IsLong, HeaderLen,
         Stream, RestPackets, Taken, Min, EndShown, Prefix, Fragmented, FirstPacket;
    SlackInside(four, mem, pos, nals, slack);
    PrefixLength(four);
    var bufLen, h, nal, code := |mem| - |slack|, |Prefix(four)|, nals[0], CodeBehind(four, nals[1..]);
    UnitLooks(four, mem, pos, nals, slack);
    UnitWindow(four, mem, pos, nals, slack);
    TakenFacts(h, |nal|, code);
    FragmentedIs(nal);
    FirstFromLooks(msg, mem, bufLen, pos, h, nal[0], |nal| >= 970, EndShown(h + |nal|, code), Taken(h + |nal|, code));
  }

  lemma FirstCall(four: bool, mem: seq<byte>, pos: nat, nals: seq<seq<byte>>, slack: seq<byte>, msg: Msg)
    requires nals != [] && AllApart(four, nals, slack) && AtUnit(four, mem, pos, nals, slack)
    requires |mem| >= 4 && msg.headerLen <= 4
    requires |Prefix(four)| == if pos == 0 then HeaderLen(mem) else msg.headerLen
    ensures |nals[0]| >= 2 && |slack| <= |mem| && LookSafe(mem, |mem| - |slack|, pos)
    ensures var h, nal, code := |Prefix(four)|, nals[0], CodeBehind(four, nals[1..]);
            var n := Taken(h + |nal|, code);
            var step := PacketizeStep(msg, mem, |mem| - |slack|, pos);
            && step.Emitted? && step.pos == pos + n && Inside(step.msg, four, nal)
            && step.payload == FirstPacket(four, nal, code)
            && n >= h && AtByte(four, mem, pos + n, nal, n - h, nals[1..], slack)
  {
    hide FindNalUnit, NoStartCodeIn, FuHeaders, NalType, Apart, IsParameterSet, PacketizeStep, LookSafe, AtByte, AllApart, AtUnit, HeaderLen,
         Stream, RestPackets, Taken, Prefix, Fragmented, FirstPacket;
    var h, nal, code := |Prefix(four)|, nals[0], CodeBehind(four, nals[1..]);
    FirstStep(four, mem, pos, nals, slack, msg);
    var n := Taken(h + |nal|, code);
    CodeAhead(four, mem, pos, nals, slack);
    BytesAhead(four, mem, pos + h, nal, 0, nals[1..], slack, n - h);
    FromSecond(mem, nal, pos + h, n - h);
    FirstPacketIs(four, nal, code, n - h);
  }

  lemma FromSecond(mem: seq<byte>, nal: seq<byte>, at: nat, k: nat)
    requires 2 <= k <= |nal| && at + k <= |mem| && mem[at..at + k] == nal[0..k]
    ensures mem[at..at + k] == nal[..k] && mem[at + 2..at + k] == nal[2..k]
  {
    assert mem[at + 2..at + k] == mem[at..at + k][2..];
  }

  lemma FragmentedIs(nal: seq<byte>)
    requires nal != []
    ensures Fragmented(nal) <==> |nal| >= 970 && !IsParameterSet(NalType(nal[0]))
  {
  }

  lemma FirstPacketIs(four: bool, nal: seq<byte>, code: nat, k: nat)
    requires |nal| >= 2 && 2 <= k <= |nal| && k + |Prefix(four)| == Taken(|Prefix(four)| + |nal|, code)
    ensures FirstPacket(four, nal, code)
         == if Fragmented(nal) then FuHeaders(NalType(nal[0]), true, false) + nal[2..k] else nal[..k]
  {
  }

  // ----- the run -----

  /** Enough of the unit is left for a look not to take it for a start code. */
  predicate LookPasses(four: bool, left: nat, code: nat) {
    code > 0 && !four ==> left != 1
  }

  lemma TakenPasses(four: bool, left: nat)
    ensures left > 0 ==> LookPasses(four, left - Taken(left, |Prefix(four)|), |Prefix(four)|)
  {
  }

  lemma UnitDone(four: bool, mem: seq<byte>, pos: nat, nal: seq<byte>, rest: seq<seq<byte>>, slack: seq<byte>)
    requires AtByte(four, mem, pos, nal, |nal|, rest, slack)
    ensures AtUnit(four, mem, pos, rest, slack)
  {
    assert nal[|nal|..] + (Stream(four, rest) + slack) == Stream(four, rest) + slack;
  }

  lemma BytesLeft(four: bool, mem: seq<byte>, pos: nat, nal: seq<byte>, off: nat, rest: seq<seq<byte>>, slack: seq<byte>)
    requires AtByte(four, mem, pos, nal, off, rest, slack)
    ensures pos + |slack| + |nal| - off <= |mem|
  {
    assert |mem[pos..]| == |nal[off..]| + |Stream(four, rest)| + |slack|;
  }

  lemma NothingLeft(four: bool, mem: seq<byte>, pos: nat, slack: seq<byte>)
    requires AtUnit(four, mem, pos, [], slack)
    ensures pos + |slack| == |mem|
  {
    assert [] + slack == slack;
  }

  lemma {:induction false} RunFromUnit(four: bool, mem: seq<byte>, pos: nat, nals: seq<seq<byte>>, slack: seq<byte>, msg: Msg)
    requires AllApart(four, nals, slack) && AtUnit(four, mem, pos, nals, slack) && |mem| > |slack| + 3
    requires msg.headerLen <= 4 && (nals != [] ==> |Prefix(four)| == if pos == 0 then HeaderLen(mem) else msg.headerLen)
    ensures pos + |slack| <= |mem|
    ensures PacketizeRun(msg, mem, |mem| - |slack|, pos) == Some(BufferPackets(four, nals))
    decreases |nals|, 1, 0
  {
    hide FindNalUnit, NoStartCodeIn, Apart, AllApart, AtUnit, AtByte, PacketizeStep, LookSafe, HeaderLen, Prefix, FirstPacket, RestPackets,
         Inside, Taken;
    SlackInside(four, mem, pos, nals, slack);
    if nals == [] {
      NothingLeft(four, mem, pos, slack);
    } else {
      var nal, rest := nals[0], nals[1..];
      var h, code := |Prefix(four)|, CodeBehind(four, rest);
      ApartUnfolds(four, nals, slack);
      FirstCall(four, mem, pos, nals, slack, msg);
      var n, step := Taken(h + |nal|, code), PacketizeStep(msg, mem, |mem| - |slack|, pos);
      InsideRecord(step.msg, four, nal);
      PrefixLength(four);
      TakenFacts(h, |nal|, code);
      TakenPasses(four, h + |nal|);
      BytesLeft(four, mem, pos + n, nal, n - h, rest, slack);
      RunInUnit(four, mem, pos + n, nals, n - h, slack, step.msg);
      var more := RestPackets(nal, n - h, code);
      RunPrepends(msg, mem, |mem| - |slack|, pos, more + BufferPackets(four, rest));
      ConcatAssociates([step.payload], more, BufferPackets(four, rest));
    }
  }

  lemma InsideRecord(msg: Msg, four: bool, nal: seq<byte>)
    requires nal != [] && Inside(msg, four, nal)
    ensures msg.headerLen == |Prefix(four)| <= 4
  {
  }

  lemma {:induction false} RunInUnit(four: bool, mem: seq<byte>, pos: nat, nals: seq<seq<byte>>, off: nat, slack: seq<byte>, msg: Msg)
    requires nals != [] && AllApart(four, nals, slack) && off <= |nals[0]| && 0 < pos && |mem| > |slack| + 3
    requires AtByte(four, mem, pos, nals[0], off, nals[1..], slack) && nals[0] != [] && Inside(msg, four, nals[0])
    requires LookPasses(four, |nals[0]| - off, CodeBehind(four, nals[1..]))
    ensures pos + |slack| <= |mem| && msg.headerLen <= 4 && forall i :: 0 <= i < |nals[1..]| ==> |nals[1..][i]| >= 2
    ensures PacketizeRun(msg, mem, |mem| - |slack|, pos)
         == Some(RestPackets(nals[0], off, CodeBehind(four, nals[1..])) + BufferPackets(four, nals[1..]))
    decreases |nals|, 0, |nals[0]| - off
  {
    hide FindNalUnit, NoStartCodeIn, Apart, AtUnit, AtByte, PacketizeStep, LookSafe, HeaderLen, Prefix, Inside, Taken, NextPacket;
    var nal, rest := nals[0], nals[1..];
    var code, left := CodeBehind(four, rest), |nal| - off;
    ApartUnfolds(four, nals, slack);
    BytesLeft(four, mem, pos, nal, off, rest, slack);
    InsideRecord(msg, four, nal);
    if off == |nal| {
      UnitDone(four, mem, pos, nal, rest, slack);
      RunFromUnit(four, mem, pos, rest, slack, msg);
      assert RestPackets(nal, off, code) == [];
      assert [] + BufferPackets(four, rest) == BufferPackets(four, rest);
    } else {
      PrefixLength(four);
      InsideStep(four, mem, pos, nal, off, rest, slack, msg);
      RestUnfolds(nal, off, code);
      TakenPasses(four, left);
      var n, step := Taken(left, code), PacketizeStep(msg, mem, |mem| - |slack|, pos);
      RunInUnit(four, mem, pos + n, nals, off + n, slack, step.msg);
      var more := RestPackets(nal, off + n, code);
      RunPrepends(msg, mem, |mem| - |slack|, pos, more + BufferPackets(four, rest));
      ConcatAssociates([step.payload], more, BufferPackets(four, rest));
    }
  }

  lemma FrontCode(four: bool, nals: seq<seq<byte>>, slack: seq<byte>)
    requires nals != [] && |nals[0]| >= 2
    ensures |Stream(four, nals) + slack| >= 4 && HeaderLen(Stream(four, nals) + slack) == |Prefix(four)|
  {
    var mem := Stream(four, nals) + slack;
    ConcatAssociates(Prefix(four), nals[0] + Stream(four, nals[1..]), slack);
    assert mem[..|Prefix(four)|] == Prefix(four);
    assert forall i :: 0 <= i < |Prefix(four)| ==> mem[i] == mem[..|Prefix(four)|][i];
  }

  /** The run over a buffer of any number of units, all behind start codes of one length, ends
      and emits what the reference says unit by unit, from any record. */
  lemma BufferEmits(four: bool, nals: seq<seq<byte>>, slack: seq<byte>, msg: Msg)
    requires nals != [] && AllApart(four, nals, slack) && msg.headerLen <= 4
    ensures |Stream(four, nals)| > 3
    ensures PacketizeRun(msg, Stream(four, nals) + slack, |Stream(four, nals)|, 0) == Some(BufferPackets(four, nals))
  {
    ApartUnfolds(four, nals, slack);
    FrontCode(four, nals, slack);
    RunFromUnit(four, Stream(four, nals) + slack, 0, nals, slack, msg);
  }

  // ----- on the wire -----

  lemma NextIsFu(nal: seq<byte>, off: nat, code: nat)
    requires off < |nal| && Fragmented(nal)
    ensures var left, p := |nal| - off, NextPacket(nal, off, code);
            && IsFu(p, (nal[0] >> 1) & 0x3f, false, EndShown(left, code) || left < 970)
            && |p| == 3 + Taken(left, code) && p[3..] == nal[off..off + Taken(left, code)]
  {
    hide FuHeaders, NalType, IsFu;
    var left := |nal| - off;
    FuHeadersLength(NalType(nal[0]), false, EndShown(left, code) || left < 970);
    HeaderBytes(nal[0], false, EndShown(left, code) || left < 970, nal[off..off + Taken(left, code)]);
  }

  /** E on the last fragment, when another unit follows, or when it is short. */
  predicate Ends(left: nat, code: nat) {
    code > 0 || left % 970 != 0
  }

  lemma EndsLater(left: nat, code: nat)
    requires left > 0 && (code == 0 || 3 <= code <= 4)
    ensures var n, shown := Taken(left, code), EndShown(left, code) || left < 970;
            && (n < left ==> !shown && n == 970 && (Ends(left, code) <==> Ends(left - n, code)))
            && (n == left ==> (shown <==> Ends(left, code)))
  {
  }

  lemma {:induction false} RestAreFus(nal: seq<byte>, off: nat, code: nat)
    requires off <= |nal| && nal != [] && Fragmented(nal) && (code == 0 || 3 <= code <= 4)
    ensures var ps := RestPackets(nal, off, code);
            && AreFus(ps, (nal[0] >> 1) & 0x3f, false, Ends(|nal| - off, code)) && FuData(ps) == nal[off..]
            && (|ps| > 1 ==> |ps[0]| == 973) && (off < |nal| ==> ps != [])
    decreases |nal| - off
  {
    hide AreFus, FuData, IsFu, Ends, NextPacket, RestPackets, Taken, EndShown, Fragmented;
    if off == |nal| {
      RestNone(nal, code);
    } else {
      var left := |nal| - off;
      var n, p := Taken(left, code), NextPacket(nal, off, code);
      var rest, e := RestPackets(nal, off + n, code), Ends(left, code);
      NextIsFu(nal, off, code);
      RestUnfolds(nal, off, code);
      EndsLater(left, code);
      RestAreFus(nal, off + n, code);
      RestEmpty(nal, off + n, code);
      if n == left {
        RestNone(nal, code);
      }
      assert EndShown(left, code) || left < 970 <==> rest == [] && e;
      OneMoreFu(p, rest, (nal[0] >> 1) & 0x3f, false, e);
      assert nal[off..] == nal[off..off + n] + nal[off + n..];
    }
  }

  lemma RestNone(nal: seq<byte>, code: nat)
    requires nal != []
    ensures var ps := RestPackets(nal, |nal|, code);
            ps == [] && FuData(ps) == nal[|nal|..] && forall t, e :: AreFus(ps, t, false, e)
  {
  }

  lemma RestEmpty(nal: seq<byte>, off: nat, code: nat)
    requires nal != []
    ensures RestPackets(nal, off, code) == [] <==> off >= |nal|
  {
  }

  /** A fragmented unit in a buffer: behind every unit but the last the end is always marked, and
      behind the last one when the size with its start code is not a multiple of 970. */
  lemma UnitAreFus(four: bool, nal: seq<byte>, code: nat)
    requires |nal| >= 2 && Fragmented(nal) && (code == 0 || code == |Prefix(four)|)
    ensures var ps := UnitPackets(four, nal, code);
            && |ps| >= 2 && FuData(ps) == nal[2..]
            && AreFus(ps, (nal[0] >> 1) & 0x3f, true, code > 0 || (|Prefix(four)| + |nal|) % 970 != 0)
  {
    hide AreFus, FuData, IsFu, NalType, FuHeaders, RestPackets, Fragmented, Taken;
    var h := |Prefix(four)|;
    PrefixLength(four);
    FragmentedIs(nal);
    TakenFacts(h, |nal|, code);
    EndsLater(h + |nal|, code);
    var n := Taken(h + |nal|, code);
    var k := n - h;
    RestAreFus(nal, k, code);
    RestEmpty(nal, k, code);
    FirstTaken(h, |nal|, code);
    HeaderBytes(nal[0], true, false, nal[2..k]);
    FuHeadersLength(NalType(nal[0]), true, false);
    OneMoreFu(FirstPacket(four, nal, code), RestPackets(nal, k, code), (nal[0] >> 1) & 0x3f, true, Ends(h + |nal|, code));
    assert nal[2..] == nal[2..k] + nal[k..];
  }

  lemma FirstTaken(h: nat, len: nat, code: nat)
    requires 3 <= h <= 4 && len >= 970 && (code == 0 || code == h)
    ensures Taken(h + len, code) == 970
  {
  }

  lemma {:induction false} RestIsUnit(nal: seq<byte>, off: nat, code: nat)
    requires off <= |nal| && nal != [] && !Fragmented(nal)
    ensures Concat(RestPackets(nal, off, code)) == nal[off..]
    decreases |nal| - off
  {
    hide Fragmented, NextPacket;
    if off < |nal| {
      var n := Taken(|nal| - off, code);
      RestUnfolds(nal, off, code);
      RestIsUnit(nal, off + n, code);
      PlainNext(nal, off, code);
      assert nal[off..] == nal[off..off + n] + nal[off + n..];
    }
  }

  lemma PlainNext(nal: seq<byte>, off: nat, code: nat)
    requires off < |nal| && !Fragmented(nal)
    ensures NextPacket(nal, off, code) == nal[off..off + Taken(|nal| - off, code)]
  {
  }

  /** A unit that is not fragmented goes out as it is, cut or not: in one payload exactly when
      it fits the look of 974 bytes together with both start codes around it, or, the last one,
      970 bytes together with its own. */
  lemma UnitIsWhole(four: bool, nal: seq<byte>, code: nat)
    requires |nal| >= 2 && !Fragmented(nal) && (code == 0 || code == |Prefix(four)|)
    ensures Concat(UnitPackets(four, nal, code)) == nal
    ensures UnitPackets(four, nal, code) == [nal]
            <==> |Prefix(four)| + |nal| + code <= if code > 0 then 974 else 970
  {
    hide RestPackets, Fragmented, FirstPacket;
    var h := |Prefix(four)|;
    var k := Taken(h + |nal|, code) - h;
    var rest := RestPackets(nal, k, code);
    FirstPacketIs(four, nal, code, k);
    RestIsUnit(nal, k, code);
    RestEmpty(nal, k, code);
    assert ([nal[..k]] + rest)[1..] == rest;
    assert nal == nal[..k] + nal[k..];
    OnePacket(nal, k, rest);
  }

  lemma OnePacket(nal: seq<byte>, k: nat, rest: seq<seq<byte>>)
    requires k <= |nal| && (rest == [] <==> k >= |nal|)
    ensures [nal[..k]] + rest == [nal] <==> k == |nal|
  {
    assert |[nal[..k]] + rest| == 1 + |rest|;
    assert nal[..|nal|] == nal;
  }

  // ----- delivery -----

  function Datas(ps: seq<seq<byte>>): (ds: seq<seq<byte>>)
    requires forall k :: 0 <= k < |ps| ==> |ps[k]| >= 3
    ensures |ds| == |ps| && forall k :: 0 <= k < |ps| ==> ds[k] == ps[k][3..]
  {
    if ps == [] then [] else [ps[0][3..]] + Datas(ps[1..])
  }

  lemma FlagByte(b: byte, t: byte, start: bool, end: bool)
    requires b & 0x3f == t && (b & 0x80 != 0 <==> start) && (b & 0x40 != 0 <==> end)
    ensures b == (if start then 0x80 else 0) | (if end then 0x40 else 0) | t
  {
  }

  lemma FuIsAnyFu(p: seq<byte>, nal: seq<byte>, start: bool, end: bool)
    requires |nal| >= 2 && nal[0] & 0x81 == 0 && nal[1] == 1 && IsFu(p, (nal[0] >> 1) & 0x3f, start, end)
    ensures p == AnyFu(nal, start, end, p[3..])
  {
    FlagByte(p[2], (nal[0] >> 1) & 0x3f, start, end);
    assert 0 | 98 as byte == 98;
    assert p == [p[0], p[1], p[2]] + p[3..];
  }

  lemma {:induction false} FusAreAnyFus(ps: seq<seq<byte>>, nal: seq<byte>, start: bool)
    requires |nal| >= 2 && nal[0] & 0x81 == 0 && nal[1] == 1 && AreFus(ps, (nal[0] >> 1) & 0x3f, start, true)
    ensures forall k :: 0 <= k < |ps| ==> |ps[k]| > 3
    ensures ps == AnyFus(nal, Datas(ps), start) && Concat(Datas(ps)) == FuData(ps)
    decreases |ps|
  {
    hide AnyFu;
    if ps != [] {
      FuIsAnyFu(ps[0], nal, start, |ps| == 1);
      FusAreAnyFus(ps[1..], nal, false);
      assert Datas(ps)[1..] == Datas(ps[1..]);
    }
  }

  /** A unit in the middle of a buffer is delivered if its header is plain, whatever its size. */
  lemma MiddleUnitArrives(four: bool, nal: seq<byte>, headers: seq<Rtp.Header>, out: seq<byte>)
    requires |nal| >= 970 && (nal[0] >> 1) & 0x3f !in {32, 33, 34, 39} && nal[0] & 0x81 == 0 && nal[1] == 1
    requires AllAccepted(headers) && |headers| == |UnitPackets(four, nal, |Prefix(four)|)|
    ensures Leaves(H265Unpack.ReceiveRun(Packets(headers, UnitPackets(four, nal, |Prefix(four)|)), out),
                   out + ([0, 0, 0, 1] + nal), true)
  {
    hide UnitPackets, Leaves, H265Unpack.ReceiveRun, Packets, AreFus, NalType;
    TypeInNumbers(nal[0]);
    PlainIsBase(nal);
    var ps := UnitPackets(four, nal, |Prefix(four)|);
    UnitAreFus(four, nal, |Prefix(four)|);
    FusAreAnyFus(ps, nal, true);
    AnyFusArrive(nal, Datas(ps), headers, out);
  }

  lemma PlainIsBase(nal: seq<byte>)
    requires |nal| >= 2 && nal[0] & 0x81 == 0 && nal[1] == 1
    ensures BaseLayer(nal)
  {
    MaskBits(nal[0]);
  }

  lemma MaskBits(b: byte)
    requires b & 0x81 == 0
    ensures b & 0x01 == 0
  {
  }
}
