/** Bytes, optional values, and the start-code search that the packetizers and
    the Annex B splitter share (packed/h264_packetizer.c, lines 158-175). */
module Bytes {

  type byte = bv8

  datatype Option<+T> = None | Some(value: T)

  /** The four bytes every depacketizer writes in front of a NAL unit. */
  const START_CODE: seq<byte> := [0, 0, 0, 1]

  /** The two start codes of Annex B: 00 00 01 and 00 00 00 01. */
  function Prefix(four: bool): (p: seq<byte>) {
    if four then [0, 0, 0, 1] else [0, 0, 1]
  }

  function Zeros(n: nat): (z: seq<byte>)
    ensures |z| == n
  {
    seq(n, _ => 0)
  }

  /** 00 00 01 stands at index i of s. */
  predicate IsStartCode(s: seq<byte>, i: int) {
    0 <= i && i + 3 <= |s| && s[i] == 0 && s[i + 1] == 0 && s[i + 2] == 1
  }

  ghost predicate NoStartCodeIn(s: seq<byte>, start: int, end: int) {
    forall i :: start <= i <= end - 3 ==> !IsStartCode(s, i)
  }

  /** s holds no 00 00 01 anywhere: what Annex B asks of the bytes of one NAL unit. */
  ghost predicate NoStartCode(s: seq<byte>) {
    NoStartCodeIn(s, 0, |s|)
  }

  /** First position in start..end at which 00 00 01 stands. */
  function ScanStartCode(s: seq<byte>, start: nat, end: nat): (r: Option<nat>)
    requires end <= |s|
    ensures r.None? ==> NoStartCodeIn(s, start, end)
    ensures r.Some? ==> start <= r.value <= end - 3 && IsStartCode(s, r.value)
                        && NoStartCodeIn(s, start, r.value + 2)
    decreases end - start
  {
    if start + 3 > end then None
    else if IsStartCode(s, start) then Some(start)
    else ScanStartCode(s, start + 1, end)
  }

  /** The search with its answer moved back over one leading zero byte. */
  function FindNalUnit(s: seq<byte>, start: nat, end: nat): (r: Option<nat>)
    requires end <= |s|
    ensures r.None? <==> NoStartCodeIn(s, start, end)
    ensures r.Some? ==> start <= r.value <= end - 3
  {
    match ScanStartCode(s, start, end)
    case None => None
    case Some(p) => if p > start && s[p - 1] == 0 then Some(p - 1) else Some(p)
  }

  /** What the answer is, by the window's contents alone: nothing exactly when it holds no
      start code, else the first one, from one zero before it if the window holds that. */
  ghost predicate IsAnswer(s: seq<byte>, start: nat, end: nat, r: Option<nat>)
    requires end <= |s|
  {
    match r
    case None => NoStartCodeIn(s, start, end)
    case Some(v) =>
      exists p: nat :: start <= p <= end - 3 && IsStartCode(s, p) && NoStartCodeIn(s, start, p + 2)
                       && v == if p > start && s[p - 1] == 0 then p - 1 else p
  }

  lemma FindNalUnitExactly(s: seq<byte>, start: nat, end: nat, r: Option<nat>)
    requires end <= |s|
    ensures FindNalUnit(s, start, end) == r <==> IsAnswer(s, start, end, r)
  {
    var found := ScanStartCode(s, start, end);
    if found.Some? {
      assert IsStartCode(s, found.value);
    }
  }

  /** What the answer means: a first 00 00 01 in the window, and the zero before it
      exactly when the window holds one. */
  lemma FindNalUnitMeaning(s: seq<byte>, start: nat, end: nat, p: nat)
    requires end <= |s|
    requires start <= p <= end - 3 && IsStartCode(s, p) && NoStartCodeIn(s, start, p + 2)
    ensures ScanStartCode(s, start, end) == Some(p)
    ensures FindNalUnit(s, start, end) == Some(if p > start && s[p - 1] == 0 then p - 1 else p)
  {
  }

  /** find_next_nal_unit: the pointer loop computes FindNalUnit. */
  method FindNextNalUnit(buf: array<byte>, start: nat, end: nat) returns (r: Option<nat>)
    requires start <= buf.Length && end <= buf.Length
    ensures r == FindNalUnit(buf[..], start, end)
  {
    var p := start;
    while p + 3 <= end && (buf[p] != 0 || buf[p + 1] != 0 || buf[p + 2] != 1)
      invariant start <= p <= buf.Length
      invariant ScanStartCode(buf[..], p, end) == ScanStartCode(buf[..], start, end)
      decreases buf.Length - p
    {
      p := p + 1;
    }
    if p + 3 > end {
      return None;
    }
    if p > start && buf[p - 1] == 0 {
      return Some(p - 1);
    }
    return Some(p);
  }

  lemma ConcatAssociates<T>(a: seq<T>, b: seq<T>, c: seq<T>)
    ensures (a + b) + c == a + (b + c)
  {
  }

  function Concat(pieces: seq<seq<byte>>): seq<byte> {
    if pieces == [] then [] else pieces[0] + Concat(pieces[1..])
  }

  lemma NoStartCodeSlice(s: seq<byte>, i: nat, j: nat)
    requires i <= j <= |s|
    ensures NoStartCodeIn(s, i, j) <==> NoStartCode(s[i..j])
  {
    forall k | i <= k <= j - 3
      ensures IsStartCode(s, k) == IsStartCode(s[i..j], k - i)
    {}
    if NoStartCode(s[i..j]) {
      forall k | i <= k <= j - 3 ensures !IsStartCode(s, k) {
        assert !IsStartCode(s[i..j], k - i);
      }
    } else {
      var k :| 0 <= k <= j - i - 3 && IsStartCode(s[i..j], k);
      assert IsStartCode(s, k + i);
    }
  }

  lemma Indices(a: seq<byte>, b: seq<byte>, c: seq<byte>)
    ensures forall i :: 0 <= i < |a| ==> (a + (b + c))[i] == a[i]
    ensures forall i :: |a| <= i < |a| + |b| ==> (a + (b + c))[i] == b[i - |a|]
  {
  }

  /** Behind bytes without a start code stands the next one, and no earlier one, even across
      the boundary. */
  lemma NextCode(buf: seq<byte>, start: nat, x: seq<byte>, four: bool, tail: seq<byte>)
    requires start <= |buf| && buf[start..] == x + (Prefix(four) + tail) && NoStartCode(x)
    ensures var u := start + |x|;
            var p := u + if four then 1 else 0;
            && p + 3 <= |buf| && IsStartCode(buf, p) && NoStartCodeIn(buf, start, p + 2)
            && (four ==> buf[u] == 0) && (x != [] ==> buf[u - 1] == x[|x| - 1])
  {
    var q, u := Prefix(four), start + |x|;
    var s := x + (q + tail);
    Indices(x, q, tail);
    assert forall i :: 0 <= i < |s| ==> buf[start + i] == buf[start..][i] == s[i];
    forall i | start <= i < u + |q| - 3
      ensures !IsStartCode(buf, i)
    {
      if i + 3 <= u {
        assert !IsStartCode(x, i - start);
      } else {
        assert buf[i + 2] == s[i + 2 - start] == q[i + 2 - u] == 0;
      }
    }
  }

  /** The number a byte stands for, by counting: proofs that only compare lengths then never
      expand its bits. */
  function Value(b: byte): (n: nat)
    decreases b
  {
    if b == 0 then 0 else 1 + Value(b - 1)
  }

  lemma {:induction false} ValueIsNumber(b: byte)
    ensures Value(b) == b as nat
    decreases b
  {
    if b != 0 {
      assert (b - 1) as nat == b as nat - 1;
      ValueIsNumber(b - 1);
    }
  }

  function ByteOf(n: nat): (b: byte)
    requires n < 0x100
    ensures b as nat == n
  {
    if n == 0 then 0 else ByteOf(n - 1) + 1
  }

  /** 16-bit value in network order: (hi << 8) | lo. */
  function U16(hi: byte, lo: byte): nat {
    Value(hi) * 0x100 + Value(lo)
  }

  lemma U16IsNumber(hi: byte, lo: byte)
    ensures U16(hi, lo) == 256 * (hi as nat) + lo as nat
  {
    ValueIsNumber(hi);
    ValueIsNumber(lo);
  }

  function U16Bytes(n: nat): (s: seq<byte>)
    requires n < 0x1_0000
    ensures |s| == 2 && U16(s[0], s[1]) == n
  {
    var hi, lo := ByteOf(n / 0x100), ByteOf(n % 0x100);
    ValueIsNumber(hi);
    ValueIsNumber(lo);
    [hi, lo]
  }
}
