/** Copying between byte buffers, and appending at an offset the way the depacketizers do. */
module Buffers {
  import opened Bytes

  /** memcpy between two buffers. */
  method CopyBytes(src: array<byte>, from: nat, n: nat, dst: array<byte>, to: nat)
    requires src != dst && from + n <= src.Length && to + n <= dst.Length
    modifies dst
    ensures dst[to..to + n] == src[from..from + n]
    ensures forall i :: 0 <= i < to || to + n <= i < dst.Length ==> dst[i] == old(dst[i])
  {
    forall i | 0 <= i < n {
      dst[to + i] := src[from + i];
    }
  }

  method AppendBytes(src: array<byte>, from: nat, n: nat, dst: array<byte>, to: nat) returns (newPos: nat)
    requires src != dst && from + n <= src.Length && to + n <= dst.Length
    modifies dst
    ensures newPos == to + n && dst[..newPos] == old(dst[..to]) + src[from..from + n]
    ensures forall i :: 0 <= i < to || to + n <= i < dst.Length ==> dst[i] == old(dst[i])
  {
    CopyBytes(src, from, n, dst, to);
    newPos := to + n;
    assert dst[..newPos] == dst[..to] + dst[to..newPos];
  }

  method WriteStartCode(bits: array<byte>, p: nat) returns (newPos: nat)
    requires p + 4 <= bits.Length
    modifies bits
    ensures newPos == p + 4 && bits[..newPos] == old(bits[..p]) + START_CODE
    ensures forall i :: 0 <= i < p || p + 4 <= i < bits.Length ==> bits[i] == old(bits[i])
  {
    bits[p], bits[p + 1], bits[p + 2], bits[p + 3] := 0, 0, 0, 1;
    newPos := p + 4;
  }

  /** A start code and then n bytes of src. */
  method WriteUnit(src: array<byte>, from: nat, n: nat, dst: array<byte>, to: nat) returns (newPos: nat)
    requires src != dst && from + n <= src.Length && to + 4 + n <= dst.Length
    modifies dst
    ensures newPos == to + 4 + n && dst[..newPos] == old(dst[..to]) + (START_CODE + src[from..from + n])
    ensures forall i :: 0 <= i < to || to + 4 + n <= i < dst.Length ==> dst[i] == old(dst[i])
  {
    newPos := WriteStartCode(dst, to);
    newPos := AppendBytes(src, from, n, dst, newPos);
    ConcatAssociates(old(dst[..to]), START_CODE, src[from..from + n]);
  }

  lemma SubSlice(a: array<byte>, lo: nat, hi: nat, i: nat, j: nat)
    requires lo <= hi <= a.Length && i <= j <= hi - lo
    ensures a[lo..hi][i..j] == a[lo + i..lo + j]
  {
    forall k | 0 <= k < j - i
      ensures a[lo..hi][i..j][k] == a[lo + i..lo + j][k]
    {
    }
  }

  /** Copies part of the buffer into the payload. */
  method EmitWhole(buf: array<byte>, bufLen: nat, start: nat, end: nat, payload: array<byte>)
    returns (newPos: nat, newLen: nat)
    requires start <= end <= bufLen <= buf.Length && payload != buf && payload.Length >= end - start
    modifies payload
    ensures newPos == end && newLen == end - start && payload[..newLen] == old(buf[..bufLen])[start..end]
  {
    ghost var sent := buf[start..end];
    assert sent == buf[..bufLen][start..end];
    CopyBytes(buf, start, end - start, payload, 0);
    assert payload[..end - start] == payload[0..end - start] == sent;
    newPos, newLen := end, end - start;
  }

  /** A search looks only at the bytes before its end. */
  lemma {:induction false} ScanInPrefix(s: seq<byte>, t: seq<byte>, start: nat, end: nat)
    requires t <= s && start <= |t| && end <= |t|
    ensures ScanStartCode(s, start, end) == ScanStartCode(t, start, end)
    decreases end - start
  {
    if start + 3 <= end && !IsStartCode(t, start) {
      ScanInPrefix(s, t, start + 1, end);
    }
  }

  lemma SearchInPrefix(s: seq<byte>, t: seq<byte>, start: nat, end: nat)
    requires t <= s && start <= |t| && end <= |t|
    ensures FindNalUnit(s, start, end) == FindNalUnit(t, start, end)
  {
    ScanInPrefix(s, t, start, end);
  }
}
