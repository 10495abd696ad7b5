/** One call of the H.265 depacketizer as a function of the RTP packet and the bytes written so
    far (packed/h264_packetizer.c, lines 922-1077). */
module H265Unpack {
  import opened Bytes
  import Rtp

  const INVALID_DATA: int := -1
  const MULTI_LAYER: int := -2
  const UNSUP_NALTYPE: int := -3
  const EAGAIN: int := -4

  /** Return value, the bytes in the output buffer, and the offset for the next call. */
  datatype Result = Result(res: int, data: seq<byte>, pos: nat)

  function NalType(p: seq<byte>): byte
    requires |p| >= 1
  {
    (p[0] >> 1) & 0x3f
  }

  function LayerId(p: seq<byte>): byte
    requires |p| >= 2
  {
    ((p[0] << 5) & 0x20) | ((p[1] >> 3) & 0x1f)
  }

  function TemporalId(p: seq<byte>): byte
    requires |p| >= 2
  {
    p[1] & 0x07
  }

  /** The fragmentation unit case: the unit's two header bytes are rebuilt from the payload
      header and the FU header. */
  function FuUnpack(p: seq<byte>, out: seq<byte>): Result
    requires |p| >= 3
  {
    var first, last, fuType := p[2] & 0x80 != 0, p[2] & 0x40 != 0, p[2] & 0x3f;
    if |p| == 3 then Result(EAGAIN, out, |out|)
    else if first && last then Result(INVALID_DATA, out, |out|)
    else if first then
      var data := out + (START_CODE + [(p[0] & 0x81) | (fuType << 1), p[1]] + p[3..]);
      Result(0, data, |data|)
    else
      var data := out + p[3..];
      if last then Result(|data|, data, 0) else Result(0, data, |data|)
  }

  function PayloadUnpack(p: seq<byte>, out: seq<byte>): Result
    requires |p| >= 3
  {
    var nalType := NalType(p);
    if LayerId(p) != 0 then Result(MULTI_LAYER, out, |out|)
    else if TemporalId(p) == 0 then Result(INVALID_DATA, out, |out|)
    else if nalType > 50 then Result(UNSUP_NALTYPE, out, |out|)
    else if nalType == 49 then FuUnpack(p, out)
    else if nalType == 48 || nalType == 50 then Result(MULTI_LAYER, out, |out|)
    else
      var data := out + (START_CODE + p);
      Result(0, data, |data|)
  }

  /** pjmeida_h265_unpacketize; `out` is h265_buf[..*pos]. */
  function Unpack(rtp: seq<byte>, out: seq<byte>): (r: Result)
    requires |rtp| >= 1
    ensures r.pos == |r.data| || r.pos == 0
    ensures out <= r.data && |r.data| <= |out| + |rtp| + 4
  {
    match Rtp.HeaderLength(rtp)
    case None => Result(INVALID_DATA, out, |out|)
    case Some(h) =>
      if |rtp| - h < 3 then Result(INVALID_DATA, out, |out|)
      else PayloadUnpack(rtp[h..], out)
  }

  /** Return values of a run of calls, the buffer after the last one, and the offset. */
  datatype Received = Received(results: seq<int>, data: seq<byte>, pos: nat)

  function ReceiveRun(rtps: seq<seq<byte>>, out: seq<byte>): (r: Received)
    requires forall i :: 0 <= i < |rtps| ==> |rtps[i]| >= 1
    decreases |rtps|
  {
    if rtps == [] then Received([], out, |out|)
    else
      var r := Unpack(rtps[0], out);
      if |rtps| == 1 then Received([r.res], r.data, r.pos)
      else
        var rest := ReceiveRun(rtps[1..], r.data[..r.pos]);
        Received([r.res] + rest.results, rest.data, rest.pos)
  }
}
