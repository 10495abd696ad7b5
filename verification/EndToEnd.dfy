/** The composition the driver makes (UnitTest.c, lines 163-172 and 217-228): split a file,
    packetize every unit, and, on the other side, depacketize the payloads. */
module EndToEnd {
  import opened Bytes
  import opened AnnexB
  import opened NalDecoder
  import opened H264Payload
  import opened H264Fragmentation
  import opened H264Unpack
  import opened H264Frame
  import opened H264Packetizer

  /** Payloads the driver sends for the bytes left in the file. A call that finds no start
      code is skipped with the four bytes it read, and so is a unit of fewer than four. */
  function SendAll(cfg: Config, rest: seq<byte>): (r: Option<seq<seq<byte>>>)
    requires cfg.mtu >= 2 && !cfg.mode.SingleNal?
    decreases |rest|
  {
    match NextUnit(rest)
    case NoData => Some([])
    case NotStart => SendAll(cfg, rest[4..])
    case Unit(_, size, last) =>
      Both(if size < 4 then Some([]) else PacketizeRun(cfg, rest[..size], 0),
           if last then Some([]) else SendAll(cfg, rest[size..]))
  }

  function Both<T>(a: Option<seq<T>>, b: Option<seq<T>>): Option<seq<T>> {
    if a.Some? && b.Some? then Some(a.value + b.value) else None
  }

  /** Every unit fits the reader's buffer together with what is read beyond it. */
  ghost predicate Fits(rest: seq<byte>, max: nat)
    decreases |rest|
  {
    ReadExtent(rest) <= max
    && match NextUnit(rest)
       case NoData => true
       case NotStart => Fits(rest[4..], max)
       case Unit(_, size, last) => last || Fits(rest[size..], max)
  }

  lemma SendAllUnfolds(cfg: Config, rest: seq<byte>)
    requires cfg.mtu >= 2 && !cfg.mode.SingleNal? && SendAll(cfg, rest).Some?
    ensures NextUnit(rest).NoData? ==> SendAll(cfg, rest).value == []
    ensures NextUnit(rest).NotStart? ==> SendAll(cfg, rest) == SendAll(cfg, rest[4..])
    ensures var n := NextUnit(rest);
            n.Unit? ==>
              && (n.size >= 4 ==> PacketizeRun(cfg, rest[..n.size], 0).Some?)
              && (!n.last ==> SendAll(cfg, rest[n.size..]).Some?)
              && SendAll(cfg, rest).value
                 == (if n.size < 4 then [] else PacketizeRun(cfg, rest[..n.size], 0).value)
                    + (if n.last then [] else SendAll(cfg, rest[n.size..]).value)
  {
  }

  /** One round of the driver's loop: read a unit, and send it unless it is too short. */
  method SendUnit(file: BitFile, nalu: Nalu, pktz: Packetizer) returns (payloads: seq<seq<byte>>)
    requires file.Valid() && !file.eof && Fits(file.Rest(), nalu.buf.Length)
    requires pktz.cfg.mtu >= 2 && !pktz.cfg.mode.SingleNal?
    requires SendAll(pktz.cfg, file.Rest()).Some?
    modifies file`cursor, file`eof, nalu, nalu.buf
    ensures file.Valid() && (!file.eof ==> file.cursor > old(file.cursor))
    ensures file.eof ==> SendAll(pktz.cfg, old(file.Rest())) == Some(payloads)
    ensures !file.eof ==> Fits(file.Rest(), nalu.buf.Length) && SendAll(pktz.cfg, file.Rest()).Some?
                          && SendAll(pktz.cfg, old(file.Rest())).value == payloads + SendAll(pktz.cfg, file.Rest()).value
  {
    hide PacketizeRun, ReadExtent, SendAll;
    ghost var rest := file.Rest();
    SendAllUnfolds(pktz.cfg, rest);
    var size := GetAnnexbNALU(file, nalu);
    assert NextUnit(rest).Unit? ==> rest[NextUnit(rest).size..] == file.Rest();
    assert NextUnit(rest).NotStart? ==> rest[4..] == file.Rest();
    payloads := [];
    if size >= 4 {
      payloads := PacketizeUnit(pktz, nalu.buf, size);
      assert file.eof ==> payloads + [] == payloads;
    }
  }

  /** The driver's main loop. */
  method SendFile(file: BitFile, nalu: Nalu, pktz: Packetizer) returns (payloads: seq<seq<byte>>)
    requires file.Valid() && !file.eof && Fits(file.Rest(), nalu.buf.Length)
    requires pktz.cfg.mtu >= 2 && !pktz.cfg.mode.SingleNal?
    requires SendAll(pktz.cfg, file.Rest()).Some?
    modifies file`cursor, file`eof, nalu, nalu.buf
    ensures file.Valid() && file.eof
    ensures SendAll(old(pktz.cfg), old(file.Rest())) == Some(payloads)
  {
    hide SendAll, Fits;
    payloads := [];
    ghost var all := SendAll(pktz.cfg, file.Rest()).value;
    while !file.eof
      invariant file.Valid()
      invariant !file.eof ==> Fits(file.Rest(), nalu.buf.Length) && SendAll(pktz.cfg, file.Rest()).Some?
      invariant all == payloads + if file.eof then [] else SendAll(pktz.cfg, file.Rest()).value
      decreases if file.eof then 0 else 1 + |file.bytes| - file.cursor
    {
      var ps := SendUnit(file, nalu, pktz);
      ConcatAssociates(payloads, ps, if file.eof then [] else SendAll(pktz.cfg, file.Rest()).value);
      assert ps + [] == ps;
      payloads := payloads + ps;
    }
    assert all == payloads;
  }

  // ----- what is skipped -----

  /** Bytes in front of a stream are skipped four at a time, as long as none of the fours begins
      with a start code. */
  lemma {:induction false} JunkIsSkipped(cfg: Config, words: seq<seq<byte>>, rest: seq<byte>)
    requires cfg.mtu >= 2 && !cfg.mode.SingleNal?
    requires forall i :: 0 <= i < |words| ==> |words[i]| == 4 && words[i][..3] != [0, 0, 1] && words[i] != [0, 0, 0, 1]
    ensures SendAll(cfg, Concat(words) + rest) == SendAll(cfg, rest)
    decreases |words|
  {
    hide PacketizeRun, NextUnit;
    if words == [] {
      assert [] + rest == rest;
    } else {
      var w, s := words[0], Concat(words) + rest;
      assert s[..4] == w && s[..3] == w[..3] && s[4..] == Concat(words[1..]) + rest;
      FrontExactly(s);
      JunkIsSkipped(cfg, words[1..], rest);
    }
  }

  /** A file ends with fewer than three bytes, or three that are no start code. */
  lemma NothingToSend(cfg: Config, rest: seq<byte>)
    requires cfg.mtu >= 2 && !cfg.mode.SingleNal? && |rest| < 3
    ensures SendAll(cfg, rest) == Some([])
  {
  }

  /** A start code with nothing behind it: of three bytes, it is not sent; of four, it goes out
      as one empty payload, which the receiver takes for a loss. */
  lemma EmptyUnit(cfg: Config, four: bool)
    requires cfg.mtu >= 3 && !cfg.mode.SingleNal?
    ensures SendAll(cfg, Prefix(four)) == Some(if four then [[]] else [])
  {
    var s := Prefix(four);
    var none: seq<seq<byte>>, one: seq<seq<byte>> := [], [[]];
    FrontExactly(s);
    assert NextUnit(s) == Unit(|s|, |s|, true) && s[..|s|] == s && none + none == none && one + none == one;
    if four {
      assert IsStartCode(s, 1) && !IsStartCode(s, 0);
      FindNalUnitMeaning(s, 0, 4, 1);
      SkipFoundStartCode(s, 0, 0);
      assert UnitStart(s, 0) == Some(4) && UnitEnd(cfg, s, 4) == 4;
      assert PacketizeStep(cfg, s, 0) == Emitted(s, 4, []);
      RunPrepends(cfg, s, 0, none);
    }
  }

  // ----- a whole stream -----

  function Nals(us: seq<StreamUnit>): (nals: seq<seq<byte>>)
    ensures |nals| == |us| && forall i :: 0 <= i < |us| ==> nals[i] == us[i].nal
  {
    if us == [] then [] else [us[0].nal] + Nals(us[1..])
  }

  /** The same units, each behind a four-byte start code. */
  function FourByte(us: seq<StreamUnit>): (r: seq<StreamUnit>)
    ensures |r| == |us| && forall i :: 0 <= i < |us| ==> r[i] == StreamUnit(true, us[i].nal)
  {
    if us == [] then [] else [StreamUnit(true, us[0].nal)] + FourByte(us[1..])
  }

  lemma {:induction false} JoinedFourByte(us: seq<StreamUnit>)
    ensures JoinNals(Nals(us)) == Join(FourByte(us))
  {
    if us != [] {
      JoinedFourByte(us[1..]);
      assert Nals(us)[1..] == Nals(us[1..]);
      assert FourByte(us)[1..] == FourByte(us[1..]);
    }
  }

  lemma FirstOfStream(us: seq<StreamUnit>)
    requires us != [] && Separable(us) && |us[0].nal| >= 1
    ensures var s, n := Join(us), NextUnit(Join(us));
            && n.Unit? && n.size >= 4 && (n.last <==> |us| == 1)
            && s[..n.size] == Prefix(us[0].four) + us[0].nal && s[n.size..] == Join(us[1..])
            && NoStartCode(us[0].nal) && Separable(us[1..])
  {
    hide Prefix, NextUnit;
    JoinStarts(us);
    FirstUnitExactly(us);
    SeparableUnfolds(us);
  }

  /** The driver sends exactly the RFC 6184 payloads of the stream's units. */
  lemma {:induction false} StreamPayloads(cfg: Config, us: seq<StreamUnit>)
    requires cfg.mtu >= 3 && !cfg.mode.SingleNal? && us != [] && Separable(us)
    requires forall i :: 0 <= i < |us| ==> |us[i].nal| >= 1
    ensures SendAll(cfg, Join(us)) == Some(AllPayloads(Nals(us), cfg.mtu))
    decreases |us|
  {
    hide PacketizeRun, Separable, Prefix, NextUnit, Join, NoStartCode, Payloads;
    FirstOfStream(us);
    RunEmitsPayloads(cfg, us[0].four, us[0].nal);
    assert Nals(us)[1..] == Nals(us[1..]);
    if |us| > 1 {
      StreamPayloads(cfg, us[1..]);
    }
  }

  /** End to end: splitting a stream, packetizing every unit and depacketizing all payloads
      rebuilds the stream with four-byte start codes, and splitting that gives the same units
      again. The conditions on the stream are those of SplitInvertsExactly and
      UnitRoundTripExactly, both of which are exact. */
  lemma StreamRoundTrip(cfg: Config, st: Unpacker, us: seq<StreamUnit>, cap: nat)
    requires st.out == [] && cfg.mtu >= 3 && !cfg.mode.SingleNal? && us != [] && Separable(us)
    requires forall i :: 0 <= i < |us| ==> Deliverable(us[i].nal, cfg.mtu)
    requires cap >= |Join(FourByte(us))| + 6
    ensures SendAll(cfg, Join(us)).Some?
    ensures var out := UnpackRun(st, AllReceived(SendAll(cfg, Join(us)).value), cap).out;
            out == Join(FourByte(us)) && SplitRun(out) == Some(Pieces(FourByte(us)))
  {
    hide SendAll, UnpackRun, Join, SplitRun;
    StreamPayloads(cfg, us);
    JoinedFourByte(us);
    LosslessRun(st, Nals(us), cfg.mtu, cap);
    assert Separable(FourByte(us)) by {
      forall i | 0 <= i < |us|
        ensures Delimited(FourByte(us)[i].nal, FourByte(us)[i + 1..])
      {
        assert Delimited(us[i].nal, us[i + 1..]);
      }
    }
    SplitInvertsExactly(FourByte(us));
  }

  /** What section 7.4.1 and Annex B of H.264 ask of a NAL unit that travels in a packet of
      its own or in fragments. */
  ghost predicate WellFormedNal(nal: seq<byte>) {
    |nal| >= 2 && nal[0] & 0x80 == 0 && 1 <= NalType(nal[0]) <= 23 && NoStartCode(nal) && !EndsInZero(nal)
  }

  /** Every well-formed stream, with any mix of start codes, survives at every mtu. */
  lemma WellFormedStreamSurvives(cfg: Config, st: Unpacker, us: seq<StreamUnit>, cap: nat)
    requires st.out == [] && cfg.mtu >= 3 && !cfg.mode.SingleNal? && us != []
    requires forall i :: 0 <= i < |us| ==> WellFormedNal(us[i].nal)
    requires cap >= |Join(FourByte(us))| + 6
    ensures SendAll(cfg, Join(us)).Some?
    ensures UnpackRun(st, AllReceived(SendAll(cfg, Join(us)).value), cap).out == Join(FourByte(us))
  {
    hide SendAll, UnpackRun, Join;
    assert Separable(us);
    StreamRoundTrip(cfg, st, us, cap);
  }
}
