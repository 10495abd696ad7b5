/** The RTP header in front of an H.265 payload, laid out as in section 5.1 of RFC 3550
    (packed/h264_packetizer.c, lines 664-695). */
module Rtp {
  import opened Bytes

  const BASE_LEN: nat := 12
  const MAX_EXTENSION: nat := 12

  /** pjmedia_calc_rtp_hdr_len; None for -1. */
  function HeaderLength(rtp: seq<byte>): (r: Option<nat>)
    requires |rtp| >= 1
  {
    var csrc := 4 * Value(rtp[0] & 0x0f);
    if rtp[0] & 0x10 == 0 then Some(BASE_LEN + csrc)
    else if |rtp| < csrc + BASE_LEN + 4 then None
    else
      var data := 4 * U16(rtp[BASE_LEN + csrc + 2], rtp[BASE_LEN + csrc + 3]);
      if data > MAX_EXTENSION then None else Some(BASE_LEN + csrc + 4 + data)
  }

  datatype Extension = Extension(profile: seq<byte>, data: seq<byte>)

  /** Version, padding, and the eleven fixed bytes after the first; then up to 15 CSRCs of four
      bytes, and an optional extension of whole 32-bit words. */
  datatype Header = Header(top: byte, fixed: seq<byte>, csrcs: seq<byte>, extension: Option<Extension>)

  predicate Valid(h: Header) {
    && |h.fixed| == BASE_LEN - 1 && |h.csrcs| % 4 == 0 && |h.csrcs| / 4 <= 15
    && (h.extension.Some? ==>
          var e := h.extension.value;
          |e.profile| == 2 && |e.data| % 4 == 0 && |e.data| / 4 < 0x1_0000)
  }

  function FirstByte(h: Header): byte
    requires Valid(h)
  {
    (h.top & 0xe0) | (if h.extension.Some? then 0x10 else 0) | ByteOf(|h.csrcs| / 4)
  }

  function ExtensionBytes(h: Header): seq<byte>
    requires Valid(h)
  {
    match h.extension
    case None => []
    case Some(e) => e.profile + U16Bytes(|e.data| / 4) + e.data
  }

  function Encode(h: Header): seq<byte>
    requires Valid(h)
  {
    [FirstByte(h)] + h.fixed + h.csrcs + ExtensionBytes(h)
  }

  /** A receiver accepts extensions of at most three words. */
  predicate Accepted(h: Header) {
    h.extension.None? || |h.extension.value.data| <= MAX_EXTENSION
  }

  lemma SmallByte(n: nat)
    requires n < 16
    ensures ByteOf(n) & 0x0f == ByteOf(n) && ByteOf(n) & 0x10 == 0
    ensures Value(ByteOf(n)) == n
  {
  }

  lemma FirstByteBits(h: Header)
    requires Valid(h)
    ensures Value(FirstByte(h) & 0x0f) == |h.csrcs| / 4
    ensures FirstByte(h) & 0x10 != 0 <==> h.extension.Some?
  {
    var n := |h.csrcs| / 4;
    SmallByte(n);
    MaskedFields(h.top, h.extension.Some?, ByteOf(n));
  }

  lemma MaskedFields(top: byte, x: bool, n: byte)
    requires n & 0x0f == n && n & 0x10 == 0
    ensures ((top & 0xe0) | (if x then 0x10 else 0) | n) & 0x0f == n
    ensures ((top & 0xe0) | (if x then 0x10 else 0) | n) & 0x10 != 0 <==> x
  {
  }

  /** The computed length is the encoded header's for every header a receiver accepts, whatever
      follows it, and every other header is reported as invalid. */
  lemma HeaderLengthExactly(h: Header, payload: seq<byte>)
    requires Valid(h)
    ensures HeaderLength(Encode(h) + payload) == if Accepted(h) then Some(|Encode(h)|) else None
  {
    hide FirstByte, Value, U16;
    FirstByteBits(h);
    var rtp := Encode(h) + payload;
    assert rtp[0] == FirstByte(h);
    if h.extension.Some? {
      var e := h.extension.value;
      var words := U16Bytes(|e.data| / 4);
      var at := BASE_LEN + |h.csrcs| + 2;
      assert rtp[at..at + 2] == words;
      assert rtp[at] == rtp[at..at + 2][0] && rtp[at + 1] == rtp[at..at + 2][1];
    }
  }

  lemma TopBits(top: byte, x: bool, n: byte)
    requires n & 0x0f == n && n & 0x10 == 0
    ensures ((top & 0xe0) | (if x then 0x10 else 0) | n) & 0xe0 == top & 0xe0
  {
    assert n & 0xe0 == 0;
  }

  lemma TopKept(h: Header)
    requires Valid(h)
    ensures FirstByte(h) & 0xe0 == h.top & 0xe0
  {
    SmallByte(|h.csrcs| / 4);
    TopBits(h.top, h.extension.Some?, ByteOf(|h.csrcs| / 4));
  }

  /** Where section 5.1 of RFC 3550 puts the fields a receiver reads: version and padding in the
      top three bits, X in 0x10, CC in the low four, twelve fixed bytes, four for each CSRC, and
      the extension's length in words, high byte first, in its bytes 2 and 3. */
  lemma EncodedLayout(h: Header)
    requires Valid(h)
    ensures var b := Encode(h);
            && |b| == 12 + |h.csrcs| + (if h.extension.Some? then 4 + |h.extension.value.data| else 0)
            && b[0] & 0xe0 == h.top & 0xe0 && (b[0] & 0x10 != 0 <==> h.extension.Some?)
            && 4 * (b[0] & 0x0f) as nat == |h.csrcs|
            && (h.extension.Some? ==>
                  var at := 12 + |h.csrcs|;
                  4 * (256 * b[at + 2] as nat + b[at + 3] as nat) == |h.extension.value.data|)
  {
    hide FirstByte, ExtensionBytes;
    var b, front := Encode(h), [FirstByte(h)] + h.fixed + h.csrcs;
    FirstByteBits(h);
    ValueIsNumber(FirstByte(h) & 0x0f);
    TopKept(h);
    ExtensionLayout(h);
    assert b[0] == FirstByte(h);
    if h.extension.Some? {
      assert b[|front| + 2] == ExtensionBytes(h)[2] && b[|front| + 3] == ExtensionBytes(h)[3];
    }
  }

  lemma ExtensionLayout(h: Header)
    requires Valid(h)
    ensures var e := ExtensionBytes(h);
            && |e| == (if h.extension.Some? then 4 + |h.extension.value.data| else 0)
            && (h.extension.Some? ==> 4 * (256 * e[2] as nat + e[3] as nat) == |h.extension.value.data|)
  {
    hide Value, U16;
    if h.extension.Some? {
      var w := U16Bytes(|h.extension.value.data| / 4);
      assert ExtensionBytes(h)[2] == w[0] && ExtensionBytes(h)[3] == w[1];
      U16IsNumber(w[0], w[1]);
    }
  }

  /** The computed length, or -1, in numbers. */
  lemma HeaderLengthInNumbers(h: Header, payload: seq<byte>)
    requires Valid(h)
    ensures HeaderLength(Encode(h) + payload)
         == if h.extension.None? then Some(12 + |h.csrcs|)
            else if |h.extension.value.data| <= 12 then Some(16 + |h.csrcs| + |h.extension.value.data|)
            else None
  {
    hide HeaderLength, Encode;
    HeaderLengthExactly(h, payload);
    EncodedLayout(h);
  }
}
