/** How `handle_connection` decides what a received chunk is.

    The loop tries, in order: the IMEI handshake; the hex text starting with
    the hex of `POST /send-data?id=`; `codec_8e_checker` (the later of the
    two definitions, which upper-cases hex characters 16..17 and compares
    them with "8E"); `codec_12_checker` (hex characters 16..17 equal to
    "0c").  A chunk that matches none of them is dropped.  The checks run on
    the lower-case hex text of the chunk; this module states them on that
    text, as written, and proves each equal to a test on the bytes.
 */
module Classify {
  import opened Wire
  import Handshake
  import Codec12
  import AvlDecode
  import AvlEncode
  import AvlSample
  import Utf8

  /** `reader.read(1280)`: no chunk is longer. */
  const ReadSize: nat := 1280

  /** "POST /send-data?id=" as the hex literal the loop compares with,
      "504f5354202f73656e642d646174613f69643d", in groups of four bytes. */
  const PostPrefixHex: string :=
    "504f5354" + ("202f7365" + ("6e642d64" + ("6174613f" + "69643d")))

  /** The bytes of "POST /send-data?id=". */
  const PostPrefix: seq<byte> :=
    [0x50, 0x4F, 0x53, 0x54, 0x20, 0x2F, 0x73, 0x65, 0x6E, 0x64,
     0x2D, 0x64, 0x61, 0x74, 0x61, 0x3F, 0x69, 0x64, 0x3D]

  function Upper(c: char): char
  {
    if 'a' <= c <= 'z' then (c as int - 32) as char else c
  }

  function UpperText(s: string): (u: string)
    ensures |u| == |s|
    ensures forall i :: 0 <= i < |s| ==> u[i] == Upper(s[i])
  {
    if s == [] then [] else [Upper(s[0])] + UpperText(s[1..])
  }

  // ---- the checks as written, on the hex text ----

  predicate HttpChecker(frame: seq<byte>)
  {
    var h := Hex(frame);
    |PostPrefixHex| <= |h| && h[..|PostPrefixHex|] == PostPrefixHex
  }

  /** `str(hex[16:18]).upper() == "8E"`. */
  predicate AvlChecker(frame: seq<byte>)
  {
    UpperText(Slice(Hex(frame), 16, 18)) == "8E"
  }

  /** `hex[16:18] == "0c"`. */
  predicate ReplyChecker(frame: seq<byte>)
  {
    Slice(Hex(frame), 16, 18) == "0c"
  }

  datatype FrameKind =
    | HandshakeFrame(imei: string)
    | HandshakeFault
    | HttpRequest
    | AvlFrame
    | ReplyFrame
    | Ignored

  /** The branch `handle_connection` takes for a non-empty chunk; a
      handshake that raises ends the connection. */
  function Classify(frame: seq<byte>, numeric: char -> bool): FrameKind
    requires |frame| > 0
  {
    match Handshake.ImeiCheck(frame, numeric)
    case Accepted(imei) => HandshakeFrame(imei)
    case DecodeFault => HandshakeFault
    case NotHandshake =>
      if HttpChecker(frame) then HttpRequest
      else if AvlChecker(frame) then AvlFrame
      else if ReplyChecker(frame) then ReplyFrame
      else Ignored
  }

  // ---- the same decisions on the bytes ----

  predicate HasPostPrefix(frame: seq<byte>)
  {
    |PostPrefix| <= |frame| && frame[..|PostPrefix|] == PostPrefix
  }

  /** Byte 8, the codec id of an AVL or Codec 12 frame, is `b`. */
  predicate CodecIs(frame: seq<byte>, b: byte)
  {
    |frame| > 8 && frame[8] == b
  }

  /** The reference classification on bytes. */
  function ClassifyBytes(frame: seq<byte>, numeric: char -> bool): FrameKind
    requires |frame| > 0
  {
    match Handshake.ImeiCheck(frame, numeric)
    case Accepted(imei) => HandshakeFrame(imei)
    case DecodeFault => HandshakeFault
    case NotHandshake =>
      if HasPostPrefix(frame) then HttpRequest
      else if CodecIs(frame, 0x8E) then AvlFrame
      else if CodecIs(frame, 0x0C) then ReplyFrame
      else Ignored
  }

  /** The hex text of a run of at most four bytes. */
  lemma HexShort(s: seq<byte>)
    requires 1 <= |s| <= 4
    ensures Hex(s) == if |s| == 1 then HexByte(s[0])
                      else if |s| == 2 then HexByte(s[0]) + HexByte(s[1])
                      else if |s| == 3 then HexByte(s[0]) + HexByte(s[1]) + HexByte(s[2])
                      else HexByte(s[0]) + HexByte(s[1]) + HexByte(s[2]) + HexByte(s[3])
  {
    var t := s[1..];
    if |t| >= 1 {
      var u := t[1..];
      if |u| >= 1 {
        var v := u[1..];
        assert Hex(u) == HexByte(u[0]) + Hex(v);
      }
      assert Hex(t) == HexByte(t[0]) + Hex(u);
    }
  }

  lemma PostPrefixHex1()
    ensures Hex([0x50, 0x4F, 0x53, 0x54]) == "504f5354"
  {
    HexShort([0x50, 0x4F, 0x53, 0x54]);
    assert HexByte(0x50) == "50";
    assert HexByte(0x4F) == "4f";
    assert HexByte(0x53) == "53";
    assert HexByte(0x54) == "54";
  }

  lemma PostPrefixHex2()
    ensures Hex([0x20, 0x2F, 0x73, 0x65]) == "202f7365"
  {
    HexShort([0x20, 0x2F, 0x73, 0x65]);
    assert HexByte(0x20) == "20";
    assert HexByte(0x2F) == "2f";
    assert HexByte(0x73) == "73";
    assert HexByte(0x65) == "65";
  }

  lemma PostPrefixHex3()
    ensures Hex([0x6E, 0x64, 0x2D, 0x64]) == "6e642d64"
  {
    HexShort([0x6E, 0x64, 0x2D, 0x64]);
    assert HexByte(0x6E) == "6e";
    assert HexByte(0x64) == "64";
    assert HexByte(0x2D) == "2d";
    assert HexByte(0x64) == "64";
  }

  lemma PostPrefixHex4()
    ensures Hex([0x61, 0x74, 0x61, 0x3F]) == "6174613f"
  {
    HexShort([0x61, 0x74, 0x61, 0x3F]);
    assert HexByte(0x61) == "61";
    assert HexByte(0x74) == "74";
    assert HexByte(0x61) == "61";
    assert HexByte(0x3F) == "3f";
  }

  lemma PostPrefixHex5()
    ensures Hex([0x69, 0x64, 0x3D]) == "69643d"
  {
    HexShort([0x69, 0x64, 0x3D]);
    assert HexByte(0x69) == "69";
    assert HexByte(0x64) == "64";
    assert HexByte(0x3D) == "3d";
  }

  /** The hex literal is the hex text of "POST /send-data?id=". */
  lemma PostPrefixIsHex()
    ensures PostPrefixHex == Hex(PostPrefix)
  {
    var g1, g2, g3, g4, g5 := [0x50, 0x4F, 0x53, 0x54], [0x20, 0x2F, 0x73, 0x65], [0x6E, 0x64, 0x2D, 0x64], [0x61, 0x74, 0x61, 0x3F], [0x69, 0x64, 0x3D];
    assert PostPrefix == g1 + (g2 + (g3 + (g4 + g5)));
    PostPrefixHex1();
    PostPrefixHex2();
    PostPrefixHex3();
    PostPrefixHex4();
    PostPrefixHex5();
    HexSplit(g4, g5);
    HexSplit(g3, g4 + g5);
    HexSplit(g2, g3 + (g4 + g5));
    HexSplit(g1, g2 + (g3 + (g4 + g5)));
  }

  lemma {:induction false} HexSplit(a: seq<byte>, b: seq<byte>)
    ensures Hex(a + b) == Hex(a) + Hex(b)
    decreases |a|
  {
    if a != [] {
      assert (a + b)[1..] == a[1..] + b;
      HexSplit(a[1..], b);
    } else {
      assert a + b == b;
    }
  }

  /** The first `2n` hex characters are the hex text of the first `n` bytes. */
  lemma HexPrefix(s: seq<byte>, n: nat)
    requires n <= |s|
    ensures Hex(s)[..2 * n] == Hex(s[..n])
  {
    assert s == s[..n] + s[n..];
    HexSplit(s[..n], s[n..]);
  }

  /** The POST check on the hex text is the prefix test on the bytes. */
  lemma HttpCheckerBytes(frame: seq<byte>)
    ensures HttpChecker(frame) <==> HasPostPrefix(frame)
  {
    var n := |PostPrefix|;
    if n <= |frame| {
      PostPrefixIsHex();
      HexPrefix(frame, n);
      if HttpChecker(frame) {
        HexInjective(frame[..n], PostPrefix);
      }
    }
  }

  /** An upper-cased hex digit is '8' or 'E' only for the digit 8 or 14. */
  lemma UpperHexDigit(n: nat)
    requires n < 16
    ensures Upper(HexDigit(n)) == '8' <==> n == 8
    ensures Upper(HexDigit(n)) == 'E' <==> n == 14
  {
  }

  /** Hex characters 16..17 are the text of byte 8 when there is one, and
      fewer than two characters otherwise. */
  lemma CodecChars(frame: seq<byte>)
    ensures |frame| > 8 ==> Slice(Hex(frame), 16, 18) == HexByte(frame[8])
    ensures |frame| <= 8 ==> Slice(Hex(frame), 16, 18) == []
  {
    if |frame| > 8 {
      HexAt(frame, 8);
      assert Slice(Hex(frame), 16, 18) == Hex(frame)[2 * 8 .. 2 * 8 + 2];
    }
  }

  /** The upper-cased comparison with "8E" is "byte 8 is 0x8E". */
  lemma AvlCheckerBytes(frame: seq<byte>)
    ensures AvlChecker(frame) <==> CodecIs(frame, 0x8E)
  {
    CodecChars(frame);
    if |frame| > 8 {
      var b := frame[8];
      UpperHexDigit(b / 16);
      UpperHexDigit(b % 16);
      var u := UpperText(HexByte(b));
      assert u == "8E" <==> u[0] == '8' && u[1] == 'E';
    }
  }

  /** The comparison with "0c" is "byte 8 is 0x0C"; a chunk whose hex were
      upper case would never match, but `bytes.hex` writes lower case. */
  lemma ReplyCheckerBytes(frame: seq<byte>)
    ensures ReplyChecker(frame) <==> CodecIs(frame, 0x0C)
  {
    CodecChars(frame);
    if |frame| > 8 {
      var b := frame[8];
      if HexByte(b) == "0c" {
        assert HexDigit(b / 16) == HexDigit(0) && HexDigit(b % 16) == HexDigit(12);
        HexDigitInjective(b / 16, 0);
        HexDigitInjective(b % 16, 12);
      }
    }
  }

  /** The classification on hex text and on bytes agree on every chunk. */
  lemma ClassifyAgrees(frame: seq<byte>, numeric: char -> bool)
    requires |frame| > 0
    ensures Classify(frame, numeric) == ClassifyBytes(frame, numeric)
  {
    HttpCheckerBytes(frame);
    AvlCheckerBytes(frame);
    ReplyCheckerBytes(frame);
  }

  /** A chunk from `reader.read(1280)` that starts with the POST prefix
      cannot be a handshake: its declared length 0x504F exceeds the chunk. */
  lemma PostIsHttp(frame: seq<byte>, numeric: char -> bool)
    requires |frame| <= ReadSize && HasPostPrefix(frame)
    ensures Classify(frame, numeric) == HttpRequest
  {
    ClassifyAgrees(frame, numeric);
    assert frame[0] == 0x50 && frame[1] == 0x4F;
    assert Take(frame, 0, 2) == [0x50, 0x4F];
    BETwo([0x50, 0x4F]);
  }

  /** The bytes of an encoded Codec 8 Extended frame the loop looks at. */
  lemma EncodedAvlBytes(rs: seq<AvlDecode.RawRecord>, crc: nat)
    requires forall r :: r in rs ==> AvlEncode.Encodable(r)
    requires |rs| < 0x100 && crc < 0x1_0000_0000
    requires AvlDecode.RecordsSize(rs, true) + 3 < 0x1_0000_0000
    ensures var f := AvlEncode.EncodeFrame(rs, crc);
            |f| > 8 && f[0] == 0 && f[1] == 0 && f[8] == 0x8E
  {
    Pow256Values();
    var f := AvlEncode.EncodeFrame(rs, crc);
    var len := EncodeBE(AvlDecode.RecordsSize(rs, true) + 3, 4);
    var rest := AvlEncode.EncodeRecords(rs) + ([|rs|] + EncodeBE(crc, 4));
    var t := len + ([0x8E, |rs|] + rest);
    assert f == [0, 0, 0, 0] + t;
    assert f[8] == t[4] == ([0x8E, |rs|] + rest)[0];
  }

  /** Every Codec 8 Extended frame the encoder builds is taken as AVL data. */
  lemma EncodedAvlIsAvl(rs: seq<AvlDecode.RawRecord>, crc: nat, numeric: char -> bool)
    requires forall r :: r in rs ==> AvlEncode.Encodable(r)
    requires |rs| < 0x100 && crc < 0x1_0000_0000
    requires AvlDecode.RecordsSize(rs, true) + 3 < 0x1_0000_0000
    ensures |AvlEncode.EncodeFrame(rs, crc)| > 0
    ensures Classify(AvlEncode.EncodeFrame(rs, crc), numeric) == AvlFrame
  {
    EncodedAvlBytes(rs, crc);
    ZeroPreambleKinds(AvlEncode.EncodeFrame(rs, crc), numeric);
  }

  /** Every Codec 12 response frame is taken as a reply. */
  lemma EncodedReplyIsReply(text: seq<byte>, crc: nat, numeric: char -> bool)
    requires |text| + 8 < 0x1_0000_0000 && crc < 0x1_0000_0000
    ensures |Codec12.EncodeResponse(text, crc)| > 0
    ensures Classify(Codec12.EncodeResponse(text, crc), numeric) == ReplyFrame
  {
    Pow256Values();
    var f := Codec12.EncodeResponse(text, crc);
    var size := EncodeBE(|text| + 8, 4);
    var rest := EncodeBE(|text|, 4) + (text + ([0x01] + EncodeBE(crc, 4)));
    assert f == [0x00, 0x00, 0x00, 0x00] + size + [0x0C, 0x01, 0x06] + rest;
    assert f[0] == 0 && f[1] == 0 && f[8] == 0x0C;
    Handshake.ZeroPreambleRejected(f, numeric);
    ClassifyAgrees(f, numeric);
  }

  /** A chunk of at least three bytes with a zero preamble is never a
      handshake, and is dropped unless byte 8 is 0x8E or 0x0C. */
  lemma ZeroPreambleKinds(frame: seq<byte>, numeric: char -> bool)
    requires |frame| >= 3 && frame[0] == 0 && frame[1] == 0
    ensures Classify(frame, numeric) == AvlFrame <==> CodecIs(frame, 0x8E)
    ensures Classify(frame, numeric) == ReplyFrame <==> CodecIs(frame, 0x0C)
    ensures Classify(frame, numeric) == Ignored <==> !CodecIs(frame, 0x8E) && !CodecIs(frame, 0x0C)
  {
    Handshake.ZeroPreambleRejected(frame, numeric);
    ClassifyAgrees(frame, numeric);
  }

  // ---- the demo client's chunks ----

  /** The IMEI "356307042441013" the demo client sends. */
  const SampleImei: seq<byte> :=
    [0x33, 0x35, 0x36, 0x33, 0x30, 0x37, 0x30, 0x34, 0x32, 0x34, 0x34, 0x31, 0x30, 0x31, 0x33]

  /** The demo client's handshake: length 0x000F, then the IMEI. */
  const SampleHandshake: seq<byte> := [0x00, 0x0F] + SampleImei

  lemma SampleImeiIsDigits()
    ensures Utf8.IsAscii(SampleImei) && Handshake.IsAsciiDigits(SampleImei)
  {
  }

  lemma SampleHandshakeFields()
    ensures |SampleHandshake| == 17 && Handshake.DeclaredLength(SampleHandshake) == 15
    ensures Handshake.Payload(SampleHandshake) == SampleHandshake[2..] == SampleImei
  {
    var f := SampleHandshake;
    assert Take(f, 0, 2) == [0x00, 0x0F];
    BETwo([0x00, 0x0F]);
    assert f[2..] == SampleImei;
  }

  lemma SampleHandshakeAccepted(numeric: char -> bool)
    requires Handshake.AsciiAgrees(numeric)
    ensures Classify(SampleHandshake, numeric) == HandshakeFrame(Utf8.AsciiText(SampleImei))
  {
    SampleHandshakeFields();
    SampleImeiIsDigits();
    Handshake.AsciiHandshake(SampleHandshake, numeric);
  }

  /** The demo client's AVL chunk and the two Codec 12 replies are taken
      for what they are. */
  lemma SampleFramesClassified(numeric: char -> bool)
    ensures Classify(AvlSample.Frame, numeric) == AvlFrame
    ensures Classify(Codec12.InfoFrame, numeric) == ReplyFrame
    ensures Classify(Codec12.IoFrame, numeric) == ReplyFrame
  {
    AvlSample.FrameIsEncoded();
    EncodedAvlIsAvl([AvlSample.Record], 0x2994, numeric);
    Codec12.InfoSample("");
    Codec12.IoSample("");
    EncodedReplyIsReply(Codec12.InfoText, 0xC78F, numeric);
    EncodedReplyIsReply(Codec12.IoText, 0x66E3, numeric);
  }
}
