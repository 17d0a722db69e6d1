/** The Codec 12 reply decoder (`parse_response_message`).

    A Codec 12 response frame is a 4-byte zero preamble, a 4-byte data
    size, the codec id 0x0C, a response quantity, the type byte 0x06, a
    4-byte response size, the response text, a closing quantity and a
    4-byte CRC.  The decoder reads only the response size at bytes 11..14
    and the text after it: the slice is clamped to the frame, so a size
    larger than what arrived is not an error, and the text is decoded as
    UTF-8 with invalid bytes dropped.  Reading the size raises, and the
    decoder returns None, when the frame has fewer than 15 bytes.
 */
module Codec12 {
  import opened Wire
  import Utf8

  const TextOffset: nat := 15

  /** The dictionary the decoder returns. */
  datatype Reply = Reply(deviceId: string, responseData: string)

  /** The response size field, bytes 11..14. */
  function ResponseSize(data: seq<byte>): nat
    requires |data| >= TextOffset
  {
    BE(data[11..15])
  }

  /** The response bytes the decoder keeps, clamped to the frame. */
  function ResponseBytes(data: seq<byte>): seq<byte>
    requires |data| >= TextOffset
  {
    data[TextOffset .. Min(TextOffset + ResponseSize(data), |data|)]
  }

  function ParseResponse(data: seq<byte>, deviceId: string): (r: Option<Reply>)
    ensures r.None? <==> |data| < TextOffset
    ensures r.Some? ==> r.value.deviceId == deviceId
  {
    if |data| < TextOffset then None
    else Some(Reply(deviceId, Utf8.DecodeIgnoringErrors(ResponseBytes(data))))
  }

  /** The frame a device sends for one response text. */
  function EncodeResponse(text: seq<byte>, crc: nat): (f: seq<byte>)
    requires |text| + 8 < 0x1_0000_0000 && crc < 0x1_0000_0000
    ensures |f| == |text| + 20
  {
    Pow256Values();
    [0x00, 0x00, 0x00, 0x00] + (EncodeBE(|text| + 8, 4)
      + ([0x0C, 0x01, 0x06] + (EncodeBE(|text|, 4)
      + (text + ([0x01] + EncodeBE(crc, 4))))))
  }

  /** The size field of an encoded frame is the text length, and the kept
      bytes are the text. */
  lemma EncodedFields(text: seq<byte>, crc: nat)
    requires |text| + 8 < 0x1_0000_0000 && crc < 0x1_0000_0000
    ensures var f := EncodeResponse(text, crc);
            ResponseSize(f) == |text| && ResponseBytes(f) == text
  {
    Pow256Values();
    var f := EncodeResponse(text, crc);
    var size := EncodeBE(|text|, 4);
    var head := [0x00, 0x00, 0x00, 0x00] + EncodeBE(|text| + 8, 4) + [0x0C, 0x01, 0x06];
    var tail := [0x01] + EncodeBE(crc, 4);
    assert f == head + size + text + tail;
    assert f[11..15] == size;
    BEOfEncode(|text|, 4);
    assert f[15..15 + |text|] == text;
  }

  /** Decoding an encoded frame gives back its text, whatever the CRC. */
  lemma ParseOfEncode(text: seq<byte>, crc: nat, deviceId: string)
    requires |text| + 8 < 0x1_0000_0000 && crc < 0x1_0000_0000
    ensures ParseResponse(EncodeResponse(text, crc), deviceId)
              == Some(Reply(deviceId, Utf8.DecodeIgnoringErrors(text)))
  {
    EncodedFields(text, crc);
  }

  /** For a text that is valid UTF-8 the reply carries exactly that text. */
  lemma ParseOfEncodeText(t: string, crc: nat, deviceId: string)
    requires |Utf8.Encode(t)| + 8 < 0x1_0000_0000 && crc < 0x1_0000_0000
    ensures ParseResponse(EncodeResponse(Utf8.Encode(t), crc), deviceId) == Some(Reply(deviceId, t))
  {
    ParseOfEncode(Utf8.Encode(t), crc, deviceId);
    Utf8.DecodeOfEncode(t);
    Utf8.IgnoringErrorsAgrees(Utf8.Encode(t));
  }

  /** A size larger than what arrived keeps everything after the size. */
  lemma OversizeTruncates(data: seq<byte>, deviceId: string)
    requires |data| >= TextOffset && ResponseSize(data) > |data| - TextOffset
    ensures ParseResponse(data, deviceId) == Some(Reply(deviceId, Utf8.DecodeIgnoringErrors(data[TextOffset..])))
  {
    assert ResponseBytes(data) == data[TextOffset..];
  }

  /** Bytes after the declared text, the closing quantity and the CRC
      among them, do not change the reply. */
  lemma TrailerIgnored(data: seq<byte>, extra: seq<byte>, deviceId: string)
    requires |data| >= TextOffset && TextOffset + ResponseSize(data) <= |data|
    ensures ParseResponse(data + extra, deviceId) == ParseResponse(data, deviceId)
  {
    assert (data + extra)[11..15] == data[11..15];
    var n := ResponseSize(data);
    assert (data + extra)[TextOffset .. TextOffset + n] == data[TextOffset .. TextOffset + n];
  }

  /** Only the size field and the text are read: the preamble, the data
      size, the codec id, the quantity and the type byte may be anything. */
  lemma HeaderIgnored(data: seq<byte>, head: seq<byte>, deviceId: string)
    requires |data| >= TextOffset && |head| == 11
    ensures ParseResponse(head + data[11..], deviceId) == ParseResponse(data, deviceId)
  {
    var g := head + data[11..];
    assert g[11..15] == data[11..15];
    assert g[TextOffset..] == data[TextOffset..];
    assert forall k :: TextOffset <= k <= |data| ==> g[TextOffset..k] == data[TextOffset..k];
  }

  // ---- the two replies the demo device sends ----

  /** The `getinfo` response text: "INI:2019/7/22 7:22 RTC:2019/7/22 7:53
      RST:2 ERR:1 SR:0 BR:0 CF:0 FG:0 FL:0 TU:0/0 UT:0 SMS:0 NOGPS:0:30
      GPS:1 SAT:0 RS:3 RF:65 SF:1 MD:0". */
  const InfoText: seq<byte> :=
    [ 0x49, 0x4E, 0x49, 0x3A, 0x32, 0x30, 0x31, 0x39, 0x2F, 0x37, 0x2F, 0x32,
      0x32, 0x20, 0x37, 0x3A, 0x32, 0x32, 0x20, 0x52, 0x54, 0x43, 0x3A, 0x32,
      0x30, 0x31, 0x39, 0x2F, 0x37, 0x2F, 0x32, 0x32, 0x20, 0x37, 0x3A, 0x35,
      0x33, 0x20, 0x52, 0x53, 0x54, 0x3A, 0x32, 0x20, 0x45, 0x52, 0x52, 0x3A,
      0x31, 0x20, 0x53, 0x52, 0x3A, 0x30, 0x20, 0x42, 0x52, 0x3A, 0x30, 0x20,
      0x43, 0x46, 0x3A, 0x30, 0x20, 0x46, 0x47, 0x3A, 0x30, 0x20, 0x46, 0x4C,
      0x3A, 0x30, 0x20, 0x54, 0x55, 0x3A, 0x30, 0x2F, 0x30, 0x20, 0x55, 0x54,
      0x3A, 0x30, 0x20, 0x53, 0x4D, 0x53, 0x3A, 0x30, 0x20, 0x4E, 0x4F, 0x47,
      0x50, 0x53, 0x3A, 0x30, 0x3A, 0x33, 0x30, 0x20, 0x47, 0x50, 0x53, 0x3A,
      0x31, 0x20, 0x53, 0x41, 0x54, 0x3A, 0x30, 0x20, 0x52, 0x53, 0x3A, 0x33,
      0x20, 0x52, 0x46, 0x3A, 0x36, 0x35, 0x20, 0x53, 0x46, 0x3A, 0x31, 0x20,
      0x4D, 0x44, 0x3A, 0x30 ]

  /** The `getinfo` response frame: data size 0x90, response size 0x88. */
  const InfoFrame: seq<byte> :=
    [0x00, 0x00, 0x00, 0x00] + ([0x00, 0x00, 0x00, 0x90]
      + ([0x0C, 0x01, 0x06] + ([0x00, 0x00, 0x00, 0x88]
      + (InfoText + ([0x01] + [0x00, 0x00, 0xC7, 0x8F])))))

  /** The `getio` response text: "DI1:1 DI2:0 DI3:0 AIN1:0 AIN2:16924 DO1:0
      DO2:1". */
  const IoText: seq<byte> :=
    [ 0x44, 0x49, 0x31, 0x3A, 0x31, 0x20, 0x44, 0x49, 0x32, 0x3A, 0x30, 0x20,
      0x44, 0x49, 0x33, 0x3A, 0x30, 0x20, 0x41, 0x49, 0x4E, 0x31, 0x3A, 0x30,
      0x20, 0x41, 0x49, 0x4E, 0x32, 0x3A, 0x31, 0x36, 0x39, 0x32, 0x34, 0x20,
      0x44, 0x4F, 0x31, 0x3A, 0x30, 0x20, 0x44, 0x4F, 0x32, 0x3A, 0x31 ]

  /** The `getio` response frame: data size 0x37, response size 0x2F. */
  const IoFrame: seq<byte> :=
    [0x00, 0x00, 0x00, 0x00] + ([0x00, 0x00, 0x00, 0x37]
      + ([0x0C, 0x01, 0x06] + ([0x00, 0x00, 0x00, 0x2F]
      + (IoText + ([0x01] + [0x00, 0x00, 0x66, 0xE3])))))

  lemma InfoSample(deviceId: string)
    ensures |InfoText| == 0x88 && |InfoFrame| == 156
    ensures InfoFrame == EncodeResponse(InfoText, 0xC78F)
    ensures ResponseSize(InfoFrame) == 136 && ResponseBytes(InfoFrame) == InfoText
    ensures ParseResponse(InfoFrame, deviceId) == Some(Reply(deviceId, Utf8.DecodeIgnoringErrors(InfoText)))
  {
    Pow256Values();
    assert EncodeBE(144, 4) == [0x00, 0x00, 0x00, 0x90];
    assert EncodeBE(136, 4) == [0x00, 0x00, 0x00, 0x88];
    assert EncodeBE(0xC78F, 4) == [0x00, 0x00, 0xC7, 0x8F];
    assert InfoFrame == EncodeResponse(InfoText, 0xC78F);
    EncodedFields(InfoText, 0xC78F);
  }

  lemma IoSample(deviceId: string)
    ensures |IoText| == 0x2F && |IoFrame| == 67
    ensures IoFrame == EncodeResponse(IoText, 0x66E3)
    ensures ResponseSize(IoFrame) == 47 && ResponseBytes(IoFrame) == IoText
    ensures ParseResponse(IoFrame, deviceId) == Some(Reply(deviceId, Utf8.DecodeIgnoringErrors(IoText)))
  {
    Pow256Values();
    assert EncodeBE(55, 4) == [0x00, 0x00, 0x00, 0x37];
    assert EncodeBE(47, 4) == [0x00, 0x00, 0x00, 0x2F];
    assert EncodeBE(0x66E3, 4) == [0x00, 0x00, 0x66, 0xE3];
    assert IoFrame == EncodeResponse(IoText, 0x66E3);
    EncodedFields(IoText, 0x66E3);
  }

  /** A frame cut short after its size field still decodes, to the part of
      the text that arrived; cut inside the size field it gives None. */
  lemma CutShort(text: seq<byte>, crc: nat, k: nat, deviceId: string)
    requires |text| + 8 < 0x1_0000_0000 && crc < 0x1_0000_0000
    requires k <= |text|
    ensures var f := EncodeResponse(text, crc);
            ParseResponse(f[..TextOffset + k], deviceId) == Some(Reply(deviceId, Utf8.DecodeIgnoringErrors(text[..k])))
            && ParseResponse(f[..14], deviceId) == None
  {
    var f := EncodeResponse(text, crc);
    EncodedFields(text, crc);
    var g := f[..TextOffset + k];
    assert g[11..15] == f[11..15];
    assert ResponseBytes(g) == g[TextOffset..];
    assert g[TextOffset..] == f[TextOffset .. TextOffset + k];
    assert f[TextOffset .. TextOffset + k] == ResponseBytes(f)[..k];
  }
}
