/** The IMEI handshake a tracker sends first: a 2-byte big-endian length
    followed by that many bytes of identifier text.

    `imei_checker` compares the declared length with the byte count after
    the prefix, then strictly UTF-8 decodes the rest and accepts it when the
    text is `isnumeric()` and 15 characters long; `ascii_imei_converter`
    yields that text as the identifier.  Python's `str.isnumeric` consults
    the Unicode character database, which is not part of this model: it
    enters as the predicate `numeric`, and the lemmas that need it ask only
    that it agree with the ASCII digits on the ASCII range.
 */
module Handshake {
  import opened Wire
  import Utf8

  /** The outcome of `imei_checker`: a rejection, an identifier, or the
      UnicodeDecodeError it raises on malformed text. */
  datatype Check = NotHandshake | Accepted(imei: string) | DecodeFault

  /** `int(hex[:4], 16)`: the first two bytes big-endian; a one-byte frame
      contributes its only byte. */
  function DeclaredLength(frame: seq<byte>): nat
  {
    BE(Take(frame, 0, 2))
  }

  /** The bytes after the length prefix, `hex[4:]`. */
  function Payload(frame: seq<byte>): seq<byte>
  {
    Slice(frame, 2, |frame|)
  }

  predicate IsNumeric(text: string, numeric: char -> bool)
  {
    |text| > 0 && forall i :: 0 <= i < |text| ==> numeric(text[i])
  }

  /** `numeric` is `str.isnumeric` on the ASCII range. */
  predicate AsciiAgrees(numeric: char -> bool)
  {
    forall c: char :: c as int < 0x80 ==> (numeric(c) <==> '0' <= c <= '9')
  }

  predicate IsAsciiDigits(s: seq<byte>)
  {
    forall i :: 0 <= i < |s| ==> 0x30 <= s[i] <= 0x39
  }

  function ImeiCheck(frame: seq<byte>, numeric: char -> bool): (r: Check)
    requires |frame| > 0
    ensures r.Accepted? ==> |frame| == 2 + DeclaredLength(frame)
    ensures r.Accepted? ==> |r.imei| == 15 && IsNumeric(r.imei, numeric)
    ensures r.Accepted? ==> Utf8.Encode(r.imei) == frame[2..]
    ensures r.DecodeFault? ==> |frame| == 2 + DeclaredLength(frame)
    ensures r.Accepted? <==>
              && DeclaredLength(frame) == |Payload(frame)|
              && Utf8.Decode(Payload(frame)).Some?
              && |Utf8.Decode(Payload(frame)).value| == 15
              && IsNumeric(Utf8.Decode(Payload(frame)).value, numeric)
    ensures r.Accepted? ==> r.imei == Utf8.Decode(Payload(frame)).value
    ensures r.DecodeFault? <==>
              DeclaredLength(frame) == |Payload(frame)| && Utf8.Decode(Payload(frame)).None?
  {
    var payload := Payload(frame);
    var decoded := Utf8.Decode(payload);
    if DeclaredLength(frame) != |payload| then NotHandshake
    else if decoded.None? then DecodeFault
    else if IsNumeric(decoded.value, numeric) && |decoded.value| == 15 then
      Utf8.EncodeOfDecode(payload);
      assert payload == frame[2..];
      Accepted(decoded.value)
    else NotHandshake
  }

  /** For an ASCII payload the check is exactly "declared length matches and
      the payload is 15 ASCII digits", and the identifier is those digits. */
  lemma AsciiHandshake(frame: seq<byte>, numeric: char -> bool)
    requires |frame| > 0
    requires AsciiAgrees(numeric)
    requires Utf8.IsAscii(Payload(frame))
    ensures !ImeiCheck(frame, numeric).DecodeFault?
    ensures ImeiCheck(frame, numeric).Accepted? <==>
              |frame| == 17 && DeclaredLength(frame) == 15 && IsAsciiDigits(frame[2..])
    ensures ImeiCheck(frame, numeric).Accepted? ==>
              ImeiCheck(frame, numeric).imei == Utf8.AsciiText(frame[2..])
  {
    var p := Payload(frame);
    Utf8.DecodeAscii(p);
    var text := Utf8.AsciiText(p);
    if |frame| >= 2 {
      assert p == frame[2..];
    }
    assert IsNumeric(text, numeric) <==> |p| > 0 && IsAsciiDigits(p) by {
      if |p| > 0 && IsAsciiDigits(p) {
        forall i | 0 <= i < |text| ensures numeric(text[i]) {
          assert text[i] as int == p[i];
        }
      }
      if IsNumeric(text, numeric) {
        forall i | 0 <= i < |p| ensures 0x30 <= p[i] <= 0x39 {
          assert numeric(text[i]);
          assert text[i] as int == p[i];
        }
      }
    }
  }

  /** Frames with a zero preamble (every AVL and Codec 12 frame) are never
      taken for a handshake. */
  lemma ZeroPreambleRejected(frame: seq<byte>, numeric: char -> bool)
    requires |frame| >= 3 && frame[0] == 0 && frame[1] == 0
    ensures ImeiCheck(frame, numeric) == NotHandshake
  {
    assert Take(frame, 0, 2) == [0, 0];
    BETwo([0, 0]);
  }

  /** A payload of the declared length holding a byte that never occurs in
      UTF-8 text (0xC0, 0xC1 or 0xF5 and above) makes the check raise. */
  lemma MalformedTextFaults(frame: seq<byte>, numeric: char -> bool, i: nat)
    requires |frame| > 0 && DeclaredLength(frame) == |frame| - 2
    requires 2 <= i < |frame| && Utf8.NeverInText(frame[i])
    ensures ImeiCheck(frame, numeric) == DecodeFault
  {
    assert Payload(frame) == frame[2..];
    Utf8.NeverByteFails(frame[2..], i - 2);
  }

  /** For instance the three bytes 00 01 FF. */
  lemma MalformedSample(numeric: char -> bool)
    ensures ImeiCheck([0x00, 0x01, 0xFF], numeric) == DecodeFault
  {
    var f: seq<byte> := [0x00, 0x01, 0xFF];
    assert Take(f, 0, 2) == [0x00, 0x01];
    BETwo([0x00, 0x01]);
    MalformedTextFaults(f, numeric, 2);
  }

  /** Fifteen ARABIC-INDIC DIGIT THREE characters (U+0663, two bytes each)
      are numeric to Python, so a 30-byte payload passes the check although
      it holds no ASCII digit. */
  lemma NonAsciiDigitsAccepted(numeric: char -> bool)
    requires numeric('٣')
    ensures var p := seq(30, i => if i % 2 == 0 then 0xD9 else 0xA3);
            ImeiCheck([0x00, 0x1E] + p, numeric) == Accepted(seq(15, i => '٣'))
  {
    var p: seq<byte> := seq(30, i => if i % 2 == 0 then 0xD9 else 0xA3);
    var f := [0x00, 0x1E] + p;
    var text := seq(15, i => '٣');
    assert Take(f, 0, 2) == [0x00, 0x1E];
    BETwo([0x00, 0x1E]);
    assert Payload(f) == p;
    assert Utf8.EncodeChar('٣') == [0xD9, 0xA3];
    assert Utf8.Encode(text) == p by {
      EncodeRepeated(15, '٣', [0xD9, 0xA3]);
    }
    Utf8.DecodeOfEncode(text);
    assert IsNumeric(text, numeric);
  }

  lemma {:induction false} EncodeRepeated(n: nat, c: char, e: seq<byte>)
    requires Utf8.EncodeChar(c) == e && |e| == 2
    ensures Utf8.Encode(seq(n, i => c)) == seq(2 * n, i => e[i % 2])
  {
    if n > 0 {
      var t := seq(n, i => c);
      assert t[1..] == seq(n - 1, i => c);
      EncodeRepeated(n - 1, c, e);
      assert e + seq(2 * (n - 1), i => e[i % 2]) == seq(2 * n, i => e[i % 2]);
    }
  }
}
