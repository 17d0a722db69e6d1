/** UTF-8 text decoding as Python's `bytes.decode` performs it.

    The handshake check decodes strictly (`.decode()`, which raises on a
    malformed sequence) and the Codec 12 decoder decodes with
    `errors="ignore"`, which drops the bytes of every malformed sequence.
    Well-formedness follows Table 3-7 of the Unicode Standard (no overlong
    forms, no surrogates, nothing above U+10FFFF), which is what CPython's
    decoder enforces.
 */
module Utf8 {
  import opened Wire

  predicate Cont(b: byte) { 0x80 <= b <= 0xBF }

  /** The scalar value of the well-formed sequence that starts `s`, with its
      length in bytes, or None when `s` does not start with one. */
  function Scalar(s: seq<byte>): (r: Option<(char, nat)>)
    ensures r.Some? ==> 1 <= r.value.1 <= 4 && r.value.1 <= |s|
  {
    if |s| == 0 then None
    else
      var b0: int := s[0];
      if b0 <= 0x7F then Some((b0 as char, 1))
      else if 0xC2 <= b0 <= 0xDF then
        if |s| >= 2 && Cont(s[1]) then
          Some((((b0 - 0xC0) * 64 + (s[1] as int - 0x80)) as char, 2))
        else None
      else if 0xE0 <= b0 <= 0xEF then
        var lo := if b0 == 0xE0 then 0xA0 else 0x80;
        var hi := if b0 == 0xED then 0x9F else 0xBF;
        if |s| >= 3 && lo <= s[1] <= hi && Cont(s[2]) then
          Some((((b0 - 0xE0) * 4096 + (s[1] as int - 0x80) * 64 + (s[2] as int - 0x80)) as char, 3))
        else None
      else if 0xF0 <= b0 <= 0xF4 then
        var lo := if b0 == 0xF0 then 0x90 else 0x80;
        var hi := if b0 == 0xF4 then 0x8F else 0xBF;
        if |s| >= 4 && lo <= s[1] <= hi && Cont(s[2]) && Cont(s[3]) then
          Some((((b0 - 0xF0) * 262144 + (s[1] as int - 0x80) * 4096 + (s[2] as int - 0x80) * 64 + (s[3] as int - 0x80)) as char, 4))
        else None
      else None
  }

  /** Strict decoding: None where Python raises UnicodeDecodeError. */
  function Decode(s: seq<byte>): Option<string>
    decreases |s|
  {
    if s == [] then Some([])
    else
      match Scalar(s)
      case None => None
      case Some((c, n)) =>
        match Decode(s[n..])
        case None => None
        case Some(t) => Some([c] + t)
  }

  /** Decoding with `errors="ignore"`.  CPython drops the maximal invalid
      prefix of a broken sequence; every byte after its first is a
      continuation byte, which cannot start a sequence either, so dropping
      one byte at a time drops the same bytes. */
  function DecodeIgnoringErrors(s: seq<byte>): string
    decreases |s|
  {
    if s == [] then []
    else
      match Scalar(s)
      case None => DecodeIgnoringErrors(s[1..])
      case Some((c, n)) => [c] + DecodeIgnoringErrors(s[n..])
  }

  /** The UTF-8 encoding of one scalar value. */
  function EncodeChar(c: char): (r: seq<byte>)
    ensures 1 <= |r| <= 4
  {
    var n := c as int;
    var q1 := n / 64;
    var q2 := q1 / 64;
    if n < 0x80 then [n]
    else if n < 0x800 then [0xC0 + q1, 0x80 + n % 64]
    else if n < 0x10000 then [0xE0 + q2, 0x80 + q1 % 64, 0x80 + n % 64]
    else [0xF0 + q2 / 64, 0x80 + q2 % 64, 0x80 + q1 % 64, 0x80 + n % 64]
  }

  function Encode(t: string): seq<byte>
  {
    if t == [] then [] else EncodeChar(t[0]) + Encode(t[1..])
  }

  lemma ScalarOfEncodeChar(c: char, rest: seq<byte>)
    ensures Scalar(EncodeChar(c) + rest) == Some((c, |EncodeChar(c)|))
  {
    var n := c as int;
    var q1 := n / 64;
    var q2 := q1 / 64;
    var s := EncodeChar(c) + rest;
    if n < 0x80 {
    } else if n < 0x800 {
      assert s[0] as int - 0xC0 == q1 && s[1] as int - 0x80 == n % 64;
    } else if n < 0x10000 {
      assert s[0] as int - 0xE0 == q2 && s[1] as int - 0x80 == q1 % 64 && s[2] as int - 0x80 == n % 64;
    } else {
      assert s[0] as int - 0xF0 == q2 / 64 && s[1] as int - 0x80 == q2 % 64;
      assert s[2] as int - 0x80 == q1 % 64 && s[3] as int - 0x80 == n % 64;
    }
  }

  lemma EncodeCharOfScalar(s: seq<byte>)
    requires Scalar(s).Some?
    ensures EncodeChar(Scalar(s).value.0) == s[..Scalar(s).value.1]
  {
    var c := Scalar(s).value.0;
    var n := c as int;
    var b0: int := s[0];
    if b0 <= 0x7F {
    } else if b0 <= 0xDF {
      assert n == (b0 - 0xC0) * 64 + (s[1] as int - 0x80);
    } else if b0 <= 0xEF {
      var q1 := (b0 - 0xE0) * 64 + (s[1] as int - 0x80);
      assert n == q1 * 64 + (s[2] as int - 0x80);
      assert n / 64 == q1;
    } else {
      var q2 := (b0 - 0xF0) * 64 + (s[1] as int - 0x80);
      var q1 := q2 * 64 + (s[2] as int - 0x80);
      assert n == q1 * 64 + (s[3] as int - 0x80);
      assert n / 64 == q1;
      assert q1 / 64 == q2;
    }
  }

  /** Decoding undoes encoding. */
  lemma {:induction false} DecodeOfEncode(t: string)
    ensures Decode(Encode(t)) == Some(t)
  {
    if t != [] {
      var e := EncodeChar(t[0]);
      ScalarOfEncodeChar(t[0], Encode(t[1..]));
      assert (e + Encode(t[1..]))[|e|..] == Encode(t[1..]);
      DecodeOfEncode(t[1..]);
      assert [t[0]] + t[1..] == t;
    }
  }

  /** A successful strict decode recovers exactly the bytes it was given. */
  lemma {:induction false} EncodeOfDecode(s: seq<byte>)
    requires Decode(s).Some?
    ensures Encode(Decode(s).value) == s
    decreases |s|
  {
    if s != [] {
      var n := Scalar(s).value.1;
      EncodeCharOfScalar(s);
      EncodeOfDecode(s[n..]);
      assert s == s[..n] + s[n..];
    }
  }

  /** Where strict decoding succeeds, ignoring errors changes nothing. */
  lemma {:induction false} IgnoringErrorsAgrees(s: seq<byte>)
    requires Decode(s).Some?
    ensures DecodeIgnoringErrors(s) == Decode(s).value
    decreases |s|
  {
    if s != [] {
      IgnoringErrorsAgrees(s[Scalar(s).value.1..]);
    }
  }

  /** Bytes that no well-formed UTF-8 text contains. */
  predicate NeverInText(b: byte)
  {
    b == 0xC0 || b == 0xC1 || b >= 0xF5
  }

  /** Every byte of a well-formed sequence may occur in text. */
  lemma ScalarBytes(s: seq<byte>)
    requires Scalar(s).Some?
    ensures forall j :: 0 <= j < Scalar(s).value.1 ==> !NeverInText(s[j])
  {
  }

  /** A byte that never occurs in UTF-8 makes strict decoding fail. */
  lemma {:induction false} NeverByteFails(s: seq<byte>, i: nat)
    requires i < |s| && NeverInText(s[i])
    ensures Decode(s).None?
    decreases |s|
  {
    if Scalar(s).Some? {
      ScalarBytes(s);
      var n := Scalar(s).value.1;
      if i >= n {
        NeverByteFails(s[n..], i - n);
      }
    }
  }

  predicate IsAscii(s: seq<byte>)
  {
    forall i :: 0 <= i < |s| ==> s[i] < 0x80
  }

  /** Each byte read as the character with that code. */
  function AsciiText(s: seq<byte>): (t: string)
    requires IsAscii(s)
    ensures |t| == |s|
    ensures forall i :: 0 <= i < |s| ==> t[i] as int == s[i]
  {
    if s == [] then [] else [s[0] as char] + AsciiText(s[1..])
  }

  /** ASCII bytes decode one character per byte. */
  lemma {:induction false} DecodeAscii(s: seq<byte>)
    requires IsAscii(s)
    ensures Decode(s) == Some(AsciiText(s))
  {
    if s != [] {
      assert Scalar(s) == Some((s[0] as char, 1));
      DecodeAscii(s[1..]);
    }
  }
}
