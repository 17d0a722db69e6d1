module AvlSample {
  import opened Wire
  import opened AvlDecode
  import opened AvlEncode

  // The demo tracker's AVL frame, its bytes grouped by field.

  const HeaderBytes: seq<byte> :=
    [0x00, 0x00, 0x01, 0x6B, 0x41, 0x2C, 0xEE, 0x00]      // timestamp
    + ([0x01]                                             // priority
    + ([0x00, 0x00, 0x00, 0x00]                           // longitude
    + ([0x00, 0x00, 0x00, 0x00]                           // latitude
    + ([0x00, 0x00] + ([0x00, 0x00] + ([0x00]             // altitude, angle, satellites
    + ([0x00, 0x00] + ([0x00, 0x01] + [0x00, 0x05]))))))))  // speed, event id, total IO

  const Io1Bytes: seq<byte> := [0x00, 0x01] + ([0x00, 0x01] + [0x01])
  const Io2Bytes: seq<byte> := [0x00, 0x01] + ([0x00, 0x11] + [0x00, 0x1D])
  const Io4Bytes: seq<byte> := [0x00, 0x01] + ([0x00, 0x10] + [0x01, 0x5E, 0x2C, 0x88])
  const Io8Bytes: seq<byte> := [0x00, 0x02]
    + (([0x00, 0x0B] + [0x00, 0x00, 0x00, 0x00, 0x35, 0x44, 0xC8, 0x7A])
    + ([0x00, 0x0E] + [0x00, 0x00, 0x00, 0x00, 0x1D, 0xD7, 0xE0, 0x6A]))
  const VarBytes: seq<byte> := [0x00, 0x00]

  const RecordBytes: seq<byte> := HeaderBytes + (Io1Bytes + (Io2Bytes + (Io4Bytes + (Io8Bytes + VarBytes))))

  /** Preamble, data-field length 0x4A, codec id, record count, the record,
      record count, CRC. */
  const Frame: seq<byte> :=
    [0x00, 0x00, 0x00, 0x00] + ([0x00, 0x00, 0x00, 0x4A] + ([0x8E, 0x01]
      + (RecordBytes + ([0x01] + [0x00, 0x00, 0x29, 0x94]))))

  const Record: RawRecord := RawRecord(
    Header(0x0000_016B_412C_EE00, [0x01], 0, 0, 0, 0, 0, 0, 1, 5),
    [IoElement(0x01, 0x01)],
    [IoElement(0x11, 0x1D)],
    [IoElement(0x10, 0x015E_2C88)],
    [IoElement(0x0B, 0x3544_C87A), IoElement(0x0E, 0x1DD7_E06A)],
    [])

  lemma HeaderIsEncoded()
    ensures HeaderEncodable(Record.header) && EncodeHeader(Record.header) == HeaderBytes
  {
    Pow256Values();
    assert EncodeBE(0x0000_016B_412C_EE00, 8) == [0x00, 0x00, 0x01, 0x6B, 0x41, 0x2C, 0xEE, 0x00];
    assert EncodeBE(0, 4) == [0x00, 0x00, 0x00, 0x00];
    assert EncodeBE(0, 2) == [0x00, 0x00];
    assert EncodeBE(0, 1) == [0x00];
    assert EncodeBE(1, 2) == [0x00, 0x01];
    assert EncodeBE(5, 2) == [0x00, 0x05];
  }

  lemma TiersAreEncoded()
    ensures TierEncodable(Record.io1, 1) && EncodeTier(Record.io1, 1) == Io1Bytes
    ensures TierEncodable(Record.io2, 2) && EncodeTier(Record.io2, 2) == Io2Bytes
    ensures TierEncodable(Record.io4, 4) && EncodeTier(Record.io4, 4) == Io4Bytes
  {
    Pow256Values();
  }

  /** A value that fits 4 bytes takes 8 with four leading zero bytes. */
  lemma Widened(v: nat, b: seq<byte>)
    requires v < 0x1_0000_0000 && |b| == 4
    requires Pow256(4) == 0x1_0000_0000 && EncodeBE(v, 4) == b
    ensures Pow256(8) > v && EncodeBE(v, 8) == [0x00, 0x00, 0x00, 0x00] + b
  {
    assert EncodeBE(0, 4) == [0x00, 0x00, 0x00, 0x00];
    Widen(v, 4, 4);
  }

  /** The keys, the count and the two 8-byte values of the 8-byte tier. */
  lemma Element8Bytes()
    ensures EncodeBE(0x3544_C87A, 8) == [0x00, 0x00, 0x00, 0x00, 0x35, 0x44, 0xC8, 0x7A]
    ensures EncodeBE(0x1DD7_E06A, 8) == [0x00, 0x00, 0x00, 0x00, 0x1D, 0xD7, 0xE0, 0x6A]
    ensures EncodeBE(0x0B, 2) == [0x00, 0x0B] && EncodeBE(0x0E, 2) == [0x00, 0x0E]
    ensures EncodeBE(2, 2) == [0x00, 0x02]
  {
    Pow256Values();
    Widened(0x3544_C87A, [0x35, 0x44, 0xC8, 0x7A]);
    Widened(0x1DD7_E06A, [0x1D, 0xD7, 0xE0, 0x6A]);
  }

  lemma Tier8IsEncoded()
    ensures TierEncodable(Record.io8, 8) && EncodeTier(Record.io8, 8) == Io8Bytes
  {
    Pow256Values();
    Element8Bytes();
    var x := IoElement(0x0B, 0x3544_C87A);
    var y := IoElement(0x0E, 0x1DD7_E06A);
    assert Record.io8 == [x, y] && [x, y][1..] == [y] && [y][1..] == [];
  }

  lemma RecordIsEncoded()
    ensures Encodable(Record) && RecordSize(Record, true) == 71
    ensures EncodeRecord(Record) == RecordBytes
  {
    HeaderIsEncoded();
    TiersAreEncoded();
    Tier8IsEncoded();
    assert EncodeBE(|Record.variable|, 2) + EncodeVarElements(Record.variable) == VarBytes;
  }

  lemma RecordsAreEncoded()
    ensures Encodable(Record) && RecordsSize([Record], true) == 71
    ensures EncodeRecords([Record]) == RecordBytes
  {
    RecordIsEncoded();
    assert [Record][1..] == [];
  }

  lemma FrameIsEncoded()
    ensures Encodable(Record) && RecordsSize([Record], true) == 71
    ensures Frame == EncodeFrame([Record], 0x2994)
  {
    Pow256Values();
    RecordsAreEncoded();
    assert EncodeBE(74, 4) == [0x00, 0x00, 0x00, 0x4A];
    assert EncodeBE(0x2994, 4) == [0x00, 0x00, 0x29, 0x94];
  }

  /** The frame holds one record and the record loop stops at cursor 71. */
  lemma SampleDecodes()
    ensures DecodeFrame(Frame) == Ok(Parsed([Record], 71))
  {
    FrameIsEncoded();
    DecodeFrameOfEncode([Record], 0x2994);
  }
}
