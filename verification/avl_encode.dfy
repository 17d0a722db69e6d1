/** An encoder for Codec 8 Extended frames that `AvlDecode` inverts.

    It writes what the decoder reads, including the one byte the decoder
    steps over after each variable-width value (written here as 0x00).  A
    tracker does not send that byte, so for a real frame with variable-width
    elements the decoder's cursor drifts by one byte per element.

    The round-trip lemmas say that decoding an encoded record returns that
    record and advances the cursor by exactly `RecordSize`, and that the
    record loop stops exactly after the last encoded record.
 */
module AvlEncode {
  import opened Wire
  import opened AvlDecode

  const Filler: byte := 0x00

  predicate HeaderEncodable(h: Header)
  {
    && h.timestampMs < 0x1_0000_0000_0000_0000 && h.timestampMs / 1000 < FirstBadSecond
    && |h.priority| == 1
    && h.longitude < 0x1_0000_0000 && h.latitude < 0x1_0000_0000
    && h.altitude < 0x1_0000 && h.angle < 0x1_0000 && h.satellites < 0x100
    && h.speed < 0x1_0000 && h.eventId < 0x1_0000 && h.totalIo < 0x1_0000
  }

  predicate TierEncodable(els: seq<IoElement>, w: nat)
  {
    |els| < 0x1_0000 && TierBounded(els, w)
  }

  predicate VarEncodable(vs: seq<VarElement>)
  {
    |vs| < 0x1_0000 && forall v :: v in vs ==> v.key < 0x1_0000 && 1 <= |v.value| < 0x1_0000
  }

  predicate Encodable(r: RawRecord)
  {
    && HeaderEncodable(r.header)
    && TierEncodable(r.io1, 1) && TierEncodable(r.io2, 2)
    && TierEncodable(r.io4, 4) && TierEncodable(r.io8, 8)
    && VarEncodable(r.variable)
  }

  function EncodeHeader(h: Header): (e: seq<byte>)
    requires HeaderEncodable(h)
    ensures |e| == FixedSize
  {
    Pow256Values();
    EncodeBE(h.timestampMs, 8) + (h.priority + (EncodeBE(h.longitude, 4) + (EncodeBE(h.latitude, 4)
      + (EncodeBE(h.altitude, 2) + (EncodeBE(h.angle, 2) + (EncodeBE(h.satellites, 1)
      + (EncodeBE(h.speed, 2) + (EncodeBE(h.eventId, 2) + EncodeBE(h.totalIo, 2)))))))))
  }

  function EncodeElements(els: seq<IoElement>, w: nat): (e: seq<byte>)
    requires TierBounded(els, w)
    ensures |e| == ElementsSize(els, w)
  {
    if els == [] then []
    else
      Pow256Values();
      assert els[0] in els;
      assert TierBounded(els[1..], w) by {
        forall x | x in els[1..] ensures x in els { }
      }
      EncodeBE(els[0].key, 2) + (EncodeBE(els[0].value, w) + EncodeElements(els[1..], w))
  }

  function EncodeTier(els: seq<IoElement>, w: nat): (e: seq<byte>)
    requires TierEncodable(els, w)
    ensures |e| == TierSize(els, w)
  {
    Pow256Values();
    EncodeBE(|els|, 2) + EncodeElements(els, w)
  }

  function EncodeVarElements(vs: seq<VarElement>): (e: seq<byte>)
    requires forall v :: v in vs ==> v.key < 0x1_0000 && |v.value| < 0x1_0000
    ensures |e| == VarSize(vs)
  {
    if vs == [] then []
    else
      Pow256Values();
      assert vs[0] in vs;
      EncodeBE(vs[0].key, 2) + (EncodeBE(|vs[0].value|, 2) + (vs[0].value + ([Filler] + EncodeVarElements(vs[1..]))))
  }

  function EncodeRecord(r: RawRecord): (e: seq<byte>)
    requires Encodable(r)
    ensures |e| == RecordSize(r, true)
  {
    Pow256Values();
    EncodeHeader(r.header) + (EncodeTier(r.io1, 1) + (EncodeTier(r.io2, 2) + (EncodeTier(r.io4, 4)
      + (EncodeTier(r.io8, 8) + (EncodeBE(|r.variable|, 2) + EncodeVarElements(r.variable))))))
  }

  function EncodeRecords(rs: seq<RawRecord>): (e: seq<byte>)
    requires forall r :: r in rs ==> Encodable(r)
    ensures |e| == RecordsSize(rs, true)
  {
    if rs == [] then []
    else
      assert rs[0] in rs;
      EncodeRecord(rs[0]) + EncodeRecords(rs[1..])
  }

  /** A whole frame: zero preamble, data-field length (codec id, count,
      records and trailing count), codec 0x8E, count, records, count, CRC. */
  function EncodeFrame(rs: seq<RawRecord>, crc: nat): (f: seq<byte>)
    requires forall r :: r in rs ==> Encodable(r)
    requires |rs| < 0x100 && crc < 0x1_0000_0000
    requires RecordsSize(rs, true) + 3 < 0x1_0000_0000
  {
    Pow256Values();
    [0, 0, 0, 0] + (EncodeBE(RecordsSize(rs, true) + 3, 4) + ([0x8E, |rs|]
      + (EncodeRecords(rs) + ([|rs|] + EncodeBE(crc, 4)))))
  }

  // ---- round trip ----

  /** Every field of an encoded header reads back at its offset. */
  lemma HeaderReads(buf: seq<byte>, c: nat, h: Header)
    requires HeaderEncodable(h)
    requires At(buf, c, EncodeHeader(h))
    ensures c + FixedSize <= |buf|
    ensures ReadUint(buf, c, 8) == Ok(Parsed(h.timestampMs, c + 8))
    ensures Skip(buf, c + 8, 1) == Parsed(h.priority, c + 9)
    ensures ReadUint(buf, c + 9, 4) == Ok(Parsed(h.longitude, c + 13))
    ensures ReadUint(buf, c + 13, 4) == Ok(Parsed(h.latitude, c + 17))
    ensures ReadUint(buf, c + 17, 2) == Ok(Parsed(h.altitude, c + 19))
    ensures ReadUint(buf, c + 19, 2) == Ok(Parsed(h.angle, c + 21))
    ensures ReadUint(buf, c + 21, 1) == Ok(Parsed(h.satellites, c + 22))
    ensures ReadUint(buf, c + 22, 2) == Ok(Parsed(h.speed, c + 24))
    ensures ReadUint(buf, c + 24, 2) == Ok(Parsed(h.eventId, c + 26))
    ensures ReadUint(buf, c + 26, 2) == Ok(Parsed(h.totalIo, c + 28))
  {
    Pow256Values();
    var e7 := EncodeBE(h.eventId, 2) + EncodeBE(h.totalIo, 2);
    var e6 := EncodeBE(h.speed, 2) + e7;
    var e5 := EncodeBE(h.satellites, 1) + e6;
    var e4 := EncodeBE(h.angle, 2) + e5;
    var e3 := EncodeBE(h.altitude, 2) + e4;
    var e2 := EncodeBE(h.latitude, 4) + e3;
    var e1 := EncodeBE(h.longitude, 4) + e2;
    var e0 := h.priority + e1;
    AtSplit(buf, c, EncodeBE(h.timestampMs, 8), e0, c + 8);
    ReadEncoded(buf, c, h.timestampMs, 8);
    AtSplit(buf, c + 8, h.priority, e1, c + 9);
    SubSlice(buf, c + 8, 1);
    AtSplit(buf, c + 9, EncodeBE(h.longitude, 4), e2, c + 13);
    ReadEncoded(buf, c + 9, h.longitude, 4);
    AtSplit(buf, c + 13, EncodeBE(h.latitude, 4), e3, c + 17);
    ReadEncoded(buf, c + 13, h.latitude, 4);
    AtSplit(buf, c + 17, EncodeBE(h.altitude, 2), e4, c + 19);
    ReadEncoded(buf, c + 17, h.altitude, 2);
    AtSplit(buf, c + 19, EncodeBE(h.angle, 2), e5, c + 21);
    ReadEncoded(buf, c + 19, h.angle, 2);
    AtSplit(buf, c + 21, EncodeBE(h.satellites, 1), e6, c + 22);
    ReadEncoded(buf, c + 21, h.satellites, 1);
    AtSplit(buf, c + 22, EncodeBE(h.speed, 2), e7, c + 24);
    ReadEncoded(buf, c + 22, h.speed, 2);
    AtSplit(buf, c + 24, EncodeBE(h.eventId, 2), EncodeBE(h.totalIo, 2), c + 26);
    ReadEncoded(buf, c + 24, h.eventId, 2);
    ReadEncoded(buf, c + 26, h.totalIo, 2);
  }

  /** The header decoder put together from its field reads. */
  lemma HeaderStep(buf: seq<byte>, c: nat, h: Header)
    requires h.timestampMs / 1000 < FirstBadSecond
    requires ReadUint(buf, c, 8) == Ok(Parsed(h.timestampMs, c + 8))
    requires Skip(buf, c + 8, 1) == Parsed(h.priority, c + 9)
    requires ReadUint(buf, c + 9, 4) == Ok(Parsed(h.longitude, c + 13))
    requires ReadUint(buf, c + 13, 4) == Ok(Parsed(h.latitude, c + 17))
    requires ReadUint(buf, c + 17, 2) == Ok(Parsed(h.altitude, c + 19))
    requires ReadUint(buf, c + 19, 2) == Ok(Parsed(h.angle, c + 21))
    requires ReadUint(buf, c + 21, 1) == Ok(Parsed(h.satellites, c + 22))
    requires ReadUint(buf, c + 22, 2) == Ok(Parsed(h.speed, c + 24))
    requires ReadUint(buf, c + 24, 2) == Ok(Parsed(h.eventId, c + 26))
    requires ReadUint(buf, c + 26, 2) == Ok(Parsed(h.totalIo, c + 28))
    ensures DecodeHeader(buf, c) == Ok(Parsed(h, c + FixedSize))
  {
  }

  lemma DecodeHeaderOfEncode(buf: seq<byte>, c: nat, h: Header)
    requires HeaderEncodable(h)
    requires At(buf, c, EncodeHeader(h))
    ensures DecodeHeader(buf, c) == Ok(Parsed(h, c + FixedSize))
  {
    HeaderReads(buf, c, h);
    HeaderStep(buf, c, h);
  }

  /** A key and a `w`-byte value read back from their encoding, with `rest`
      after them. */
  lemma PairFields(buf: seq<byte>, c: nat, key: nat, value: nat, w: nat, rest: seq<byte>)
    requires w >= 1 && key < 0x1_0000 && value < Pow256(w)
    requires At(buf, c, EncodeBE(key, 2) + (EncodeBE(value, w) + rest))
    ensures c + 2 + w <= |buf|
    ensures ReadFull(buf, c, 2) == Ok(Parsed(key, c + 2))
    ensures ReadUint(buf, c + 2, w) == Ok(Parsed(value, c + 2 + w))
    ensures At(buf, c + 2 + w, rest)
  {
    Pow256Values();
    AtSplit(buf, c, EncodeBE(key, 2), EncodeBE(value, w) + rest, c + 2);
    ReadEncoded(buf, c, key, 2);
    AtSplit(buf, c + 2, EncodeBE(value, w), rest, c + 2 + w);
    ReadEncoded(buf, c + 2, value, w);
  }

  /** The first element of an encoded tier reads back, and the rest of the
      encoding follows it. */
  lemma TierHead(buf: seq<byte>, c: nat, els: seq<IoElement>, w: nat)
    requires w >= 1 && TierBounded(els, w) && els != []
    requires At(buf, c, EncodeElements(els, w))
    ensures c + 2 + w <= |buf|
    ensures ReadFull(buf, c, 2) == Ok(Parsed(els[0].key, c + 2))
    ensures ReadUint(buf, c + 2, w) == Ok(Parsed(els[0].value, c + 2 + w))
    ensures At(buf, c + 2 + w, EncodeElements(els[1..], w)) && TierBounded(els[1..], w)
  {
    assert els[0] in els;
    PairFields(buf, c, els[0].key, els[0].value, w, EncodeElements(els[1..], w));
    assert TierBounded(els[1..], w) by {
      forall x | x in els[1..] ensures x in els { }
    }
  }

  /** `n` pairs decoded from cursor `c` are `els`, ending at `next`. */
  ghost predicate TierDecodes(buf: seq<byte>, c: nat, w: nat, n: nat, els: seq<IoElement>, next: nat)
    requires w >= 1 && c <= |buf|
  {
    DecodeTier(buf, c, w, n) == Ok(Parsed(els, next))
  }

  /** One step of the tier loop: the first pair read back, then the rest. */
  lemma TierStep(buf: seq<byte>, c: nat, els: seq<IoElement>, w: nat, n: nat, next: nat)
    requires w >= 1 && n == |els| && n >= 1 && c + 2 + w <= |buf|
    requires ReadFull(buf, c, 2) == Ok(Parsed(els[0].key, c + 2))
    requires ReadUint(buf, c + 2, w) == Ok(Parsed(els[0].value, c + 2 + w))
    requires TierDecodes(buf, c + 2 + w, w, n - 1, els[1..], next)
    ensures TierDecodes(buf, c, w, n, els, next)
  {
    assert [IoElement(els[0].key, els[0].value)] + els[1..] == els;
  }

  lemma {:induction false} TierLoop(buf: seq<byte>, c: nat, els: seq<IoElement>, w: nat, n: nat, next: nat)
    requires w >= 1 && TierBounded(els, w) && n == |els|
    requires At(buf, c, EncodeElements(els, w))
    requires next == c + ElementsSize(els, w)
    ensures c <= |buf| && TierDecodes(buf, c, w, n, els, next)
    decreases n
  {
    if n > 0 {
      TierHead(buf, c, els, w);
      TierLoop(buf, c + 2 + w, els[1..], w, n - 1, next);
      TierStep(buf, c, els, w, n, next);
    }
  }

  /** Decoding `n == |els|` pairs from their encoding yields them and stops
      at `next`, the end of the encoding. */
  lemma DecodeTierOfEncode(buf: seq<byte>, c: nat, els: seq<IoElement>, w: nat, n: nat, next: nat)
    requires w >= 1 && TierBounded(els, w) && n == |els|
    requires At(buf, c, EncodeElements(els, w))
    requires next == c + ElementsSize(els, w)
    ensures DecodeTier(buf, c, w, n) == Ok(Parsed(els, next))
  {
    TierLoop(buf, c, els, w, n, next);
  }

  lemma DecodeCountedTierOfEncode(buf: seq<byte>, c: nat, els: seq<IoElement>, w: nat, next: nat)
    requires w >= 1 && TierEncodable(els, w)
    requires At(buf, c, EncodeTier(els, w))
    requires next == c + TierSize(els, w)
    ensures DecodeCountedTier(buf, c, w) == Ok(Parsed(els, next))
  {
    Pow256Values();
    AtSplit(buf, c, EncodeBE(|els|, 2), EncodeElements(els, w), c + 2);
    ReadEncoded(buf, c, |els|, 2);
    DecodeTierOfEncode(buf, c + 2, els, w, |els|, next);
  }

  predicate VarElementsEncodable(vs: seq<VarElement>)
  {
    forall v :: v in vs ==> v.key < 0x1_0000 && 1 <= |v.value| < 0x1_0000
  }

  /** A value and the filler byte read back from their encoding, with
      `rest` after them. */
  lemma ValueFields(buf: seq<byte>, c: nat, value: seq<byte>, rest: seq<byte>)
    requires At(buf, c, value + ([Filler] + rest))
    ensures c + 1 + |value| <= |buf|
    ensures Take(buf, c, |value|) == value
    ensures At(buf, c + 1 + |value|, rest)
  {
    AtSplit(buf, c, value, [Filler] + rest, c + |value|);
    SubSlice(buf, c, |value|);
    AtSplit(buf, c + |value|, [Filler], rest, c + 1 + |value|);
  }

  /** A key, a length, a value and the filler byte read back from their
      encoding, with `rest` after them. */
  lemma VarFields(buf: seq<byte>, c: nat, key: nat, value: seq<byte>, rest: seq<byte>)
    requires key < 0x1_0000 && |value| < 0x1_0000
    requires At(buf, c, EncodeBE(key, 2) + (EncodeBE(|value|, 2) + (value + ([Filler] + rest))))
    ensures c + 5 + |value| <= |buf|
    ensures ReadFull(buf, c, 2) == Ok(Parsed(key, c + 2))
    ensures ReadFull(buf, c + 2, 2) == Ok(Parsed(|value|, c + 4))
    ensures Take(buf, c + 4, |value|) == value
    ensures At(buf, c + 5 + |value|, rest)
  {
    Pow256Values();
    var n := |value|;
    AtSplit(buf, c, EncodeBE(key, 2), EncodeBE(n, 2) + (value + ([Filler] + rest)), c + 2);
    ReadEncoded(buf, c, key, 2);
    AtSplit(buf, c + 2, EncodeBE(n, 2), value + ([Filler] + rest), c + 4);
    ReadEncoded(buf, c + 2, n, 2);
    ValueFields(buf, c + 4, value, rest);
  }

  lemma VarTailEncodable(vs: seq<VarElement>)
    requires VarElementsEncodable(vs) && vs != []
    ensures VarElementsEncodable(vs[1..])
  {
    forall x | x in vs[1..] ensures x in vs { }
  }

  /** `n` triples decoded from cursor `c` are `vs`, ending at `next`. */
  ghost predicate VarDecodes(buf: seq<byte>, c: nat, n: nat, vs: seq<VarElement>, next: nat)
  {
    DecodeVarTier(buf, c, n) == Ok(Parsed(vs, next))
  }

  lemma VarStep(buf: seq<byte>, c: nat, vs: seq<VarElement>, n: nat, next: nat)
    requires n == |vs| && n >= 1 && |vs[0].value| >= 1 && c + 5 + |vs[0].value| <= |buf|
    requires ReadFull(buf, c, 2) == Ok(Parsed(vs[0].key, c + 2))
    requires ReadFull(buf, c + 2, 2) == Ok(Parsed(|vs[0].value|, c + 4))
    requires Take(buf, c + 4, |vs[0].value|) == vs[0].value
    requires VarDecodes(buf, c + 5 + |vs[0].value|, n - 1, vs[1..], next)
    ensures VarDecodes(buf, c, n, vs, next)
  {
    assert [VarElement(vs[0].key, vs[0].value)] + vs[1..] == vs;
  }

  lemma {:induction false} VarLoop(buf: seq<byte>, c: nat, vs: seq<VarElement>, n: nat, next: nat)
    requires VarElementsEncodable(vs) && n == |vs|
    requires At(buf, c, EncodeVarElements(vs))
    requires next == c + VarSize(vs)
    ensures VarDecodes(buf, c, n, vs, next)
    decreases n
  {
    if n > 0 {
      assert vs[0] in vs;
      var rest := EncodeVarElements(vs[1..]);
      assert EncodeVarElements(vs) ==
        EncodeBE(vs[0].key, 2) + (EncodeBE(|vs[0].value|, 2) + (vs[0].value + ([Filler] + rest)));
      VarFields(buf, c, vs[0].key, vs[0].value, rest);
      VarTailEncodable(vs);
      VarLoop(buf, c + 5 + |vs[0].value|, vs[1..], n - 1, next);
      VarStep(buf, c, vs, n, next);
    }
  }

  lemma DecodeVarTierOfEncode(buf: seq<byte>, c: nat, vs: seq<VarElement>, n: nat, next: nat)
    requires VarElementsEncodable(vs) && n == |vs|
    requires At(buf, c, EncodeVarElements(vs))
    requires next == c + VarSize(vs)
    ensures DecodeVarTier(buf, c, n) == Ok(Parsed(vs, next))
  {
    VarLoop(buf, c, vs, n, next);
  }

  lemma DecodeVarSectionOfEncode(buf: seq<byte>, c: nat, vs: seq<VarElement>, next: nat)
    requires VarEncodable(vs)
    requires At(buf, c, EncodeBE(|vs|, 2) + EncodeVarElements(vs))
    requires next == c + 2 + VarSize(vs)
    ensures DecodeVarSection(buf, c) == Ok(Parsed(vs, next))
  {
    Pow256Values();
    AtSplit(buf, c, EncodeBE(|vs|, 2), EncodeVarElements(vs), c + 2);
    ReadEncoded(buf, c, |vs|, 2);
    DecodeVarTierOfEncode(buf, c + 2, vs, |vs|, next);
  }

  /** Where each part of an encoded record sits. */
  lemma RecordParts(buf: seq<byte>, c: nat, r: RawRecord, c1: nat, c2: nat, c4: nat, c8: nat, cv: nat)
    requires Encodable(r)
    requires At(buf, c, EncodeRecord(r))
    requires c1 == c + FixedSize && c2 == c1 + TierSize(r.io1, 1) && c4 == c2 + TierSize(r.io2, 2)
    requires c8 == c4 + TierSize(r.io4, 4) && cv == c8 + TierSize(r.io8, 8)
    ensures At(buf, c, EncodeHeader(r.header))
    ensures At(buf, c1, EncodeTier(r.io1, 1))
    ensures At(buf, c2, EncodeTier(r.io2, 2))
    ensures At(buf, c4, EncodeTier(r.io4, 4))
    ensures At(buf, c8, EncodeTier(r.io8, 8))
    ensures At(buf, cv, EncodeBE(|r.variable|, 2) + EncodeVarElements(r.variable))
  {
    Pow256Values();
    var ev := EncodeBE(|r.variable|, 2) + EncodeVarElements(r.variable);
    var e8 := EncodeTier(r.io8, 8) + ev;
    var e4 := EncodeTier(r.io4, 4) + e8;
    var e2 := EncodeTier(r.io2, 2) + e4;
    var e1 := EncodeTier(r.io1, 1) + e2;
    AtSplit(buf, c, EncodeHeader(r.header), e1, c1);
    AtSplit(buf, c1, EncodeTier(r.io1, 1), e2, c2);
    AtSplit(buf, c2, EncodeTier(r.io2, 2), e4, c4);
    AtSplit(buf, c4, EncodeTier(r.io4, 4), e8, c8);
    AtSplit(buf, c8, EncodeTier(r.io8, 8), ev, cv);
  }

  /** The record decoder put together from its parts. */
  lemma RecordStep(buf: seq<byte>, c: nat, r: RawRecord, c1: nat, c2: nat, c4: nat, c8: nat, cv: nat, next: nat)
    requires DecodeHeader(buf, c) == Ok(Parsed(r.header, c1))
    requires DecodeCountedTier(buf, c1, 1) == Ok(Parsed(r.io1, c2))
    requires DecodeCountedTier(buf, c2, 2) == Ok(Parsed(r.io2, c4))
    requires DecodeCountedTier(buf, c4, 4) == Ok(Parsed(r.io4, c8))
    requires DecodeCountedTier(buf, c8, 8) == Ok(Parsed(r.io8, cv))
    requires DecodeVarSection(buf, cv) == Ok(Parsed(r.variable, next))
    ensures DecodeRecord(buf, c, true) == Ok(Parsed(r, next))
  {
  }

  /** An encoded record decodes to itself, consuming exactly `RecordSize` bytes. */
  lemma DecodeRecordOfEncode(buf: seq<byte>, c: nat, r: RawRecord, next: nat)
    requires Encodable(r)
    requires At(buf, c, EncodeRecord(r))
    requires next == c + RecordSize(r, true)
    ensures DecodeRecord(buf, c, true) == Ok(Parsed(r, next))
  {
    var c1 := c + FixedSize;
    var c2 := c1 + TierSize(r.io1, 1);
    var c4 := c2 + TierSize(r.io2, 2);
    var c8 := c4 + TierSize(r.io4, 4);
    var cv := c8 + TierSize(r.io8, 8);
    RecordParts(buf, c, r, c1, c2, c4, c8, cv);
    DecodeHeaderOfEncode(buf, c, r.header);
    DecodeCountedTierOfEncode(buf, c1, r.io1, 1, c2);
    DecodeCountedTierOfEncode(buf, c2, r.io2, 2, c4);
    DecodeCountedTierOfEncode(buf, c4, r.io4, 4, c8);
    DecodeCountedTierOfEncode(buf, c8, r.io8, 8, cv);
    DecodeVarSectionOfEncode(buf, cv, r.variable, next);
    RecordStep(buf, c, r, c1, c2, c4, c8, cv, next);
  }

  /** The record loop from cursor `c` with bound `bound` yields `rs`. */
  ghost predicate RecordsDecode(buf: seq<byte>, c: nat, bound: nat, rs: seq<RawRecord>)
    requires c <= |buf| + 1
  {
    DecodeRecords(buf, c, bound, true) == Ok(Parsed(rs, bound))
  }

  lemma RecordsStep(buf: seq<byte>, c: nat, rs: seq<RawRecord>, p: nat, bound: nat)
    requires rs != [] && c < bound && c <= |buf|
    requires DecodeRecord(buf, c, true) == Ok(Parsed(rs[0], p))
    requires p <= |buf| + 1 && RecordsDecode(buf, p, bound, rs[1..])
    ensures RecordsDecode(buf, c, bound, rs)
  {
    assert [rs[0]] + rs[1..] == rs;
  }

  lemma {:induction false} RecordsLoop(buf: seq<byte>, c: nat, rs: seq<RawRecord>, bound: nat)
    requires forall r :: r in rs ==> Encodable(r)
    requires At(buf, c, EncodeRecords(rs))
    requires bound == c + RecordsSize(rs, true)
    ensures c <= |buf| && RecordsDecode(buf, c, bound, rs)
    decreases |rs|
  {
    if rs != [] {
      assert rs[0] in rs;
      assert forall r :: r in rs[1..] ==> r in rs;
      var p := c + RecordSize(rs[0], true);
      AtSplit(buf, c, EncodeRecord(rs[0]), EncodeRecords(rs[1..]), p);
      DecodeRecordOfEncode(buf, c, rs[0], p);
      RecordsLoop(buf, p, rs[1..], bound);
      RecordsStep(buf, c, rs, p, bound);
    }
  }

  /** The record loop decodes exactly the encoded records when its bound is
      the end of the last one. */
  lemma DecodeRecordsOfEncode(buf: seq<byte>, c: nat, rs: seq<RawRecord>, bound: nat)
    requires forall r :: r in rs ==> Encodable(r)
    requires At(buf, c, EncodeRecords(rs))
    requires bound == c + RecordsSize(rs, true)
    ensures DecodeRecords(buf, c, bound, true) == Ok(Parsed(rs, bound))
  {
    RecordsLoop(buf, c, rs, bound);
  }

  /** Where the fields of a frame laid out as preamble, length, codec id and
      count, then `data`, sit. */
  lemma FrameFields(f: seq<byte>, len: seq<byte>, n: byte, data: seq<byte>)
    requires |len| == 4 && f == [0, 0, 0, 0] + (len + ([0x8E, n] + data))
    ensures |f| > 4 && Take(f, 4, 4) == len && IsExtended(f) && AvlData(f) == data
  {
    SubSlice(f, 0, |f|);
    assert f[0 .. |f|] == f;
    AtSplit(f, 0, [0, 0, 0, 0], len + ([0x8E, n] + data), 4);
    AtSplit(f, 4, len, [0x8E, n] + data, 8);
    AtSplit(f, 8, [0x8E, n], data, 10);
    SubSlice(f, 4, 4);
    SubSlice(f, 8, 2);
    assert f[8] == 0x8E;
    SubSlice(f, 10, |data|);
  }

  /** The record loop over the encoded records followed by any `tail`. */
  lemma FrameRecords(rs: seq<RawRecord>, data: seq<byte>, tail: seq<byte>)
    requires forall r :: r in rs ==> Encodable(r)
    requires data == EncodeRecords(rs) + tail
    ensures DecodeRecords(data, 0, RecordsSize(rs, true), true) == Ok(Parsed(rs, RecordsSize(rs, true)))
  {
    SubSlice(data, 0, |data|);
    assert data[0 .. |data|] == data;
    AtSplit(data, 0, EncodeRecords(rs), tail, |EncodeRecords(rs)|);
    DecodeRecordsOfEncode(data, 0, rs, RecordsSize(rs, true));
  }

  /** Decoding an encoded frame yields its records, in order, and stops
      with the cursor at the end of the last record. */
  lemma DecodeFrameOfEncode(rs: seq<RawRecord>, crc: nat)
    requires forall r :: r in rs ==> Encodable(r)
    requires |rs| < 0x100 && crc < 0x1_0000_0000
    requires RecordsSize(rs, true) + 3 < 0x1_0000_0000
    ensures DecodeFrame(EncodeFrame(rs, crc)) == Ok(Parsed(rs, RecordsSize(rs, true)))
  {
    Pow256Values();
    var f := EncodeFrame(rs, crc);
    var size := RecordsSize(rs, true);
    var tail := [|rs| as byte] + EncodeBE(crc, 4);
    var data := EncodeRecords(rs) + tail;
    var len := EncodeBE(size + 3, 4);
    FrameFields(f, len, |rs| as byte, data);
    BEOfEncode(size + 3, 4);
    FrameRecords(rs, data, tail);
  }
}
