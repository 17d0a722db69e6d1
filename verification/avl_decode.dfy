/** The Codec 8 Extended AVL decoder, `codec_8e_parser`.

    Frame layout: 4-byte zero preamble, 4-byte data-field length L, codec
    id, record count, records, trailing record count, CRC.  The decoder
    starts at byte 10 and decodes records while its cursor (relative to
    byte 10) is below L - 3; neither the record counts nor the CRC are read.

    Every field read follows the source's slicing: a field cut short by the
    end of the buffer still parses, an empty one raises (`int('', 16)`).
    Two reads are modelled as failing as soon as fewer than two bytes
    remain, an IO key and a variable-length prefix: in both places a short
    slice leaves the cursor at the end of the buffer, so the very next read
    of the source raises, and the outcome is the same.

    This module decodes the wire content of each record; `AvlView` turns a
    record into the dictionary the source builds from it.
 */
module AvlDecode {
  import opened Wire

  datatype IoElement = IoElement(key: nat, value: nat)
  datatype VarElement = VarElement(key: nat, value: seq<byte>)

  /** The fixed-width part of a record. */
  datatype Header = Header(
    timestampMs: nat,
    priority: seq<byte>,
    longitude: nat,
    latitude: nat,
    altitude: nat,
    angle: nat,
    satellites: nat,
    speed: nat,
    eventId: nat,
    totalIo: nat)

  /** One record as it sits on the wire: the header, the four fixed-width
      IO tiers (1, 2, 4 and 8-byte values) and the variable-width tier. */
  datatype RawRecord = RawRecord(
    header: Header,
    io1: seq<IoElement>,
    io2: seq<IoElement>,
    io4: seq<IoElement>,
    io8: seq<IoElement>,
    variable: seq<VarElement>)

  /** 10000-01-01T00:00:00Z in seconds: `datetime.fromtimestamp` refuses
      this instant and every later one. */
  const FirstBadSecond: nat := 253402300800

  /** Timestamp, priority, longitude, latitude, altitude, angle,
      satellites, speed, event id and total-IO count. */
  const FixedSize: nat := 8 + 1 + 4 + 4 + 2 + 2 + 1 + 2 + 2 + 2

  /** Key and `w`-byte value of every element. */
  function ElementsSize(els: seq<IoElement>, w: nat): nat
  {
    if els == [] then 0 else 2 + w + ElementsSize(els[1..], w)
  }

  /** The 2-byte count followed by the elements. */
  function TierSize(els: seq<IoElement>, w: nat): nat
  {
    2 + ElementsSize(els, w)
  }

  /** Key, value length, value, and the one byte the source steps over
      after every value (`len((value, 16))` is 2 hex characters). */
  function VarSize(vs: seq<VarElement>): nat
  {
    if vs == [] then 0 else 2 + 2 + |vs[0].value| + 1 + VarSize(vs[1..])
  }

  function RecordSize(r: RawRecord, variableTier: bool): nat
  {
    FixedSize + TierSize(r.io1, 1) + TierSize(r.io2, 2) + TierSize(r.io4, 4) + TierSize(r.io8, 8)
      + (if variableTier then 2 + VarSize(r.variable) else 0)
  }

  function RecordsSize(rs: seq<RawRecord>, variableTier: bool): nat
  {
    if rs == [] then 0 else RecordSize(rs[0], variableTier) + RecordsSize(rs[1..], variableTier)
  }

  predicate TierBounded(els: seq<IoElement>, w: nat)
  {
    forall e :: e in els ==> e.key < 0x1_0000 && e.value < Pow256(w)
  }

  predicate VarBounded(vs: seq<VarElement>)
  {
    forall v :: v in vs ==> v.key < 0x1_0000 && |v.value| >= 1
  }

  /** What every decoded record satisfies. */
  predicate Bounded(r: RawRecord)
  {
    && r.header.timestampMs / 1000 < FirstBadSecond
    && r.header.longitude < 0x1_0000_0000 && r.header.latitude < 0x1_0000_0000
    && TierBounded(r.io1, 1) && TierBounded(r.io2, 2)
    && TierBounded(r.io4, 4) && TierBounded(r.io8, 8)
    && VarBounded(r.variable)
  }

  /** `n` (key, value) pairs with `w`-byte values. */
  function DecodeTier(buf: seq<byte>, c: nat, w: nat, n: nat): (r: Result<Parsed<seq<IoElement>>>)
    requires w >= 1 && c <= |buf|
    ensures r.Ok? ==> |r.value.value| == n && c <= r.value.next <= |buf|
    decreases n
  {
    if n == 0 then Ok(Parsed([], c))
    else
      var k :- ReadFull(buf, c, 2);
      var v :- ReadUint(buf, k.next, w);
      var rest :- DecodeTier(buf, v.next, w, n - 1);
      Pow256Values();
      var els := [IoElement(k.value, v.value)] + rest.value;
      assert els[1..] == rest.value;
      Ok(Parsed(els, rest.next))
  }

  /** A decoded tier respects the field widths, and unless it ran into the
      end of the buffer it spans exactly its elements. */
  lemma {:induction false} DecodeTierFacts(buf: seq<byte>, c: nat, w: nat, n: nat)
    requires w >= 1 && c <= |buf|
    ensures var r := DecodeTier(buf, c, w, n);
            r.Ok? ==> TierBounded(r.value.value, w) &&
                      (r.value.next < |buf| ==> r.value.next == c + ElementsSize(r.value.value, w))
    decreases n
  {
    if n > 0 {
      var k := ReadFull(buf, c, 2);
      if k.Ok? {
        var v := ReadUint(buf, k.value.next, w);
        if v.Ok? {
          DecodeTierFacts(buf, v.value.next, w, n - 1);
          Pow256Values();
        }
      }
    }
  }

  /** `n` (key, length, value) triples, each followed by the skipped byte. */
  function DecodeVarTier(buf: seq<byte>, c: nat, n: nat): (r: Result<Parsed<seq<VarElement>>>)
    ensures r.Ok? ==> |r.value.value| == n && r.value.next == c + VarSize(r.value.value)
    ensures r.Ok? && n > 0 ==> r.value.next <= |buf| + 1
    ensures r.Ok? ==> VarBounded(r.value.value)
    decreases n
  {
    if n == 0 then Ok(Parsed([], c))
    else
      var k :- ReadFull(buf, c, 2);
      var len :- ReadFull(buf, k.next, 2);
      var v := Take(buf, len.next, len.value);
      if v == [] then Err(EmptyField)
      else
        var rest :- DecodeVarTier(buf, len.next + |v| + 1, n - 1);
        Pow256Values();
        var vs := [VarElement(k.value, v)] + rest.value;
        assert vs[1..] == rest.value;
        Ok(Parsed(vs, rest.next))
  }

  /** The variable-width tier: a 2-byte count, then the triples. */
  function DecodeVarSection(buf: seq<byte>, c: nat): (r: Result<Parsed<seq<VarElement>>>)
    ensures r.Ok? ==> c < r.value.next <= |buf| + 1
    ensures r.Ok? && r.value.next < |buf| ==> r.value.next == c + 2 + VarSize(r.value.value)
    ensures r.Ok? ==> VarBounded(r.value.value)
  {
    var count :- ReadUint(buf, c, 2);
    DecodeVarTier(buf, count.next, count.value)
  }

  /** The header: timestamp, priority (taken but never parsed), longitude,
      latitude, altitude, angle, satellites, speed, event id, total-IO count. */
  function DecodeHeader(buf: seq<byte>, c: nat): (r: Result<Parsed<Header>>)
    ensures r.Ok? ==> c < r.value.next <= |buf|
    ensures r.Ok? && r.value.next < |buf| ==> r.value.next == c + FixedSize
    ensures r.Ok? ==> r.value.value.timestampMs / 1000 < FirstBadSecond
    ensures r.Ok? ==> r.value.value.longitude < 0x1_0000_0000 && r.value.value.latitude < 0x1_0000_0000
  {
    var ts :- ReadUint(buf, c, 8);
    if ts.value / 1000 >= FirstBadSecond then Err(TimestampOutOfRange)
    else
      var pri := Skip(buf, ts.next, 1);
      var lon :- ReadUint(buf, pri.next, 4);
      var lat :- ReadUint(buf, lon.next, 4);
      var alt :- ReadUint(buf, lat.next, 2);
      var ang :- ReadUint(buf, alt.next, 2);
      var sat :- ReadUint(buf, ang.next, 1);
      var spd :- ReadUint(buf, sat.next, 2);
      var evt :- ReadUint(buf, spd.next, 2);
      var tot :- ReadUint(buf, evt.next, 2);
      Pow256Values();
      Ok(Parsed(Header(ts.value, pri.value, lon.value, lat.value, alt.value, ang.value,
                       sat.value, spd.value, evt.value, tot.value),
                tot.next))
  }

  /** A fixed-width tier: a 2-byte count, then the pairs. */
  function DecodeCountedTier(buf: seq<byte>, c: nat, w: nat): (r: Result<Parsed<seq<IoElement>>>)
    requires w >= 1
    ensures r.Ok? ==> c < r.value.next <= |buf|
    ensures r.Ok? && r.value.next < |buf| ==> r.value.next == c + TierSize(r.value.value, w)
    ensures r.Ok? ==> TierBounded(r.value.value, w)
  {
    var count :- ReadUint(buf, c, 2);
    DecodeTierFacts(buf, count.next, w, count.value);
    DecodeTier(buf, count.next, w, count.value)
  }

  /** One AVL record starting at cursor `c`. */
  function DecodeRecord(buf: seq<byte>, c: nat, variableTier: bool): (r: Result<Parsed<RawRecord>>)
    ensures r.Ok? ==> c < r.value.next <= |buf| + 1
    ensures r.Ok? && r.value.next < |buf| ==> r.value.next == c + RecordSize(r.value.value, variableTier)
    ensures r.Ok? ==> Bounded(r.value.value)
  {
    var h :- DecodeHeader(buf, c);
    var t1 :- DecodeCountedTier(buf, h.next, 1);
    var t2 :- DecodeCountedTier(buf, t1.next, 2);
    var t4 :- DecodeCountedTier(buf, t2.next, 4);
    var t8 :- DecodeCountedTier(buf, t4.next, 8);
    var vx :- if variableTier then DecodeVarSection(buf, t8.next) else Ok(Parsed([], t8.next));
    Ok(Parsed(RawRecord(h.value, t1.value, t2.value, t4.value, t8.value, vx.value), vx.next))
  }

  /** The record loop: `while cursor < bound`. */
  function DecodeRecords(buf: seq<byte>, c: nat, bound: int, variableTier: bool): (r: Result<Parsed<seq<RawRecord>>>)
    requires c <= |buf| + 1
    ensures r.Ok? ==> r.value.next >= c && r.value.next >= bound
    ensures r.Ok? && c < bound ==> |r.value.value| >= 1
    ensures r.Ok? && r.value.next < |buf| ==> r.value.next == c + RecordsSize(r.value.value, variableTier)
    ensures r.Ok? ==> forall x :: x in r.value.value ==> Bounded(x)
    decreases |buf| + 1 - c
  {
    if c >= bound then Ok(Parsed([], c))
    else
      var p :- DecodeRecord(buf, c, variableTier);
      var rest :- DecodeRecords(buf, p.next, bound, variableTier);
      var rs := [p.value] + rest.value;
      assert rs[1..] == rest.value;
      Ok(Parsed(rs, rest.next))
  }

  /** The data-field length L at bytes 4..7. */
  function DataLength(frame: seq<byte>): nat
  {
    BE(Take(frame, 4, 4))
  }

  /** The bytes from offset 10 on, where the records start. */
  function AvlData(frame: seq<byte>): seq<byte>
  {
    Slice(frame, 10, |frame|)
  }

  /** `codec_type.upper() == "8E"`: the variable tier is decoded. */
  predicate IsExtended(frame: seq<byte>)
  {
    Take(frame, 8, 1) == [0x8E]
  }

  /** All records of a frame; the cursor is relative to byte 10. */
  function DecodeFrame(frame: seq<byte>): (r: Result<Parsed<seq<RawRecord>>>)
    ensures |frame| <= 4 ==> r.Err?
    ensures r.Ok? ==> r.value.next + 3 >= DataLength(frame)
    ensures r.Ok? && DataLength(frame) > 3 ==> |r.value.value| >= 1
    ensures r.Ok? && r.value.next < |AvlData(frame)| ==>
              r.value.next == RecordsSize(r.value.value, IsExtended(frame))
  {
    if |frame| <= 4 then Err(EmptyField)
    else DecodeRecords(AvlData(frame), 0, DataLength(frame) - 3, IsExtended(frame))
  }

  datatype ParserOutput = Zero | Summary(records: nat)

  /** `codec_8e_parser` returns `({}, count)` only when called with
      `props == "SERVER"`, and 0 otherwise; the session always passes `{}`. */
  function Codec8eParse(frame: seq<byte>, propsIsServer: bool): (r: Result<ParserOutput>)
    ensures r.Ok? <==> DecodeFrame(frame).Ok?
    ensures r.Ok? && !propsIsServer ==> r.value == Zero
    ensures r.Ok? && propsIsServer ==> r.value == Summary(|DecodeFrame(frame).value.value|)
  {
    var d :- DecodeFrame(frame);
    if propsIsServer then Ok(Summary(|d.value|)) else Ok(Zero)
  }
}
