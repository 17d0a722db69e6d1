/** The dictionary `codec_8e_parser` builds for each decoded record.

    The parser fills a fresh dictionary per record by plain assignment, in
    wire order: the device id, the two times, the rtp flag, the position
    fields, then one entry per IO element.  A fixed-width element is stored
    under its name in the IO table, or under `Unknown IO <key hex>` when the
    table has no entry, with its value as an unsigned integer.  A
    variable-width element is stored twice: under its integer key, as a
    one-entry dictionary from its description (the table name, or the key in
    decimal) to the hex text of its value, and under its name, as the value
    read as an unsigned integer.  A later assignment to the same key replaces
    the earlier one.

    The IO table comes from a module that is not part of this model; it is a
    parameter here.  Times are integer seconds: the text renderings are not
    modelled, and the reception time is read from a clock parameter.
 */
module AvlView {
  import opened Wire
  import opened AvlDecode
  import Coordinate
  import Rtp

  /** A dictionary key: a string or an integer. */
  datatype Key = Name(name: string) | Id(id: nat)

  datatype Value =
    | Text(text: string)
    | Num(n: nat)
    | Signed(x: int)
    | Seconds(t: int)
    | Described(description: string, hex: string)

  type IoTable = map<nat, string>

  type IoDict = map<Key, Value>

  /** The hex text of a key's two wire bytes. */
  function KeyText(key: nat): string
  {
    Hex([(key / 256) % 256, key % 256])
  }

  /** The name an IO element is stored under. */
  function Label(table: IoTable, key: nat): string
  {
    if key in table then table[key] else "Unknown IO " + KeyText(key)
  }

  /** The description `sorting_hat` pairs with a variable-width value. */
  function Description(table: IoTable, key: nat): string
  {
    if key in table then table[key] else Decimal(key)
  }

  /** Dictionary assignments applied in order. */
  function Assign(d: IoDict, ps: seq<(Key, Value)>): IoDict
    decreases |ps|
  {
    if ps == [] then d else Assign(d[ps[0].0 := ps[0].1], ps[1..])
  }

  /** A key assigned at position `i` and never again afterwards ends up
      holding the value assigned there. */
  lemma {:induction false} AssignLast(d: IoDict, ps: seq<(Key, Value)>, i: nat)
    requires i < |ps|
    requires forall j :: i < j < |ps| ==> ps[j].0 != ps[i].0
    ensures ps[i].0 in Assign(d, ps) && Assign(d, ps)[ps[i].0] == ps[i].1
    decreases |ps|
  {
    if i == 0 {
      AssignUntouched(d[ps[0].0 := ps[0].1], ps[1..], ps[0].0);
    } else {
      AssignLast(d[ps[0].0 := ps[0].1], ps[1..], i - 1);
    }
  }

  /** A key no assignment mentions keeps its entry, or its absence. */
  lemma {:induction false} AssignUntouched(d: IoDict, ps: seq<(Key, Value)>, k: Key)
    requires forall j :: 0 <= j < |ps| ==> ps[j].0 != k
    ensures k in Assign(d, ps) <==> k in d
    ensures k in d ==> Assign(d, ps)[k] == d[k]
    decreases |ps|
  {
    if ps != [] {
      AssignUntouched(d[ps[0].0 := ps[0].1], ps[1..], k);
    }
  }

  /** Nothing is dropped: the keys afterwards are the keys before plus every
      key assigned. */
  lemma {:induction false} AssignKeys(d: IoDict, ps: seq<(Key, Value)>)
    ensures Assign(d, ps).Keys == d.Keys + set j | 0 <= j < |ps| :: ps[j].0
    decreases |ps|
  {
    if ps != [] {
      AssignKeys(d[ps[0].0 := ps[0].1], ps[1..]);
      var tail := ps[1..];
      assert (set j | 0 <= j < |ps| :: ps[j].0) == {ps[0].0} + (set j | 0 <= j < |tail| :: tail[j].0) by {
        forall j | 0 <= j < |ps| ensures ps[j].0 in {ps[0].0} + (set j | 0 <= j < |tail| :: tail[j].0) {
          if j > 0 {
            assert ps[j].0 == tail[j - 1].0;
          }
        }
      }
    }
  }

  /** `AssignLast` for an assignment in the middle part of three. */
  lemma AssignLastInMiddle(d: IoDict, a: seq<(Key, Value)>, b: seq<(Key, Value)>, c: seq<(Key, Value)>, i: nat)
    requires i < |b|
    requires forall j :: i < j < |b| ==> b[j].0 != b[i].0
    requires forall j :: 0 <= j < |c| ==> c[j].0 != b[i].0
    ensures b[i].0 in Assign(d, a + b + c) && Assign(d, a + b + c)[b[i].0] == b[i].1
  {
    var ps := a + b + c;
    forall j | |a| + i < j < |ps| ensures ps[j].0 != ps[|a| + i].0 {
      if j < |a| + |b| {
        assert ps[j] == b[j - |a|];
      } else {
        assert ps[j] == c[j - |a| - |b|];
      }
    }
    AssignLast(d, ps, |a| + i);
  }

  /** The assignments for fixed-width elements. */
  function IoPairs(table: IoTable, els: seq<IoElement>): (ps: seq<(Key, Value)>)
    ensures |ps| == |els|
    ensures forall i :: 0 <= i < |els| ==> ps[i] == (Name(Label(table, els[i].key)), Num(els[i].value))
    decreases |els|
  {
    if els == [] then []
    else
      [(Name(Label(table, els[0].key)), Num(els[0].value))] + IoPairs(table, els[1..])
  }

  /** The two assignments for one variable-width element: the description
      under its integer key, then the unsigned value under its name. */
  function VarPair(table: IoTable, v: VarElement): (p: seq<(Key, Value)>)
    ensures |p| == 2
  {
    [(Id(v.key), Described(Description(table, v.key), Hex(v.value))),
     (Name(Label(table, v.key)), Num(BE(v.value)))]
  }

  /** `VarPair` for a fixed table, as a function of the element. */
  function VarEntries(table: IoTable): VarElement -> seq<(Key, Value)>
  {
    v => VarPair(table, v)
  }

  /** The assignments for the variable-width elements, in order. */
  function VarPairs(table: IoTable, vs: seq<VarElement>): (ps: seq<(Key, Value)>)
    ensures |ps| == 2 * |vs|
  {
    GroupsOfTwo(VarEntries(table), vs, 0);
    Groups(VarEntries(table), vs)
  }

  /** Element `i` contributes the assignments at `2 * i` and `2 * i + 1`. */
  lemma VarPairsAt(table: IoTable, vs: seq<VarElement>, i: nat)
    requires i < |vs|
    ensures VarPairs(table, vs)[2 * i] == VarPair(table, vs[i])[0]
    ensures VarPairs(table, vs)[2 * i + 1] == VarPair(table, vs[i])[1]
  {
    GroupsOfTwo(VarEntries(table), vs, i);
  }

  /** The groups `f` gives the elements of `xs`, concatenated in order. */
  function Groups<T, U>(f: T -> seq<U>, xs: seq<T>): seq<U>
    decreases |xs|
  {
    if |xs| == 0 then [] else f(xs[0]) + Groups(f, xs[1..])
  }

  /** With groups of two, element `i` fills positions `2 * i` and
      `2 * i + 1`. */
  lemma {:induction false} GroupsOfTwo<T, U>(f: T -> seq<U>, xs: seq<T>, i: nat)
    requires forall j :: 0 <= j < |xs| ==> |f(xs[j])| == 2
    ensures |Groups(f, xs)| == 2 * |xs|
    ensures i < |xs| ==> Groups(f, xs)[2 * i] == f(xs[i])[0] && Groups(f, xs)[2 * i + 1] == f(xs[i])[1]
    decreases |xs|
  {
    if |xs| > 0 {
      var rest := xs[1..];
      forall j | 0 <= j < |rest| ensures |f(rest[j])| == 2 {
        assert rest[j] == xs[j + 1];
      }
      GroupsOfTwo(f, rest, if i > 0 then i - 1 else 0);
      if 0 < i < |xs| {
        assert rest[i - 1] == xs[i];
        IndexPastPrefix(f(xs[0]), Groups(f, rest), 2 * i);
        IndexPastPrefix(f(xs[0]), Groups(f, rest), 2 * i + 1);
      }
    }
  }

  /** Indexing a concatenation past its first part indexes the second. */
  lemma IndexPastPrefix<T>(a: seq<T>, b: seq<T>, k: nat)
    requires |a| <= k < |a| + |b|
    ensures (a + b)[k] == b[k - |a|]
  {
  }

  /** The keys the variable-width assignments use: each element's integer
      key and its name. */
  lemma VarPairsKeys(table: IoTable, vs: seq<VarElement>, j: nat)
    requires j < 2 * |vs|
    ensures VarPairs(table, vs)[j].0 == (if j % 2 == 0 then Id(vs[j / 2].key) else Name(Label(table, vs[j / 2].key)))
  {
    VarPairsAt(table, vs, j / 2);
  }

  /** Every fixed-width element of a record, tier by tier. */
  function FixedElements(r: RawRecord): seq<IoElement>
  {
    r.io1 + r.io2 + r.io4 + r.io8
  }

  /** The entries written before the IO elements. */
  function BasePairs(imei: string, h: Header, receptionSeconds: int): seq<(Key, Value)>
    requires h.longitude < Coordinate.Two32 && h.latitude < Coordinate.Two32
  {
    var deviceSeconds := h.timestampMs / 1000;
    [ (Name("DeviceID"), Text(imei)),
      (Name("t"), Seconds(deviceSeconds)),
      (Name("receptionTime "), Seconds(receptionSeconds)),
      (Name("rtp"), Num(Rtp.Rtp(receptionSeconds, deviceSeconds))),
      (Name("longitude"), Signed(Coordinate.Decode(h.longitude))),
      (Name("latitude"), Signed(Coordinate.Decode(h.latitude))),
      (Name("altitude"), Num(h.altitude)),
      (Name("angle"), Num(h.angle)),
      (Name("satelites"), Num(h.satellites)),
      (Name("speed"), Num(h.speed)),
      (Name("eventID"), Num(h.eventId)) ]
  }

  /** Every assignment the parser makes for one record, in order. */
  function RecordPairs(imei: string, r: RawRecord, receptionSeconds: int, table: IoTable, variableTier: bool): seq<(Key, Value)>
    requires Bounded(r)
  {
    BasePairs(imei, r.header, receptionSeconds) + IoPairs(table, FixedElements(r))
      + (if variableTier then VarPairs(table, r.variable) else [])
  }

  /** The dictionary of one record. */
  function RecordView(imei: string, r: RawRecord, receptionSeconds: int, table: IoTable, variableTier: bool): IoDict
    requires Bounded(r)
  {
    Assign(map[], RecordPairs(imei, r, receptionSeconds, table, variableTier))
  }

  /** The dictionaries of a frame's records; `clock(i)` is the reception
      time read while building record `i`. */
  function FrameView(frame: seq<byte>, imei: string, clock: nat -> int, table: IoTable): (r: Result<seq<IoDict>>)
    ensures r.Ok? <==> DecodeFrame(frame).Ok?
    ensures r.Ok? ==> |r.value| == |DecodeFrame(frame).value.value|
  {
    var d :- DecodeFrame(frame);
    var rs := d.value;
    Ok(seq(|rs|, i requires 0 <= i < |rs| =>
      assert rs[i] in rs;
      RecordView(imei, rs[i], clock(i), table, IsExtended(frame))))
  }

  // ---- retention ----

  /** Every fixed-width element has an entry under its name. */
  lemma FixedElementStored(imei: string, r: RawRecord, receptionSeconds: int, table: IoTable, variableTier: bool, i: nat)
    requires Bounded(r) && i < |FixedElements(r)|
    ensures Name(Label(table, FixedElements(r)[i].key)) in RecordView(imei, r, receptionSeconds, table, variableTier)
  {
    var ps := RecordPairs(imei, r, receptionSeconds, table, variableTier);
    var n := |BasePairs(imei, r.header, receptionSeconds)|;
    assert ps[n + i].0 == Name(Label(table, FixedElements(r)[i].key));
    AssignKeys(map[], ps);
  }

  /** A fixed-width element whose name no later element reuses is stored
      with its value. */
  lemma FixedElementValue(imei: string, r: RawRecord, receptionSeconds: int, table: IoTable, variableTier: bool, i: nat)
    requires Bounded(r) && i < |FixedElements(r)|
    requires forall j :: i < j < |FixedElements(r)| ==>
               Label(table, FixedElements(r)[j].key) != Label(table, FixedElements(r)[i].key)
    requires variableTier ==> forall v :: v in r.variable ==>
               Label(table, v.key) != Label(table, FixedElements(r)[i].key)
    ensures var k := Name(Label(table, FixedElements(r)[i].key));
            var view := RecordView(imei, r, receptionSeconds, table, variableTier);
            k in view && view[k] == Num(FixedElements(r)[i].value)
  {
    var all := FixedElements(r);
    var io := IoPairs(table, all);
    var vx := if variableTier then VarPairs(table, r.variable) else [];
    forall j | 0 <= j < |vx| ensures vx[j].0 != io[i].0 {
      VarPairsKeys(table, r.variable, j);
      assert r.variable[j / 2] in r.variable;
    }
    AssignLastInMiddle(map[], BasePairs(imei, r.header, receptionSeconds), io, vx, i);
  }

  /** With the extended tier, every variable-width element is stored under
      its integer key and its name. */
  lemma VarElementStored(imei: string, r: RawRecord, receptionSeconds: int, table: IoTable, i: nat)
    requires Bounded(r) && i < |r.variable|
    ensures Id(r.variable[i].key) in RecordView(imei, r, receptionSeconds, table, true)
    ensures Name(Label(table, r.variable[i].key)) in RecordView(imei, r, receptionSeconds, table, true)
  {
    var ps := RecordPairs(imei, r, receptionSeconds, table, true);
    var m := |BasePairs(imei, r.header, receptionSeconds)| + |IoPairs(table, FixedElements(r))|;
    VarPairsAt(table, r.variable, i);
    assert ps[m + 2 * i].0 == Id(r.variable[i].key);
    assert ps[m + 2 * i + 1].0 == Name(Label(table, r.variable[i].key));
    AssignKeys(map[], ps);
  }

  /** The integer-keyed entry of a variable-width element holds its
      description and hex text unless a later element has the same key. */
  lemma VarElementValue(imei: string, r: RawRecord, receptionSeconds: int, table: IoTable, i: nat)
    requires Bounded(r) && i < |r.variable|
    requires forall j :: i < j < |r.variable| ==> r.variable[j].key != r.variable[i].key
    ensures var view := RecordView(imei, r, receptionSeconds, table, true);
            Id(r.variable[i].key) in view && view[Id(r.variable[i].key)] == Described(Description(table, r.variable[i].key), Hex(r.variable[i].value))
  {
    var vx := VarPairs(table, r.variable);
    VarPairsAt(table, r.variable, i);
    forall j | 2 * i < j < |vx| ensures vx[j].0 != vx[2 * i].0 {
      VarPairsKeys(table, r.variable, j);
    }
    var front := BasePairs(imei, r.header, receptionSeconds) + IoPairs(table, FixedElements(r));
    assert RecordPairs(imei, r, receptionSeconds, table, true) == front + vx + [];
    AssignLastInMiddle(map[], front, vx, [], 2 * i);
  }

  /** The named entry of a variable-width element holds its unsigned value
      unless a later variable-width element has the same name; the fixed
      tiers come earlier, so they cannot overwrite it. */
  lemma VarElementNamed(imei: string, r: RawRecord, receptionSeconds: int, table: IoTable, i: nat)
    requires Bounded(r) && i < |r.variable|
    requires forall j :: i < j < |r.variable| ==>
               Label(table, r.variable[j].key) != Label(table, r.variable[i].key)
    ensures var view := RecordView(imei, r, receptionSeconds, table, true);
            var k := Name(Label(table, r.variable[i].key));
            k in view && view[k] == Num(BE(r.variable[i].value))
  {
    var front := BasePairs(imei, r.header, receptionSeconds) + IoPairs(table, FixedElements(r));
    assert RecordPairs(imei, r, receptionSeconds, table, true) == front + VarPairs(table, r.variable) + [];
    NamedAfter(front, table, r.variable, i);
  }

  /** The named assignment of variable-width element `i`, after any prefix
      of assignments, survives when no later element shares its name. */
  lemma NamedAfter(front: seq<(Key, Value)>, table: IoTable, vs: seq<VarElement>, i: nat)
    requires i < |vs|
    requires forall j :: i < j < |vs| ==> Label(table, vs[j].key) != Label(table, vs[i].key)
    ensures var k := Name(Label(table, vs[i].key));
            var d := Assign(map[], front + VarPairs(table, vs) + []);
            k in d && d[k] == Num(BE(vs[i].value))
  {
    VarPairsAt(table, vs, i);
    LaterNamesDiffer(table, vs, i);
    AssignLastInMiddle(map[], front, VarPairs(table, vs), [], 2 * i + 1);
  }

  /** No assignment after the named one of element `i` uses its key when no
      later element shares its name. */
  lemma LaterNamesDiffer(table: IoTable, vs: seq<VarElement>, i: nat)
    requires i < |vs|
    requires forall j :: i < j < |vs| ==> Label(table, vs[j].key) != Label(table, vs[i].key)
    ensures forall j :: 2 * i + 1 < j < |VarPairs(table, vs)| ==>
              VarPairs(table, vs)[j].0 != Name(Label(table, vs[i].key))
  {
    forall j | 2 * i + 1 < j < |VarPairs(table, vs)|
      ensures VarPairs(table, vs)[j].0 != Name(Label(table, vs[i].key))
    {
      VarPairsKeys(table, vs, j);
    }
  }

  /** For a key read from two bytes, `KeyText` is the hex text of those
      bytes, the text the source formats the unknown name from. */
  lemma KeyTextOfBytes(hi: byte, lo: byte)
    ensures KeyText(BE([hi, lo])) == Hex([hi, lo])
  {
    KeyBytes(hi, lo);
  }

  /** Splitting a two-byte key back into bytes recovers them. */
  lemma KeyBytes(hi: byte, lo: byte)
    ensures [(BE([hi, lo]) / 256) % 256, BE([hi, lo]) % 256] == [hi, lo]
  {
    BETwo([hi, lo]);
    var key := hi as int * 256 + lo;
    assert key / 256 == hi && key % 256 == lo;
  }

  /** An unknown key's name is its 4-digit lower-case hex text. */
  lemma UnknownLabel(table: IoTable)
    requires 0x11 !in table && 0xABCD !in table
    ensures Label(table, 0x11) == "Unknown IO " + "0011"
    ensures Label(table, 0xABCD) == "Unknown IO " + "abcd"
  {
    assert [(0x11 / 256) % 256, 0x11 % 256] == [0x00, 0x11];
    assert [(0xABCD / 256) % 256, 0xABCD % 256] == [0xAB, 0xCD];
    assert HexByte(0x00) == "00" && HexByte(0x11) == "11";
    assert Hex([0x11]) == HexByte(0x11) + Hex([]);
    assert Hex([0x00, 0x11]) == HexByte(0x00) + Hex([0x11]);
    assert HexByte(0xAB) == "ab" && HexByte(0xCD) == "cd";
    assert Hex([0xCD]) == HexByte(0xCD) + Hex([]);
    assert Hex([0xAB, 0xCD]) == HexByte(0xAB) + Hex([0xCD]);
  }
}
