/** Byte-level vocabulary shared by every decoder of the gateway.

    The source works on the lower-case hex text of each received chunk
    (`data.hex()`) and slices it with Python's clamping slice semantics;
    hex index 2k is byte k.  Here frames are byte sequences, `Slice` is the
    clamping slice, and `BE` is what `int(<hex text>, 16)` yields for the
    hex text of a byte run.
 */
module Wire {

  type byte = b: int | 0 <= b < 256

  datatype Option<+T> = None | Some(value: T)

  /** The two ways a field read of the Codec 8 Extended decoder raises:
      `int('', 16)` on an empty slice, and a device timestamp that the
      datetime library refuses. */
  datatype DecodeError = EmptyField | TimestampOutOfRange

  datatype Result<+T> = Ok(value: T) | Err(error: DecodeError) {
    predicate IsFailure() { Err? }

    function PropagateFailure<U>(): Result<U>
      requires Err?
    {
      Err(error)
    }

    function Extract(): T
      requires Ok?
    {
      value
    }
  }

  /** A decoded value together with the cursor just past it. */
  datatype Parsed<+T> = Parsed(value: T, next: nat)

  function Min(a: int, b: int): int { if a <= b then a else b }

  function Pow256(w: nat): (r: nat)
    ensures r >= 1
  {
    if w == 0 then 1 else 256 * Pow256(w - 1)
  }

  lemma {:induction false} Pow256Monotone(a: nat, b: nat)
    requires a <= b
    ensures Pow256(a) <= Pow256(b)
  {
    if a < b {
      Pow256Monotone(a, b - 1);
    }
  }

  lemma Pow256Values()
    ensures Pow256(1) == 0x100 && Pow256(2) == 0x1_0000
    ensures Pow256(4) == 0x1_0000_0000 && Pow256(8) == 0x1_0000_0000_0000_0000
  {
    assert Pow256(2) == 256 * Pow256(1);
    assert Pow256(4) == 256 * 256 * Pow256(2);
    assert Pow256(8) == 256 * 256 * 256 * 256 * Pow256(4);
  }

  /** Python's `s[lo:hi]` for non-negative bounds: out-of-range bounds clamp. */
  function Slice<T>(s: seq<T>, lo: nat, hi: nat): (r: seq<T>)
    ensures |r| == if lo < hi && lo < |s| then Min(hi, |s|) - lo else 0
    ensures forall i :: 0 <= i < |r| ==> r[i] == s[lo + i]
  {
    if lo >= |s| || hi <= lo then [] else s[lo .. Min(hi, |s|)]
  }

  /** The `w` bytes at cursor `c`, fewer when the buffer ends first. */
  function Take(buf: seq<byte>, c: nat, w: nat): seq<byte>
  {
    Slice(buf, c, c + w)
  }

  /** Unsigned big-endian value of a byte run. */
  function BE(s: seq<byte>): (r: nat)
    ensures r < Pow256(|s|)
  {
    if s == [] then 0
    else
      var hi := BE(s[..|s| - 1]);
      assert hi <= Pow256(|s| - 1) - 1;
      hi * 256 + s[|s| - 1]
  }

  lemma BETwo(s: seq<byte>)
    requires |s| == 2
    ensures BE(s) == s[0] as int * 256 + s[1]
  {
    assert s[..1][..0] == [];
  }

  /** The `w`-byte big-endian encoding of `v`. */
  function EncodeBE(v: nat, w: nat): (r: seq<byte>)
    requires v < Pow256(w)
    ensures |r| == w
  {
    if w == 0 then []
    else EncodeBE(v / 256, w - 1) + [v % 256]
  }

  lemma {:induction false} BEOfEncode(v: nat, w: nat)
    requires v < Pow256(w)
    ensures BE(EncodeBE(v, w)) == v
  {
    if w > 0 {
      var e := EncodeBE(v, w);
      assert e[..|e| - 1] == EncodeBE(v / 256, w - 1);
      BEOfEncode(v / 256, w - 1);
    }
  }

  lemma {:induction false} EncodeOfBE(s: seq<byte>)
    ensures EncodeBE(BE(s), |s|) == s
  {
    if s != [] {
      var p := s[..|s| - 1];
      EncodeOfBE(p);
      assert BE(s) / 256 == BE(p);
      assert s == p + [s[|s| - 1]];
    }
  }

  /** A wider field holds the same value behind zero bytes. */
  lemma {:induction false} Widen(v: nat, w: nat, k: nat)
    requires v < Pow256(w)
    ensures Pow256(w) <= Pow256(w + k)
    ensures EncodeBE(v, w + k) == EncodeBE(0, k) + EncodeBE(v, w)
    decreases w
  {
    Pow256Monotone(w, w + k);
    if w > 0 {
      Widen(v / 256, w - 1, k);
      assert EncodeBE(v, w + k) == EncodeBE(v / 256, w - 1 + k) + [v % 256];
    }
  }

  /** Reads a `w`-byte unsigned field the way the source does: an empty
      slice raises, a slice cut short by the end of the buffer still parses. */
  function ReadUint(buf: seq<byte>, c: nat, w: nat): (r: Result<Parsed<nat>>)
    requires w >= 1
    ensures r.Ok? <==> c < |buf|
    ensures r.Ok? ==> r.value.value < Pow256(w) && c < r.value.next <= |buf|
    ensures r.Ok? && r.value.next < |buf| ==> r.value.next == c + w
  {
    if c >= |buf| then Err(EmptyField)
    else
      var s := Take(buf, c, w);
      Pow256Monotone(|s|, w);
      Ok(Parsed(BE(s), c + |s|))
  }

  /** Reads a `w`-byte field that must be present in full. */
  function ReadFull(buf: seq<byte>, c: nat, w: nat): (r: Result<Parsed<nat>>)
    ensures r.Ok? <==> c + w <= |buf|
    ensures r.Ok? ==> r.value.next == c + w && r.value.value < Pow256(w)
  {
    if c + w > |buf| then Err(EmptyField)
    else
      Ok(Parsed(BE(buf[c .. c + w]), c + w))
  }

  /** Takes a field without interpreting it: the cursor moves by what was there. */
  function Skip(buf: seq<byte>, c: nat, w: nat): (r: Parsed<seq<byte>>)
    ensures c <= r.next <= c + w
    ensures r.next < |buf| ==> r.next == c + w && r.value == buf[c .. c + w]
    ensures c >= |buf| ==> r.next == c
  {
    var s := Take(buf, c, w);
    Parsed(s, c + |s|)
  }

  /** The `n` bytes of `buf` from cursor `c`, one at a time. */
  function Sub(buf: seq<byte>, c: nat, n: nat): (r: seq<byte>)
    requires c + n <= |buf|
    ensures |r| == n
    decreases n
  {
    if n == 0 then [] else [buf[c]] + Sub(buf, c + 1, n - 1)
  }

  lemma {:induction false} SubSlice(buf: seq<byte>, c: nat, n: nat)
    requires c + n <= |buf|
    ensures Sub(buf, c, n) == buf[c .. c + n]
    decreases n
  {
    if n > 0 {
      SubSlice(buf, c + 1, n - 1);
    }
  }

  /** `buf` holds the bytes `e` starting at cursor `c`. */
  ghost predicate At(buf: seq<byte>, c: nat, e: seq<byte>)
  {
    c + |e| <= |buf| && Sub(buf, c, |e|) == e
  }

  /** Splits a run held at `c` into its two parts; `d` is where the second
      one starts. */
  lemma AtSplit(buf: seq<byte>, c: nat, a: seq<byte>, b: seq<byte>, d: nat)
    requires At(buf, c, a + b) && d == c + |a|
    ensures At(buf, c, a) && At(buf, d, b)
  {
    SubSlice(buf, c, |a| + |b|);
    SubSlice(buf, c, |a|);
    SubSlice(buf, c + |a|, |b|);
    assert buf[c .. c + |a|] == (a + b)[..|a|];
    assert buf[c + |a| .. c + |a| + |b|] == (a + b)[|a|..];
  }

  /** Reading a field whose encoding sits at the cursor yields its value. */
  lemma ReadEncoded(buf: seq<byte>, c: nat, v: nat, w: nat)
    requires w >= 1 && v < Pow256(w)
    requires At(buf, c, EncodeBE(v, w))
    ensures ReadUint(buf, c, w) == Ok(Parsed(v, c + w))
    ensures ReadFull(buf, c, w) == Ok(Parsed(v, c + w))
  {
    SubSlice(buf, c, w);
    BEOfEncode(v, w);
  }

  // ---- hex text, as produced by `bytes.hex()` ----

  function HexDigit(n: nat): (c: char)
    requires n < 16
  {
    if n < 10 then ('0' as int + n) as char else ('a' as int + n - 10) as char
  }

  function HexByte(b: byte): (s: string)
    ensures |s| == 2
  {
    [HexDigit(b / 16), HexDigit(b % 16)]
  }

  /** Lower-case hex text of a byte run. */
  function Hex(s: seq<byte>): (h: string)
    ensures |h| == 2 * |s|
  {
    if s == [] then [] else HexByte(s[0]) + Hex(s[1..])
  }

  /** Characters `2k` and `2k + 1` of the hex text are byte `k`'s. */
  lemma {:induction false} HexAt(s: seq<byte>, k: nat)
    requires k < |s|
    ensures Hex(s)[2 * k .. 2 * k + 2] == HexByte(s[k])
    decreases |s|
  {
    if k > 0 {
      HexAt(s[1..], k - 1);
      var t := Hex(s[1..]);
      assert Hex(s)[2 * k .. 2 * k + 2] == t[2 * (k - 1) .. 2 * (k - 1) + 2];
    }
  }

  lemma HexDigitInjective(m: nat, n: nat)
    requires m < 16 && n < 16
    requires HexDigit(m) == HexDigit(n)
    ensures m == n
  {
  }

  lemma {:induction false} HexInjective(a: seq<byte>, b: seq<byte>)
    requires Hex(a) == Hex(b)
    ensures a == b
  {
    assert |a| == |b|;
    forall k | 0 <= k < |a|
      ensures a[k] == b[k]
    {
      HexAt(a, k);
      HexAt(b, k);
      HexDigitInjective(a[k] / 16, b[k] / 16);
      HexDigitInjective(a[k] % 16, b[k] % 16);
    }
  }

  /** Decimal text of a natural number, as `f"{n}"` renders it: digits
      only, and no leading zero except in "0" itself. */
  function Decimal(n: nat): (s: string)
    ensures |s| >= 1
    ensures forall i :: 0 <= i < |s| ==> '0' <= s[i] <= '9'
    ensures n == 0 <==> s == "0"
    ensures n > 0 ==> s[0] != '0'
    decreases n
  {
    if n < 10 then [('0' as int + n) as char]
    else Decimal(n / 10) + [('0' as int + n % 10) as char]
  }

  /** The number a run of decimal digits denotes. */
  function DecimalValue(s: string): nat
    requires forall i :: 0 <= i < |s| ==> '0' <= s[i] <= '9'
    decreases |s|
  {
    if s == [] then 0
    else DecimalValue(s[..|s| - 1]) * 10 + (s[|s| - 1] as int - '0' as int)
  }

  /** The text `f"{n}"` denotes `n`. */
  lemma {:induction false} DecimalValueOfDecimal(n: nat)
    ensures DecimalValue(Decimal(n)) == n
    decreases n
  {
    if n >= 10 {
      var s := Decimal(n);
      assert s[..|s| - 1] == Decimal(n / 10);
      DecimalValueOfDecimal(n / 10);
    }
  }

  /** Different numbers are rendered as different texts. */
  lemma DecimalInjective(a: nat, b: nat)
    requires Decimal(a) == Decimal(b)
    ensures a == b
  {
    DecimalValueOfDecimal(a);
    DecimalValueOfDecimal(b);
  }
}
