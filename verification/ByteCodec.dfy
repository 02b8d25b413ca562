/** Byte and scalar forms of field values: the C++ codec and bounds check of
    include/tdi/common/tdi_utils.hpp and the Python codec of tdi_python/tdiTable.py. */
module ByteCodec {

  type Byte = x: int | 0 <= x < 256
  type Uint64 = x: int | 0 <= x < 0x1_0000_0000_0000_0000

  function Pow2(n: nat): (p: nat)
    ensures 1 <= p
  {
    if n == 0 then 1 else 2 * Pow2(n - 1)
  }

  /** Number of bytes of a field of `width` bits. */
  function ByteCount(width: nat): nat { (width + 7) / 8 }

  /** The value of a byte string in network order. */
  function BigEndian(b: seq<Byte>): nat {
    if b == [] then 0 else BigEndian(b[..|b| - 1]) * 256 + b[|b| - 1]
  }

  /** The last `n` bytes of the two's complement form of `v`, in network order. */
  function Encode(v: int, n: nat): (b: seq<Byte>)
    ensures |b| == n
    decreases n
  {
    if n == 0 then [] else Encode(v / 256, n - 1) + [v % 256]
  }

  // ---------- Powers and remainders ----------

  lemma {:induction false} Pow2Add(a: nat, b: nat)
    ensures Pow2(a + b) == Pow2(a) * Pow2(b)
    decreases b
  {
    if b > 0 {
      Pow2Add(a, b - 1);
    }
  }

  lemma Pow2Byte(n: nat)
    ensures Pow2(8 * (n + 1)) == 256 * Pow2(8 * n)
  {
    Pow2Add(8 * n, 8);
    assert Pow2(8) == 256;
  }

  lemma {:induction false} Pow2Monotone(a: nat, b: nat)
    requires a <= b
    ensures Pow2(a) <= Pow2(b)
    decreases b - a
  {
    if a < b {
      Pow2Monotone(a, b - 1);
    }
  }

  /** Quotient and remainder are unique. */
  lemma DivModUnique(v: int, m: int, q: int, r: int)
    requires 0 <= r < m && v == q * m + r
    ensures v / m == q && v % m == r
  {
    var q', r' := v / m, v % m;
    assert v == q' * m + r';
    assert (q' - q) * m == r - r';
    Multiples(q' - q, m);
  }

  lemma Multiples(k: int, m: int)
    requires m > 0
    ensures k >= 1 ==> k * m >= m
    ensures k <= -1 ==> k * m <= -m
  {
    if k >= 1 {
      Scale(k, 1, m);
    } else if k <= -1 {
      Scale(-1, k, m);
    }
  }

  lemma Scale(a: int, b: int, m: int)
    requires a >= b && m >= 0
    ensures a * m >= b * m
  {
    assert (a - b) * m >= 0;
  }

  /** Splitting off the last byte commutes with division by a power. */
  lemma DivStep(v: int, p: nat)
    requires 1 <= p
    ensures v / (256 * p) == (v / 256) / p
    ensures v % (256 * p) == (v / 256 % p) * 256 + v % 256
  {
    var w := v / 256;
    var q, r := w / p, w % p;
    assert w == q * p + r;
    assert v == 256 * w + v % 256;
    assert 256 * (q * p + r) == q * (256 * p) + 256 * r;
    DivModUnique(v, 256 * p, q, 256 * r + v % 256);
  }

  // ---------- The two directions of the codec ----------

  /** Decoding inverts encoding up to a multiple of 256^n, for negative values too. */
  lemma {:induction false} DecodeEncode(v: int, n: nat)
    ensures BigEndian(Encode(v, n)) == v % Pow2(8 * n)
    decreases n
  {
    if n > 0 {
      var b := Encode(v, n);
      assert b[..n - 1] == Encode(v / 256, n - 1);
      DecodeEncode(v / 256, n - 1);
      Pow2Byte(n - 1);
      DivStep(v, Pow2(8 * (n - 1)));
    }
  }

  lemma {:induction false} BigEndianBound(b: seq<Byte>)
    ensures BigEndian(b) < Pow2(8 * |b|)
  {
    if b != [] {
      BigEndianBound(b[..|b| - 1]);
      Pow2Byte(|b| - 1);
    }
  }

  /** Encoding inverts decoding on every byte string. */
  lemma {:induction false} EncodeDecode(b: seq<Byte>)
    ensures Encode(BigEndian(b), |b|) == b
  {
    if b != [] {
      var init, last := b[..|b| - 1], b[|b| - 1];
      EncodeDecode(init);
      DivModUnique(BigEndian(b), 256, BigEndian(init), last);
    }
  }

  lemma Distribute(x: int, p: int, y: int)
    ensures (x * p + y) * 256 == x * (256 * p) + y * 256
  {
  }

  lemma {:induction false} BigEndianAppend(a: seq<Byte>, b: seq<Byte>)
    ensures BigEndian(a + b) == BigEndian(a) * Pow2(8 * |b|) + BigEndian(b)
    decreases |b|
  {
    if b == [] {
      assert a + b == a;
    } else {
      var init := b[..|b| - 1];
      assert (a + b)[..|a + b| - 1] == a + init;
      BigEndianAppend(a, init);
      Pow2Byte(|b| - 1);
      Distribute(BigEndian(a), Pow2(8 * |init|), BigEndian(init));
      assert BigEndian(a + b) == BigEndian(a + init) * 256 + b[|b| - 1];
    }
  }

  lemma {:induction false} LeadingZeros(n: nat, b: seq<Byte>)
    ensures BigEndian(seq(n, i => 0) + b) == BigEndian(b)
    decreases n
  {
    if n == 0 {
      assert seq(0, i => 0) + b == b;
    } else {
      assert seq(n, i => 0) + b == seq(n - 1, i => 0) + ([0] + b);
      LeadingZeros(n - 1, [0] + b);
      BigEndianAppend([0], b);
      assert BigEndian([0]) == 0;
    }
  }

  lemma {:induction false} EncodeSuffix(v: int, n: nat, k: nat)
    requires k <= n
    ensures Encode(v, n)[n - k..] == Encode(v, k)
    decreases n
  {
    if k > 0 {
      EncodeSuffix(v / 256, n - 1, k - 1);
    }
  }

  /** Byte `i` of the encoding is cut out by a shift and a mask. */
  lemma {:induction false} EncodeAt(v: int, n: nat, i: nat)
    requires i < n
    ensures Encode(v, n)[i] == v / Pow2(8 * (n - 1 - i)) % 256
    decreases n
  {
    if i < n - 1 {
      EncodeAt(v / 256, n - 1, i);
      Pow2Byte(n - 2 - i);
      DivStep(v, Pow2(8 * (n - 2 - i)));
    }
  }

  // ---------- boundsCheck and fieldTypeCompatibilityCheck ----------

  datatype Status = Success | InvalidArg

  /** A call passes either a scalar or, through the pointer variant, a byte array. */
  datatype Input = Scalar(value: Uint64) | Pointer(bytes: seq<Byte>)

  function BoundsCheck(width: nat, input: Input): Status {
    match input
    case Scalar(value) =>
      if width < 64 && value > Pow2(width) - 1 then InvalidArg else Success
    case Pointer(bytes) =>
      if |bytes| != ByteCount(width) then InvalidArg
      else if width % 8 != 0 && bytes[0] / Pow2(width % 8) > 0 then InvalidArg
      else Success
  }

  function FieldTypeCompatibilityCheck(width: nat, input: Input): Status {
    match input
    case Scalar(_) => if width > 64 then InvalidArg else Success
    case Pointer(bytes) => if |bytes| != ByteCount(width) then InvalidArg else Success
  }

  /** A buffer passes exactly if it has as many bytes as the width needs, a scalar exactly if the
      width is at most 64; the bounds check demands the same of a buffer. */
  lemma CompatibleIff(width: nat, b: seq<Byte>, v: Uint64)
    ensures FieldTypeCompatibilityCheck(width, Pointer(b)).Success? <==> 8 * (|b| - 1) < width <= 8 * |b|
    ensures FieldTypeCompatibilityCheck(width, Scalar(v)).Success? <==> width <= 64
    ensures BoundsCheck(width, Pointer(b)).Success? ==> 8 * (|b| - 1) < width <= 8 * |b|
  {
    Widths(width);
  }

  lemma SplitTopByte(b: seq<Byte>)
    requires b != []
    ensures BigEndian(b[1..]) < Pow2(8 * (|b| - 1))
    ensures BigEndian(b) == b[0] * Pow2(8 * (|b| - 1)) + BigEndian(b[1..])
  {
    assert b == [b[0]] + b[1..];
    BigEndianAppend([b[0]], b[1..]);
    BigEndianBound(b[1..]);
    assert BigEndian([b[0]]) == b[0];
  }

  lemma Widths(width: nat)
    ensures width == if width % 8 == 0 then 8 * ByteCount(width) else 8 * (ByteCount(width) - 1) + width % 8
  {
  }

  lemma TopByteOverflows(b: seq<Byte>, shift: nat)
    requires b != []
    ensures b[0] / Pow2(shift) > 0 <==> Pow2(8 * (|b| - 1) + shift) <= BigEndian(b)
  {
    hide BigEndian, Pow2;
    SplitTopByte(b);
    Pow2Add(8 * (|b| - 1), shift);
    TopByte(b[0], Pow2(8 * (|b| - 1)), BigEndian(b[1..]), Pow2(shift));
  }

  /** The shift of the top byte stands for a comparison of the whole value, at every width. */
  lemma ByteCheckIsValueCheck(width: nat, b: seq<Byte>)
    ensures BoundsCheck(width, Pointer(b)).Success? <==> |b| == ByteCount(width) && BigEndian(b) < Pow2(width)
  {
    hide BigEndian, Pow2;
    Widths(width);
    if |b| == ByteCount(width) {
      if width % 8 == 0 {
        BigEndianBound(b);
      } else {
        TopByteOverflows(b, width % 8);
      }
    }
  }

  lemma TopByte(top: nat, p: nat, rest: nat, s: nat)
    requires rest < p && 1 <= s
    ensures top / s > 0 <==> p * s <= top * p + rest
  {
    if top < s {
      DivModUnique(top, s, 0, top);
      Scale(s, top + 1, p);
    } else {
      assert top == s * (top / s) + top % s;
      Scale(top, s, p);
    }
  }

  lemma Pow2Of64()
    ensures Pow2(64) == 0x1_0000_0000_0000_0000
  {
    Pow2Add(32, 32);
    Pow2Add(16, 16);
    assert Pow2(16) == 0x1_0000 by { Pow2Add(8, 8); assert Pow2(8) == 256; }
  }

  lemma ScalarCheckIsValueCheck(width: nat, v: Uint64)
    ensures BoundsCheck(width, Scalar(v)).Success? && FieldTypeCompatibilityCheck(width, Scalar(v)).Success?
            <==> width <= 64 && v < Pow2(width)
  {
    Pow2Of64();
  }

  /** Up to 64 bits the two accepted forms are in bijection: decoding an accepted buffer gives
      an accepted scalar whose encoding is that buffer, and encoding an accepted scalar gives
      an accepted buffer that decodes to it. */
  lemma AcceptedFormsAreInBijection(width: nat)
    requires width <= 64
    ensures forall b :: BoundsCheck(width, Pointer(b)).Success? ==>
              BigEndian(b) < 0x1_0000_0000_0000_0000 && BoundsCheck(width, Scalar(BigEndian(b))).Success? &&
              Encode(BigEndian(b), ByteCount(width)) == b
    ensures forall v: Uint64 :: BoundsCheck(width, Scalar(v)).Success? ==>
              BoundsCheck(width, Pointer(Encode(v, ByteCount(width)))).Success? &&
              BigEndian(Encode(v, ByteCount(width))) == v
  {
    Pow2Of64();
    Pow2Monotone(width, 64);
    Pow2Monotone(width, 8 * ByteCount(width));
    forall b | BoundsCheck(width, Pointer(b)).Success?
      ensures BigEndian(b) < 0x1_0000_0000_0000_0000 && BoundsCheck(width, Scalar(BigEndian(b))).Success?
      ensures Encode(BigEndian(b), ByteCount(width)) == b
    {
      ByteCheckIsValueCheck(width, b);
      EncodeDecode(b);
    }
    forall v: Uint64 | BoundsCheck(width, Scalar(v)).Success?
      ensures BoundsCheck(width, Pointer(Encode(v, ByteCount(width)))).Success?
      ensures BigEndian(Encode(v, ByteCount(width))) == v
    {
      ScalarCheckIsValueCheck(width, v);
      InRangeIsExact(v, width);
    }
  }

  /** A value in the range of the field is encoded without loss, in a buffer the check accepts. */
  lemma InRangeIsExact(v: int, width: nat)
    requires 0 <= v < Pow2(width)
    ensures BigEndian(Encode(v, ByteCount(width))) == v
    ensures BoundsCheck(width, Pointer(Encode(v, ByteCount(width)))).Success?
  {
    var n := ByteCount(width);
    DecodeEncode(v, n);
    Pow2Monotone(width, 8 * n);
    DivModUnique(v, Pow2(8 * n), 0, v);
    ByteCheckIsValueCheck(width, Encode(v, n));
  }

  // ---------- toHostOrderData and toNetworkOrderData ----------

  /** `outData` is what the caller's variable holds before; a field of more than 8 bytes is
      refused and leaves it alone. */
  method ToHostOrder(size: nat, valuePtr: array<Byte>, outData: Uint64) returns (out: Uint64)
    requires size <= valuePtr.Length
    ensures size <= 8 ==> out == BigEndian(valuePtr[..size])
    ensures size > 8 ==> out == outData
  {
    if size > 8 {
      return outData;
    }
    var local := new Byte[8](i => 0);
    forall i | 0 <= i < size {
      local[8 - size + i] := valuePtr[i];
    }
    assert local[..] == seq(8 - size, i => 0) + valuePtr[..size];
    LeadingZeros(8 - size, valuePtr[..size]);
    BigEndianBound(local[..]);
    Pow2Of64();
    // be64toh: the number whose eight bytes in memory are those of `local`
    out := BigEndian(local[..]);
  }

  method ToNetworkOrder(size: nat, inData: Uint64, valuePtr: array<Byte>)
    requires size <= valuePtr.Length
    modifies valuePtr
    ensures valuePtr[..] == if size <= 8 then Encode(inData, size) + old(valuePtr[size..]) else old(valuePtr[..])
  {
    if size > 8 {
      return;
    }
    // htobe64: the eight bytes in memory of the converted number
    var src := Encode(inData, 8);
    EncodeSuffix(inData, 8, size);
    forall i | 0 <= i < size {
      valuePtr[i] := src[8 - size + i];
    }
    assert valuePtr[..size] == src[8 - size..];
  }

  /** For fields of up to 64 bits, writing an accepted scalar and reading it back is lossless. */
  method NetworkThenHost(width: nat, v: Uint64, buffer: array<Byte>) returns (out: Uint64)
    requires width <= 64 && ByteCount(width) <= buffer.Length
    requires BoundsCheck(width, Scalar(v)).Success?
    modifies buffer
    ensures out == v
    ensures BoundsCheck(width, Pointer(buffer[..ByteCount(width)])).Success?
  {
    ToNetworkOrder(ByteCount(width), v, buffer);
    assert buffer[..ByteCount(width)] == Encode(v, ByteCount(width));
    AcceptedFormsAreInBijection(width);
    out := ToHostOrder(ByteCount(width), buffer, 0);
  }

  // ---------- The Python codec ----------

  method FillCByteArr(content: int, size: nat) returns (value: array<Byte>, n: nat)
    ensures n == ByteCount(size) && value[..] == Encode(content, n)
  {
    n := ByteCount(size);
    value := new Byte[n](i => 0);
    for i := 0 to n
      invariant forall k :: 0 <= k < i ==> value[k] == Encode(content, n)[k]
    {
      EncodeAt(content, n, i);
      value[i] := content / Pow2(8 * (n - (i + 1))) % 256;
    }
  }

  lemma Pow2Zero()
    ensures Pow2(0) == 1
  {
  }

  lemma OneMoreByte(x: int, byte: int, p: int)
    ensures (x * 256 + byte) * p == x * (256 * p) + byte * p
  {
  }

  method FromCByteArr(value: array<Byte>, size: nat) returns (content: int)
    requires ByteCount(size) <= value.Length
    ensures content == BigEndian(value[..ByteCount(size)])
  {
    hide Pow2;
    var n := ByteCount(size);
    content := 0;
    assert n - 0 == n && BigEndian(value[..0]) == 0;
    for i := 0 to n
      invariant content == BigEndian(value[..i]) * Pow2(8 * (n - i))
    {
      assert value[..i + 1][..i] == value[..i];
      Pow2Byte(n - i - 1);
      OneMoreByte(BigEndian(value[..i]), value[i], Pow2(8 * (n - i - 1)));
      content := content + value[i] * Pow2(8 * (n - (i + 1)));
    }
    Pow2Zero();
  }

  /** For every integer and width the Python round trip is reduction modulo 256^n. */
  method FillThenRead(content: int, size: nat) returns (back: int)
    ensures back == content % Pow2(8 * ByteCount(size))
  {
    var value, n := FillCByteArr(content, size);
    back := FromCByteArr(value, size);
    assert value[..n] == value[..];
    DecodeEncode(content, n);
  }

  /** The two implementations agree: what Python writes, C++ reads back. */
  method FillThenHost(content: int, width: nat) returns (out: Uint64)
    requires width <= 64
    ensures out == content % Pow2(8 * ByteCount(width))
  {
    var value, n := FillCByteArr(content, width);
    out := ToHostOrder(n, value, 0);
    assert value[..n] == value[..];
    DecodeEncode(content, n);
  }

  /** And what C++ writes for an accepted scalar, Python reads back. */
  method NetworkThenPython(width: nat, v: Uint64, buffer: array<Byte>) returns (content: int)
    requires width <= 64 && ByteCount(width) <= buffer.Length
    requires BoundsCheck(width, Scalar(v)).Success?
    modifies buffer
    ensures content == v
  {
    ToNetworkOrder(ByteCount(width), v, buffer);
    assert buffer[..ByteCount(width)] == Encode(v, ByteCount(width));
    AcceptedFormsAreInBijection(width);
    content := FromCByteArr(buffer, width);
  }

  // ---------- _parse_int ----------

  /** What the caller gave: nothing, something `int()` turns into a number, or neither. */
  datatype Given = Absent | Number(v: int) | Unparsable

  datatype Parse = Skip | Parsed(v: int) | Failed | TooLarge

  datatype Field = Field(size: nat, readOnly: bool, required: bool, selectorId: bool)

  function ParseInt(f: Field, given: Given, skipSizeCheck: bool, maskType: bool): Parse {
    if given.Absent? && (f.readOnly || !f.required || f.selectorId) then Skip
    else if !given.Absent? && f.readOnly then Skip
    else if given.Unparsable? then Failed
    else
      var given := if given.Number? then given.v else if maskType then Pow2(f.size) - 1 else 0;
      // `parsed & ((1 << size) - 1)` is the remainder modulo 2^size
      var parsed := if maskType && given < 0 then given % Pow2(f.size) else given;
      if !skipSizeCheck && parsed / Pow2(f.size) > 0 then TooLarge else Parsed(parsed)
  }

  lemma QuotientPositive(v: int, p: nat)
    requires 1 <= p
    ensures v / p > 0 <==> p <= v
  {
    assert v == p * (v / p) + v % p;
    if v / p <= 0 {
      Scale(0, v / p, p);
    } else {
      Scale(v / p, 1, p);
    }
  }

  /** An omitted mask is all ones and an omitted value zero, whether or not sizes are checked. */
  lemma OmittedIsDefault(f: Field, skipSizeCheck: bool)
    requires !f.readOnly && f.required && !f.selectorId
    ensures ParseInt(f, Absent, skipSizeCheck, true) == Parsed(Pow2(f.size) - 1)
    ensures ParseInt(f, Absent, skipSizeCheck, false) == Parsed(0)
  {
    QuotientPositive(Pow2(f.size) - 1, Pow2(f.size));
    QuotientPositive(0, Pow2(f.size));
  }

  /** Which inputs are skipped, and which fail. */
  lemma SkippedOrFailedIff(f: Field, given: Given, skipSizeCheck: bool, maskType: bool)
    ensures ParseInt(f, given, skipSizeCheck, maskType).Skip? <==>
            f.readOnly || (given.Absent? && (!f.required || f.selectorId))
    ensures ParseInt(f, given, skipSizeCheck, maskType).Failed? <==> given.Unparsable? && !f.readOnly
  {
  }

  /** A number is reduced only if it is a negative mask, and refused only if sizes are checked and
      it does not fit. */
  lemma NumberIsParsed(f: Field, v: int, skipSizeCheck: bool, maskType: bool)
    requires !f.readOnly
    ensures ParseInt(f, Number(v), skipSizeCheck, maskType) ==
            if !skipSizeCheck && Pow2(f.size) <= v then TooLarge
            else Parsed(if maskType && v < 0 then v % Pow2(f.size) else v)
  {
    QuotientPositive(v, Pow2(f.size));
    QuotientPositive(v % Pow2(f.size), Pow2(f.size));
  }

  /** With the size check on, what is parsed is below 2^size; a mask is moreover non-negative
      and, if it was given as a negative number, its remainder modulo 2^size. */
  lemma ParsedIsInRange(f: Field, given: Given, maskType: bool)
    requires ParseInt(f, given, false, maskType).Parsed?
    ensures var v := ParseInt(f, given, false, maskType).v;
            && v < Pow2(f.size)
            && (maskType ==> 0 <= v)
            && (given.Number? && given.v >= 0 ==> v == given.v)
            && (given.Number? && given.v < 0 ==> v == if maskType then given.v % Pow2(f.size) else given.v)
  {
    QuotientPositive(ParseInt(f, given, false, maskType).v, Pow2(f.size));
  }

  /** Every number that fits is parsed, and every number that does not is refused. */
  lemma ParseAcceptsIff(f: Field, v: int, maskType: bool)
    requires !f.readOnly
    ensures ParseInt(f, Number(v), false, maskType).Parsed? <==> v < Pow2(f.size)
  {
    QuotientPositive(v, Pow2(f.size));
    QuotientPositive(v % Pow2(f.size), Pow2(f.size));
  }

  /** End to end: a parsed number is written to a buffer the C++ check accepts exactly when its
      residue modulo 256^n fits the field, and arrives as itself exactly when it is not negative.
      An unmasked negative number passes the size check of the parser. */
  lemma ParsedBufferIsAcceptedIff(f: Field, given: Given, maskType: bool)
    requires ParseInt(f, given, false, maskType).Parsed?
    ensures var v, n := ParseInt(f, given, false, maskType).v, ByteCount(f.size);
            && (BoundsCheck(f.size, Pointer(Encode(v, n))).Success? <==> v % Pow2(8 * n) < Pow2(f.size))
            && (BoundsCheck(f.size, Pointer(Encode(v, n))).Success? && BigEndian(Encode(v, n)) == v <==> 0 <= v)
            && (f.size % 8 == 0 ==> BoundsCheck(f.size, Pointer(Encode(v, n))).Success?)
  {
    var v, n := ParseInt(f, given, false, maskType).v, ByteCount(f.size);
    ParsedIsInRange(f, given, maskType);
    ByteCheckIsValueCheck(f.size, Encode(v, n));
    DecodeEncode(v, n);
    if 0 <= v {
      InRangeIsExact(v, f.size);
    }
  }

  /** So -1000 in a field of eight bits is parsed, its buffer is accepted, and it arrives as 24. */
  lemma NegativeIsTruncated()
    ensures var f := Field(8, false, true, false);
            && ParseInt(f, Number(-1000), false, false) == Parsed(-1000)
            && BoundsCheck(8, Pointer(Encode(-1000, 1))).Success?
            && BigEndian(Encode(-1000, 1)) == 24
  {
    assert Encode(-1000, 1) == [24];
    assert Pow2(8) == 256 && BigEndian([24]) == 24;
  }

  /** And minus one in a field of three bits is parsed, and its buffer is refused. */
  lemma NegativeIsRefusedLater()
    ensures var f := Field(3, false, true, false);
            && ParseInt(f, Number(-1), false, false) == Parsed(-1)
            && BoundsCheck(3, Pointer(Encode(-1, 1))).InvalidArg?
  {
    assert Encode(-1, 1) == [255];
    assert Pow2(3) == 8;
  }
}
