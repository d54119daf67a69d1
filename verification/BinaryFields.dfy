/** Integer fields inside a bit string: reading, literal tests, packing. */
module BinaryFields {
  import opened Bitwise
  import opened BitStrings

  datatype Endian = Big | Little
  datatype Sign = Signed | Unsigned

  predicate ByteAligned(start: nat, width: nat) {
    start % 8 == 0 && width % 8 == 0
  }

  // ----- what a field means -----

  /** The number a byte run writes, least significant byte first. */
  function LittleValue(bytes: seq<Byte>): nat {
    if bytes == [] then 0 else bytes[0] + 256 * LittleValue(bytes[1..])
  }

  /**
   The unsigned value of the `width` bits at `start`. Endianness only matters
   for a whole run of bytes; any other run is read most significant bit first.
   */
  function FieldValue(bytes: seq<Byte>, width: nat, endian: Endian, start: nat): nat
    requires start + width <= 8 * |bytes|
  {
    if ByteAligned(start, width) && endian.Little? then
      LittleValue(bytes[start / 8..start / 8 + width / 8])
    else
      FromMsb(ToBits(bytes, 8 * |bytes|)[start..start + width])
  }

  /** Bit `j` of the field, least significant first. */
  function FieldBit(bytes: seq<Byte>, width: nat, endian: Endian, start: nat, j: nat): bool
    requires start + width <= 8 * |bytes| && j < width
  {
    if ByteAligned(start, width) && endian.Little? then
      Bit(bytes[start / 8 + j / 8], j % 8)
    else
      BitAt(bytes, start + width - 1 - j)
  }

  lemma JoinedBit(low: Byte, high: nat, j: nat)
    ensures Bit(low + 256 * high, j) == if j < 8 then Bit(low, j) else Bit(high, j - 8)
  {
    Pow2Of8();
    DivModUnique(low + 256 * high, 256, high, low);
    if j < 8 {
      TruncateBit(low + 256 * high, 8, j);
    } else {
      ShrBit(low + 256 * high, 8, j - 8);
    }
  }

  lemma {:induction false} LittleValueBit(bytes: seq<Byte>, j: nat)
    requires j < 8 * |bytes|
    ensures Bit(LittleValue(bytes), j) == Bit(bytes[j / 8], j % 8)
  {
    JoinedBit(bytes[0], LittleValue(bytes[1..]), j);
    if j >= 8 {
      LittleValueBit(bytes[1..], j - 8);
      assert bytes[1..][(j - 8) / 8] == bytes[j / 8];
    }
  }

  lemma {:induction false} LittleValueBound(bytes: seq<Byte>)
    ensures LittleValue(bytes) < Pow2(8 * |bytes|)
  {
    if bytes != [] {
      LittleValueBound(bytes[1..]);
      Pow2Of8();
      Pow2Adds(8, 8 * |bytes[1..]|);
    }
  }

  lemma FieldValueBound(bytes: seq<Byte>, width: nat, endian: Endian, start: nat)
    requires start + width <= 8 * |bytes|
    ensures FieldValue(bytes, width, endian, start) < Pow2(width)
  {
    if ByteAligned(start, width) && endian.Little? {
      LittleValueBound(bytes[start / 8..start / 8 + width / 8]);
    } else {
      FromMsbBound(ToBits(bytes, 8 * |bytes|)[start..start + width]);
    }
  }

  lemma FieldValueBit(bytes: seq<Byte>, width: nat, endian: Endian, start: nat, j: nat)
    requires start + width <= 8 * |bytes| && j < width
    ensures Bit(FieldValue(bytes, width, endian, start), j) == FieldBit(bytes, width, endian, start, j)
  {
    if ByteAligned(start, width) && endian.Little? {
      LittleValueBit(bytes[start / 8..start / 8 + width / 8], j);
    } else {
      FromMsbBit(ToBits(bytes, 8 * |bytes|)[start..start + width], j);
    }
  }

  /** The field and the two's complement of `value` have the same bit `j`. */
  ghost predicate Agrees(bytes: seq<Byte>, width: nat, endian: Endian, start: nat, value: int, j: nat)
    requires start + width <= 8 * |bytes| && j < width
  {
    FieldBit(bytes, width, endian, start, j) == Bit(value, j)
  }

  /** A field holds `value` modulo 2^width exactly when their bits agree. */
  lemma FieldHolds(bytes: seq<Byte>, width: nat, endian: Endian, start: nat, value: int)
    requires start + width <= 8 * |bytes|
    ensures FieldValue(bytes, width, endian, start) == value % Pow2(width) <==>
            forall j :: 0 <= j < width ==> Agrees(bytes, width, endian, start, value, j)
  {
    var field, low := FieldValue(bytes, width, endian, start), value % Pow2(width);
    FieldValueBound(bytes, width, endian, start);
    forall j | 0 <= j < width ensures Agrees(bytes, width, endian, start, value, j) <==> Bit(field, j) == Bit(low, j) {
      FieldValueBit(bytes, width, endian, start, j);
      TruncateBit(value, width, j);
    }
    if forall j :: 0 <= j < width ==> Agrees(bytes, width, endian, start, value, j) {
      SameBits(field, low, width);
    }
  }

  // ----- reading a field of at most 64 bits -----

  /** How many bytes of an aligned run are less significant than byte `i`. */
  function Significance(i: nat, count: nat, endian: Endian): nat
    requires i < count
  {
    if endian.Little? then i else count - 1 - i
  }

  /** The first `i` bytes of an aligned run have been or-ed into the word. */
  ghost predicate GatheredBytes(value: nat, bytes: seq<Byte>, width: nat, endian: Endian, start: nat, i: nat)
    requires start + width <= 8 * |bytes| && ByteAligned(start, width)
  {
    value < Pow2(64) && forall j :: 0 <= j < 64 ==> Bit(value, j) == GatheredBit(bytes, width, endian, start, i, j)
  }

  ghost predicate GatheredBit(bytes: seq<Byte>, width: nat, endian: Endian, start: nat, i: nat, j: nat)
    requires start + width <= 8 * |bytes| && ByteAligned(start, width)
  {
    j < width && Significance(j / 8, width / 8, endian) < i && FieldBit(bytes, width, endian, start, j)
  }

  /** Or-ing a byte in at `place` sets the bits of that byte of the word. */
  lemma OrByteIn(value: nat, byte: Byte, place: nat, j: nat)
    requires j < 64
    ensures Bit(Or(value, Shl(byte, 8 * place, 64)), j) == (Bit(value, j) || (j / 8 == place && Bit(byte, j % 8)))
  {
    OrBit(value, Shl(byte, 8 * place, 64), j);
    ShlBit(byte, 8 * place, 64, j);
    if j / 8 > place {
      Pow2Of8();
      HighBit(byte, 8, j - 8 * place);
    }
  }

  lemma AlignedFieldBit(bytes: seq<Byte>, width: nat, endian: Endian, start: nat, j: nat)
    requires start + width <= 8 * |bytes| && ByteAligned(start, width) && j < width
    ensures FieldBit(bytes, width, endian, start, j) ==
            Bit(bytes[start / 8 + Significance(j / 8, width / 8, endian)], j % 8)
  {
    if endian.Big? {
      var p := start + width - 1 - j;
      assert p == 8 * (start / 8 + width / 8 - 1 - j / 8) + (7 - j % 8);
      DivModUnique(p, 8, start / 8 + width / 8 - 1 - j / 8, 7 - j % 8);
    }
  }

  lemma GatherByte(value: nat, bytes: seq<Byte>, width: nat, endian: Endian, start: nat, i: nat)
    requires start + width <= 8 * |bytes| && ByteAligned(start, width) && width <= 64 && i < width / 8
    requires GatheredBytes(value, bytes, width, endian, start, i)
    ensures GatheredBytes(Or(value, Shl(bytes[start / 8 + i], 8 * Significance(i, width / 8, endian), 64)), bytes,
            width, endian, start, i + 1)
  {
    var byte, place := bytes[start / 8 + i], Significance(i, width / 8, endian);
    var word := Shl(byte, 8 * place, 64);
    OrBound(value, word, 64);
    hide Or, Shl, Bit, FieldBit, GatheredBit;
    forall j | 0 <= j < 64 ensures Bit(Or(value, word), j) == GatheredBit(bytes, width, endian, start, i + 1, j) {
      OrByteIn(value, byte, place, j);
      OneMoreByte(bytes, width, endian, start, i, j);
    }
  }

  lemma OneMoreByte(bytes: seq<Byte>, width: nat, endian: Endian, start: nat, i: nat, j: nat)
    requires start + width <= 8 * |bytes| && ByteAligned(start, width) && width <= 64 && i < width / 8
    ensures GatheredBit(bytes, width, endian, start, i + 1, j) ==
            (GatheredBit(bytes, width, endian, start, i, j) ||
             (j / 8 == Significance(i, width / 8, endian) && Bit(bytes[start / 8 + i], j % 8)))
  {
    hide Bit, FieldBit;
    if j < width {
      AlignedFieldBit(bytes, width, endian, start, j);
    }
  }

  lemma GatheredAll(value: nat, bytes: seq<Byte>, width: nat, endian: Endian, start: nat)
    requires start + width <= 8 * |bytes| && ByteAligned(start, width) && width <= 64
    requires GatheredBytes(value, bytes, width, endian, start, width / 8)
    ensures value == FieldValue(bytes, width, endian, start)
  {
    var field := FieldValue(bytes, width, endian, start);
    FieldValueBound(bytes, width, endian, start);
    Pow2Grows(width, 64);
    forall j | 0 <= j < 64 ensures Bit(value, j) == Bit(field, j) {
      if j < width {
        FieldValueBit(bytes, width, endian, start, j);
      } else {
        HighBit(field, width, j);
      }
    }
    SameBits(value, field, 64);
  }

  lemma ShiftInBit(value: nat, i: nat, bit: nat)
    requires value < Pow2(i) && i < 64 && bit < 2
    ensures Or(Shl(value, 1, 64), bit) == 2 * value + bit
  {
    hide Or, Shl, Pow2;
    DoubleInWord(value, i);
    PowerOne();
    OrOfDisjoint(2 * value, bit, 1);
  }

  lemma PowerOne()
    ensures Pow2(1) == 2
  {
  }

  lemma DoubleInWord(value: nat, i: nat)
    requires value < Pow2(i) && i < 64
    ensures Shl(value, 1, 64) == 2 * value
  {
    Pow2Grows(i + 1, 64);
    DoublePower(i);
    PowerOne();
    hide Pow2;
    DivModUnique(2 * value, Pow2(64), 0, 2 * value);
  }

  lemma DoublePower(i: nat)
    ensures Pow2(i + 1) == 2 * Pow2(i)
  {
  }

  /** The byte-aligned path: or the bytes of the run into a word. */
  method ExtractBytes(bytes: seq<Byte>, width: nat, endian: Endian, start: nat) returns (value: nat)
    requires start + width <= 8 * |bytes| && width <= 64 && ByteAligned(start, width)
    ensures value == FieldValue(bytes, width, endian, start)
  {
    var numBytes := width / 8;
    var startByte := start / 8;
    value := 0;
    forall j | 0 <= j < 64 ensures !Bit(0, j) {
      ZeroBit(j);
    }
    for i := 0 to numBytes
      invariant GatheredBytes(value, bytes, width, endian, start, i)
    {
      GatherByte(value, bytes, width, endian, start, i);
      var shift := match endian case Little => 8 * i case Big => 8 * (numBytes - 1 - i);
      value := Or(value, Shl(bytes[startByte + i], shift, 64));
    }
    GatheredAll(value, bytes, width, endian, start);
  }

  lemma ShiftInNext(bits: seq<bool>, i: nat, bit: nat)
    requires i < |bits| && i < 64 && bit == if bits[i] then 1 else 0
    ensures Or(Shl(FromMsb(bits[..i]), 1, 64), bit) == FromMsb(bits[..i + 1])
  {
    FromMsbBound(bits[..i]);
    ShiftInBit(FromMsb(bits[..i]), i, bit);
    assert bits[..i + 1][..i] == bits[..i];
  }

  /** Read `width` bits at `start` as an unsigned 64-bit word. */
  method ExtractIntegerSegment(bytes: seq<Byte>, width: nat, endian: Endian, start: nat) returns (value: nat)
    requires start + width <= 8 * |bytes| && width <= 64
    ensures value == FieldValue(bytes, width, endian, start)
  {
    if width == 0 {
      return 0;
    }
    if start % 8 == 0 && width % 8 == 0 {
      value := ExtractBytes(bytes, width, endian, start);
      return;
    }
    value := 0;
    ghost var bits := ToBits(bytes, 8 * |bytes|)[start..start + width];
    for i := 0 to width
      invariant value == FromMsb(bits[..i])
    {
      var bitPos := start + i;
      var byte, bitInByte := bytes[bitPos / 8], 7 - bitPos % 8;
      ReadBit(byte, bitInByte);
      ShiftInNext(bits, i, And(Shr(byte, bitInByte), 1));
      value := Or(Shl(value, 1, 64), And(Shr(byte, bitInByte), 1));
    }
    assert bits[..width] == bits;
  }

  // ----- literal tests -----

  predicate InI128(value: int) {
    0 - Pow2(127) <= value < Pow2(127)
  }

  /** All-ones mask over the low `width` bits of a 64-bit word. */
  function WidthMask(width: nat): int {
    if width >= 64 then Pow2(64) - 1 else Shl(1, width, 64) - 1
  }

  lemma WidthMaskIsOnes(width: nat)
    requires width <= 64
    ensures WidthMask(width) == Pow2(width) - 1
  {
    if width < 64 {
      ShlOne(width, 64);
    }
  }

  /** Keeping 64 bits and then `width` of them keeps `width` of them. */
  lemma TruncateTwice(value: int, width: nat, wide: nat)
    requires width <= wide
    ensures value % Pow2(wide) % Pow2(width) == value % Pow2(width)
  {
    forall j | 0 <= j < width ensures Bit(value % Pow2(wide) % Pow2(width), j) == Bit(value % Pow2(width), j) {
      TruncateBit(value % Pow2(wide), width, j);
      TruncateBit(value, wide, j);
      TruncateBit(value, width, j);
    }
    SameBits(value % Pow2(wide) % Pow2(width), value % Pow2(width), width);
  }

  /** Byte `significance` of the sign-extended two's complement of an `i128`. */
  function ValueByte(value: int, significance: nat): Byte {
    Pow2Of8();
    if significance >= 16 then (if value < 0 then 255 else 0)
    else Truncate(Shr(value, 8 * significance), 8)
  }

  /** Past the 128-bit payload every bit is the sign. */
  lemma SignBit(value: int, j: nat)
    requires InI128(value) && 128 <= j
    ensures Bit(value, j) == (value < 0)
  {
    Pow2Grows(127, 128);
    if value < 0 {
      ComplementBit(value, j);
      HighBit(-1 - value, 128, j);
    } else {
      HighBit(value, 128, j);
    }
  }

  lemma ValueByteBit(value: int, significance: nat, k: nat)
    requires InI128(value) && k < 8
    ensures Bit(ValueByte(value, significance), k) == Bit(value, 8 * significance + k)
  {
    if significance >= 16 {
      SignBit(value, 8 * significance + k);
      Pow2Of8();
      OnesBit(8, k);
      ZeroBit(k);
    } else {
      TruncateBit(Shr(value, 8 * significance), 8, k);
      ShrBit(value, 8 * significance, k);
    }
  }

  /** Byte `i` of an aligned run is the byte of `value` it stands for. */
  predicate ByteAgrees(bytes: seq<Byte>, width: nat, endian: Endian, start: nat, value: int, i: nat)
    requires start + width <= 8 * |bytes| && ByteAligned(start, width) && i < width / 8
  {
    bytes[start / 8 + i] == ValueByte(value, Significance(i, width / 8, endian))
  }

  /** Byte by byte is bit by bit, for a whole run of bytes at any width. */
  lemma BytesAgree(bytes: seq<Byte>, width: nat, endian: Endian, start: nat, value: int)
    requires start + width <= 8 * |bytes| && ByteAligned(start, width) && InI128(value)
    ensures (forall i :: 0 <= i < width / 8 ==> ByteAgrees(bytes, width, endian, start, value, i))
            <==> forall j :: 0 <= j < width ==> Agrees(bytes, width, endian, start, value, j)
  {
    var count := width / 8;
    if forall i :: 0 <= i < count ==> ByteAgrees(bytes, width, endian, start, value, i) {
      forall j | 0 <= j < width ensures Agrees(bytes, width, endian, start, value, j) {
        AlignedFieldBit(bytes, width, endian, start, j);
        assert ByteAgrees(bytes, width, endian, start, value, Significance(j / 8, count, endian));
        ValueByteBit(value, j / 8, j % 8);
      }
    }
    if forall j :: 0 <= j < width ==> Agrees(bytes, width, endian, start, value, j) {
      forall i | 0 <= i < count ensures ByteAgrees(bytes, width, endian, start, value, i) {
        ByteFromBits(bytes, width, endian, start, value, i);
      }
    }
  }

  lemma ByteFromBits(bytes: seq<Byte>, width: nat, endian: Endian, start: nat, value: int, i: nat)
    requires start + width <= 8 * |bytes| && ByteAligned(start, width) && InI128(value) && i < width / 8
    requires forall j :: 0 <= j < width ==> Agrees(bytes, width, endian, start, value, j)
    ensures ByteAgrees(bytes, width, endian, start, value, i)
  {
    var place := Significance(i, width / 8, endian);
    forall k | 0 <= k < 8 ensures Bit(bytes[start / 8 + i], k) == Bit(ValueByte(value, place), k) {
      var j := 8 * place + k;
      DivModUnique(j, 8, place, k);
      AlignedFieldBit(bytes, width, endian, start, j);
      assert Agrees(bytes, width, endian, start, value, j);
      ValueByteBit(value, place, k);
    }
    SameByte(bytes[start / 8 + i], ValueByte(value, place));
  }

  /** Bit `pos` of the stream, as a shift and a mask read it. */
  function StreamBit(bytes: seq<Byte>, pos: nat): (bit: nat)
    requires pos < 8 * |bytes|
    ensures bit == if BitAt(bytes, pos) then 1 else 0
  {
    ReadBit(bytes[pos / 8], 7 - pos % 8);
    And(Shr(bytes[pos / 8], 7 - pos % 8), 1)
  }

  /** Bit `significance` of the value, read through its byte. */
  function ValueBit(value: int, significance: nat): (bit: nat)
    requires InI128(value)
    ensures bit == if Bit(value, significance) then 1 else 0
  {
    ReadBit(ValueByte(value, significance / 8), significance % 8);
    ValueByteBit(value, significance / 8, significance % 8);
    And(Shr(ValueByte(value, significance / 8), significance % 8), 1)
  }

  /** Bit `i` of a run, most significant first, is the bit of `value` it stands for. */
  predicate BitAgrees(bytes: seq<Byte>, width: nat, start: nat, value: int, i: nat)
    requires start + width <= 8 * |bytes| && i < width && InI128(value)
  {
    StreamBit(bytes, start + i) == ValueBit(value, width - 1 - i)
  }

  lemma BitAgreesMeans(bytes: seq<Byte>, width: nat, endian: Endian, start: nat, value: int, i: nat)
    requires start + width <= 8 * |bytes| && i < width && InI128(value)
    requires !(ByteAligned(start, width) && endian.Little?)
    ensures BitAgrees(bytes, width, start, value, i) <==> Agrees(bytes, width, endian, start, value, width - 1 - i)
  {
    assert start + width - 1 - (width - 1 - i) == start + i;
  }

  lemma BitsAgree(bytes: seq<Byte>, width: nat, endian: Endian, start: nat, value: int)
    requires start + width <= 8 * |bytes| && !ByteAligned(start, width) && InI128(value)
    ensures (forall i :: 0 <= i < width ==> BitAgrees(bytes, width, start, value, i))
            <==> forall j :: 0 <= j < width ==> Agrees(bytes, width, endian, start, value, j)
  {
    if forall i :: 0 <= i < width ==> BitAgrees(bytes, width, start, value, i) {
      forall j | 0 <= j < width ensures Agrees(bytes, width, endian, start, value, j) {
        BitAgreesMeans(bytes, width, endian, start, value, width - 1 - j);
      }
    }
    if forall j :: 0 <= j < width ==> Agrees(bytes, width, endian, start, value, j) {
      forall i | 0 <= i < width ensures BitAgrees(bytes, width, start, value, i) {
        BitAgreesMeans(bytes, width, endian, start, value, i);
      }
    }
  }

  /** Whether the field equals the low `width` bits of `value`, at any width. */
  method LiteralSegmentMatches(
    bytes: seq<Byte>, width: nat, endian: Endian, start: nat, value: int) returns (matched: bool)
    requires start + width <= 8 * |bytes| && InI128(value)
    ensures matched <==> FieldValue(bytes, width, endian, start) == value % Pow2(width)
  {
    if width <= 64 {
      var extracted := ExtractIntegerSegment(bytes, width, endian, start);
      WidthMaskIsOnes(width);
      MaskIsTruncate(Truncate(value, 64), width);
      TruncateTwice(value, width, 64);
      return extracted == And(Truncate(value, 64), WidthMask(width));
    }
    FieldHolds(bytes, width, endian, start, value);
    if start % 8 == 0 && width % 8 == 0 {
      BytesAgree(bytes, width, endian, start, value);
      return forall i :: 0 <= i < width / 8 ==> ByteAgrees(bytes, width, endian, start, value, i);
    }
    BitsAgree(bytes, width, endian, start, value);
    return forall i :: 0 <= i < width ==> BitAgrees(bytes, width, start, value, i);
  }

  // ----- sign -----

  /** The stored word of a `width`-bit pattern, read under its sign modifier. */
  function SignInterpret(value: nat, width: nat, sign: Sign): int
    requires value < Pow2(64)
  {
    match sign
    case Unsigned => AsSigned(value, 64)
    case Signed =>
      if width == 0 || width >= 64 then AsSigned(value, 64)
      else
        WidthMaskIsOnes(width);
        Pow2Grows(width, 64);
        OrBound(value, Not(WidthMask(width), 64), 64);
        if And(value, Shl(1, width - 1, 64)) != 0 then AsSigned(Or(value, Not(WidthMask(width), 64)), 64)
        else AsSigned(value, 64)
  }

  /** Testing the sign bit is comparing with half the range. */
  lemma SignBitTest(value: nat, width: nat)
    requires 0 < width < 64 && value < Pow2(width)
    ensures And(value, Shl(1, width - 1, 64)) != 0 <==> value >= Pow2(width - 1)
  {
    ShlOne(width - 1, 64);
    TopBit(value, width);
    AndTopBit(value, width);
  }

  lemma {:induction false} TopBit(value: nat, width: nat)
    requires 0 < width && value < Pow2(width)
    ensures Bit(value, width - 1) <==> value >= Pow2(width - 1)
  {
    if width > 1 {
      TopBit(value / 2, width - 1);
    }
  }

  lemma {:induction false} AndTopBit(value: nat, width: nat)
    requires 0 < width
    ensures And(value, Pow2(width - 1)) != 0 <==> Bit(value, width - 1)
    decreases width
  {
    if value == 0 {
      ZeroBit(width - 1);
    } else if width == 1 {
      AndZero(value / 2);
    } else {
      AndTopBit(value / 2, width - 1);
    }
  }

  /**
   A signed field of 1 to 64 bits reads as its two's complement value, an empty
   field as zero, and an unsigned or wider field as the word that holds it.
   */
  lemma SignInterpretIsExact(value: nat, width: nat, sign: Sign)
    requires value < Pow2(width) && value < Pow2(64)
    ensures sign.Signed? && 0 < width <= 64 ==> SignInterpret(value, width, sign) == AsSigned(value, width)
    ensures sign.Unsigned? || width >= 64 ==> SignInterpret(value, width, sign) == AsSigned(value, 64)
    ensures sign.Unsigned? && width < 64 ==> SignInterpret(value, width, sign) == value
    ensures width == 0 ==> SignInterpret(value, width, sign) == 0
  {
    assert Pow2(0) == 1;
    hide And, Or, Shl, Pow2;
    if width < 64 {
      SmallStaysPositive(value, width, 64);
      if width > 0 {
        SignBitTest(value, width);
        WidthMaskIsOnes(width);
        SignFillSubtracts(value, width, 64);
      }
    }
  }

  lemma SmallStaysPositive(value: nat, width: nat, word: nat)
    requires value < Pow2(width) && width < word
    ensures value < Pow2(word) && AsSigned(value, word) == value
  {
    Pow2Grows(width, word - 1);
  }

  lemma SignFillSubtracts(value: nat, width: nat, word: nat)
    requires value < Pow2(width) && width < word
    ensures Pow2(width) <= Pow2(word) && Or(value, Not(Pow2(width) - 1, word)) < Pow2(word)
    ensures AsSigned(Or(value, Not(Pow2(width) - 1, word)), word) == value - Pow2(width)
  {
    SignFill(value, width, word);
    Pow2Grows(width, word - 1);
  }

  /** Filling the bits above a field with ones subtracts 2^width from it, modulo the word. */
  lemma SignFill(value: nat, width: nat, word: nat)
    requires value < Pow2(width) && width <= word
    ensures Pow2(width) <= Pow2(word)
    ensures Or(value, Not(Pow2(width) - 1, word)) == value + Pow2(word) - Pow2(width)
  {
    Pow2Grows(width, word);
    var high, above := Pow2(word) - Pow2(width), Pow2(word - width);
    Pow2Adds(width, word - width);
    assert high == Pow2(width) * (above - 1);
    DivModUnique(high, Pow2(width), above - 1, 0);
    OrOfDisjoint(high, value, width);
    OrCommutes(high, value);
  }

  lemma {:induction false} OrCommutes(a: nat, b: nat)
    ensures Or(a, b) == Or(b, a)
  {
    if a == 0 {
      OrZero(b);
    } else if b == 0 {
      OrZero(a);
    } else {
      OrCommutes(a / 2, b / 2);
    }
  }
}
