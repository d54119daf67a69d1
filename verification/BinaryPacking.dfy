/** Writing integer fields, the inverse of reading them. */
module BinaryPacking {
  import opened Bitwise
  import opened BitStrings
  import opened BinaryAppend
  import opened BinaryFields

  /** Bit `p` lies outside the field. */
  predicate Outside(width: nat, start: nat, p: nat) {
    p < start || start + width <= p
  }

  /** `after` is `before` with the low `width` bits of `value` written at `start`. */
  ghost predicate Packed(after: seq<Byte>, before: seq<Byte>, value: nat, width: nat, endian: Endian, start: nat) {
    && |after| == |before| && start + width <= 8 * |after|
    && FieldValue(after, width, endian, start) == value % Pow2(width)
    && forall p :: 0 <= p < 8 * |after| && Outside(width, start, p) ==> BitAt(after, p) == BitAt(before, p)
  }

  // ----- the byte-aligned path -----

  ghost predicate PackedBytes(
    buffer: seq<Byte>, before: seq<Byte>, value: nat, width: nat, endian: Endian, start: nat, n: nat)
    requires ByteAligned(start, width) && start + width <= 8 * |before| && n <= width / 8
  {
    && |buffer| == |before|
    && (forall i :: 0 <= i < |buffer| && !(start / 8 <= i < start / 8 + n) ==> buffer[i] == before[i])
    && (forall i :: start / 8 <= i < start / 8 + n ==>
      buffer[i] == Truncate(Shr(value, 8 * Significance(i - start / 8, width / 8, endian)), 8))
  }

  lemma PackedBytesSuffice(buffer: seq<Byte>, before: seq<Byte>, value: nat, width: nat, endian: Endian, start: nat)
    requires ByteAligned(start, width) && start + width <= 8 * |before|
    requires PackedBytes(buffer, before, value, width, endian, start, width / 8)
    ensures Packed(buffer, before, value, width, endian, start)
  {
    forall j | 0 <= j < width ensures Agrees(buffer, width, endian, start, value, j) {
      var place := Significance(j / 8, width / 8, endian);
      AlignedFieldBit(buffer, width, endian, start, j);
      assert buffer[start / 8 + place] == Truncate(Shr(value, 8 * (j / 8)), 8);
      TruncateBit(Shr(value, 8 * (j / 8)), 8, j % 8);
      ShrBit(value, 8 * (j / 8), j % 8);
    }
    FieldHolds(buffer, width, endian, start, value);
    forall p | 0 <= p < 8 * |buffer| && Outside(width, start, p) ensures BitAt(buffer, p) == BitAt(before, p) {
      assert buffer[p / 8] == before[p / 8];
    }
  }

  // ----- the bit-by-bit path -----

  /** The first `i` bits of the field have been or-ed over zeros. */
  ghost predicate PackedBits(buffer: seq<Byte>, before: seq<Byte>, value: nat, width: nat, start: nat, i: nat) {
    && |buffer| == |before| && i <= width && start + width <= 8 * |before|
    && forall p :: 0 <= p < 8 * |buffer| ==>
         BitAt(buffer, p) == (BitAt(before, p) || (start <= p < start + i && Bit(value, width - 1 - (p - start))))
  }

  /** The bits of the field are still zero. */
  ghost predicate Unwritten(bytes: seq<Byte>, width: nat, start: nat)
    requires start + width <= 8 * |bytes|
  {
    forall p :: start <= p < start + width ==> !BitAt(bytes, p)
  }

  lemma PackedBitsBegin(before: seq<Byte>, value: nat, width: nat, start: nat)
    requires start + width <= 8 * |before|
    ensures PackedBits(before, before, value, width, start, 0)
  {
  }

  lemma PackBitStep(
    buffer: seq<Byte>, before: seq<Byte>, value: nat, width: nat, start: nat, i: nat, at: nat, k: nat,
    buffer': seq<Byte>)
    requires PackedBits(buffer, before, value, width, start, i) && i < width
    requires start + i == 8 * at + k && k < 8 && at < |buffer| && Or(buffer[at], Shl(1, 7 - k, 8)) < 256
    requires buffer' == if Bit(value, width - 1 - i) then buffer[at := Or(buffer[at], Shl(1, 7 - k, 8))] else buffer
    ensures PackedBits(buffer', before, value, width, start, i + 1)
  {
    hide Or, Shl, Bit;
    forall p | 0 <= p < 8 * |buffer'| ensures
      BitAt(buffer', p) == (BitAt(before, p) || (start <= p < start + i + 1 && Bit(value, width - 1 - (p - start))))
    {
      assert BitAt(buffer, p) == (BitAt(before, p) || (start <= p < start + i && Bit(value, width - 1 - (p - start))));
      if p / 8 == at {
        SetByteBit(buffer[at], k, p % 8);
      }
    }
  }

  lemma PackedBitsSuffice(buffer: seq<Byte>, before: seq<Byte>, value: nat, width: nat, endian: Endian, start: nat)
    requires start + width <= 8 * |before| && !ByteAligned(start, width) &&
             PackedBits(buffer, before, value, width, start, width)
    requires Unwritten(before, width, start)
    ensures Packed(buffer, before, value, width, endian, start)
  {
    forall j | 0 <= j < width ensures Agrees(buffer, width, endian, start, value, j) {
      var p := start + width - 1 - j;
      assert BitAt(buffer, p) ==
        (BitAt(before, p) || (start <= p < start + width && Bit(value, width - 1 - (p - start))));
    }
    FieldHolds(buffer, width, endian, start, value);
  }

  method PackBitsInto(buffer: array<Byte>, value: nat, width: nat, ghost endian: Endian, start: nat)
    requires start + width <= 8 * buffer.Length && !ByteAligned(start, width)
    requires width <= 64 && value < Pow2(64)
    requires Unwritten(buffer[..], width, start)
    modifies buffer
    ensures Packed(buffer[..], old(buffer[..]), value, width, endian, start)
  {
    ghost var before := buffer[..];
    PackedBitsBegin(before, value, width, start);
    hide Pow2, And, Or, Shl, Shr, Bit, BitAt, PackedBits, Packed, ByteAligned, Unwritten;
    for i := 0 to width
      invariant PackedBits(buffer[..], before, value, width, start, i)
    {
      var bitPos := start + i;
      var at, k := bitPos / 8, bitPos % 8;
      SetByteBit(buffer[at], k, 0);
      ReadBit(value, width - 1 - i);
      ghost var now := buffer[..];
      var bit := And(Shr(value, width - 1 - i), 1);
      if bit != 0 {
        buffer[at] := Or(buffer[at], Shl(1, 7 - k, 8));
      }
      PackBitStep(now, before, value, width, start, i, at, k, buffer[..]);
    }
    PackedBitsSuffice(buffer[..], before, value, width, endian, start);
  }

  /** Store `value` modulo 2^width in the field at `start`. A field of whole bytes may replace what is there. */
  method PackIntegerSegment(buffer: array<Byte>, value: nat, width: nat, endian: Endian, start: nat)
    requires start + width <= 8 * buffer.Length && width <= 64 && value < Pow2(64)
    requires ByteAligned(start, width) || Unwritten(buffer[..], width, start)
    modifies buffer
    ensures Packed(buffer[..], old(buffer[..]), value, width, endian, start)
  {
    if width == 0 {
      FieldValueBound(buffer[..], width, endian, start);
      return;
    }
    hide Pow2, Bit, BitAt, Packed;
    if start % 8 == 0 && width % 8 == 0 {
      PackBytesInto(buffer, value, width, endian, start);
      return;
    }
    PackBitsInto(buffer, value, width, endian, start);
  }

  /** The byte-aligned path: every byte of the field is overwritten. */
  method PackBytesInto(buffer: array<Byte>, value: nat, width: nat, endian: Endian, start: nat)
    requires start + width <= 8 * buffer.Length && width <= 64 && value < Pow2(64) && ByteAligned(start, width)
    modifies buffer
    ensures Packed(buffer[..], old(buffer[..]), value, width, endian, start)
  {
    Pow2Of8();
    hide Pow2, Bit, BitAt, Packed;
    ghost var before := buffer[..];
    var numBytes := width / 8;
    var startByte := start / 8;
    for i := 0 to numBytes
      invariant PackedBytes(buffer[..], before, value, width, endian, start, i)
    {
      var shift := match endian case Little => 8 * i case Big => 8 * (numBytes - 1 - i);
      buffer[startByte + i] := Truncate(Shr(value, shift), 8);
    }
    PackedBytesSuffice(buffer[..], before, value, width, endian, start);
  }

  /** Reading a packed field gives the value back whenever it fits the width. */
  lemma PackedReadsBack(after: seq<Byte>, before: seq<Byte>, value: nat, width: nat, endian: Endian, start: nat)
    requires Packed(after, before, value, width, endian, start)
    ensures value < Pow2(width) ==> FieldValue(after, width, endian, start) == value
    ensures FieldValue(after, width, endian, start) == value ==> value < Pow2(width)
  {
    FieldValueBound(after, width, endian, start);
    if value < Pow2(width) {
      DivModUnique(value, Pow2(width), 0, value);
    }
  }
}
