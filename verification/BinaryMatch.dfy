/** The `BinaryMatch` driver: length gate, literal tests, field and tail binds. */
module BinaryMatch {
  import opened Bitwise
  import opened BitStrings
  import opened BinaryAppend
  import opened BinaryFields
  import opened Values
  import opened Wrappers

  datatype TailType = BinaryTail | BitsTail

  datatype Layout = Layout(fixedBits: nat, hasGreedyTail: bool)

  datatype Pattern =
    | LiteralInt(bitOffset: nat, endian: Endian, value: int, width: nat)
    | LiteralBytes(bitOffset: nat, expected: seq<Byte>)
    | BindInt(bitOffset: nat, endian: Endian, local: nat, sign: Sign, width: nat)
    | Discard
    | GreedyTail(bitOffset: nat, slot: Option<nat>, ty: TailType)

  /** What lowering guarantees of a segment: it lies inside the fixed prefix. */
  predicate Placed(layout: Layout, s: Pattern) {
    match s
    case LiteralInt(offset, _, value, width) => offset + width <= layout.fixedBits && InI128(value)
    case LiteralBytes(offset, expected) => offset % 8 == 0 && offset + 8 * |expected| <= layout.fixedBits
    case BindInt(offset, _, _, _, width) => offset + width <= layout.fixedBits && width <= 64
    case Discard => true
    case GreedyTail(offset, _, ty) => offset <= layout.fixedBits && (ty.BinaryTail? ==> offset % 8 == 0)
  }

  /** The runtime gate on the subject's length. */
  predicate LengthFits(layout: Layout, bitLength: nat) {
    if layout.hasGreedyTail then bitLength >= layout.fixedBits else bitLength == layout.fixedBits
  }

  /** A segment that tests something holds of the subject. */
  ghost predicate Holds(layout: Layout, bytes: seq<Byte>, s: Pattern)
    requires Placed(layout, s) && layout.fixedBits <= 8 * |bytes|
  {
    match s
    case LiteralInt(offset, endian, value, width) => FieldValue(bytes, width, endian, offset) == value % Pow2(width)
    case LiteralBytes(offset, expected) => bytes[offset / 8..offset / 8 + |expected|] == expected
    case _ => true
  }

  /** The value a segment binds is the field or tail it names. */
  ghost predicate BindsTo(layout: Layout, bytes: seq<Byte>, bitLength: nat, s: Pattern, v: Value)
    requires Placed(layout, s) && layout.fixedBits <= bitLength <= 8 * |bytes|
  {
    match s
    case BindInt(offset, endian, _, sign, width) =>
      var field := FieldValue(bytes, width, endian, offset);
      && v.Int?
      && (sign.Signed? && width > 0 ==> field < Pow2(width) && v.word == AsSigned(field, width))
      && (sign.Unsigned? ==> field < Pow2(64) && v.word == AsSigned(field, 64))
      && (width == 0 ==> v.word == 0)
    case GreedyTail(offset, _, BinaryTail) => v == Binary(bytes[offset / 8..])
    case GreedyTail(offset, _, BitsTail) =>
      && v.Bits? && v.bitLength == bitLength - offset
      && IsBitRange(v.bytes, bytes, offset, bitLength - offset)
    case _ => false
  }

  function Target(s: Pattern): Option<nat> {
    match s
    case BindInt(_, _, local, _, _) => Some(local)
    case GreedyTail(_, slot, _) => slot
    case _ => None
  }

  /** Binding changes the named slot to the named value and no other slot. */
  ghost predicate Bound(
    layout: Layout, bytes: seq<Byte>, bitLength: nat, s: Pattern, before: map<nat, Value>, after: map<nat, Value>)
    requires Placed(layout, s) && layout.fixedBits <= bitLength <= 8 * |bytes|
  {
    match Target(s)
    case None => after == before
    case Some(slot) =>
      && slot in after && BindsTo(layout, bytes, bitLength, s, after[slot])
      && after == before[slot := after[slot]]
  }

  /** The slots a whole pattern leaves behind, segment by segment. */
  ghost predicate BoundAll(
    layout: Layout, bytes: seq<Byte>, bitLength: nat, segments: seq<Pattern>, before: map<nat, Value>,
    after: map<nat, Value>)
    requires forall s :: s in segments ==> Placed(layout, s)
    requires layout.fixedBits <= bitLength <= 8 * |bytes|
    decreases |segments|
  {
    if segments == [] then after == before
    else
      var last := segments[|segments| - 1];
      assert last in segments;
      exists mid :: BoundAll(layout, bytes, bitLength, segments[..|segments| - 1], before, mid) &&
        Bound(layout, bytes, bitLength, last, mid, after)
  }

  /** The match stopped at a segment that does not hold, with the slots before it bound. */
  ghost predicate FailedAfter(
    layout: Layout, bytes: seq<Byte>, bitLength: nat, segments: seq<Pattern>,
    before: map<nat, Value>, after: map<nat, Value>)
    requires forall s :: s in segments ==> Placed(layout, s)
    requires layout.fixedBits <= bitLength <= 8 * |bytes|
  {
    exists i :: 0 <= i < |segments| && !Holds(layout, bytes, segments[i])
      && (forall s :: s in segments[..i] ==> Holds(layout, bytes, s))
      && BoundAll(layout, bytes, bitLength, segments[..i], before, after)
  }

  lemma BoundOneMore(
    layout: Layout, bytes: seq<Byte>, bitLength: nat, segments: seq<Pattern>, i: nat,
    before: map<nat, Value>, mid: map<nat, Value>, after: map<nat, Value>)
    requires forall s :: s in segments ==> Placed(layout, s)
    requires layout.fixedBits <= bitLength <= 8 * |bytes| && i < |segments|
    requires BoundAll(layout, bytes, bitLength, segments[..i], before, mid)
    requires Bound(layout, bytes, bitLength, segments[i], mid, after)
    ensures BoundAll(layout, bytes, bitLength, segments[..i + 1], before, after)
  {
    assert segments[..i + 1][..i] == segments[..i];
  }

  class Frame {
    var locals: map<nat, Value>

    constructor ()
      ensures locals == map[]
    {
      locals := map[];
    }

    /** Run one segment: test it, or bind its slot. */
    method MatchSegment(layout: Layout, s: Pattern, bytes: seq<Byte>, bitLength: nat) returns (held: bool)
      requires Placed(layout, s) && Padded(bytes, bitLength) && layout.fixedBits <= bitLength
      modifies this
      ensures held <==> Holds(layout, bytes, s)
      ensures Bound(layout, bytes, bitLength, s, old(locals), locals)
    {
      held := true;
      match s
      case LiteralInt(offset, endian, value, width) =>
        held := LiteralSegmentMatches(bytes, width, endian, offset, value);
      case LiteralBytes(offset, expected) =>
        held := bytes[offset / 8..offset / 8 + |expected|] == expected;
      case BindInt(offset, endian, local, sign, width) =>
        var extracted := ExtractIntegerSegment(bytes, width, endian, offset);
        BindIsExact(bytes, width, endian, offset, sign);
        locals := locals[local := Int(SignInterpret(extracted, width, sign))];
      case Discard =>
      case GreedyTail(offset, slot, ty) =>
        if slot.Some? {
          var tail: Value;
          match ty {
            case BinaryTail =>
              tail := Binary(bytes[offset / 8..]);
            case BitsTail =>
              var out := ExtractBitRange(bytes, offset, bitLength - offset);
              tail := Bits(out, bitLength - offset);
          }
          locals := locals[slot.value := tail];
        }
    }

    /** Gate on the length, then walk the segments until one fails. */
    method ExecuteBinaryMatch(
      layout: Layout, segments: seq<Pattern>, subject: Value) returns (result: Result<bool, RuntimeError>)
      requires Canonical(subject) && forall s :: s in segments ==> Placed(layout, s)
      modifies this
      ensures result.Err? <==> !(subject.Binary? || subject.String? || subject.Bits?)
      ensures result.Ok? ==>
        var bitLength := if subject.Bits? then subject.bitLength else 8 * |subject.bytes|;
        (result.value <==>
          LengthFits(layout, bitLength) && forall s :: s in segments ==> Holds(layout, subject.bytes, s))
      ensures result == Ok(true) ==>
        var bitLength := if subject.Bits? then subject.bitLength else 8 * |subject.bytes|;
        BoundAll(layout, subject.bytes, bitLength, segments, old(locals), locals)
      ensures result == Ok(false) ==>
        var bitLength := if subject.Bits? then subject.bitLength else 8 * |subject.bytes|;
        if LengthFits(layout, bitLength)
          then FailedAfter(layout, subject.bytes, bitLength, segments, old(locals), locals)
        else locals == old(locals)
      ensures result.Err? ==> locals == old(locals)
    {
      if !(subject.Binary? || subject.String? || subject.Bits?) {
        return Err(OperandMismatch);
      }
      var bytes := subject.bytes;
      var bitLength := if subject.Bits? then subject.bitLength else 8 * |subject.bytes|;
      assert Padded(bytes, bitLength);
      var lengthOk := if layout.hasGreedyTail then bitLength >= layout.fixedBits else bitLength == layout.fixedBits;
      if !lengthOk {
        return Ok(false);
      }
      for i := 0 to |segments|
        invariant forall s :: s in segments[..i] ==> Holds(layout, bytes, s)
        invariant BoundAll(layout, bytes, bitLength, segments[..i], old(locals), locals)
      {
        ghost var mid := locals;
        assert segments[i] in segments;
        var held := MatchSegment(layout, segments[i], bytes, bitLength);
        if !held {
          return Ok(false);
        }
        BoundOneMore(layout, bytes, bitLength, segments, i, old(locals), mid, locals);
        assert segments[..i + 1] == segments[..i] + [segments[i]];
      }
      assert segments[..|segments|] == segments;
      return Ok(true);
    }
  }

  lemma BindIsExact(bytes: seq<Byte>, width: nat, endian: Endian, start: nat, sign: Sign)
    requires start + width <= 8 * |bytes| && width <= 64
    ensures var field := FieldValue(bytes, width, endian, start);
            && field < Pow2(width) <= Pow2(64)
            && (sign.Signed? && width > 0 ==> SignInterpret(field, width, sign) == AsSigned(field, width))
            && (sign.Unsigned? ==> SignInterpret(field, width, sign) == AsSigned(field, 64))
            && (width == 0 ==> SignInterpret(field, width, sign) == 0)
  {
    FieldValueBound(bytes, width, endian, start);
    Pow2Grows(width, 64);
    var field := FieldValue(bytes, width, endian, start);
    SignInterpretIsExact(field, width, sign);
  }
}
