/** Runtime values and the meaning of `<>` on them. */
module Values {
  import opened BitStrings
  import opened Wrappers

  datatype ConcatKind = StringKind | BinaryKind | BitsKind

  datatype Value =
    | Unit
    | Bool(truth: bool)
    /** Every integer width, stored in one signed 64-bit word. */
    | Int(word: int)
    | String(bytes: seq<Byte>)
    | Binary(bytes: seq<Byte>)
    /** `bitLength` bits in `ceil(bitLength / 8)` zero-padded bytes. */
    | Bits(bytes: seq<Byte>, bitLength: nat)

  datatype RuntimeError =
    | ValueUndefined(id: nat)
    | ConcatMismatch
    | OperandMismatch
    | ConditionMismatch
    | Panicked(message: string)
    | UnreachableExecuted
    /** A malformed program the seal pass rejects before it can run. */
    | SealViolation

  /** The representation invariant: `Bits` payloads are zero padded. */
  ghost predicate Canonical(v: Value) {
    v.Bits? ==> Padded(v.bytes, v.bitLength)
  }

  function BitsOf(bytes: seq<Byte>, n: nat): seq<bool> {
    ToBits(bytes, if n <= 8 * |bytes| then n else 8 * |bytes|)
  }

  function JoinBits(l: seq<Byte>, m: nat, r: seq<Byte>, n: nat): seq<Byte> {
    Pack(BitsOf(l, m) + BitsOf(r, n))
  }

  /** `left <> right`: the payloads one after the other. */
  function Concat(kind: ConcatKind, left: Value, right: Value): Result<Value, RuntimeError> {
    match (kind, left, right)
    case (StringKind, String(l), String(r)) => Ok(String(l + r))
    case (BinaryKind, Binary(l), Binary(r)) => Ok(Binary(l + r))
    case (BitsKind, Bits(l, m), Bits(r, n)) => Ok(Bits(JoinBits(l, m, r, n), m + n))
    case _ => Err(ConcatMismatch)
  }

  lemma ConcatFailsByMismatch(kind: ConcatKind, left: Value, right: Value)
    ensures Concat(kind, left, right).Err? ==> Concat(kind, left, right) == Err(ConcatMismatch)
  {
  }

  lemma JoinBitsCanonical(l: seq<Byte>, m: nat, r: seq<Byte>, n: nat)
    requires Padded(l, m) && Padded(r, n)
    ensures Padded(JoinBits(l, m, r, n), m + n)
    ensures ToBits(JoinBits(l, m, r, n), m + n) == ToBits(l, m) + ToBits(r, n)
  {
    PackIsPadded(BitsOf(l, m) + BitsOf(r, n));
  }

  /** The operands are of the kind the concatenation names. */
  predicate Matches(kind: ConcatKind, left: Value, right: Value) {
    match kind
    case StringKind => left.String? && right.String?
    case BinaryKind => left.Binary? && right.Binary?
    case BitsKind => left.Bits? && right.Bits?
  }

  /** `<>` fails exactly on a mismatch, and otherwise spells the left operand and then the right one. */
  lemma ConcatSpells(kind: ConcatKind, left: Value, right: Value)
    requires Canonical(left) && Canonical(right)
    ensures !Matches(kind, left, right) ==> Concat(kind, left, right) == Err(ConcatMismatch)
    ensures Matches(kind, left, right) ==> Concat(kind, left, right).Ok?
    ensures Matches(kind, left, right) && kind.StringKind? ==>
      Concat(kind, left, right).value == String(left.bytes + right.bytes)
    ensures Matches(kind, left, right) && kind.BinaryKind? ==>
      Concat(kind, left, right).value == Binary(left.bytes + right.bytes)
    ensures Matches(kind, left, right) && kind.BitsKind? ==>
      var joined := Concat(kind, left, right).value;
      && joined.Bits? && Canonical(joined) && joined.bitLength == left.bitLength + right.bitLength
      && ToBits(joined.bytes, joined.bitLength) ==
         ToBits(left.bytes, left.bitLength) + ToBits(right.bytes, right.bitLength)
  {
    if Matches(kind, left, right) && kind.BitsKind? {
      JoinBitsCanonical(left.bytes, left.bitLength, right.bytes, right.bitLength);
    }
  }

  lemma JoinBitsAssociative(a: seq<Byte>, l: nat, b: seq<Byte>, m: nat, c: seq<Byte>, n: nat)
    requires Padded(a, l) && Padded(b, m) && Padded(c, n)
    ensures JoinBits(JoinBits(a, l, b, m), l + m, c, n) == JoinBits(a, l, JoinBits(b, m, c, n), m + n)
  {
    JoinBitsCanonical(a, l, b, m);
    JoinBitsCanonical(b, m, c, n);
    var x, y, z := ToBits(a, l), ToBits(b, m), ToBits(c, n);
    assert (x + y) + z == x + (y + z);
  }

  /** `<>` is associative under structural equality, at every kind and alignment. */
  lemma ConcatAssociative(kind: ConcatKind, a: Value, b: Value, c: Value)
    requires Canonical(a) && Canonical(b) && Canonical(c)
    requires Concat(kind, a, b).Ok? && Concat(kind, b, c).Ok?
    ensures Concat(kind, Concat(kind, a, b).value, c).Ok?
    ensures Concat(kind, Concat(kind, a, b).value, c) == Concat(kind, a, Concat(kind, b, c).value)
  {
    hide JoinBits, Padded;
    if kind.BitsKind? {
      JoinBitsAssociative(a.bytes, a.bitLength, b.bytes, b.bitLength, c.bytes, c.bitLength);
    } else {
      assert (a.bytes + b.bytes) + c.bytes == a.bytes + (b.bytes + c.bytes);
    }
  }
}
