/** `<>` on `Bits` and the bit-range extraction that undoes it. */
module BinaryAppend {
  import opened Bitwise
  import opened BitStrings
  import opened Values

  // ----- one byte of the shifted copy -----

  lemma ShrByteBit(b: Byte, s: nat, k: nat)
    requires s < 8 && k < 8
    ensures 0 <= Shr(b, s) < 256
    ensures Bit(Shr(b, s), 7 - k) == (s <= k && Bit(b, 7 - (k - s)))
  {
    Pow2Of8();
    ShrBit(b, s, 7 - k);
    if k < s {
      HighBit(b, 8, 7 - k + s);
    }
    ShrBound(b, s);
  }

  lemma ShlByteBit(b: Byte, s: nat, k: nat)
    requires s < 8 && k < 8
    ensures Shl(b, s, 8) < 256
    ensures Bit(Shl(b, s, 8), 7 - k) == (k + s < 8 && Bit(b, 7 - (k + s)))
  {
    Pow2Of8();
    ShlBit(b, s, 8, 7 - k);
  }

  lemma OrByteBit(a: Byte, b: Byte, k: nat)
    requires k < 8
    ensures Or(a, b) < 256
    ensures Bit(Or(a, b), 7 - k) == (Bit(a, 7 - k) || Bit(b, 7 - k))
  {
    Pow2Of8();
    OrBound(a, b, 8);
    OrBit(a, b, 7 - k);
  }

  /** Bit `p` once the first `count` bits of `src` stand at `start` over `before`. */
  ghost predicate AppendedBit(before: seq<Byte>, start: nat, src: seq<Byte>, count: nat, p: nat)
    requires p < 8 * |before| && count <= 8 * |src|
  {
    if p < start then BitAt(before, p) else p - start < count && BitAt(src, p - start)
  }

  ghost predicate Appended(dest: seq<Byte>, before: seq<Byte>, start: nat, src: seq<Byte>, count: nat) {
    && |dest| == |before| && count <= 8 * |src|
    && forall p :: 0 <= p < 8 * |dest| ==> BitAt(dest, p) == AppendedBit(before, start, src, count, p)
  }

  /** Or-ing one shifted source byte over two destination bytes. */
  function Spill(dest: seq<Byte>, at: nat, byte: Byte, shift: nat, next: bool): (r: seq<Byte>)
    requires 0 < shift < 8 && at < |dest| && (next ==> at + 1 < |dest|)
    ensures |r| == |dest|
  {
    ShrByteBit(byte, shift, 0);
    OrByteBit(dest[at], Shr(byte, shift), 0);
    var low := dest[at := Or(dest[at], Shr(byte, shift))];
    if next then
      ShlByteBit(byte, 8 - shift, 0);
      OrByteBit(low[at + 1], Shl(byte, 8 - shift, 8), 0);
      low[at + 1 := Or(low[at + 1], Shl(byte, 8 - shift, 8))]
    else low
  }

  lemma SpillBit(dest: seq<Byte>, at: nat, byte: Byte, shift: nat, next: bool, p: nat)
    requires 0 < shift < 8 && at < |dest| && (next ==> at + 1 < |dest|) && p < 8 * |dest|
    ensures var r := Spill(dest, at, byte, shift, next);
            var q := p - (8 * at + shift);
            BitAt(r, p) == (BitAt(dest, p) || (0 <= q < 8 && (p < 8 * at + 8 || next) && Bit(byte, 7 - q)))
  {
    var k := p % 8;
    if p / 8 == at {
      ShrByteBit(byte, shift, k);
      OrByteBit(dest[at], Shr(byte, shift), k);
    } else if p / 8 == at + 1 && next {
      ShlByteBit(byte, 8 - shift, k);
      OrByteBit(dest[at + 1], Shl(byte, 8 - shift, 8), k);
    }
  }

  /**
   One turn of the shifted copy. The spill test may be over-eager or fall off
   the end of the buffer: every bit it then adds or drops is zero padding.
   */
  lemma AppendTurn(dest: seq<Byte>, before: seq<Byte>, start: nat, src: seq<Byte>, length: nat, i: nat, next: bool)
    requires Appended(dest, before, start, src, 8 * i) && i < |src|
    requires Padded(src, length) && start + length <= 8 * |dest| && 0 < start % 8
    requires next ==> start / 8 + i + 1 < |dest|
    requires !next ==> start / 8 + i + 1 == |dest| || length - 8 * i + start % 8 <= 8
    ensures start / 8 + i < |dest|
    ensures Appended(Spill(dest, start / 8 + i, src[i], start % 8, next), before, start, src, 8 * (i + 1))
  {
    var at, shift := start / 8 + i, start % 8;
    var r := Spill(dest, at, src[i], shift, next);
    forall p | 0 <= p < 8 * |r| ensures BitAt(r, p) == AppendedBit(before, start, src, 8 * (i + 1), p) {
      SpillBit(dest, at, src[i], shift, next, p);
      assert BitAt(dest, p) == AppendedBit(before, start, src, 8 * i, p);
      var q := p - (8 * at + shift);
      assert q == p - start - 8 * i;
      if 0 <= q < 8 {
        assert (p - start) / 8 == i && (p - start) % 8 == q;
        assert BitAt(src, p - start) == Bit(src[i], 7 - q);
        if p >= 8 * at + 8 && !next {
          assert p - start >= length;
        }
      }
    }
  }

  lemma NothingAppended(dest: seq<Byte>, start: nat, src: seq<Byte>)
    requires forall p :: start <= p < 8 * |dest| ==> !BitAt(dest, p)
    ensures Appended(dest, dest, start, src, 0)
  {
  }

  lemma PaddedLength(src: seq<Byte>, length: nat)
    requires Padded(src, length)
    ensures |src| == ByteCount(length)
  {
  }

  /** Append `length` bits of `src` to `dest` from bit `start` on. */
  method AppendBits(dest: array<Byte>, start: nat, src: seq<Byte>, length: nat)
    requires Padded(src, length) && start + length <= 8 * dest.Length
    requires forall p :: start <= p < 8 * dest.Length ==> !BitAt(dest[..], p)
    modifies dest
    ensures Appended(dest[..], old(dest[..]), start, src, length)
  {
    hide Or, Shr, Shl, Bit, Appended, Padded, BitAt;
    ghost var before := dest[..];
    NothingAppended(before, start, src);
    PaddedLength(src, length);
    if length == 0 {
      return;
    }
    var shift := start % 8;
    var destByteStart := start / 8;
    if shift == 0 {
      forall i | 0 <= i < |src| {
        dest[destByteStart + i] := src[i];
      }
      AlignedCopy(dest[..], before, start, src, length);
      return;
    }
    var remaining: nat, srcIdx: nat, destIdx: nat := length, 0, destByteStart;
    while remaining > 0
      invariant srcIdx <= |src| && destIdx == destByteStart + srcIdx
      invariant remaining == 0 ==> srcIdx == |src| - 1 && Appended(dest[..], before, start, src, 8 * |src|)
      invariant remaining > 0 ==> remaining == length - 8 * srcIdx && Appended(dest[..], before, start, src, 8 * srcIdx)
      decreases remaining
    {
      var byte := src[srcIdx];
      ghost var now := dest[..];
      var nextBits := if remaining < 8 then remaining else 8;
      var consumedInLow := nextBits + shift;
      ghost var next := consumedInLow > 8 - shift && destIdx + 1 < dest.Length;
      AppendTurn(now, before, start, src, length, srcIdx, next);
      ghost var spilled := Spill(now, destIdx, byte, shift, next);
      ShrByteBit(byte, shift, 0);
      OrByteBit(dest[destIdx], Shr(byte, shift), 0);
      dest[destIdx] := Or(dest[destIdx], Shr(byte, shift));
      if consumedInLow > 8 - shift && destIdx + 1 < dest.Length {
        ShlByteBit(byte, 8 - shift, 0);
        OrByteBit(dest[destIdx + 1], Shl(byte, 8 - shift, 8), 0);
        dest[destIdx + 1] := Or(dest[destIdx + 1], Shl(byte, 8 - shift, 8));
      }
      assert dest[..] == spilled;
      if remaining > 8 {
        remaining, srcIdx, destIdx := remaining - 8, srcIdx + 1, destIdx + 1;
      } else {
        remaining := 0;
      }
    }
    WholeBytes(dest[..], before, start, src, length);
  }

  lemma AlignedCopy(dest: seq<Byte>, before: seq<Byte>, start: nat, src: seq<Byte>, length: nat)
    requires Padded(src, length) && start + length <= 8 * |dest| && start % 8 == 0 && |dest| == |before|
    requires forall p :: start <= p < 8 * |before| ==> !BitAt(before, p)
    requires forall i :: 0 <= i < |dest| ==>
      dest[i] == if start / 8 <= i < start / 8 + |src| then src[i - start / 8] else before[i]
    ensures Appended(dest, before, start, src, length)
  {
    forall p | 0 <= p < 8 * |dest| ensures BitAt(dest, p) == AppendedBit(before, start, src, length, p) {
      if start <= p < start + 8 * |src| {
        assert (p - start) / 8 == p / 8 - start / 8 && (p - start) % 8 == p % 8;
        assert BitAt(dest, p) == BitAt(src, p - start);
      } else {
        assert BitAt(dest, p) == BitAt(before, p);
      }
    }
  }

  lemma WholeBytes(dest: seq<Byte>, before: seq<Byte>, start: nat, src: seq<Byte>, length: nat)
    requires Padded(src, length) && Appended(dest, before, start, src, 8 * |src|)
    ensures Appended(dest, before, start, src, length)
  {
    forall p | 0 <= p < 8 * |dest| ensures BitAt(dest, p) == AppendedBit(before, start, src, length, p) {
      assert BitAt(dest, p) == AppendedBit(before, start, src, 8 * |src|, p);
    }
  }

  /** An appended buffer spells the two bit strings one after the other. */
  lemma AppendedSpells(dest: seq<Byte>, before: seq<Byte>, l: seq<Byte>, m: nat, r: seq<Byte>, n: nat)
    requires Padded(l, m) && Padded(r, n) && |dest| == ByteCount(m + n) && |l| <= |dest|
    requires |before| == |dest| && forall i :: 0 <= i < |before| ==> before[i] == if i < |l| then l[i] else 0
    requires Appended(dest, before, m, r, n)
    ensures dest == JoinBits(l, m, r, n)
  {
    forall p | 0 <= p < m ensures BitAt(dest, p) == BitAt(l, p) {
      assert BitAt(dest, p) == AppendedBit(before, m, r, n, p);
    }
    forall p | m <= p < m + n ensures BitAt(dest, p) == BitAt(r, p - m) {
      assert BitAt(dest, p) == AppendedBit(before, m, r, n, p);
    }
    forall p | m + n <= p < 8 * |dest| ensures !BitAt(dest, p) {
      assert BitAt(dest, p) == AppendedBit(before, m, r, n, p);
    }
    assert ToBits(dest, m + n) == ToBits(l, m) + ToBits(r, n);
    PackRoundTrip(dest, m + n);
  }

  lemma ZeroFilled(before: seq<Byte>, l: seq<Byte>, m: nat, p: nat)
    requires Padded(l, m) && |l| <= |before| && m <= p < 8 * |before|
    requires forall i :: 0 <= i < |before| ==> before[i] == if i < |l| then l[i] else 0
    ensures !BitAt(before, p)
  {
    if p < 8 * |l| {
      assert BitAt(before, p) == BitAt(l, p);
    } else {
      ZeroBit(7 - p % 8);
    }
  }

  /** The `Bits` arm of `concat_values`: copy the left bits, then append the right ones. */
  method ConcatBits(l: seq<Byte>, m: nat, r: seq<Byte>, n: nat) returns (out: seq<Byte>)
    requires Padded(l, m) && Padded(r, n)
    ensures Padded(out, m + n) && ToBits(out, m + n) == ToBits(l, m) + ToBits(r, n)
    ensures out == JoinBits(l, m, r, n)
  {
    var total := m + n;
    var buffer := new Byte[ByteCount(total)](_ => 0);
    forall i | 0 <= i < |l| {
      buffer[i] := l[i];
    }
    forall p | m <= p < 8 * buffer.Length ensures !BitAt(buffer[..], p) {
      ZeroFilled(buffer[..], l, m, p);
    }
    ghost var before := buffer[..];
    AppendBits(buffer, m, r, n);
    out := buffer[..];
    AppendedSpells(out, before, l, m, r, n);
    JoinBitsCanonical(l, m, r, n);
  }

  // ----- extraction -----

  /** The buffer holding bits `start..start + length` of `bytes`. */
  ghost predicate IsBitRange(out: seq<Byte>, bytes: seq<Byte>, start: nat, length: nat)
    requires start + length <= 8 * |bytes|
  {
    Padded(out, length) && ToBits(out, length) == ToBits(bytes, 8 * |bytes|)[start..start + length]
  }

  lemma BitRangeByBits(out: seq<Byte>, bytes: seq<Byte>, start: nat, length: nat)
    requires start + length <= 8 * |bytes| && |out| == ByteCount(length)
    requires forall p :: 0 <= p < 8 * |out| ==> BitAt(out, p) == (p < length && BitAt(bytes, start + p))
    ensures IsBitRange(out, bytes, start, length)
  {
  }

  /** Clearing the low bits of the last byte leaves its first `keep` bits. */
  lemma MaskedByteBit(b: Byte, keep: nat, k: nat)
    requires 0 < keep < 8 && k < 8
    ensures 0 <= Shr(255, keep) < 256 && Pow2(8) == 256
    ensures And(b, Not(Shr(255, keep), 8)) < 256
    ensures Bit(And(b, Not(Shr(255, keep), 8)), 7 - k) == (k < keep && Bit(b, 7 - k))
  {
    Pow2Of8();
    ShrByteBit(255, keep, k);
    var mask := Not(Shr(255, keep), 8);
    AndBound(b, mask);
    AndBit(b, mask, 7 - k);
    NotBit(Shr(255, keep), 8, 7 - k);
    if keep <= k {
      OnesBit(8, 7 - (k - keep));
    }
  }

  lemma MaskedBit(b: Byte, keep: nat, k: nat)
    requires 0 < keep < 8 && k < 8
    ensures And(b, Not(Truncate(Shr(255, keep), 8), 8)) < 256
    ensures Bit(And(b, Not(Truncate(Shr(255, keep), 8), 8)), 7 - k) == (k < keep && Bit(b, 7 - k))
  {
    MaskedByteBit(b, keep, k);
    DivModUnique(Shr(255, keep), Pow2(8), 0, Shr(255, keep));
  }

  lemma PlaceInByte(start: nat, length: nat, p: nat)
    requires start % 8 == 0 && p < 8 * ByteCount(length)
    ensures (start + p) / 8 == start / 8 + p / 8 && (start + p) % 8 == p % 8
    ensures p / 8 == ByteCount(length) - 1 && length % 8 != 0 ==> (p < length <==> p % 8 < length % 8)
    ensures !(p / 8 == ByteCount(length) - 1 && length % 8 != 0) ==> p < length
  {
  }

  lemma AlignedBit(out: seq<Byte>, bytes: seq<Byte>, start: nat, length: nat, p: nat)
    requires start + length <= 8 * |bytes| && start % 8 == 0 && p < 8 * |out|
    requires |out| == ByteCount(length) && start / 8 + |out| <= |bytes|
    requires out[p / 8] == if p / 8 == |out| - 1 && length % 8 != 0
                           then And(bytes[start / 8 + p / 8], Not(Truncate(Shr(255, length % 8), 8), 8))
                           else bytes[start / 8 + p / 8]
    ensures start + p < 8 * |bytes| && BitAt(out, p) == (p < length && BitAt(bytes, start + p))
  {
    hide And, Not, Truncate, Shr, Bit;
    PlaceInByte(start, length, p);
    if p / 8 == |out| - 1 && length % 8 != 0 {
      MaskedBit(bytes[start / 8 + p / 8], length % 8, p % 8);
    }
  }

  lemma AlignedRange(out: seq<Byte>, bytes: seq<Byte>, start: nat, length: nat)
    requires start + length <= 8 * |bytes| && start % 8 == 0
    requires |out| == ByteCount(length) && start / 8 + |out| <= |bytes|
    requires forall i :: 0 <= i < |out| ==>
      out[i] == if i == |out| - 1 && length % 8 != 0
                then And(bytes[start / 8 + i], Not(Truncate(Shr(255, length % 8), 8), 8)) else bytes[start / 8 + i]
    ensures IsBitRange(out, bytes, start, length)
  {
    hide BitAt, IsBitRange, And, Not, Truncate, Shr;
    forall p | 0 <= p < 8 * |out| ensures BitAt(out, p) == (p < length && BitAt(bytes, start + p)) {
      AlignedBit(out, bytes, start, length, p);
    }
    BitRangeByBits(out, bytes, start, length);
  }

  /** The first `i` bits of the range have been copied into a zeroed buffer. */
  ghost predicate CopiedSoFar(out: seq<Byte>, bytes: seq<Byte>, start: nat, i: nat) {
    && i <= 8 * |out| && start + i <= 8 * |bytes|
    && forall p :: 0 <= p < 8 * |out| ==> BitAt(out, p) == (p < i && BitAt(bytes, start + p))
  }

  lemma SetByteBit(b: Byte, k: nat, m: nat)
    requires k < 8 && m < 8
    ensures Or(b, Shl(1, 7 - k, 8)) < 256
    ensures Bit(Or(b, Shl(1, 7 - k, 8)), 7 - m) == (Bit(b, 7 - m) || m == k)
  {
    Pow2Of8();
    OneBit(7 - k, 8, 7 - m);
    OrByteBit(b, Shl(1, 7 - k, 8), m);
  }

  lemma CopyBit(out: seq<Byte>, bytes: seq<Byte>, start: nat, i: nat, out': seq<Byte>)
    requires CopiedSoFar(out, bytes, start, i) && i < 8 * |out| && start + i < 8 * |bytes|
    requires Or(out[i / 8], Shl(1, 7 - i % 8, 8)) < 256
    requires out' == if BitAt(bytes, start + i) then out[i / 8 := Or(out[i / 8], Shl(1, 7 - i % 8, 8))] else out
    ensures CopiedSoFar(out', bytes, start, i + 1)
  {
    forall p | 0 <= p < 8 * |out'| ensures BitAt(out', p) == (p < i + 1 && BitAt(bytes, start + p)) {
      assert BitAt(out, p) == (p < i && BitAt(bytes, start + p));
      if p / 8 == i / 8 {
        SetByteBit(out[i / 8], i % 8, p % 8);
      }
    }
  }

  /** Copy `length` bits from bit `start` on into a fresh zero-padded buffer. */
  method ExtractBitRange(bytes: seq<Byte>, start: nat, length: nat) returns (out: seq<Byte>)
    requires start + length <= 8 * |bytes|
    ensures IsBitRange(out, bytes, start, length)
  {
    var byteCount := ByteCount(length);
    if start % 8 == 0 {
      var first := start / 8;
      out := bytes[first..first + byteCount];
      if length % 8 != 0 {
        var last := |out| - 1;
        MaskedByteBit(out[last], length % 8, 0);
        DivModUnique(Shr(255, length % 8), Pow2(8), 0, Shr(255, length % 8));
        out := out[last := And(out[last], Not(Shr(255, length % 8), 8))];
      }
      AlignedRange(out, bytes, start, length);
      return;
    }
    var buffer := new Byte[byteCount](_ => 0);
    forall p | 0 <= p < 8 * buffer.Length ensures !BitAt(buffer[..], p) {
      ZeroBit(7 - p % 8);
    }
    hide And, Or, Shl, Bit;
    for i := 0 to length
      invariant CopiedSoFar(buffer[..], bytes, start, i)
    {
      var bitPos := start + i;
      ReadBit(bytes[bitPos / 8], 7 - bitPos % 8);
      SetByteBit(buffer[i / 8], i % 8, 0);
      ghost var before := buffer[..];
      var bit := And(Shr(bytes[bitPos / 8], 7 - bitPos % 8), 1);
      if bit != 0 {
        buffer[i / 8] := Or(buffer[i / 8], Shl(1, 7 - i % 8, 8));
      }
      CopyBit(before, bytes, start, i, buffer[..]);
    }
    out := buffer[..];
    BitRangeByBits(out, bytes, start, length);
  }

  /** The range determines the buffer, so both ways of copying it agree. */
  lemma BitRangeUnique(a: seq<Byte>, b: seq<Byte>, bytes: seq<Byte>, start: nat, length: nat)
    requires start + length <= 8 * |bytes|
    requires IsBitRange(a, bytes, start, length) && IsBitRange(b, bytes, start, length)
    ensures a == b
  {
    PaddedUnique(a, b, length);
  }

  /** Slicing undoes appending: each operand comes back byte for byte. */
  lemma SlicesOfConcat(l: seq<Byte>, m: nat, r: seq<Byte>, n: nat, left: seq<Byte>, right: seq<Byte>)
    requires Padded(l, m) && Padded(r, n)
    requires m + n <= 8 * |JoinBits(l, m, r, n)|
    requires IsBitRange(left, JoinBits(l, m, r, n), 0, m) && IsBitRange(right, JoinBits(l, m, r, n), m, n)
    ensures left == l && right == r
  {
    var joined := JoinBits(l, m, r, n);
    JoinBitsCanonical(l, m, r, n);
    var all := ToBits(joined, 8 * |joined|);
    assert all[..m + n] == ToBits(l, m) + ToBits(r, n);
    assert all[0..m] == ToBits(l, m) && all[m..m + n] == ToBits(r, n);
    PaddedUnique(left, l, m);
    PaddedUnique(right, r, n);
  }
}
