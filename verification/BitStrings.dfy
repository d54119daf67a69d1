/** Byte buffers read as bit strings, most significant bit first. */
module BitStrings {
  import opened Bitwise

  type Byte = x: int | 0 <= x < 256

  function ByteCount(n: nat): nat {
    (n + 7) / 8
  }

  function BitAt(bytes: seq<Byte>, i: nat): bool
    requires i < 8 * |bytes|
  {
    Bit(bytes[i / 8], 7 - i % 8)
  }

  /** The first `n` bits of a buffer. */
  function ToBits(bytes: seq<Byte>, n: nat): (bits: seq<bool>)
    requires n <= 8 * |bytes|
    ensures |bits| == n && forall i :: 0 <= i < n ==> bits[i] == BitAt(bytes, i)
  {
    seq(n, i requires 0 <= i < n => BitAt(bytes, i))
  }

  /** The representation of a `Bits` value: no spare bytes, and zero padding. */
  ghost predicate Padded(bytes: seq<Byte>, n: nat) {
    |bytes| == ByteCount(n) && forall i :: n <= i < 8 * |bytes| ==> !BitAt(bytes, i)
  }

  lemma Pow2Of8()
    ensures Pow2(8) == 256
  {
    assert Pow2(4) == 16;
    Pow2Adds(4, 4);
  }

  lemma SameByte(a: Byte, b: Byte)
    requires forall j :: 0 <= j < 8 ==> Bit(a, j) == Bit(b, j)
    ensures a == b
  {
    Pow2Of8();
    SameBits(a, b, 8);
  }

  /** Structural equality of padded buffers is equality of the bit strings. */
  lemma PaddedUnique(a: seq<Byte>, b: seq<Byte>, n: nat)
    requires Padded(a, n) && Padded(b, n) && ToBits(a, n) == ToBits(b, n)
    ensures a == b
  {
    forall i | 0 <= i < |a| ensures a[i] == b[i] {
      forall j | 0 <= j < 8 ensures Bit(a[i], j) == Bit(b[i], j) {
        var p := 8 * i + (7 - j);
        assert p / 8 == i && p % 8 == 7 - j;
        assert BitAt(a, p) == BitAt(b, p) by {
          if p < n {
            assert ToBits(a, n)[p] == ToBits(b, n)[p];
          }
        }
      }
      SameByte(a[i], b[i]);
    }
  }

  // ----- numbers written in bits -----

  /** The number a bit string writes, most significant bit first. */
  function FromMsb(bits: seq<bool>): nat {
    if bits == [] then 0
    else 2 * FromMsb(bits[..|bits| - 1]) + (if bits[|bits| - 1] then 1 else 0)
  }

  lemma {:induction false} FromMsbBound(bits: seq<bool>)
    ensures FromMsb(bits) < Pow2(|bits|)
  {
    if bits != [] {
      FromMsbBound(bits[..|bits| - 1]);
    }
  }

  lemma {:induction false} FromMsbBit(bits: seq<bool>, j: nat)
    requires j < |bits|
    ensures Bit(FromMsb(bits), j) == bits[|bits| - 1 - j]
  {
    hide FromMsb;
    var rest := bits[..|bits| - 1];
    LowBit(bits);
    if j > 0 {
      FromMsbBit(rest, j - 1);
    }
  }

  lemma LowBit(bits: seq<bool>)
    requires bits != []
    ensures FromMsb(bits) / 2 == FromMsb(bits[..|bits| - 1])
    ensures FromMsb(bits) % 2 == 1 <==> bits[|bits| - 1]
  {
  }

  // ----- the canonical buffer of a bit string -----

  function Zeros(n: nat): (z: seq<bool>)
    ensures |z| == n && forall i :: 0 <= i < n ==> !z[i]
  {
    seq(n, _ => false)
  }

  function PackByte(bits: seq<bool>): Byte
    requires |bits| <= 8
  {
    var full := bits + Zeros(8 - |bits|);
    FromMsbBound(full);
    Pow2Of8();
    FromMsb(full)
  }

  lemma PackByteBit(bits: seq<bool>, k: nat)
    requires |bits| <= 8 && k < 8
    ensures Bit(PackByte(bits), 7 - k) == (k < |bits| && bits[k])
  {
    FromMsbBit(bits + Zeros(8 - |bits|), 7 - k);
  }

  function Pack(bits: seq<bool>): (bytes: seq<Byte>)
    ensures |bytes| == ByteCount(|bits|)
  {
    if |bits| == 0 then []
    else if |bits| <= 8 then [PackByte(bits)]
    else [PackByte(bits[..8])] + Pack(bits[8..])
  }

  lemma {:induction false} PackBit(bits: seq<bool>, i: nat)
    requires i < 8 * |Pack(bits)|
    ensures BitAt(Pack(bits), i) == (i < |bits| && bits[i])
  {
    if |bits| <= 8 {
      PackByteBit(bits, i % 8);
    } else if i < 8 {
      PackByteBit(bits[..8], i);
    } else {
      PackBit(bits[8..], i - 8);
      assert Pack(bits)[i / 8] == Pack(bits[8..])[(i - 8) / 8];
    }
  }

  lemma PackIsPadded(bits: seq<bool>)
    ensures Padded(Pack(bits), |bits|) && ToBits(Pack(bits), |bits|) == bits
  {
    forall i | 0 <= i < 8 * |Pack(bits)| ensures BitAt(Pack(bits), i) == (i < |bits| && bits[i]) {
      PackBit(bits, i);
    }
  }

  /** A padded buffer is the packing of its bits. */
  lemma PackRoundTrip(bytes: seq<Byte>, n: nat)
    requires Padded(bytes, n)
    ensures Pack(ToBits(bytes, n)) == bytes
  {
    PackIsPadded(ToBits(bytes, n));
    PaddedUnique(Pack(ToBits(bytes, n)), bytes, n);
  }
}
