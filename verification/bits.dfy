/** Bytes, bits and the big-endian (most-significant-bit first) conversions
    between them that the LSB strategy's bitstream is built from. */
module Bits {
  import opened Results

  /** An 8-bit value as Python's `bytes` holds it. */
  type Byte = b: int | 0 <= b < 256

  /** One binary digit. */
  type Bit = b: int | 0 <= b < 2

  function Pow2(n: nat): (r: nat)
    ensures r >= 1
  {
    if n == 0 then 1 else 2 * Pow2(n - 1)
  }

  lemma {:induction false} Pow2Add(a: nat, b: nat)
    ensures Pow2(a + b) == Pow2(a) * Pow2(b)
  {
    if b > 0 {
      Pow2Add(a, b - 1);
      assert Pow2(a + b) == 2 * Pow2(a + b - 1);
    }
  }

  /** Python's `s[k:]` for a non-negative `k`: the elements from index `k` on,
      and nothing once `k` runs past the end. */
  function SliceFrom<T>(s: seq<T>, k: nat): (r: seq<T>)
    ensures |r| == if k <= |s| then |s| - k else 0
    ensures forall i :: 0 <= i < |r| ==> r[i] == s[k + i]
  {
    if k <= |s| then s[k..] else []
  }

  /** The low `width` bits of `n`, most significant first
      (`BitArray(uint=n, length=width).bin` once `n` fits). */
  function NatToBits(n: nat, width: nat): (r: seq<Bit>)
    ensures |r| == width
  {
    if width == 0 then [] else NatToBits(n / 2, width - 1) + [n % 2]
  }

  /** A field holding zero is all zero bits. */
  lemma {:induction false} ZeroBits(width: nat)
    ensures NatToBits(0, width) == seq(width, _ => 0)
  {
    if width > 0 {
      ZeroBits(width - 1);
    }
  }

  /** The unsigned value of a most-significant-first bit string (`int(s, 2)`). */
  function BitsToNat(bs: seq<Bit>): (r: nat)
    ensures r < Pow2(|bs|)
  {
    if |bs| == 0 then 0 else 2 * BitsToNat(bs[..|bs| - 1]) + bs[|bs| - 1]
  }

  /** Reading back a width-bit field gives the value written into it, when the value fits. */
  lemma {:induction false} BitsToNatOfNatToBits(n: nat, width: nat)
    requires n < Pow2(width)
    ensures BitsToNat(NatToBits(n, width)) == n
  {
    if width > 0 {
      var bs := NatToBits(n, width);
      assert bs[..|bs| - 1] == NatToBits(n / 2, width - 1);
      BitsToNatOfNatToBits(n / 2, width - 1);
    }
  }

  /** Writing the value of a bit string back into a field of the same width gives the string. */
  lemma {:induction false} NatToBitsOfBitsToNat(bs: seq<Bit>)
    ensures NatToBits(BitsToNat(bs), |bs|) == bs
  {
    if |bs| > 0 {
      var init := bs[..|bs| - 1];
      NatToBitsOfBitsToNat(init);
      assert bs == init + [bs[|bs| - 1]];
    }
  }

  /** Every byte expanded to 8 bits, most significant first
      (`BitArray(bytes=data).bin`). */
  function BytesToBits(data: seq<Byte>): (r: seq<Bit>)
    ensures |r| == 8 * |data|
  {
    if |data| == 0 then [] else NatToBits(data[0], 8) + BytesToBits(data[1..])
  }

  /** Groups of 8 bits packed into bytes; `|bs|` must be a multiple of 8. */
  function Pack(bs: seq<Bit>): (r: seq<Byte>)
    requires |bs| % 8 == 0
    ensures 8 * |r| == |bs|
  {
    if |bs| == 0 then [] else [BitsToNat(bs[..8]) as Byte] + Pack(bs[8..])
  }

  /** `BitArray(bin=...).bytes`: the bytes a bit string spells, or None when
      it does not hold a whole number of bytes. */
  function BitsToBytes(bs: seq<Bit>): (r: Option<seq<Byte>>)
    ensures r.Some? <==> |bs| % 8 == 0
    ensures r.Some? ==> 8 * |r.value| == |bs|
  {
    if |bs| % 8 == 0 then Some(Pack(bs)) else None
  }

  /** Packing the expansion of a byte string gives the byte string back. */
  lemma {:induction false} PackOfBytesToBits(data: seq<Byte>)
    ensures Pack(BytesToBits(data)) == data
  {
    if |data| > 0 {
      var bs := BytesToBits(data);
      assert bs[..8] == NatToBits(data[0], 8);
      assert bs[8..] == BytesToBits(data[1..]);
      BitsToNatOfNatToBits(data[0], 8);
      PackOfBytesToBits(data[1..]);
    }
  }

  /** Expanding the bytes packed from a whole-byte bit string gives the bit string back. */
  lemma {:induction false} BytesToBitsOfPack(bs: seq<Bit>)
    requires |bs| % 8 == 0
    ensures BytesToBits(Pack(bs)) == bs
  {
    if |bs| > 0 {
      var packed := Pack(bs);
      assert packed[1..] == Pack(bs[8..]);
      NatToBitsOfBitsToNat(bs[..8]);
      BytesToBitsOfPack(bs[8..]);
      assert bs == bs[..8] + bs[8..];
    }
  }

  /** The two directions of the byte/bit correspondence: a bit string decodes
      to `data` exactly when it is the expansion of `data`. */
  lemma BitsToBytesIff(bs: seq<Bit>, data: seq<Byte>)
    ensures BitsToBytes(bs) == Some(data) <==> bs == BytesToBits(data)
  {
    if BitsToBytes(bs) == Some(data) {
      BytesToBitsOfPack(bs);
    }
    if bs == BytesToBits(data) {
      PackOfBytesToBits(data);
    }
  }
}
