/** LSB strategy: a length-prefixed bitstream written into the least
    significant bit of the first three channels of each pixel, columns
    outermost, and read back in two passes. */
module LsbStrategy {
  import opened Results
  import opened Bits
  import opened Raster

  /** Width of the length field at the head of the bitstream. */
  const LengthFieldBits: nat := 32

  /** The first bit count the length field cannot hold. */
  const LengthFieldLimit: nat := 0x1_0000_0000

  lemma LengthFieldLimitIsPow2()
    ensures Pow2(LengthFieldBits) == LengthFieldLimit
  {
    assert Pow2(8) == 256;
    Pow2Add(8, 8);
    Pow2Add(16, 16);
  }

  /** Why embedding or extraction stops. */
  datatype LsbError =
    /** The payload's bit count does not fit the 32-bit length field. */
    | LengthFieldOverflow
    /** The bitstream needs more slots than the image has; sizes in bytes,
        rounded down as the tool's message does. */
    | CapacityExceeded(requiredBytes: nat, availableBytes: nat)
    /** The image has no slots, so the length field reads as an empty digit string. */
    | EmptyLengthField
    /** The bits after the length field do not make a whole number of bytes. */
    | PartialByte

  function Min(a: nat, b: nat): nat
  {
    if a <= b then a else b
  }

  /** The bitstream for `data`: a 32-bit most-significant-first field holding
      the payload's BIT count, then every payload byte, most significant bit
      first. It is the only stream of its length whose field reads back as
      `8 * |data|` and whose remainder packs back into `data`. */
  function Bitstream(data: seq<Byte>): (s: seq<Bit>)
    requires 8 * |data| < LengthFieldLimit
    ensures |s| == LengthFieldBits + 8 * |data|
    ensures BitsToNat(s[..LengthFieldBits]) == 8 * |data|
    ensures BitsToBytes(s[LengthFieldBits..]) == Some(data)
  {
    var field := NatToBits(8 * |data|, LengthFieldBits);
    var body := BytesToBits(data);
    LengthFieldLimitIsPow2();
    BitsToNatOfNatToBits(8 * |data|, LengthFieldBits);
    BitsToBytesIff(body, data);
    assert (field + body)[..LengthFieldBits] == field;
    assert (field + body)[LengthFieldBits..] == body;
    field + body
  }

  /** A stream of the right length whose field reads `8n` and whose remaining
      bits pack into `data` is the length field followed by `data`'s bits:
      the properties `Bitstream` promises determine the stream. */
  lemma BitstreamUnique(data: seq<Byte>, s: seq<Bit>)
    requires 8 * |data| < LengthFieldLimit && |s| == LengthFieldBits + 8 * |data|
    requires BitsToNat(s[..LengthFieldBits]) == 8 * |data|
    requires BitsToBytes(s[LengthFieldBits..]) == Some(data)
    ensures s == NatToBits(8 * |data|, LengthFieldBits) + BytesToBits(data)
  {
    NatToBitsOfBitsToNat(s[..LengthFieldBits]);
    BitsToBytesIff(s[LengthFieldBits..], data);
    assert s == s[..LengthFieldBits] + s[LengthFieldBits..];
  }

  /** The least significant bits of the first `m` slots, collected one at a
      time in slot order, as `decode_img_nbits` appends them. */
  function SlotLsbs(img: Image, m: nat): (r: seq<Bit>)
    requires WellFormed(img) && m <= Capacity(img)
    ensures |r| == m
    decreases m
  {
    if m == 0 then [] else SlotLsbs(img, m - 1) + [Lsb(SlotValue(img, m - 1))]
  }

  lemma {:induction false} SlotLsbsIndexed(img: Image, m: nat)
    requires WellFormed(img) && m <= Capacity(img)
    ensures forall k :: 0 <= k < m ==> SlotLsbs(img, m)[k] == Lsb(SlotValue(img, k))
    decreases m
  {
    if m > 0 {
      SlotLsbsIndexed(img, m - 1);
    }
  }

  /** A read of `n` bits: reading stops at the last slot when the image has
      fewer than `n`. */
  function SlotBits(img: Image, n: nat): (r: seq<Bit>)
    requires WellFormed(img)
    ensures |r| == Min(n, Capacity(img))
  {
    SlotLsbs(img, Min(n, Capacity(img)))
  }

  /** Bit `k` of a read is the least significant bit of slot `k`. */
  lemma SlotBitsAreSlotLsbs(img: Image, n: nat)
    requires WellFormed(img)
    ensures forall k :: 0 <= k < |SlotBits(img, n)| ==> SlotBits(img, n)[k] == Lsb(SlotValue(img, k))
  {
    SlotLsbsIndexed(img, Min(n, Capacity(img)));
  }

  /** Two reads that stop at the same slot return the same bits. */
  lemma SlotBitsSameLength(img: Image, n: nat, m: nat)
    requires WellFormed(img) && Min(n, Capacity(img)) == Min(m, Capacity(img))
    ensures SlotBits(img, n) == SlotBits(img, m)
  {
  }

  /** A pixel after embedding: channel `c < 3` takes bit `base + c` of the
      stream while the stream lasts; everything else is kept. */
  function EmbedPixel(p: Pixel, s: seq<Bit>, base: nat): (r: Pixel)
    ensures |r| == |p|
  {
    seq(|p|, c requires 0 <= c < |p| => if c < 3 && base + c < |s| then SetLsb(p[c], s[base + c]) else p[c])
  }

  /** The image after writing stream `s` slot by slot. */
  function Embed(img: Image, s: seq<Bit>): (r: Image)
    requires WellFormed(img)
    ensures WellFormed(r) && r.width == img.width && r.height == img.height
  {
    Image(img.width, img.height,
      seq(img.height, y requires 0 <= y < img.height =>
        seq(img.width, x requires 0 <= x < img.width =>
          EmbedPixel(img.rows[y][x], s, SlotOf(img.height, x, y, 0)))))
  }

  /** What embedding changes: slot `k < |s|` gets bit `s[k]` as its least
      significant bit and keeps its upper seven bits; every later slot, every
      channel beyond the third, the pixel sizes and the image size are kept. */
  lemma EmbedFrame(img: Image, s: seq<Bit>)
    requires WellFormed(img)
    ensures forall k :: 0 <= k < Capacity(img) && k < |s| ==>
      SlotValue(Embed(img, s), k) == SetLsb(SlotValue(img, k), s[k])
    ensures forall k :: |s| <= k < Capacity(img) ==> SlotValue(Embed(img, s), k) == SlotValue(img, k)
    ensures forall y, x :: 0 <= y < img.height && 0 <= x < img.width ==>
      |Embed(img, s).rows[y][x]| == |img.rows[y][x]|
    ensures forall y, x, c :: 0 <= y < img.height && 0 <= x < img.width && 3 <= c < |img.rows[y][x]| ==>
      Embed(img, s).rows[y][x][c] == img.rows[y][x][c]
  {
    var r := Embed(img, s);
    forall k | 0 <= k < Capacity(img)
      ensures SlotValue(r, k) == if k < |s| then SetLsb(SlotValue(img, k), s[k]) else SlotValue(img, k)
    {
      SlotCoordinates(img, k);
    }
  }

  /** Reading back the first `n` bits of an embedded stream gives them unchanged. */
  lemma DecodeAfterEmbed(img: Image, s: seq<Bit>, n: nat)
    requires WellFormed(img) && |s| <= Capacity(img) && n <= |s|
    ensures SlotBits(Embed(img, s), n) == s[..n]
  {
    EmbedFrame(img, s);
    SlotBitsAreSlotLsbs(Embed(img, s), n);
  }

  /** A shorter read is a prefix of a longer one: this is what lets the second
      extraction pass re-read the length field it already decoded. */
  lemma DecodePrefix(img: Image, n: nat, m: nat)
    requires WellFormed(img) && n <= m
    ensures |SlotBits(img, n)| == Min(n, Capacity(img)) <= |SlotBits(img, m)|
    ensures SlotBits(img, n) == SlotBits(img, m)[..|SlotBits(img, n)|]
  {
    SlotBitsAreSlotLsbs(img, n);
    SlotBitsAreSlotLsbs(img, m);
  }

  /** `obfuscate_via_lsb` without the image file: build the bitstream, refuse
      it when the length field overflows or the image is too small, otherwise
      embed it. */
  function Obfuscate(data: seq<Byte>, img: Image): (r: Result<Image, LsbError>)
    requires WellFormed(img)
    ensures r.Success? <==> 8 * |data| < LengthFieldLimit && LengthFieldBits + 8 * |data| <= Capacity(img)
    ensures 8 * |data| >= LengthFieldLimit ==> r == Failure(LengthFieldOverflow)
    ensures 8 * |data| < LengthFieldLimit && LengthFieldBits + 8 * |data| > Capacity(img) ==>
      r == Failure(CapacityExceeded(LengthFieldBits / 8 + |data|, Capacity(img) / 8))
    ensures r.Success? ==> r.value == Embed(img, Bitstream(data))
  {
    if 8 * |data| >= LengthFieldLimit then
      Failure(LengthFieldOverflow)
    else
      var s := Bitstream(data);
      if |s| > Capacity(img) then
        Failure(CapacityExceeded(|s| / 8, Capacity(img) / 8))
      else
        Success(Embed(img, s))
  }

  /** `deobfuscate_via_lsb` without the image file: read the length field,
      re-read that many bits after it, and pack them into bytes. */
  function Deobfuscate(img: Image): (r: Result<seq<Byte>, LsbError>)
    requires WellFormed(img)
    ensures r == Failure(EmptyLengthField) <==> Capacity(img) == 0
    ensures r.Failure? ==> r.error == EmptyLengthField || r.error == PartialByte
    ensures r.Success? ==> r.value == [] || LengthFieldBits + 8 * |r.value| <= Capacity(img)
    ensures r.Success? ==> 8 * |r.value| <= BitsToNat(SlotBits(img, LengthFieldBits))
    ensures Capacity(img) > 0 && BitsToNat(SlotBits(img, LengthFieldBits)) + LengthFieldBits <= Capacity(img) ==>
      (r == Failure(PartialByte) <==> BitsToNat(SlotBits(img, LengthFieldBits)) % 8 != 0)
    ensures Capacity(img) > 0 && BitsToNat(SlotBits(img, LengthFieldBits)) + LengthFieldBits <= Capacity(img) && r.Success? ==>
      8 * |r.value| == BitsToNat(SlotBits(img, LengthFieldBits))
    ensures Capacity(img) > 0 && BitsToNat(SlotBits(img, LengthFieldBits)) + LengthFieldBits > Capacity(img) ==>
      (r == Failure(PartialByte) <==> Capacity(img) > LengthFieldBits && (Capacity(img) - LengthFieldBits) % 8 != 0)
  {
    var field := SlotBits(img, LengthFieldBits);
    if |field| == 0 then
      Failure(EmptyLengthField)
    else
      var len := BitsToNat(field);
      var all := SlotBits(img, len + LengthFieldBits);
      var payloadBits := SliceFrom(all, LengthFieldBits);
      assert len + LengthFieldBits <= Capacity(img) ==> |payloadBits| == len;
      assert len + LengthFieldBits > Capacity(img) ==>
        |payloadBits| == if Capacity(img) >= LengthFieldBits then Capacity(img) - LengthFieldBits else 0;
      match BitsToBytes(payloadBits)
      case None => Failure(PartialByte)
      case Some(bytes) => Success(bytes)
  }

  /** Every payload that fits the image is recovered exactly from the embedded image. */
  lemma RoundTrip(data: seq<Byte>, img: Image)
    requires WellFormed(img)
    requires 8 * |data| < LengthFieldLimit && LengthFieldBits + 8 * |data| <= Capacity(img)
    ensures Obfuscate(data, img).Success?
    ensures Deobfuscate(Obfuscate(data, img).value) == Success(data)
  {
    var s := Bitstream(data);
    var out := Embed(img, s);
    DecodeAfterEmbed(img, s, LengthFieldBits);
    DecodeAfterEmbed(img, s, |s|);
    assert s[..|s|] == s;
  }

  /** Embedding never changes a pixel's least significant bit to the value it
      already has: writing each slot's own bit back leaves the image as it was. */
  lemma EmbedOwnBits(img: Image, s: seq<Bit>)
    requires WellFormed(img) && |s| <= Capacity(img)
    requires s == SlotBits(img, |s|)
    ensures Embed(img, s) == img
  {
    SlotBitsAreSlotLsbs(img, |s|);
    var r := Embed(img, s);
    var h := img.height;
    forall y, x | 0 <= y < h && 0 <= x < img.width
      ensures r.rows[y][x] == img.rows[y][x]
    {
      var p := img.rows[y][x];
      forall c | 0 <= c < |p|
        ensures r.rows[y][x][c] == p[c]
      {
        if c < 3 && SlotOf(h, x, y, c) < |s| {
          SlotOfInverse(img, x, y, c);
          assert s[SlotOf(h, x, y, c)] == Lsb(SlotValue(img, SlotOf(h, x, y, c)));
        }
      }
    }
    forall y | 0 <= y < h
      ensures r.rows[y] == img.rows[y]
    {
    }
  }

  /** The converse of the round trip: when an image's length field fits the
      image and extraction succeeds, embedding the extracted payload gives the
      same image back. */
  lemma Reembed(img: Image)
    requires WellFormed(img) && Capacity(img) > 0
    requires BitsToNat(SlotBits(img, LengthFieldBits)) + LengthFieldBits <= Capacity(img)
    requires Deobfuscate(img).Success?
    ensures Obfuscate(Deobfuscate(img).value, img) == Success(img)
  {
    var field := SlotBits(img, LengthFieldBits);
    var len := BitsToNat(field);
    var all := SlotBits(img, len + LengthFieldBits);
    var data := Deobfuscate(img).value;
    DecodePrefix(img, LengthFieldBits, len + LengthFieldBits);
    assert |field| == LengthFieldBits;
    BitsToBytesIff(all[LengthFieldBits..], data);
    assert 8 * |data| == len;
    LengthFieldLimitIsPow2();
    NatToBitsOfBitsToNat(field);
    var s := Bitstream(data);
    assert s == all by {
      assert s[..LengthFieldBits] == field by {
        NatToBitsOfBitsToNat(s[..LengthFieldBits]);
      }
      BitsToBytesIff(s[LengthFieldBits..], data);
      assert s == s[..LengthFieldBits] + s[LengthFieldBits..];
      assert all == all[..LengthFieldBits] + all[LengthFieldBits..];
    }
    EmbedOwnBits(img, s);
  }

  /** An image every pixel of which is `p`. */
  function SolidImage(width: nat, height: nat, p: Pixel): (img: Image)
    requires |p| >= 3
    ensures WellFormed(img) && img.width == width && img.height == height
  {
    Image(width, height, seq(height, _ => seq(width, _ => p)))
  }

  /** A five-byte payload such as "hello" needs 32 + 40 = 72 slots: a 4x4
      image (48 slots) refuses it, reporting 9 bytes needed against 6
      available, and an 8x8 image (192 slots) takes it and gives it back. */
  lemma FiveByteScenario(data: seq<Byte>, p: Pixel)
    requires |data| == 5 && |p| >= 3
    ensures Obfuscate(data, SolidImage(4, 4, p)) == Failure(CapacityExceeded(9, 6))
    ensures Obfuscate(data, SolidImage(8, 8, p)).Success?
    ensures Deobfuscate(Obfuscate(data, SolidImage(8, 8, p)).value) == Success(data)
  {
    assert Capacity(SolidImage(4, 4, p)) == 48;
    assert Capacity(SolidImage(8, 8, p)) == 192;
    RoundTrip(data, SolidImage(8, 8, p));
  }

  /** The length field of a one-byte payload. */
  lemma LengthFieldOfOneByte()
    ensures NatToBits(8, LengthFieldBits)
         == [0, 0, 0, 0, 0, 0, 0, 0, 0, 0, 0, 0, 0, 0, 0, 0,
             0, 0, 0, 0, 0, 0, 0, 0, 0, 0, 0, 0, 1, 0, 0, 0]
  {
    ZeroBits(28);
    assert NatToBits(8, 32) == NatToBits(0, 28) + [1, 0, 0, 0];
  }

  /** The bits of the one-byte payload 0x01. */
  lemma PayloadBitsOfOne(data: seq<Byte>)
    requires |data| == 1 && data[0] == 1
    ensures BytesToBits(data) == [0, 0, 0, 0, 0, 0, 0, 1]
  {
    assert BytesToBits(data) == NatToBits(1, 8) + BytesToBits([]);
  }

  /** The bitstream of the one-byte payload 0x01: the 32-bit big-endian bit
      count 8, then 00000001. */
  lemma BitstreamOfOne(data: seq<Byte>)
    requires |data| == 1 && data[0] == 1
    ensures 8 * |data| < LengthFieldLimit
    ensures Bitstream(data)
         == [0, 0, 0, 0, 0, 0, 0, 0, 0, 0, 0, 0, 0, 0, 0, 0,
             0, 0, 0, 0, 0, 0, 0, 0, 0, 0, 0, 0, 1, 0, 0, 0,
             0, 0, 0, 0, 0, 0, 0, 1]
  {
    LengthFieldOfOneByte();
    PayloadBitsOfOne(data);
  }

  /** Embedding the one-byte payload 0x01 sets the least significant bits of
      the first 40 slots to the 32-bit big-endian bit count 8, then 00000001. */
  lemma BitOrderScenario(data: seq<Byte>, img: Image)
    requires |data| == 1 && data[0] == 1
    requires WellFormed(img) && Capacity(img) >= 40
    ensures Obfuscate(data, img).Success?
    ensures SlotBits(Obfuscate(data, img).value, 40) == Bitstream(data)
  {
    BitstreamOfOne(data);
    DecodeAfterEmbed(img, Bitstream(data), 40);
    assert Bitstream(data)[..40] == Bitstream(data);
  }
}
