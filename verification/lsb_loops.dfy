/** The LSB strategy's pixel loops written as dataobfuscator.py writes them (columns
    outermost, then rows, then channels 0..2, leaving each loop as soon as the
    bit count is reached), proved to compute the functional definitions. */
module LsbLoops {
  import opened Results
  import opened Bits
  import opened Raster
  import opened LsbStrategy

  /** Pixels already visited when the traversal stands at column `cx`, row `cy`
      hold their embedded value; the others are as in the original image. */
  ghost predicate VisitedEmbedded(img: Image, s: seq<Bit>, rows: seq<seq<Pixel>>, cx: nat, cy: nat)
    requires WellFormed(img)
  {
    && |rows| == img.height
    && (forall y :: 0 <= y < img.height ==> |rows[y]| == img.width)
    && (forall y, x :: 0 <= y < img.height && 0 <= x < img.width ==>
          rows[y][x] == if x < cx || (x == cx && y < cy)
                        then EmbedPixel(img.rows[y][x], s, SlotOf(img.height, x, y, 0))
                        else img.rows[y][x])
  }

  /** A pixel whose first slot is past the end of the stream is not changed. */
  lemma EmbedPixelPastEnd(p: Pixel, s: seq<Bit>, base: nat)
    requires |s| <= base
    ensures EmbedPixel(p, s, base) == p
  {
  }

  /** Slots grow along the traversal: a pixel not yet visited at `(cx, cy)` has
      its first slot at or after the current one. */
  lemma SlotOfMonotone(height: nat, cx: nat, cy: nat, x: nat, y: nat)
    requires cy <= height && y < height
    requires !(x < cx || (x == cx && y < cy))
    ensures SlotOf(height, cx, cy, 0) <= SlotOf(height, x, y, 0)
  {
    if x > cx {
      MulMonotone(cx + 1, x, height);
    }
  }

  /** Once the traversal has visited every pixel, or the stream is used up,
      the rows are those of the embedded image. */
  lemma VisitedAll(img: Image, s: seq<Bit>, rows: seq<seq<Pixel>>, cx: nat, cy: nat)
    requires WellFormed(img) && cy <= img.height
    requires VisitedEmbedded(img, s, rows, cx, cy)
    requires cx >= img.width || |s| <= SlotOf(img.height, cx, cy, 0)
    ensures img.(rows := rows) == Embed(img, s)
  {
    var e := Embed(img, s);
    forall y, x | 0 <= y < img.height && 0 <= x < img.width
      ensures rows[y][x] == e.rows[y][x]
    {
      if !(x < cx || (x == cx && y < cy)) {
        SlotOfMonotone(img.height, cx, cy, x, y);
        EmbedPixelPastEnd(img.rows[y][x], s, SlotOf(img.height, x, y, 0));
      }
    }
    forall y | 0 <= y < img.height
      ensures rows[y] == e.rows[y]
    {
    }
  }

  /** Writing the embedded pixel at `(cx, cy)` advances the traversal by one row. */
  lemma VisitStep(img: Image, s: seq<Bit>, rows: seq<seq<Pixel>>, cx: nat, cy: nat, pixel: Pixel)
    requires WellFormed(img) && cx < img.width && cy < img.height
    requires VisitedEmbedded(img, s, rows, cx, cy)
    requires pixel == EmbedPixel(img.rows[cy][cx], s, SlotOf(img.height, cx, cy, 0))
    ensures VisitedEmbedded(img, s, rows[cy := rows[cy][cx := pixel]], cx, cy + 1)
  {
  }

  /** Having visited a whole column is having visited every earlier column. */
  lemma VisitNextColumn(img: Image, s: seq<Bit>, rows: seq<seq<Pixel>>, cx: nat)
    requires WellFormed(img)
    requires VisitedEmbedded(img, s, rows, cx, img.height)
    ensures VisitedEmbedded(img, s, rows, cx + 1, 0)
    ensures SlotOf(img.height, cx, img.height, 0) == SlotOf(img.height, cx + 1, 0, 0)
  {
    NextColumnSlot(img.height, cx);
  }

  /** The channel loop of `obfuscate_via_lsb` for one pixel whose first slot is
      `base`, entered with the stream position `i`. */
  method EmbedChannels(pixel: Pixel, s: seq<Bit>, i: nat, ghost base: nat) returns (out: Pixel, next: nat)
    requires |pixel| >= 3 && i == Min(base, |s|)
    ensures out == EmbedPixel(pixel, s, base)
    ensures next == Min(base + 3, |s|)
  {
    out, next := pixel, i;
    var n := 0;
    while n < 3
      invariant n <= 3 && |out| == |pixel|
      invariant next == Min(base + n, |s|)
      invariant forall c :: 0 <= c < |out| ==>
        out[c] == if c < n && base + c < |s| then SetLsb(pixel[c], s[base + c]) else pixel[c]
    {
      if next < |s| {
        out := out[n := SetLsb(out[n], s[next])];
        next := next + 1;
      }
      n := n + 1;
    }
  }

  /** The pixel loops of `obfuscate_via_lsb`: the image that the tool saves. */
  method EmbedPixels(img: Image, s: seq<Bit>) returns (out: Image)
    requires WellFormed(img)
    ensures out == Embed(img, s)
  {
    var h := img.height;
    var rows: seq<seq<Pixel>> := img.rows;
    var i := 0;
    var x, y := 0, 0;
    while x < img.width
      invariant x <= img.width && y <= h
      invariant i == Min(SlotOf(h, x, 0, 0), |s|)
      invariant VisitedEmbedded(img, s, rows, x, 0)
    {
      y := 0;
      while y < h
        invariant y <= h
        invariant i == Min(SlotOf(h, x, y, 0), |s|)
        invariant VisitedEmbedded(img, s, rows, x, y)
      {
        var pixel;
        pixel, i := EmbedChannels(rows[y][x], s, i, SlotOf(h, x, y, 0));
        VisitStep(img, s, rows, x, y, pixel);
        rows := rows[y := rows[y][x := pixel]];
        // dataobfuscator.py breaks before advancing `y`; advancing first changes nothing else.
        y := y + 1;
        if i >= |s| {
          break;
        }
      }
      if i >= |s| {
        VisitedAll(img, s, rows, x, y);
        break;
      }
      VisitNextColumn(img, s, rows, x);
      x := x + 1;
    }
    if x == img.width {
      VisitedAll(img, s, rows, x, 0);
    }
    out := img.(rows := rows);
  }

  /** Reading one more slot appends its least significant bit. */
  lemma SlotBitsNext(img: Image, i: nat)
    requires WellFormed(img) && i < Capacity(img)
    ensures SlotBits(img, i + 1) == SlotBits(img, i) + [Lsb(SlotValue(img, i))]
  {
  }

  /** The channel loop of `decode_img_nbits` for pixel `(x, y)`, entered with
      the bits read so far. */
  method DecodeChannels(img: Image, x: nat, y: nat, nbits: nat, data: seq<Bit>) returns (out: seq<Bit>)
    requires WellFormed(img) && x < img.width && y < img.height
    requires |data| == Min(SlotOf(img.height, x, y, 0), nbits) && data == SlotBits(img, |data|)
    ensures |out| == Min(SlotOf(img.height, x, y + 1, 0), nbits) && out == SlotBits(img, |out|)
  {
    var pixel := GetPixel(img, x, y);
    out := data;
    var i := |data|;
    var n := 0;
    while n < 3
      invariant n <= 3
      invariant i == |out| == Min(SlotOf(img.height, x, y, n), nbits)
      invariant out == SlotBits(img, i)
    {
      if i < nbits {
        SlotOfInverse(img, x, y, n);
        SlotBitsNext(img, i);
        out := out + [Lsb(pixel[n])];
        i := i + 1;
      }
      n := n + 1;
    }
  }

  /** `decode_img_nbits`: the least significant bits of the first `nbits`
      slots in traversal order, stopping at the last slot of the image. */
  method DecodeImgNBits(img: Image, nbits: nat) returns (data: seq<Bit>)
    requires WellFormed(img)
    ensures |data| == Min(nbits, Capacity(img))
    ensures forall k :: 0 <= k < |data| ==> data[k] == Lsb(SlotValue(img, k))
    ensures data == SlotBits(img, nbits)
  {
    var h := img.height;
    data := [];
    var x := 0;
    while x < img.width
      invariant x <= img.width
      invariant |data| == Min(SlotOf(h, x, 0, 0), nbits)
      invariant data == SlotBits(img, |data|)
    {
      var y := 0;
      while y < h
        invariant y <= h
        invariant |data| == Min(SlotOf(h, x, y, 0), nbits)
        invariant data == SlotBits(img, |data|)
      {
        data := DecodeChannels(img, x, y, nbits, data);
        if |data| >= nbits {
          break;
        }
        y := y + 1;
      }
      if |data| >= nbits {
        break;
      }
      NextColumnSlot(h, x);
      x := x + 1;
    }
    SlotBitsSameLength(img, |data|, nbits);
    SlotBitsAreSlotLsbs(img, nbits);
  }

  /** `obfuscate_via_lsb` with its loops: the capacity check before anything
      is written, then the pixel loops. */
  method ObfuscateViaLsb(data: seq<Byte>, img: Image) returns (r: Result<Image, LsbError>)
    requires WellFormed(img)
    ensures r == Obfuscate(data, img)
  {
    if 8 * |data| >= LengthFieldLimit {
      return Failure(LengthFieldOverflow);
    }
    var s := Bitstream(data);
    if |s| > Capacity(img) {
      return Failure(CapacityExceeded(|s| / 8, Capacity(img) / 8));
    }
    var out := EmbedPixels(img, s);
    r := Success(out);
  }

  /** `deobfuscate_via_lsb` with its two passes: the length field first, then
      the field and payload again, of which the field is dropped. */
  method DeobfuscateViaLsb(img: Image) returns (r: Result<seq<Byte>, LsbError>)
    requires WellFormed(img)
    ensures r == Deobfuscate(img)
  {
    var field := DecodeImgNBits(img, LengthFieldBits);
    if |field| == 0 {
      return Failure(EmptyLengthField);
    }
    var payloadLength := BitsToNat(field);
    var all := DecodeImgNBits(img, payloadLength + LengthFieldBits);
    var payloadBits := SliceFrom(all, LengthFieldBits);
    match BitsToBytes(payloadBits)
    case None =>
      r := Failure(PartialByte);
    case Some(bytes) =>
      r := Success(bytes);
  }
}
