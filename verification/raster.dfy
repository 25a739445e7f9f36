/** An in-memory raster image and the "channel slots" the LSB strategy writes
    its bits into. */
module Raster {
  import opened Bits

  /** The channel values `getpixel` returns: red, green, blue and possibly alpha. */
  type Pixel = seq<Byte>

  /** A raster image held row by row: `rows[y][x]` is the pixel in column `x`
      of row `y`, the way `getpixel((x, y))` addresses it. */
  datatype Image = Image(width: nat, height: nat, rows: seq<seq<Pixel>>)

  /** The grid has the stated size and every pixel has at least three channels. */
  predicate WellFormed(img: Image)
  {
    && |img.rows| == img.height
    && (forall y :: 0 <= y < img.height ==> |img.rows[y]| == img.width)
    && (forall y, x :: 0 <= y < img.height && 0 <= x < img.width ==> |img.rows[y][x]| >= 3)
  }

  function GetPixel(img: Image, x: nat, y: nat): (p: Pixel)
    requires WellFormed(img) && x < img.width && y < img.height
    ensures |p| >= 3
  {
    img.rows[y][x]
  }

  /** The number of channel slots: three per pixel. */
  function Capacity(img: Image): nat
  {
    3 * img.width * img.height
  }

  /** The position of channel `c` of pixel `(x, y)` in the traversal order:
      columns outermost, then rows, then channels 0, 1, 2. */
  function SlotOf(height: nat, x: nat, y: nat, c: nat): nat
  {
    3 * (x * height + y) + c
  }

  /** The column, row and channel of slot `k`. */
  function SlotX(height: nat, k: nat): nat
    requires height > 0
  {
    (k / 3) / height
  }

  function SlotY(height: nat, k: nat): nat
    requires height > 0
  {
    (k / 3) % height
  }

  function SlotChannel(k: nat): nat
  {
    k % 3
  }

  lemma DivModUnique(q: nat, d: nat, a: nat, b: nat)
    requires d > 0 && b < d && q == a * d + b
    ensures q / d == a && q % d == b
  {
    var a', b' := q / d, q % d;
    assert q == a' * d + b';
    if a' < a {
      MulMonotone(a' + 1, a, d);
      assert false;
    } else if a < a' {
      MulMonotone(a + 1, a', d);
      assert false;
    }
  }

  lemma MulMonotone(a: nat, b: nat, d: nat)
    requires a <= b
    ensures a * d <= b * d
  {
  }

  /** The slot after the last row of column `x` is the first slot of column `x + 1`. */
  lemma NextColumnSlot(height: nat, x: nat)
    ensures SlotOf(height, x, height, 0) == SlotOf(height, x + 1, 0, 0)
  {
    assert (x + 1) * height == x * height + height;
  }

  /** Every pixel's channels 0..2 lie among the first `Capacity` slots, and the
      slot coordinates of that position are the pixel and channel again. */
  lemma SlotOfInverse(img: Image, x: nat, y: nat, c: nat)
    requires x < img.width && y < img.height && c < 3
    ensures SlotOf(img.height, x, y, c) < Capacity(img)
    ensures SlotX(img.height, SlotOf(img.height, x, y, c)) == x
    ensures SlotY(img.height, SlotOf(img.height, x, y, c)) == y
    ensures SlotChannel(SlotOf(img.height, x, y, c)) == c
  {
    var h := img.height;
    var q := x * h + y;
    MulMonotone(x + 1, img.width, h);
    assert q < img.width * h;
    DivModUnique(SlotOf(h, x, y, c), 3, q, c);
    DivModUnique(q, h, x, y);
  }

  /** Every slot below `Capacity` belongs to a pixel of the image, and the
      pixel and channel it names lead back to it. */
  lemma SlotCoordinates(img: Image, k: nat)
    requires k < Capacity(img)
    ensures img.height > 0
    ensures SlotX(img.height, k) < img.width && SlotY(img.height, k) < img.height
    ensures SlotOf(img.height, SlotX(img.height, k), SlotY(img.height, k), SlotChannel(k)) == k
  {
    var h := img.height;
    assert h > 0;
    var q := k / 3;
    assert q < img.width * h;
    if q / h >= img.width {
      MulMonotone(img.width, q / h, h);
      assert false;
    }
  }

  /** The channel value held by slot `k`. */
  function SlotValue(img: Image, k: nat): Byte
    requires WellFormed(img) && k < Capacity(img)
  {
    SlotCoordinates(img, k);
    GetPixel(img, SlotX(img.height, k), SlotY(img.height, k))[SlotChannel(k)]
  }

  /** The least significant bit of a channel value (`v & 1`, see `LsbBitwise`). */
  function Lsb(v: Byte): Bit
  {
    v % 2
  }

  /** The channel value with its least significant bit replaced by `b`
      (`v & ~1 | b`, see `SetLsbBitwise`): the upper seven bits are kept. */
  function SetLsb(v: Byte, b: Bit): (r: Byte)
    ensures r / 2 == v / 2
    ensures r % 2 == b
  {
    v - v % 2 + b
  }

  /** `Lsb` agrees with dataobfuscator.py's bitwise `& 1` on every 8-bit value. */
  lemma LsbBitwise(v: bv8)
    ensures Lsb(v as int) == (v & 1) as int
  {
  }

  /** Clearing bit 0 of an 8-bit value subtracts its remainder modulo 2. */
  lemma ClearLsbBitwise(v: bv8)
    ensures (v & !1) as int == (v as int) - (v as int) % 2
  {
  }

  /** Replacing bit 0 of an 8-bit value by `b` in bitwise terms. */
  lemma ReplaceLsbBitwise(v: bv8, b: bv8)
    requires b <= 1
    ensures ((v & !1) | b) as int == (v as int) - (v as int) % 2 + b as int
  {
    ClearLsbBitwise(v);
    assert (v & !1) & 1 == 0;
    if b == 0 {
      assert (v & !1) | b == v & !1;
    } else {
      assert (v & !1) | b == (v & !1) + 1;
    }
  }

  /** `SetLsb` agrees with dataobfuscator.py's bitwise `v & ~1 | b` on every 8-bit value. */
  lemma SetLsbBitwise(v: bv8, b: bv8)
    requires b <= 1
    ensures SetLsb(v as int, b as int) == ((v & !1) | b) as int
  {
    var x := (v as int) - (v as int) % 2 + b as int;
    ReplaceLsbBitwise(v, b);
    assert SetLsb(v as int, b as int) == x;
  }
}
