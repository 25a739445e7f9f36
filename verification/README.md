# Data obfuscator transformation layer in Dafny

This project models the transformation layer of `dataobfuscator.py`. That layer
has three ways to hide a byte payload in a carrier and three ways to get it back.
File handling is removed, so each one is a pure function over byte sequences or
an in-memory pixel grid:

- **Header strategy.** The payload follows the 12-byte JPEG/JFIF prefix
  `FF D8 FF E0 00 10 4A 46 49 46 00 01`. Extraction drops the first 12 bytes.
- **Append strategy.** The output is carrier, then a 16-byte marker (the MD5
  digest of `<AttackIQ - Start of Appended File>`), then the payload.
  Extraction returns what follows the first occurrence of the marker.
- **LSB strategy.** The payload goes into a bitstream: a 32-bit big-endian field
  holding the payload's bit count, then the payload bits, most significant bit
  first. The stream is written into the least significant bit of channels 0..2
  of each pixel. Columns are the outer loop, rows the inner loop, then the
  channels. A capacity check runs first. Extraction reads the length field,
  then reads the field and payload again, and drops the field.

Modules:

| file | module | contents |
|---|---|---|
| results.dfy | `Results` | `Option` and `Result` |
| bits.dfy | `Bits` | bytes and bits; big-endian conversions; Python's `s[k:]` |
| header.dfy | `HeaderStrategy` | header embed and extract |
| append.dfy | `AppendStrategy` | marker, `bytes.find`, append embed and extract |
| raster.dfy | `Raster` | image grid, slot addressing, reading and setting the low bit |
| lsb.dfy | `LsbStrategy` | bitstream, embedding, two-pass extraction, round trips |
| lsb_loops.dfy | `LsbLoops` | `dataobfuscator.py`'s x/y/channel loops, proved equal to `LsbStrategy` |

An image is `Image(width, height, rows)` with `rows[y][x]` the pixel at column
`x`, row `y`. Pixels are stored row by row, so the column-first traversal is a
real property of the model, not a side effect of how it stores pixels. Slot `k`
is channel `k % 3` of the pixel at column `(k / 3) / height`, row
`(k / 3) % height`.

Some behaviours of `dataobfuscator.py` that the model keeps:

- The length field holds the payload's bit count (`len(data) * 8`).
- Append extraction with no marker does not fail. `find` returns -1, so the code
  slices from index 15. A checked variant is modelled separately (see Findings).
- LSB extraction never reads past the image, even with an oversized length field.
  The decoding loops end at the last pixel, so the read is just shorter.
- The capacity message for a 4x4 image reports 6 available bytes (`int(4*4*3/8)`).

## Model

| member | source | states |
|---|---|---|
| Bits.BitsToNat | dataobfuscator.py:72 | `int(bits, 2)` of an n-bit string is below 2^n |
| Bits.NatToBits | dataobfuscator.py:40 | `NatToBits(n, w)` is w bits long for every n; for n < 2^w it is `BitArray(uint=n, length=w).bin`, which BitArray refuses for larger n, reported by `LsbStrategy.Obfuscate` as LengthFieldOverflow before the field is built |
| Bits.BitsToNatOfNatToBits | dataobfuscator.py:40 | a value below 2^w written as a w-bit big-endian field reads back as the same value |
| Bits.NatToBitsOfBitsToNat | dataobfuscator.py:72 | a bit string is the big-endian field of its own value, at its own width |
| Bits.BytesToBits | dataobfuscator.py:40 | expanding bytes to bits gives 8 bits per byte |
| Bits.BitsToBytes | dataobfuscator.py:74 | bits pack into bytes exactly when their count is a multiple of 8, giving count/8 bytes; otherwise packing fails |
| Bits.PackOfBytesToBits | dataobfuscator.py:40 | packing the bit expansion of a byte string gives the byte string back |
| Bits.BytesToBitsOfPack | dataobfuscator.py:74 | expanding packed bytes gives the packed bit string back |
| Bits.BitsToBytesIff | dataobfuscator.py:74 | a bit string packs into `data` if and only if it is the expansion of `data` |
| HeaderStrategy.Obfuscate | dataobfuscator.py:15-18 | output is 12 + n bytes: the 12-byte header, then the payload unchanged |
| HeaderStrategy.Deobfuscate | dataobfuscator.py:21-23 | the input minus its first 12 bytes, whatever they are; empty when the input is shorter than 12 bytes |
| HeaderStrategy.RoundTrip | dataobfuscator.py:15-23 | extracting an embedded payload returns it unchanged |
| HeaderStrategy.Reembed | dataobfuscator.py:15-23 | a blob that starts with the header is rebuilt by embedding what extraction returns |
| AppendStrategy.Find | dataobfuscator.py:34 | `bytes.find` gives -1 exactly when the marker never occurs; otherwise it gives an occurrence with none before it |
| AppendStrategy.Obfuscate | dataobfuscator.py:26-29 | output is the carrier, then the marker at offset len(carrier), then the payload |
| AppendStrategy.Deobfuscate | dataobfuscator.py:32-35 | if the marker first occurs at i, returns the bytes from i + 16 on, and the blob is what precedes i, plus the marker, plus the result; with no marker, returns the blob from index 15 on, or nothing if it is shorter |
| AppendStrategy.DeobfuscateFound | dataobfuscator.py:32-35 | if the marker first occurs at i, extraction returns the bytes after that occurrence, and the blob is prefix + marker + result |
| AppendStrategy.DeobfuscateMarkerAbsent | dataobfuscator.py:34-35 | with no marker, extraction returns the input minus its first 15 bytes (empty if it is shorter) and does not fail |
| AppendStrategy.RoundTrip | dataobfuscator.py:26-35 | extraction returns the payload whenever the first marker in carrier ++ marker is the appended one |
| AppendStrategy.Reembed | dataobfuscator.py:26-35 | a blob holding the marker equals what precedes the first marker, plus the marker, plus what extraction returns |
| AppendStrategy.MarkerAbsentGarbage | dataobfuscator.py:34-35 | a 20-byte carrier of zeros has no marker, yet extraction returns its last 5 bytes |
| AppendStrategy.DeobfuscateChecked | dataobfuscator.py:32-35 | fails with MarkerNotFound exactly when the marker is absent; otherwise agrees with the tool's extraction |
| AppendStrategy.CheckedRoundTrip | dataobfuscator.py:26-35 | checked extraction recovers every payload under the same condition as the tool's extraction |
| Raster.SlotOfInverse | dataobfuscator.py:50-57 | channel c < 3 of pixel (x, y) sits at a slot below 3·width·height; the slot's coordinates lead back to (x, y, c) |
| Raster.SlotCoordinates | dataobfuscator.py:85-91 | every slot below 3·width·height names a pixel inside the image and a channel, which lead back to the slot |
| Raster.SetLsb | dataobfuscator.py:55 | the new channel value keeps the upper seven bits and has the given bit as its lowest bit |
| Raster.SetLsbBitwise | dataobfuscator.py:55 | `SetLsb` equals the tool's `v & ~1` OR-ed with `b` on every 8-bit value |
| Raster.LsbBitwise | dataobfuscator.py:90 | `Lsb` equals the tool's `v & 1` on every 8-bit value |
| LsbStrategy.LengthFieldLimitIsPow2 | dataobfuscator.py:12 | the overflow limit 4294967296 used for the length field is 2^32, with 32 the field width `LSB_PAYLOAD_LENGTH_BITS` |
| LsbStrategy.Bitstream | dataobfuscator.py:40 | the stream is 32 + 8n bits; its first 32 bits read back as 8n; the rest pack back into the payload |
| LsbStrategy.BitstreamUnique | dataobfuscator.py:40 | any stream of 32 + 8n bits whose first 32 bits read as 8n and whose rest packs into the payload is the 32-bit big-endian field 8n followed by the payload bytes most-significant bit first |
| LsbStrategy.BitstreamOfOne | dataobfuscator.py:40 | the stream of payload 0x01 is 28 zeros, 1000, then 00000001 |
| LsbStrategy.SlotBits | dataobfuscator.py:81-96 | a read of n bits stops at the last slot: it holds min(n, 3·width·height) bits |
| LsbStrategy.SlotBitsAreSlotLsbs | dataobfuscator.py:85-90 | bit k of a read is `pixel[c] & 1` of slot k, that is channel k % 3 of the pixel at column (k / 3) / height, row (k / 3) % height |
| LsbStrategy.Embed | dataobfuscator.py:50-61 | the embedded image has the same width and height and is still a grid of ≥3-channel pixels |
| LsbStrategy.EmbedFrame | dataobfuscator.py:50-61 | slot k < len(S) becomes `(old & ~1)` OR-ed with `S[k]`; later slots, channels ≥ 3 and pixel sizes stay the same |
| LsbStrategy.DecodeAfterEmbed | dataobfuscator.py:50-57 | reading the first n ≤ len(S) slots of an image carrying S returns S[..n] |
| LsbStrategy.DecodePrefix | dataobfuscator.py:81-96 | a read of n bits has min(n, capacity) bits and is a prefix of any longer read |
| LsbStrategy.Obfuscate | dataobfuscator.py:38-49 | succeeds iff 8n < 2^32 and 32 + 8n ≤ 3·width·height; a bit count of 2^32 or more fails with LengthFieldOverflow; an oversized stream fails with CapacityExceeded(4 + n, ⌊3·width·height/8⌋) |
| LsbStrategy.Deobfuscate | dataobfuscator.py:69-74 | fails with EmptyLengthField iff the image has no slots, otherwise can only fail with PartialByte. With field value L and capacity C: if L + 32 ≤ C, it fails with PartialByte iff L % 8 ≠ 0 and otherwise returns L / 8 bytes; if L + 32 > C, the read stops at the last slot, and it fails with PartialByte iff C > 32 and (C − 32) % 8 ≠ 0, otherwise returning a shorter payload. A non-empty result satisfies 32 + 8·len ≤ C |
| LsbStrategy.RoundTrip | dataobfuscator.py:38-74 | a payload whose stream fits the image is embedded, and extraction returns it exactly |
| LsbStrategy.EmbedOwnBits | dataobfuscator.py:50-57 | writing each slot's own low bit back leaves the image unchanged |
| LsbStrategy.Reembed | dataobfuscator.py:38-74 | if the length field fits the image and extraction succeeds, embedding the extracted payload gives the same image back |
| LsbStrategy.FiveByteScenario | dataobfuscator.py:46-49 | a 5-byte payload is refused by a 4x4 image with CapacityExceeded(9, 6), and round-trips through an 8x8 image |
| LsbStrategy.BitOrderScenario | dataobfuscator.py:40-57 | after embedding payload 0x01, the low bits of the first 40 slots are exactly its bitstream |
| LsbLoops.EmbedChannels | dataobfuscator.py:53-56 | the channel loop writes channel c the stream bit base + c while bits remain, and advances the position to min(base + 3, len(S)) |
| LsbLoops.EmbedPixels | dataobfuscator.py:50-61 | the x/y/channel loops with their early breaks produce exactly `Embed(img, S)` |
| LsbLoops.ObfuscateViaLsb | dataobfuscator.py:38-61 | the capacity check and then the loops give exactly `LsbStrategy.Obfuscate` |
| LsbLoops.DecodeChannels | dataobfuscator.py:88-91 | the channel loop extends the bits read to the first min(slot of the next pixel, nbits) slots |
| LsbLoops.DecodeImgNBits | dataobfuscator.py:81-96 | returns exactly the low bits of the first min(nbits, 3·width·height) slots, in traversal order |
| LsbLoops.DeobfuscateViaLsb | dataobfuscator.py:69-74 | the two decoding passes give exactly `LsbStrategy.Deobfuscate` |

## Left out

- `read_data` / `write_data` (dataobfuscator.py:99-116): file I/O. Inputs and outputs are byte sequences and images.
- Pillow's `Image.open` and `save`, and PNG re-encoding (dataobfuscator.py:44, 62, 71): a foreign image library. The image is an in-memory grid. Lossless saving is assumed.
- The `IOError` handlers and `exit(1)` (dataobfuscator.py:63-65, 75-77): an unreadable file is not modelled. The capacity refusal is the `CapacityExceeded` result, not process termination.
- The MD5 computation of the marker (dataobfuscator.py:11): a foreign hash. The marker is the precomputed 16-byte digest, used as an opaque constant.
- The bitstring library (dataobfuscator.py:3, 40, 74): only its big-endian conversions are modelled. Its errors are results: `LengthFieldOverflow` when the bit count does not fit 32 bits, and `PartialByte` when the bits do not make whole bytes.
- Python's `int('', 2)` error on an image with no pixels (dataobfuscator.py:72): modelled as the `EmptyLengthField` result.
- Images whose pixels have fewer than three channels (grayscale or palette images, where `getpixel` returns an int): `Raster.WellFormed` requires at least three channels of 0..255 per pixel.
- Argument parsing, default file names and carrier images, the warning for an ignored carrier, and the `__main__` dispatch (dataobfuscator.py:119-178): command-line glue.
- Printed messages: only the sizes in the capacity message are modelled.
- LsbStrategy.Obfuscate: the available size is computed exactly as ⌊3·width·height/8⌋. `dataobfuscator.py` uses float division before `int()`, and the two can differ only once 3·width·height exceeds 2^53.
- test/integration/test_data_obfuscator.py: fixture-file tests. The round-trip lemmas state the properties those tests check.

## Findings

| source | as written | input that shows it | evidently intended | confidence | as-written member | corrected member |
|---|---|---|---|---|---|---|
| dataobfuscator.py:34-35 | with no marker, `find` returns -1 and the slice starts at -1 + 16 = 15, so arbitrary bytes come back as the payload | 20 zero bytes: no marker, yet 5 bytes are returned | report that the marker is missing | medium; not executed | AppendStrategy.MarkerAbsentGarbage | AppendStrategy.DeobfuscateChecked |
