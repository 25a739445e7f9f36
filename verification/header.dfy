/** Header strategy: the payload is hidden behind a fixed JPEG/JFIF prefix. */
module HeaderStrategy {
  import opened Bits

  /** The JPEG start-of-image marker FF D8 followed by the start of a JFIF APP0
      segment (FF E0, length 00 10, "JFIF", 00, version byte 01). Nothing checks
      it on the way back, so it is an opaque 12-byte constant here. */
  const JpegHeader: seq<Byte> := [0xFF, 0xD8, 0xFF, 0xE0, 0x00, 0x10, 0x4A, 0x46, 0x49, 0x46, 0x00, 0x01]

  /** Extraction skips this many bytes, written as a literal in dataobfuscator.py. */
  const SkippedPrefix: nat := 12

  /** `obfuscate_via_header` without the file I/O: the header, then the payload. */
  function Obfuscate(data: seq<Byte>): (r: seq<Byte>)
    ensures |r| == |JpegHeader| + |data|
    ensures r[..|JpegHeader|] == JpegHeader
    ensures r[|JpegHeader|..] == data
  {
    JpegHeader + data
  }

  /** `deobfuscate_via_header` without the file I/O: everything after the
      first 12 bytes, whatever they are; empty when the input is shorter. */
  function Deobfuscate(blob: seq<Byte>): (r: seq<Byte>)
    ensures |blob| < SkippedPrefix ==> r == []
    ensures |blob| >= SkippedPrefix ==> blob == blob[..SkippedPrefix] + r
  {
    SliceFrom(blob, SkippedPrefix)
  }

  /** Extraction recovers every payload that embedding hid. */
  lemma RoundTrip(data: seq<Byte>)
    ensures Deobfuscate(Obfuscate(data)) == data
  {
    assert |JpegHeader| == SkippedPrefix;
  }

  /** Conversely, a blob that starts with the header is rebuilt by embedding
      what extraction returns. */
  lemma Reembed(blob: seq<Byte>)
    requires |blob| >= SkippedPrefix && blob[..SkippedPrefix] == JpegHeader
    ensures Obfuscate(Deobfuscate(blob)) == blob
  {
  }
}
