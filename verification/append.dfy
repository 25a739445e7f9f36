/** Append strategy: the payload follows the carrier's own bytes, separated
    from them by a fixed 16-byte marker. */
module AppendStrategy {
  import opened Results
  import opened Bits

  /** The MD5 digest of the text `<AttackIQ - Start of Appended File>`. The hash
      is computed once by dataobfuscator.py; here it is an opaque 16-byte constant. */
  const Marker: seq<Byte> := [131, 34, 43, 20, 39, 120, 14, 132, 239, 247, 19, 101, 65, 118, 39, 48]

  /** `pat` occurs in `data` starting at index `i`. */
  predicate OccursAt(data: seq<Byte>, pat: seq<Byte>, i: int)
  {
    0 <= i && i + |pat| <= |data| && data[i..i + |pat|] == pat
  }

  /** The first index at or after `from` where `pat` occurs, or -1. */
  function FindFrom(data: seq<Byte>, pat: seq<Byte>, from: nat): (r: int)
    ensures r == -1 || (from <= r && OccursAt(data, pat, r))
    ensures r == -1 ==> forall j :: from <= j ==> !OccursAt(data, pat, j)
    ensures r != -1 ==> forall j :: from <= j < r ==> !OccursAt(data, pat, j)
    decreases |data| - from
  {
    if from + |pat| > |data| then -1
    else if data[from..from + |pat|] == pat then from
    else FindFrom(data, pat, from + 1)
  }

  /** Python's `bytes.find`: the lowest index where `pat` occurs, or -1. */
  function Find(data: seq<Byte>, pat: seq<Byte>): (r: int)
    ensures r == -1 <==> forall j :: !OccursAt(data, pat, j)
    ensures r != -1 ==> OccursAt(data, pat, r) && forall j :: j < r ==> !OccursAt(data, pat, j)
  {
    FindFrom(data, pat, 0)
  }

  /** `obfuscate_via_append` without the file I/O. */
  function Obfuscate(carrier: seq<Byte>, data: seq<Byte>): (r: seq<Byte>)
    ensures |r| == |carrier| + |Marker| + |data|
    ensures r[..|carrier|] == carrier
    ensures OccursAt(r, Marker, |carrier|)
    ensures r[|carrier| + |Marker|..] == data
  {
    carrier + Marker + data
  }

  /** `deobfuscate_via_append` without the file I/O: the bytes after the first
      marker occurrence. When the marker is absent `find` yields -1 and the
      tool slices from -1 + 16 = 15 instead of failing. */
  function Deobfuscate(blob: seq<Byte>): (r: seq<Byte>)
    ensures Find(blob, Marker) != -1 ==> r == blob[Find(blob, Marker) + |Marker|..]
    ensures Find(blob, Marker) != -1 ==> blob == blob[..Find(blob, Marker)] + Marker + r
    ensures (forall j :: !OccursAt(blob, Marker, j)) && |blob| >= |Marker| - 1 ==> r == blob[|Marker| - 1..]
    ensures (forall j :: !OccursAt(blob, Marker, j)) && |blob| < |Marker| - 1 ==> r == []
  {
    SliceFrom(blob, Find(blob, Marker) + |Marker|)
  }

  /** With the marker present, the result is exactly what follows its first occurrence. */
  lemma DeobfuscateFound(blob: seq<Byte>, i: nat)
    requires OccursAt(blob, Marker, i)
    requires forall j :: j < i ==> !OccursAt(blob, Marker, j)
    ensures Deobfuscate(blob) == blob[i + |Marker|..]
    ensures blob == blob[..i] + Marker + Deobfuscate(blob)
  {
    var r := Find(blob, Marker);
    assert r != -1;
    assert r == i;
  }

  /** With the marker absent the tool does not fail: it drops the first 15 bytes. */
  lemma DeobfuscateMarkerAbsent(blob: seq<Byte>)
    requires forall j :: !OccursAt(blob, Marker, j)
    ensures |blob| >= |Marker| - 1 ==> Deobfuscate(blob) == blob[|Marker| - 1..]
    ensures |blob| < |Marker| - 1 ==> Deobfuscate(blob) == []
  {
    assert Find(blob, Marker) == -1;
  }

  /** Extraction recovers the payload whenever the marker appended by embedding
      is the first occurrence of the marker in `carrier ++ Marker`. */
  lemma RoundTrip(carrier: seq<Byte>, data: seq<Byte>)
    requires Find(carrier + Marker, Marker) == |carrier|
    ensures Deobfuscate(Obfuscate(carrier, data)) == data
  {
    var prefix := carrier + Marker;
    var blob := Obfuscate(carrier, data);
    assert blob == prefix + data;
    forall j | j < |carrier|
      ensures !OccursAt(blob, Marker, j)
    {
      assert !OccursAt(prefix, Marker, j);
      if 0 <= j {
        assert blob[j..j + |Marker|] == prefix[j..j + |Marker|];
      }
    }
    DeobfuscateFound(blob, |carrier|);
  }

  /** Conversely, any blob that holds the marker is rebuilt by appending the
      extracted bytes to what precedes the first marker. */
  lemma Reembed(blob: seq<Byte>)
    requires Find(blob, Marker) != -1
    ensures Obfuscate(blob[..Find(blob, Marker)], Deobfuscate(blob)) == blob
  {
    DeobfuscateFound(blob, Find(blob, Marker));
  }

  /** A carrier of 20 zero bytes holds no marker, yet extraction "recovers"
      its last five bytes from it instead of reporting that nothing is there. */
  lemma MarkerAbsentGarbage(blob: seq<Byte>)
    requires |blob| == 20 && forall i :: 0 <= i < |blob| ==> blob[i] == 0
    ensures forall j :: !OccursAt(blob, Marker, j)
    ensures Deobfuscate(blob) == blob[15..] && |Deobfuscate(blob)| == 5
  {
    forall j
      ensures !OccursAt(blob, Marker, j)
    {
      if 0 <= j && j + |Marker| <= |blob| {
        assert blob[j..j + |Marker|][0] == 0;
      }
    }
    DeobfuscateMarkerAbsent(blob);
  }

  /** Why checked extraction stops. */
  datatype AppendError = MarkerNotFound

  /** Extraction that reports a missing marker instead of slicing from index 15. */
  function DeobfuscateChecked(blob: seq<Byte>): (r: Result<seq<Byte>, AppendError>)
    ensures r.Failure? <==> forall j :: !OccursAt(blob, Marker, j)
    ensures r.Success? ==> r.value == Deobfuscate(blob)
  {
    var start := Find(blob, Marker);
    if start == -1 then Failure(MarkerNotFound) else Success(blob[start + |Marker|..])
  }

  /** Checked extraction still recovers every payload embedded behind a
      carrier that does not itself produce an earlier marker. */
  lemma CheckedRoundTrip(carrier: seq<Byte>, data: seq<Byte>)
    requires Find(carrier + Marker, Marker) == |carrier|
    ensures DeobfuscateChecked(Obfuscate(carrier, data)) == Success(data)
  {
    RoundTrip(carrier, data);
  }
}
