/** One track point of an `.OMD` activity log: its fixed-offset fields, how
    they are read from a 20-byte coordinate block and a 10-byte telemetry
    block, and how the point is later stamped with an absolute date. */
module OmdRecord {
  import opened Bytes
  import opened Results

  /** Size of the block holding position, distance and elapsed time. */
  const CoordBlockSize: nat := 20
  /** Size of the block holding speed, calories and heart rate. */
  const TelemetryBlockSize: nat := 10
  /** Index of the heart-rate byte in the telemetry block; it is the only
      field read by indexing rather than slicing, so it is the only one
      whose absence is an error. */
  const HeartRateIndex: nat := 6
  /** Latitude and longitude are stored in millionths of a degree. */
  const DegreeScale: nat := 1000000
  /** Speed is stored in hundredths of its unit. */
  const SpeedScale: nat := 100

  /** Why decoding a log fails. Both are an `IndexError` in the program. */
  datatype LogError =
    | TelemetryTooShort(length: nat)  // the telemetry block has no byte at HeartRateIndex
    | NoRecords                       // nothing was decoded, so there is no last record

  /** A track point with its raw, unscaled fields. `date` is None until the
      point is stamped: absolute seconds, start of activity plus `tps`. */
  datatype Record = Record(
    lat: nat,   // latitude, millionths of a degree, read unsigned
    lon: nat,   // longitude, millionths of a degree, read unsigned
    dist: nat,  // cumulative distance
    tps: nat,   // elapsed seconds since the start of the activity
    vit: nat,   // speed, hundredths of a unit
    kCal: nat,  // calories
    hr: byte,   // heart rate
    date: Option<int>)

  /** Every field fits the width it is stored in. */
  predicate InRange(r: Record)
  {
    && r.lat < Pow256(4) && r.lon < Pow256(4) && r.dist < Pow256(4)
    && r.tps < Pow256(2) && r.vit < Pow256(2) && r.kCal < Pow256(2)
  }

  /** Two records carry the same measurements; only their dates may differ. */
  predicate SameMeasures(a: Record, b: Record)
  {
    a.(date := None) == b.(date := None)
  }

  /** `_from_byte(block[offset:offset+width])`: the unsigned little-endian
      field of the given width, read through a clamped slice, so a block
      that ends early yields a narrower (possibly zero) value. */
  function ReadUnsigned(block: seq<byte>, offset: nat, width: nat): (v: nat)
    ensures v < Pow256(width)
    ensures offset + width <= |block| ==> v == FromLittleEndian(block[offset..offset + width])
  {
    var field := Slice(block, offset, offset + width);
    Pow256Monotone(|field|, width);
    FromLittleEndian(field)
  }

  /** `Record.__init__`: a record from a coordinate block and a telemetry
      block. Fails exactly when the telemetry block is too short to hold
      the heart-rate byte; every other field is read through a slice and
      never fails. */
  function DecodeRecord(coord: seq<byte>, kpi: seq<byte>): (r: Result<Record, LogError>)
    ensures r.Success? <==> |kpi| > HeartRateIndex
    ensures r.Failure? ==> r.error == TelemetryTooShort(|kpi|)
    ensures r.Success? ==> InRange(r.value) && r.value.date.None? && r.value.hr == kpi[HeartRateIndex]
  {
    var lat := ReadUnsigned(coord, 0, 4);
    var lon := ReadUnsigned(coord, 4, 4);
    var dist := ReadUnsigned(coord, 8, 4);
    var tps := ReadUnsigned(coord, 12, 2);
    var vit := ReadUnsigned(kpi, 2, 2);
    var kCal := ReadUnsigned(kpi, 4, 2);
    if |kpi| <= HeartRateIndex then Failure(TelemetryTooShort(|kpi|))
    else Success(Record(lat, lon, dist, tps, vit, kCal, kpi[HeartRateIndex], None))
  }

  /** The offsets of `Record.__init__`: from a full coordinate block, lat,
      lon and dist are the little-endian values of bytes [0,4), [4,8) and
      [8,12) and tps of [12,14); speed and calories are those of telemetry
      bytes [2,4) and [4,6), and the heart rate is telemetry byte 6. */
  lemma DecodeRecordFields(coord: seq<byte>, kpi: seq<byte>)
    requires |coord| >= 14 && |kpi| > HeartRateIndex
    ensures var r := DecodeRecord(coord, kpi).value;
            && r.lat == FromLittleEndian(coord[0..4])
            && r.lon == FromLittleEndian(coord[4..8])
            && r.dist == FromLittleEndian(coord[8..12])
            && r.tps == FromLittleEndian(coord[12..14])
            && r.vit == FromLittleEndian(kpi[2..4])
            && r.kCal == FromLittleEndian(kpi[4..6])
            && r.hr == kpi[6]
  {
  }

  /** `Record.set_date`: the record dated `tps` seconds after `start`. */
  function SetDate(r: Record, start: int): (s: Record)
    ensures SameMeasures(r, s)
    ensures s.date.Some? && s.date.value - start == r.tps
  {
    r.(date := Some(start + r.tps))
  }

  /** `n` zero bytes, the filler of the reserved positions. */
  function Zeros(n: nat): (z: seq<byte>)
    ensures |z| == n && forall i :: 0 <= i < n ==> z[i] == 0
  {
    seq(n, _ => 0)
  }

  /** The zero-filled 20-byte coordinate block of a record: its four
      fields, then six bytes the decoder does not read, set to zero. */
  function EncodeCoord(r: Record): (b: seq<byte>)
    requires InRange(r)
    ensures |b| == CoordBlockSize
  {
    ToLittleEndian(r.lat, 4) + ToLittleEndian(r.lon, 4) + ToLittleEndian(r.dist, 4)
      + ToLittleEndian(r.tps, 2) + Zeros(6)
  }

  /** The zero-filled 10-byte telemetry block of a record: two unread bytes,
      its three fields, then three more unread bytes, all unread bytes zero. */
  function EncodeTelemetry(r: Record): (b: seq<byte>)
    requires InRange(r)
    ensures |b| == TelemetryBlockSize
  {
    Zeros(2) + ToLittleEndian(r.vit, 2) + ToLittleEndian(r.kCal, 2) + [r.hr] + Zeros(3)
  }

  /** Decoding the blocks a record is written as gives the record back:
      every field sits at the offset and width the decoder reads. */
  lemma DecodeEncodeRecord(r: Record)
    requires InRange(r) && r.date.None?
    ensures DecodeRecord(EncodeCoord(r), EncodeTelemetry(r)) == Success(r)
  {
    var c, k := EncodeCoord(r), EncodeTelemetry(r);
    assert c[0..4] == ToLittleEndian(r.lat, 4);
    assert c[4..8] == ToLittleEndian(r.lon, 4);
    assert c[8..12] == ToLittleEndian(r.dist, 4);
    assert c[12..14] == ToLittleEndian(r.tps, 2);
    assert k[2..4] == ToLittleEndian(r.vit, 2);
    assert k[4..6] == ToLittleEndian(r.kCal, 2);
    DecodeEncode(r.lat, 4);
    DecodeEncode(r.lon, 4);
    DecodeEncode(r.dist, 4);
    DecodeEncode(r.tps, 2);
    DecodeEncode(r.vit, 2);
    DecodeEncode(r.kCal, 2);
    DecodeRecordFields(c, k);
  }

  /** Decoding reads nothing outside the fields: whatever a writer puts in
      the six trailing bytes of the coordinate block and in the two leading
      and three trailing bytes of the telemetry block, the record comes back
      unchanged. */
  lemma DecodeIgnoresUnreadBytes(r: Record, res: seq<byte>, pre: seq<byte>, post: seq<byte>)
    requires InRange(r) && r.date.None?
    requires |res| == 6 && |pre| == 2 && |post| == 3
    ensures DecodeRecord(EncodeCoord(r)[..14] + res, pre + EncodeTelemetry(r)[2..7] + post) == Success(r)
  {
    var c0, k0 := EncodeCoord(r), EncodeTelemetry(r);
    var c, k := c0[..14] + res, pre + k0[2..7] + post;
    assert c[0..4] == c0[0..4] && c[4..8] == c0[4..8] && c[8..12] == c0[8..12] && c[12..14] == c0[12..14];
    assert k[2..4] == k0[2..4] && k[4..6] == k0[4..6] && k[6] == k0[6];
    DecodeEncodeRecord(r);
    DecodeRecordFields(c0, k0);
    DecodeRecordFields(c, k);
  }
}
