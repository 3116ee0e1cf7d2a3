/** The chunk loop of `Records._file_to_records`: the log is read 60 bytes at
    a time; a full chunk holds two interleaved records and a shorter final
    chunk holds one. The log is described in two layers: which byte ranges
    form each record's pair of blocks (pure slicing), and the decoding of
    those pairs in file order. */
module OmdChunks {
  import opened Bytes
  import opened Results
  import opened OmdRecord

  /** Bytes requested per read of the log. */
  const ChunkSize: nat := 60
  /** The shortest final chunk whose telemetry block, which starts at byte
      20, still reaches the heart-rate byte. */
  const MinFinalChunk: nat := CoordBlockSize + HeartRateIndex + 1

  /** A buffer length the chunk loop decodes without error: after the full
      chunks, any trailing partial chunk must reach the heart-rate byte of
      its one record. */
  predicate DecodableLength(n: nat)
  {
    if n < ChunkSize then n == 0 || n >= MinFinalChunk
    else DecodableLength(n - ChunkSize)
  }

  /** Records the chunk loop yields from n bytes: two per full chunk, one
      for a trailing partial chunk. */
  function RecordCount(n: nat): nat
  {
    if n == 0 then 0
    else if n < ChunkSize then 1
    else 2 + RecordCount(n - ChunkSize)
  }

  /** The smaller of two offsets, as a slice end clamped to the buffer. */
  function Min(a: int, b: int): int
  {
    if a <= b then a else b
  }

  /** Closed forms: n bytes decode exactly when n mod 60 is 0 or at least
      MinFinalChunk, and give 2·⌊n/60⌋ records plus one for a remainder. */
  lemma {:induction false} ChunkCountClosedForm(n: nat)
    ensures DecodableLength(n) <==> n % 60 == 0 || n % 60 >= MinFinalChunk
    ensures RecordCount(n) == 2 * (n / 60) + (if n % 60 != 0 then 1 else 0)
    decreases n
  {
    if n >= ChunkSize {
      ChunkCountClosedForm(n - ChunkSize);
      assert n / 60 == (n - ChunkSize) / 60 + 1;
      assert n % 60 == (n - ChunkSize) % 60;
    }
  }

  /** The two blocks one record is read from: `coord` (position, distance,
      elapsed time) and `kpi` (speed, calories, heart rate). */
  datatype BlockPair = BlockPair(coord: seq<byte>, kpi: seq<byte>)

  /** The telemetry block reaches the heart-rate byte. */
  predicate Decodable(p: BlockPair)
  {
    |p.kpi| > HeartRateIndex
  }

  predicate AllDecodable(pairs: seq<BlockPair>)
  {
    forall i :: 0 <= i < |pairs| ==> Decodable(pairs[i])
  }

  /** The block pairs of one chunk as `read(60)` returns it: a full chunk
      holds both coordinate blocks, then both telemetry blocks; a shorter
      one holds one of each, sliced with clamping. */
  function ChunkBlocks(chunk: seq<byte>): (r: seq<BlockPair>)
    requires 0 < |chunk| <= ChunkSize
    ensures |r| == (if |chunk| == ChunkSize then 2 else 1)
  {
    if |chunk| == ChunkSize then
      [BlockPair(chunk[0..20], chunk[40..50]), BlockPair(chunk[20..40], chunk[50..60])]
    else
      [BlockPair(Slice(chunk, 0, 20), Slice(chunk, 20, 30))]
  }

  /** The block pairs of a whole log, chunk after chunk, in file order. */
  function LogBlocks(buf: seq<byte>): (r: seq<BlockPair>)
    ensures |r| == RecordCount(|buf|)
    decreases |buf|
  {
    if |buf| == 0 then []
    else if |buf| < ChunkSize then ChunkBlocks(buf)  // the final read returns the whole remainder
    else ChunkBlocks(buf[..ChunkSize]) + LogBlocks(buf[ChunkSize..])
  }

  /** Records already decoded, followed by the outcome of decoding the
      rest: an error in the rest discards them, as the raised exception does. */
  function Prepend(done: seq<Record>, rest: Result<seq<Record>, LogError>): Result<seq<Record>, LogError>
  {
    match rest
    case Success(recs) => Success(done + recs)
    case Failure(e) => Failure(e)
  }

  /** Prepending in two steps is prepending the concatenation. */
  lemma PrependTwice(a: seq<Record>, b: seq<Record>, rest: Result<seq<Record>, LogError>)
    ensures Prepend(a, Prepend(b, rest)) == Prepend(a + b, rest)
  {
    if rest.Success? {
      assert a + (b + rest.value) == (a + b) + rest.value;
    }
  }

  /** `Record(coord, kpi)` for each pair in order; the first pair whose
      telemetry block lacks the heart-rate byte raises, and nothing decoded
      survives. */
  function DecodeBlocks(pairs: seq<BlockPair>): (r: Result<seq<Record>, LogError>)
    ensures r.Success? <==> AllDecodable(pairs)
    ensures r.Success? ==>
              && |r.value| == |pairs|
              && forall i :: 0 <= i < |pairs| ==> r.value[i] == DecodeRecord(pairs[i].coord, pairs[i].kpi).value
    ensures r.Failure? ==> r.error.TelemetryTooShort?
    decreases |pairs|
  {
    if |pairs| == 0 then Success([])
    else
      match DecodeRecord(pairs[0].coord, pairs[0].kpi)
      case Failure(e) => Failure(e)
      case Success(rec) =>
        assert forall i :: 1 <= i < |pairs| ==> pairs[1..][i - 1] == pairs[i];
        Prepend([rec], DecodeBlocks(pairs[1..]))
  }

  /** Decoding a concatenation whose first part decodes is decoding the
      second part after the first. */
  lemma {:induction false} DecodeBlocksConcat(a: seq<BlockPair>, b: seq<BlockPair>)
    requires AllDecodable(a)
    ensures DecodeBlocks(a + b) == Prepend(DecodeBlocks(a).value, DecodeBlocks(b))
    decreases |a|
  {
    if |a| == 0 {
      assert a + b == b;
      if DecodeBlocks(b).Success? {
        assert [] + DecodeBlocks(b).value == DecodeBlocks(b).value;
      }
    } else {
      assert (a + b)[0] == a[0];
      assert (a + b)[1..] == a[1..] + b;
      assert Decodable(a[0]);
      var rec := DecodeRecord(a[0].coord, a[0].kpi).value;
      assert AllDecodable(a[1..]) by {
        assert forall i :: 0 <= i < |a[1..]| ==> a[1..][i] == a[i + 1];
      }
      DecodeBlocksConcat(a[1..], b);
      assert DecodeBlocks(a).value == [rec] + DecodeBlocks(a[1..]).value;
      PrependTwice([rec], DecodeBlocks(a[1..]).value, DecodeBlocks(b));
    }
  }

  /** One pass of the loop body on a chunk as `read(60)` returns it. */
  function DecodeChunk(chunk: seq<byte>): (r: Result<seq<Record>, LogError>)
    requires 0 < |chunk| <= ChunkSize
    ensures r.Success? <==> |chunk| == ChunkSize || |chunk| >= MinFinalChunk
    ensures |chunk| == ChunkSize ==>
              r == Success([DecodeRecord(chunk[0..20], chunk[40..50]).value,
                            DecodeRecord(chunk[20..40], chunk[50..60]).value])
    ensures |chunk| < ChunkSize && r.Success? ==>
              r.value == [DecodeRecord(chunk[0..20], chunk[20..Min(30, |chunk|)]).value]
    ensures r.Failure? ==> r.error == TelemetryTooShort(if |chunk| < 20 then 0 else |chunk| - 20)
  {
    var pairs := ChunkBlocks(chunk);
    SliceInBounds(chunk, 0, Min(20, |chunk|));
    SliceInBounds(chunk, Min(20, |chunk|), Min(30, |chunk|));
    var r := DecodeBlocks(pairs);
    assert |chunk| == ChunkSize ==> AllDecodable(pairs) && r.value == [r.value[0], r.value[1]];
    r
  }

  /** Every pair of a log reaches its heart-rate byte exactly when the
      length is decodable: full chunks always do, a trailing partial chunk
      only from MinFinalChunk bytes on. */
  lemma {:induction false} LogBlocksDecodable(buf: seq<byte>)
    ensures AllDecodable(LogBlocks(buf)) <==> DecodableLength(|buf|)
    decreases |buf|
  {
    if |buf| >= ChunkSize {
      var head, tail := ChunkBlocks(buf[..ChunkSize]), LogBlocks(buf[ChunkSize..]);
      LogBlocksDecodable(buf[ChunkSize..]);
      var all := head + tail;
      assert AllDecodable(head);
      if AllDecodable(tail) {
        forall i | 0 <= i < |all|
          ensures Decodable(all[i])
        {
          if i >= |head| {
            assert all[i] == tail[i - |head|];
          }
        }
      } else {
        var j :| 0 <= j < |tail| && !Decodable(tail[j]);
        assert all[j + |head|] == tail[j];
      }
    } else if |buf| > 0 {
      var pairs := LogBlocks(buf);
      assert pairs == ChunkBlocks(buf);
      assert AllDecodable(pairs) <==> Decodable(pairs[0]);
    }
  }

  /** The records of a whole log, in file order, or the error the loop
      raises on a final chunk too short for its heart-rate byte. */
  function DecodeLog(buf: seq<byte>): (r: Result<seq<Record>, LogError>)
    ensures r.Success? <==> DecodableLength(|buf|)
    ensures r.Success? ==> |r.value| == RecordCount(|buf|)
    ensures r.Failure? ==> r.error.TelemetryTooShort?
    decreases |buf|
  {
    if |buf| == 0 then Success([])
    else if |buf| < ChunkSize then DecodeChunk(buf)  // the final read returns the whole remainder
    else Prepend(DecodeChunk(buf[..ChunkSize]).value, DecodeLog(buf[ChunkSize..]))
  }

  /** The chunk loop decodes exactly the log's block pairs, one record per
      pair, in file order. */
  lemma {:induction false} DecodeLogIsBlockwise(buf: seq<byte>)
    ensures DecodeLog(buf) == DecodeBlocks(LogBlocks(buf))
    decreases |buf|
  {
    if |buf| >= ChunkSize {
      var head := ChunkBlocks(buf[..ChunkSize]);
      assert AllDecodable(head);
      DecodeBlocksConcat(head, LogBlocks(buf[ChunkSize..]));
      DecodeLogIsBlockwise(buf[ChunkSize..]);
    }
  }

  /** Every record of a decoded log has its fields within their stored
      widths and no date yet. */
  lemma DecodedRecordsUndated(buf: seq<byte>)
    requires DecodeLog(buf).Success?
    ensures forall i :: 0 <= i < |DecodeLog(buf).value| ==>
              InRange(DecodeLog(buf).value[i]) && DecodeLog(buf).value[i].date.None?
  {
    DecodeLogIsBlockwise(buf);
    var pairs := LogBlocks(buf);
    forall i | 0 <= i < |pairs|
      ensures Decodable(pairs[i])
    {
    }
  }

  /** One turn of the loop: a read shorter than 60 bytes is the last one;
      a full read always decodes and its two records precede the rest. */
  lemma DecodeLogStep(buf: seq<byte>)
    requires |buf| > 0
    ensures |buf| < ChunkSize ==> DecodeLog(buf) == DecodeChunk(buf)
    ensures |buf| >= ChunkSize ==>
              && DecodeChunk(buf[..ChunkSize]).Success?
              && DecodeLog(buf) == Prepend(DecodeChunk(buf[..ChunkSize]).value, DecodeLog(buf[ChunkSize..]))
  {
  }

  /** Past the first chunk, a log's pairs are those of the rest of it. */
  lemma LogBlocksShift(buf: seq<byte>, i: nat)
    requires |buf| >= ChunkSize && i < |LogBlocks(buf[ChunkSize..])|
    ensures LogBlocks(buf)[i + 2] == LogBlocks(buf[ChunkSize..])[i]
  {
    var head, tail := ChunkBlocks(buf[..ChunkSize]), LogBlocks(buf[ChunkSize..]);
    assert LogBlocks(buf) == head + tail;
  }

  /** Full chunk k holds the blocks of records 2k and 2k+1: coordinates at
      [60k,60k+20) and [60k+20,60k+40), telemetry at [60k+40,60k+50) and
      [60k+50,60k+60). */
  lemma {:induction false} FullChunkBlocks(buf: seq<byte>, k: nat)
    requires 60 * k + 60 <= |buf|
    ensures 2 * k + 1 < |LogBlocks(buf)|
    ensures LogBlocks(buf)[2 * k] == BlockPair(buf[60 * k..60 * k + 20], buf[60 * k + 40..60 * k + 50])
    ensures LogBlocks(buf)[2 * k + 1] == BlockPair(buf[60 * k + 20..60 * k + 40], buf[60 * k + 50..60 * k + 60])
    decreases k
  {
    if k == 0 {
      var chunk := buf[..ChunkSize];
      assert LogBlocks(buf) == ChunkBlocks(chunk) + LogBlocks(buf[ChunkSize..]);
      assert chunk[0..20] == buf[0..20] && chunk[20..40] == buf[20..40];
      assert chunk[40..50] == buf[40..50] && chunk[50..60] == buf[50..60];
    } else {
      var rest := buf[ChunkSize..];
      var j := 60 * (k - 1);
      FullChunkBlocks(rest, k - 1);
      LogBlocksShift(buf, 2 * (k - 1));
      LogBlocksShift(buf, 2 * (k - 1) + 1);
      SuffixSlice(buf, ChunkSize, j, j + 20);
      SuffixSlice(buf, ChunkSize, j + 20, j + 40);
      SuffixSlice(buf, ChunkSize, j + 40, j + 50);
      SuffixSlice(buf, ChunkSize, j + 50, j + 60);
    }
  }

  /** When the buffer ends inside chunk k, that partial chunk holds the last
      record's blocks: coordinates from 60k and telemetry from 60k+20, each
      clamped to what the buffer holds. */
  lemma {:induction false} FinalChunkBlocks(buf: seq<byte>, k: nat)
    requires 60 * k < |buf| < 60 * k + 60
    ensures |LogBlocks(buf)| > 0
    ensures LogBlocks(buf)[|LogBlocks(buf)| - 1]
            == BlockPair(Slice(buf, 60 * k, 60 * k + 20), Slice(buf, 60 * k + 20, 60 * k + 30))
    decreases k
  {
    if k == 0 {
      assert LogBlocks(buf) == ChunkBlocks(buf);
    } else {
      var rest := buf[ChunkSize..];
      var head, tail := ChunkBlocks(buf[..ChunkSize]), LogBlocks(rest);
      assert LogBlocks(buf) == head + tail;
      FinalChunkBlocks(rest, k - 1);
      assert (head + tail)[|head + tail| - 1] == tail[|tail| - 1];
      SliceOfSuffix(buf, ChunkSize, 60 * (k - 1), 60 * (k - 1) + 20);
      SliceOfSuffix(buf, ChunkSize, 60 * (k - 1) + 20, 60 * (k - 1) + 30);
    }
  }

  /** Full chunk k gives records 2k and 2k+1: the first from its bytes
      [0,20) with [40,50), the second from [20,40) with [50,60). */
  lemma FullChunkRecords(buf: seq<byte>, k: nat)
    requires DecodeLog(buf).Success?
    requires 60 * k + 60 <= |buf|
    ensures 2 * k + 1 < |DecodeLog(buf).value|
    ensures DecodeLog(buf).value[2 * k]
            == DecodeRecord(buf[60 * k..60 * k + 20], buf[60 * k + 40..60 * k + 50]).value
    ensures DecodeLog(buf).value[2 * k + 1]
            == DecodeRecord(buf[60 * k + 20..60 * k + 40], buf[60 * k + 50..60 * k + 60]).value
  {
    DecodeLogIsBlockwise(buf);
    FullChunkBlocks(buf, k);
  }

  /** When the buffer ends inside chunk k, that chunk is at least
      MinFinalChunk bytes long and gives the last record, from its bytes
      [0,20) with whatever of [20,30) the buffer holds. */
  lemma FinalChunkRecord(buf: seq<byte>, k: nat)
    requires DecodeLog(buf).Success?
    requires 60 * k < |buf| < 60 * k + 60
    ensures 60 * k + MinFinalChunk <= |buf|
    ensures |DecodeLog(buf).value| > 0
    ensures DecodeLog(buf).value[|DecodeLog(buf).value| - 1]
            == DecodeRecord(buf[60 * k..60 * k + 20], buf[60 * k + 20..Min(60 * k + 30, |buf|)]).value
  {
    DecodeLogIsBlockwise(buf);
    FinalChunkBlocks(buf, k);
    var pairs := LogBlocks(buf);
    assert Decodable(pairs[|pairs| - 1]);
    SliceInBounds(buf, 60 * k, 60 * k + 20);
    SliceInBounds(buf, 60 * k + 20, Min(60 * k + 30, |buf|));
  }

  /** The zero-filled encoding of a sequence of records: each pair as one
      60-byte chunk (both coordinate blocks, then both telemetry blocks), and
      an unpaired last record as a 40-byte chunk padded with zeros; every
      byte the decoder does not read is zero. */
  function EncodeLog(recs: seq<Record>): (b: seq<byte>)
    requires forall i :: 0 <= i < |recs| ==> InRange(recs[i])
    ensures |b| == 60 * (|recs| / 2) + 40 * (|recs| % 2)
    decreases |recs|
  {
    if |recs| == 0 then []
    else if |recs| == 1 then EncodeCoord(recs[0]) + EncodeTelemetry(recs[0]) + Zeros(10)
    else
      assert (|recs| - 2) / 2 == |recs| / 2 - 1 && (|recs| - 2) % 2 == |recs| % 2;
      EncodeCoord(recs[0]) + EncodeCoord(recs[1])
        + EncodeTelemetry(recs[0]) + EncodeTelemetry(recs[1])
        + EncodeLog(recs[2..])
  }

  /** A full chunk in front of a log contributes its two pairs first. */
  lemma LogBlocksAfterChunk(chunk: seq<byte>, rest: seq<byte>)
    requires |chunk| == ChunkSize
    ensures LogBlocks(chunk + rest) == ChunkBlocks(chunk) + LogBlocks(rest)
  {
    assert (chunk + rest)[..ChunkSize] == chunk;
    assert (chunk + rest)[ChunkSize..] == rest;
  }

  /** The chunk written for two records holds their blocks in order. */
  lemma EncodePairBlocks(a: Record, b: Record)
    requires InRange(a) && InRange(b)
    ensures ChunkBlocks(EncodeCoord(a) + EncodeCoord(b) + EncodeTelemetry(a) + EncodeTelemetry(b))
            == [BlockPair(EncodeCoord(a), EncodeTelemetry(a)), BlockPair(EncodeCoord(b), EncodeTelemetry(b))]
  {
    var chunk := EncodeCoord(a) + EncodeCoord(b) + EncodeTelemetry(a) + EncodeTelemetry(b);
    assert chunk[0..20] == EncodeCoord(a);
    assert chunk[20..40] == EncodeCoord(b);
    assert chunk[40..50] == EncodeTelemetry(a);
    assert chunk[50..60] == EncodeTelemetry(b);
  }

  /** The padded 40-byte final chunk written for one record holds its
      blocks. */
  lemma EncodeFinalBlocks(r: Record)
    requires InRange(r)
    ensures LogBlocks(EncodeCoord(r) + EncodeTelemetry(r) + Zeros(10))
            == [BlockPair(EncodeCoord(r), EncodeTelemetry(r))]
  {
    var buf := EncodeCoord(r) + EncodeTelemetry(r) + Zeros(10);
    SliceInBounds(buf, 0, 20);
    SliceInBounds(buf, 20, 30);
    assert buf[0..20] == EncodeCoord(r);
    assert buf[20..30] == EncodeTelemetry(r);
    assert LogBlocks(buf) == ChunkBlocks(buf);
  }

  /** A written log is read back as one block pair per record, in order,
      each holding exactly the blocks that record was written as. */
  lemma {:induction false} EncodeLogBlocks(recs: seq<Record>)
    requires forall i :: 0 <= i < |recs| ==> InRange(recs[i])
    ensures |LogBlocks(EncodeLog(recs))| == |recs|
    ensures forall i :: 0 <= i < |recs| ==>
              LogBlocks(EncodeLog(recs))[i] == BlockPair(EncodeCoord(recs[i]), EncodeTelemetry(recs[i]))
    decreases |recs|
  {
    if |recs| == 1 {
      EncodeFinalBlocks(recs[0]);
    } else if |recs| >= 2 {
      var a, b, tail := recs[0], recs[1], recs[2..];
      var chunk := EncodeCoord(a) + EncodeCoord(b) + EncodeTelemetry(a) + EncodeTelemetry(b);
      assert EncodeLog(recs) == chunk + EncodeLog(tail);
      LogBlocksAfterChunk(chunk, EncodeLog(tail));
      EncodePairBlocks(a, b);
      EncodeLogBlocks(tail);
      var pairs := LogBlocks(EncodeLog(recs));
      forall i | 2 <= i < |recs|
        ensures pairs[i] == BlockPair(EncodeCoord(recs[i]), EncodeTelemetry(recs[i]))
      {
        assert pairs[i] == LogBlocks(EncodeLog(tail))[i - 2];
        assert tail[i - 2] == recs[i];
      }
    }
  }

  /** The zero-filled encoding of a log decodes back to the records it was
      written from, in the same order. */
  lemma DecodeEncodeLog(recs: seq<Record>)
    requires forall i :: 0 <= i < |recs| ==> InRange(recs[i]) && recs[i].date.None?
    ensures DecodeLog(EncodeLog(recs)) == Success(recs)
  {
    var pairs := LogBlocks(EncodeLog(recs));
    DecodeLogIsBlockwise(EncodeLog(recs));
    EncodeLogBlocks(recs);
    forall i | 0 <= i < |recs|
      ensures Decodable(pairs[i])
      ensures DecodeRecord(pairs[i].coord, pairs[i].kpi) == Success(recs[i])
    {
      DecodeEncodeRecord(recs[i]);
    }
    assert DecodeBlocks(pairs).value == recs;
  }
}
