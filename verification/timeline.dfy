/** Timeline back-computation of `Records._file_to_records`: the device
    stores only elapsed seconds per record and one end-of-activity anchor, so
    the start is the anchor minus the last record's elapsed seconds and each
    record is dated at start plus its own elapsed seconds. Dates are whole
    seconds on an abstract epoch. */
module Timeline {
  import opened Bytes
  import opened Results
  import opened OmdRecord
  import opened OmdChunks

  /** A decoded activity (`Records`): the anchor `endDate` (the log file's
      modification time), the computed `startDate`, and the stamped records
      in file order. */
  datatype Track = Track(endDate: int, startDate: int, records: seq<Record>)

  /** `start_date = date - timedelta(seconds=records_list[-1].tps)`: the
      last record in file order is taken to end at the anchor. */
  function StartDate(records: seq<Record>, endDate: int): (s: int)
    requires |records| > 0
    ensures s + records[|records| - 1].tps == endDate
  {
    endDate - records[|records| - 1].tps
  }

  /** The `for rec in records_list: rec.set_date(start_date)` loop: every
      record dated from its own elapsed seconds, measurements untouched. */
  function StampAll(records: seq<Record>, start: int): (r: seq<Record>)
    ensures |r| == |records|
    ensures forall i :: 0 <= i < |r| ==>
              && SameMeasures(records[i], r[i])
              && r[i].date == Some(start + records[i].tps)
    decreases |records|
  {
    if |records| == 0 then []
    else [SetDate(records[0], start)] + StampAll(records[1..], start)
  }

  /** Every record of the track is dated `tps` seconds after its start. */
  predicate Stamped(t: Track)
  {
    forall i :: 0 <= i < |t.records| ==> t.records[i].date == Some(t.startDate + t.records[i].tps)
  }

  /** What follows the chunk loop in `_file_to_records`: with no record
      there is no last one (`records_list[-1]` raises), otherwise the start
      is computed from the last record and every record is stamped. */
  function AnchorTrack(recs: seq<Record>, endDate: int): (r: Result<Track, LogError>)
    ensures r.Success? <==> |recs| > 0
    ensures r.Failure? ==> r.error == NoRecords
    ensures r.Success? ==>
              && r.value.endDate == endDate
              && |r.value.records| == |recs|
              && Stamped(r.value)
              && r.value.records[|recs| - 1].date == Some(endDate)
              && forall i :: 0 <= i < |recs| ==> SameMeasures(recs[i], r.value.records[i])
  {
    if |recs| == 0 then Failure(NoRecords)
    else
      var start := StartDate(recs, endDate);
      Success(Track(endDate, start, StampAll(recs, start)))
  }

  /** The whole of `_file_to_records` for a log's bytes and the anchor
      seconds: decode every chunk, then fail on an empty log (there is no
      last record) or compute the start and stamp every record. */
  function BuildTrack(buf: seq<byte>, endDate: int): (r: Result<Track, LogError>)
    ensures r.Success? <==> |buf| > 0 && DecodableLength(|buf|)
    ensures |buf| == 0 ==> r == Failure(NoRecords)
    ensures |buf| > 0 && r.Failure? ==> r.error.TelemetryTooShort?
    ensures r.Success? ==>
              && r.value.endDate == endDate
              && |r.value.records| == RecordCount(|buf|)
              && Stamped(r.value)
              && r.value.records[|r.value.records| - 1].date == Some(endDate)
    ensures r.Success? ==>
              forall i :: 0 <= i < |r.value.records| ==>
                SameMeasures(DecodeLog(buf).value[i], r.value.records[i])
  {
    match DecodeLog(buf)
    case Failure(e) => Failure(e)
    case Success(recs) =>
      assert |recs| == 0 <==> |buf| == 0;
      AnchorTrack(recs, endDate)
  }

  /** Stamping is element-wise: stamping a concatenation stamps each part
      on its own, so the order in which records are stamped is irrelevant. */
  lemma {:induction false} StampAllConcat(a: seq<Record>, b: seq<Record>, start: int)
    ensures StampAll(a + b, start) == StampAll(a, start) + StampAll(b, start)
    decreases |a|
  {
    if |a| > 0 {
      assert (a + b)[1..] == a[1..] + b;
      StampAllConcat(a[1..], b, start);
    } else {
      assert a + b == b;
    }
  }

  /** Stamping again with another start only replaces the dates; in
      particular stamping twice with the same start changes nothing. */
  lemma {:induction false} RestampReplaces(records: seq<Record>, first: int, second: int)
    ensures StampAll(StampAll(records, first), second) == StampAll(records, second)
    decreases |records|
  {
    if |records| > 0 {
      var once := StampAll(records, first);
      assert once[1..] == StampAll(records[1..], first);
      RestampReplaces(records[1..], first, second);
    }
  }

  /** Every record's date, minus its elapsed seconds, is the same start:
      the date depends on the record's own offset and nothing else. */
  lemma StartRecoverableFromAnyRecord(buf: seq<byte>, endDate: int, i: nat)
    requires BuildTrack(buf, endDate).Success?
    requires i < |BuildTrack(buf, endDate).value.records|
    ensures var t := BuildTrack(buf, endDate).value;
            t.records[i].date.value - t.records[i].tps == t.startDate
                                                      == endDate - t.records[|t.records| - 1].tps
  {
  }

  /** Records in non-decreasing elapsed order. */
  predicate ElapsedOrdered(records: seq<Record>)
  {
    forall i, j :: 0 <= i <= j < |records| ==> records[i].tps <= records[j].tps
  }

  /** When the device's elapsed seconds never decrease, the stamped dates
      never decrease either and all lie between the start and the anchor. */
  lemma DatesWithinActivity(buf: seq<byte>, endDate: int)
    requires BuildTrack(buf, endDate).Success?
    requires ElapsedOrdered(DecodeLog(buf).value)
    ensures var t := BuildTrack(buf, endDate).value;
            && (forall i, j :: 0 <= i <= j < |t.records| ==> t.records[i].date.value <= t.records[j].date.value)
            && (forall i :: 0 <= i < |t.records| ==> t.startDate <= t.records[i].date.value <= t.endDate)
  {
    var t := BuildTrack(buf, endDate).value;
    var recs := DecodeLog(buf).value;
    forall i, j | 0 <= i <= j < |t.records|
      ensures t.records[i].date.value <= t.records[j].date.value
    {
      assert SameMeasures(recs[i], t.records[i]) && SameMeasures(recs[j], t.records[j]);
      assert recs[i].tps <= recs[j].tps;
    }
    forall i | 0 <= i < |t.records|
      ensures t.startDate <= t.records[i].date.value <= t.endDate
    {
      var last := |t.records| - 1;
      assert SameMeasures(recs[i], t.records[i]) && SameMeasures(recs[last], t.records[last]);
      assert recs[i].tps <= recs[last].tps;
    }
  }

  /** End to end: the zero-filled encoding of a non-empty run of undated
      records loads as exactly those records, the start placed so that
      the last one falls on the anchor, each stamped from that start. */
  lemma WrittenLogLoads(recs: seq<Record>, endDate: int)
    requires |recs| > 0
    requires forall i :: 0 <= i < |recs| ==> InRange(recs[i]) && recs[i].date.None?
    ensures BuildTrack(EncodeLog(recs), endDate)
            == Success(Track(endDate, endDate - recs[|recs| - 1].tps, StampAll(recs, endDate - recs[|recs| - 1].tps)))
  {
    DecodeEncodeLog(recs);
    LoadsDecoded(EncodeLog(recs), recs, endDate);
    var start := endDate - recs[|recs| - 1].tps;
    assert StartDate(recs, endDate) == start;
    assert AnchorTrack(recs, endDate) == Success(Track(endDate, start, StampAll(recs, start)));
  }

  /** Once the chunk loop has produced a non-empty list, loading is the
      anchoring of that list. */
  lemma LoadsDecoded(buf: seq<byte>, recs: seq<Record>, endDate: int)
    requires DecodeLog(buf) == Success(recs) && |recs| > 0
    ensures BuildTrack(buf, endDate) == AnchorTrack(recs, endDate)
  {
  }

  /** A log of one 60-byte chunk whose records are 0 and 10 seconds into
      the activity is dated 10 seconds before the anchor and at the anchor. */
  lemma TwoRecordLog(a: Record, b: Record, endDate: int)
    requires InRange(a) && InRange(b) && a.date.None? && b.date.None?
    requires a.tps == 0 && b.tps == 10
    ensures var t := BuildTrack(EncodeLog([a, b]), endDate);
            && t.Success?
            && t.value.startDate == endDate - 10
            && t.value.records == [a.(date := Some(endDate - 10)), b.(date := Some(endDate))]
  {
    WrittenLogLoads([a, b], endDate);
    var stamped := StampAll([a, b], endDate - 10);
    assert stamped[0] == a.(date := Some(endDate - 10));
    assert stamped[1] == b.(date := Some(endDate));
  }

  /** The chunk loop of `_file_to_records` as the program runs it: read up
      to 60 bytes at a time, decode the chunk, append its records; the first
      chunk that fails ends the loop with its error. */
  method ReadRecords(buf: seq<byte>) returns (r: Result<seq<Record>, LogError>)
    ensures r == DecodeLog(buf)
  {
    var recs: seq<Record> := [];
    var pos := 0;
    assert buf[0..] == buf;
    if DecodeLog(buf).Success? {
      assert [] + DecodeLog(buf).value == DecodeLog(buf).value;
    }
    while pos < |buf|
      invariant 0 <= pos <= |buf|
      invariant DecodeLog(buf) == Prepend(recs, DecodeLog(buf[pos..]))
      decreases |buf| - pos
    {
      var rest := buf[pos..];
      DecodeLogStep(rest);
      if |rest| >= ChunkSize {
        var decoded := DecodeChunk(rest[..ChunkSize]);
        assert rest[ChunkSize..] == buf[pos + ChunkSize..];
        PrependTwice(recs, decoded.value, DecodeLog(buf[pos + ChunkSize..]));
        recs := recs + decoded.value;
        pos := pos + ChunkSize;
      } else {
        // the final read returns the whole remainder
        var decoded := DecodeChunk(rest);
        if decoded.Failure? {
          return Failure(decoded.error);
        }
        recs := recs + decoded.value;
        assert buf[|buf|..] == [];
        assert recs + [] == recs;
        pos := |buf|;
      }
    }
    assert buf[pos..] == [];
    assert recs + [] == recs;
    return Success(recs);
  }

  /** The stamping loop of `_file_to_records`, record by record. */
  method StampRecords(recs: seq<Record>, start: int) returns (stamped: seq<Record>)
    ensures stamped == StampAll(recs, start)
  {
    stamped := [];
    var i := 0;
    while i < |recs|
      invariant 0 <= i <= |recs|
      invariant |stamped| == i
      invariant forall j :: 0 <= j < i ==> stamped[j] == SetDate(recs[j], start)
    {
      stamped := stamped + [SetDate(recs[i], start)];
      i := i + 1;
    }
  }

  /** `_file_to_records` as the program runs it: the chunk loop, the start
      from the last record (an error when there is none), then the stamping
      loop. */
  method LoadTrack(buf: seq<byte>, endDate: int) returns (r: Result<Track, LogError>)
    ensures r == BuildTrack(buf, endDate)
  {
    var decoded := ReadRecords(buf);
    if decoded.Failure? {
      return Failure(decoded.error);
    }
    var recs := decoded.value;
    if |recs| == 0 {
      return Failure(NoRecords);
    }
    var start := endDate - recs[|recs| - 1].tps;
    var stamped := StampRecords(recs, start);
    return Success(Track(endDate, start, stamped));
  }
}
