/**
 * The row-building loop of `save_results`: one six-column row per matched
 * record, in order, after the fixed header row `Header`.  A row is the
 * list of values handed to `writer.writerow`; `RowCells` is the text the
 * CSV writer makes of it, `str` of every value.
 */
module Report {
  import opened Wrappers
  import opened Errors
  import opened PyText
  import opened Records
  import opened Labels
  import opened Timestamps

  const Header: seq<string> := ["FID", "Label Value", "Label Description", "Status", "Timestamp", "Date Time (UTC)"]

  /** The values of one output row, in column order. */
  datatype Row = Row(fid: FidValue, labelValue: int, labelDescription: string, status: string,
                     timestamp: int, dateTimeUtc: string)

  /** The cells `csv.writer.writerow` writes for a row: `str` of each value. */
  function RowCells(row: Row): (cells: seq<string>)
    ensures |cells| == |Header|
  {
    [FidText(row.fid), IntToDecimal(row.labelValue), row.labelDescription, row.status,
     IntToDecimal(row.timestamp), row.dateTimeUtc]
  }

  /**
   * One pass of the loop body: read `type.fid`, `label_value` and
   * `timestamp` (a missing key raises KeyError, in that order), derive the
   * description, status and UTC text.
   */
  function BuildRow(record: SpamRecord): (r: Result<Row, Failure>)
    ensures r.Ok? ==> record.labelValue == Some(r.value.labelValue) && record.timestamp == Some(r.value.timestamp)
    ensures r.Err? ==> r.error.MissingKey? || (record.timestamp.Some? && r.error == TimestampOutOfRange(record.timestamp.value))
  {
    if record.typ.None? then Err(MissingKey("type"))
    else if record.typ.value.fid.None? then Err(MissingKey("fid"))
    else if record.labelValue.None? then Err(MissingKey("label_value"))
    else if record.timestamp.None? then Err(MissingKey("timestamp"))
    else
      var labelValue := record.labelValue.value;
      var timestamp := record.timestamp.value;
      match ConvertTimestamp(timestamp)
      case Err(e) => Err(e)
      case Ok(text) =>
        Ok(Row(record.typ.value.fid.value, labelValue, LabelDescription(labelValue), Status(labelValue), timestamp, text))
  }

  /**
   * A row is written exactly when the record has all three keys and a
   * timestamp `datetime` can represent; it then copies the FID, label value
   * and timestamp unchanged, and its other cells are determined by them.
   */
  lemma BuildRowSpec(record: SpamRecord)
    ensures BuildRow(record).Ok? <==>
              && record.typ.Some? && record.typ.value.fid.Some? && record.labelValue.Some?
              && record.timestamp.Some? && MinTimestamp <= record.timestamp.value <= MaxTimestamp
    ensures BuildRow(record).Ok? ==>
              var row := BuildRow(record).value;
              && row.fid == record.typ.value.fid.value
              && row.labelValue == record.labelValue.value
              && row.timestamp == record.timestamp.value
              && row.labelDescription == LabelDescription(row.labelValue)
              && row.status == Status(row.labelValue)
              && ConvertTimestamp(row.timestamp) == Ok(row.dateTimeUtc)
  {
    if record.timestamp.Some? {
      ConvertTimestampDomain(record.timestamp.value);
    }
  }

  /** Records are reported missing keys in the order the loop body reads them. */
  lemma BuildRowFirstMissingKey(record: SpamRecord)
    ensures record.typ.None? ==> BuildRow(record) == Err(MissingKey("type"))
    ensures record.typ.Some? && record.typ.value.fid.None? ==> BuildRow(record) == Err(MissingKey("fid"))
    ensures record.typ.Some? && record.typ.value.fid.Some? && record.labelValue.None? ==>
              BuildRow(record) == Err(MissingKey("label_value"))
    ensures record.typ.Some? && record.typ.value.fid.Some? && record.labelValue.Some? && record.timestamp.None? ==>
              BuildRow(record) == Err(MissingKey("timestamp"))
  {
  }

  /**
   * Reading a written row back recovers the FID text, the label value and
   * the timestamp; the description names the label value, the status is OK
   * exactly for level 2, and the date text denotes the timestamp.
   */
  lemma RowCellsRoundTrip(record: SpamRecord)
    requires BuildRow(record).Ok?
    ensures var cells := RowCells(BuildRow(record).value);
            && cells[0] == FidText(record.typ.value.fid.value)
            && IsDecimalText(cells[1]) && DecimalToInt(cells[1]) == record.labelValue.value
            && DescribedLevel(cells[2]) == Some(record.labelValue.value)
            && (cells[3] == "OK" <==> record.labelValue.value == 2)
            && IsDecimalText(cells[4]) && DecimalToInt(cells[4]) == record.timestamp.value
            && ParseUtc(cells[5]).Some? && ValidDateTime(ParseUtc(cells[5]).value)
            && EpochSeconds(ParseUtc(cells[5]).value) == record.timestamp.value
  {
    BuildRowSpec(record);
    DerivedCellsRoundTrip(BuildRow(record).value);
  }

  /** The cells of a row whose derived fields agree with its label value and timestamp. */
  lemma DerivedCellsRoundTrip(row: Row)
    requires row.labelDescription == LabelDescription(row.labelValue)
    requires row.status == Status(row.labelValue)
    requires ConvertTimestamp(row.timestamp) == Ok(row.dateTimeUtc)
    ensures var cells := RowCells(row);
            && DescribedLevel(cells[2]) == Some(row.labelValue)
            && (cells[3] == "OK" <==> row.labelValue == 2)
            && ParseUtc(cells[5]).Some? && ValidDateTime(ParseUtc(cells[5]).value)
            && EpochSeconds(ParseUtc(cells[5]).value) == row.timestamp
  {
    var cells := RowCells(row);
    assert cells[2] == row.labelDescription && cells[3] == row.status && cells[5] == row.dateTimeUtc;
    DescriptionRoundTrip(row.labelValue);
    ConvertedTextRoundTrip(row.timestamp, row.dateTimeUtc);
  }

  /** What the loop leaves behind: the rows written after the header and, if it stopped early, why. */
  datatype Written = Written(rows: seq<Row>, failure: Option<Failure>)

  /**
   * The rows `save_results` writes after the header: one per record, in
   * order, up to the first record whose row cannot be built, where it stops.
   */
  function WriteRows(records: seq<SpamRecord>): (w: Written)
    ensures |w.rows| <= |records|
    ensures w.failure.None? <==> |w.rows| == |records|
  {
    if records == [] then Written([], None)
    else
      match BuildRow(records[0])
      case Err(e) => Written([], Some(e))
      case Ok(row) =>
        var rest := WriteRows(records[1..]);
        Written([row] + rest.rows, rest.failure)
  }

  /** One step of `WriteRows` taken at position `i`. */
  lemma WriteRowsFrom(records: seq<SpamRecord>, i: nat)
    requires i < |records|
    ensures WriteRows(records[i..]) ==
              match BuildRow(records[i])
              case Err(e) => Written([], Some(e))
              case Ok(row) => Written([row] + WriteRows(records[i + 1..]).rows, WriteRows(records[i + 1..]).failure)
  {
    assert records[i..][0] == records[i] && records[i..][1..] == records[i + 1..];
  }

  /** `rows` are the rows of the records before `i`; the rest are still to come. */
  ghost predicate WrittenUpTo(records: seq<SpamRecord>, i: nat, rows: seq<Row>)
    requires i <= |records|
  {
    WriteRows(records) == Written(rows + WriteRows(records[i..]).rows, WriteRows(records[i..]).failure)
  }

  lemma WrittenUpToStart(records: seq<SpamRecord>)
    ensures WrittenUpTo(records, 0, [])
  {
    assert records[0..] == records;
  }

  lemma WrittenUpToNext(records: seq<SpamRecord>, i: nat, rows: seq<Row>, row: Row)
    requires i < |records| && WrittenUpTo(records, i, rows) && BuildRow(records[i]) == Ok(row)
    ensures WrittenUpTo(records, i + 1, rows + [row])
  {
    WriteRowsFrom(records, i);
  }

  lemma WrittenUpToStop(records: seq<SpamRecord>, i: nat, rows: seq<Row>, e: Failure)
    requires i < |records| && WrittenUpTo(records, i, rows) && BuildRow(records[i]) == Err(e)
    ensures WriteRows(records) == Written(rows, Some(e))
  {
    WriteRowsFrom(records, i);
    assert rows + [] == rows;
  }

  lemma WrittenUpToEnd(records: seq<SpamRecord>, rows: seq<Row>)
    requires WrittenUpTo(records, |records|, rows)
    ensures WriteRows(records) == Written(rows, None)
  {
    assert records[|records|..] == [];
    assert rows + [] == rows;
  }

  /**
   * Row `k` of the output is the row of record `k`, every record before the
   * stopping point has all its keys, and the stopping record is the one
   * whose row fails.
   */
  lemma {:induction false} WriteRowsIndexed(records: seq<SpamRecord>)
    ensures var w := WriteRows(records);
            forall k :: 0 <= k < |w.rows| ==>
              BuildRow(records[k]) == Ok(w.rows[k])
    ensures var w := WriteRows(records);
            w.failure.Some? ==> BuildRow(records[|w.rows|]) == Err(w.failure.value)
  {
    if records != [] && BuildRow(records[0]).Ok? {
      var row := BuildRow(records[0]).value;
      var rest := WriteRows(records[1..]);
      WriteRowsIndexed(records[1..]);
      var w := WriteRows(records);
      assert w.rows == [row] + rest.rows;
      forall k | 0 <= k < |w.rows|
        ensures BuildRow(records[k]) == Ok(w.rows[k])
      {
        if k > 0 {
          assert w.rows[k] == rest.rows[k - 1];
          assert records[k] == records[1..][k - 1];
        }
      }
      if w.failure.Some? {
        assert records[|w.rows|] == records[1..][|rest.rows|];
      }
    }
  }

  /**
   * `save_results` after the header row: hands one row of values per record
   * to the CSV writer, in order, and stops at the first record whose row
   * cannot be built; the rows handed over before it stay written.
   */
  method SaveResults(matchingRecords: seq<SpamRecord>) returns (rows: seq<Row>, failure: Option<Failure>)
    ensures Written(rows, failure) == WriteRows(matchingRecords)
  {
    rows := [];
    failure := None;
    WrittenUpToStart(matchingRecords);
    var i := 0;
    while i < |matchingRecords|
      invariant 0 <= i <= |matchingRecords| && WrittenUpTo(matchingRecords, i, rows)
    {
      var record := matchingRecords[i];
      if record.typ.None? {
        failure := Some(MissingKey("type"));
        WrittenUpToStop(matchingRecords, i, rows, failure.value);
        return;
      }
      if record.typ.value.fid.None? {
        failure := Some(MissingKey("fid"));
        WrittenUpToStop(matchingRecords, i, rows, failure.value);
        return;
      }
      var fid := record.typ.value.fid.value;
      if record.labelValue.None? {
        failure := Some(MissingKey("label_value"));
        WrittenUpToStop(matchingRecords, i, rows, failure.value);
        return;
      }
      var labelValue := record.labelValue.value;
      var labelDescription := LabelDescription(labelValue);
      var status := if labelValue == 2 then "OK" else "SPAM";
      if record.timestamp.None? {
        failure := Some(MissingKey("timestamp"));
        WrittenUpToStop(matchingRecords, i, rows, failure.value);
        return;
      }
      var timestamp := record.timestamp.value;
      var converted := ConvertTimestamp(timestamp);
      if converted.Err? {
        failure := Some(converted.error);
        WrittenUpToStop(matchingRecords, i, rows, failure.value);
        return;
      }
      var dateTimeUtc := converted.value;
      var row := Row(fid, labelValue, labelDescription, status, timestamp, dateTimeUtc);
      assert BuildRow(record) == Ok(row);
      WrittenUpToNext(matchingRecords, i, rows, row);
      rows := rows + [row];
      i := i + 1;
    }
    WrittenUpToEnd(matchingRecords, rows);
  }
}
