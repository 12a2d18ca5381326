/**
 * The label statistics at the end of `main`: a dictionary with one counter
 * per known level, filled by a second pass over the matched records.
 */
module Summary {
  import opened Wrappers
  import opened Errors
  import opened Records
  import opened Report

  const WorstKey: string := "Level 0 (Worst)"
  const LimboKey: string := "Level 1 (Limbo)"
  const BestKey: string := "Level 2 (Best)"

  /** How many of `records` carry exactly the label value `level`. */
  function CountLabel(records: seq<SpamRecord>, level: int): (n: nat)
    ensures n <= |records|
  {
    if records == [] then
      0
    else
      var last := records[|records| - 1];
      CountLabel(records[..|records| - 1], level) + (if last.labelValue == Some(level) then 1 else 0)
  }

  /** How many of `records` have no label value, or one outside 0, 1 and 2; the loop counts them nowhere. */
  function CountUncounted(records: seq<SpamRecord>): (n: nat)
    ensures n <= |records|
  {
    if records == [] then
      0
    else
      var last := records[|records| - 1];
      CountUncounted(records[..|records| - 1]) + (if last.labelValue.Some? && 0 <= last.labelValue.value <= 2 then 0 else 1)
  }

  /** The dictionary the loop builds over `records`. */
  function Tally(records: seq<SpamRecord>): (counts: map<string, nat>)
    ensures counts.Keys == {WorstKey, LimboKey, BestKey}
  {
    map[WorstKey := CountLabel(records, 0), LimboKey := CountLabel(records, 1), BestKey := CountLabel(records, 2)]
  }

  /** Every record carries a `label_value`, so the loop never raises KeyError. */
  predicate AllLabelled(records: seq<SpamRecord>) {
    forall k :: 0 <= k < |records| ==> records[k].labelValue.Some?
  }

  /**
   * The counting loop of `main`: each record's `label_value` bumps the
   * counter of its level; other values bump nothing, and a record without
   * a label stops the pass with KeyError.
   */
  method TallyLabels(matchingRecords: seq<SpamRecord>) returns (r: Result<map<string, nat>, Failure>)
    ensures r.Ok? <==> AllLabelled(matchingRecords)
    ensures r.Ok? ==> r.value == Tally(matchingRecords)
    ensures r.Err? ==> r.error == MissingKey("label_value")
  {
    var labelCounts: map<string, nat> := map[WorstKey := 0, LimboKey := 0, BestKey := 0];
    for i := 0 to |matchingRecords|
      invariant AllLabelled(matchingRecords[..i])
      invariant labelCounts == Tally(matchingRecords[..i])
    {
      var record := matchingRecords[i];
      if record.labelValue.None? {
        return Err(MissingKey("label_value"));
      }
      var labelValue := record.labelValue.value;
      if labelValue == 0 {
        labelCounts := labelCounts[WorstKey := labelCounts[WorstKey] + 1];
      } else if labelValue == 1 {
        labelCounts := labelCounts[LimboKey := labelCounts[LimboKey] + 1];
      } else if labelValue == 2 {
        labelCounts := labelCounts[BestKey := labelCounts[BestKey] + 1];
      }
      assert matchingRecords[..i + 1][..i] == matchingRecords[..i];
    }
    assert matchingRecords[..|matchingRecords|] == matchingRecords;
    return Ok(labelCounts);
  }

  /** Every record is counted under exactly one level, or under none. */
  lemma {:induction false} TallyPartition(records: seq<SpamRecord>)
    ensures CountLabel(records, 0) + CountLabel(records, 1) + CountLabel(records, 2) + CountUncounted(records) == |records|
  {
    if records != [] {
      TallyPartition(records[..|records| - 1]);
    }
  }

  /** Nothing is left uncounted exactly when every label value is 0, 1 or 2. */
  lemma {:induction false} UncountedZeroIff(records: seq<SpamRecord>)
    ensures CountUncounted(records) == 0 <==>
              forall k :: 0 <= k < |records| ==> records[k].labelValue.Some? && 0 <= records[k].labelValue.value <= 2
  {
    if records != [] {
      var front := records[..|records| - 1];
      UncountedZeroIff(front);
      assert forall k :: 0 <= k < |front| ==> front[k] == records[k];
    }
  }

  /**
   * The three counters sum to at most the number of matched records, and
   * to exactly that number when every label value is a known level.
   */
  lemma TallySum(records: seq<SpamRecord>)
    ensures var t := Tally(records); t[WorstKey] + t[LimboKey] + t[BestKey] <= |records|
    ensures var t := Tally(records);
            t[WorstKey] + t[LimboKey] + t[BestKey] == |records| <==>
              forall k :: 0 <= k < |records| ==> records[k].labelValue.Some? && 0 <= records[k].labelValue.value <= 2
  {
    TallyPartition(records);
    UncountedZeroIff(records);
  }

  /** Counting from the front: the first record's contribution plus the count of the rest. */
  lemma {:induction false} CountLabelCons(records: seq<SpamRecord>, level: int)
    requires records != []
    ensures CountLabel(records, level) ==
              (if records[0].labelValue == Some(level) then 1 else 0) + CountLabel(records[1..], level)
  {
    if |records| > 1 {
      var front := records[..|records| - 1];
      CountLabelCons(front, level);
      assert front[0] == records[0];
      assert front[1..] == records[1..][..|records[1..]| - 1];
    }
  }

  /** How many of the written rows carry `status` in the Status column. */
  function StatusCount(rows: seq<Row>, status: string): (n: nat)
    ensures n <= |rows|
  {
    if rows == [] then 0
    else (if rows[0].status == status then 1 else 0) + StatusCount(rows[1..], status)
  }

  /**
   * When the report is written in full, its OK rows are exactly the
   * records the tally counts under "Level 2 (Best)", and every other row
   * says SPAM.
   */
  lemma {:induction false} StatusColumnAgreesWithTally(records: seq<SpamRecord>)
    requires WriteRows(records).failure.None?
    ensures StatusCount(WriteRows(records).rows, "OK") == Tally(records)[BestKey]
    ensures StatusCount(WriteRows(records).rows, "SPAM") == |records| - Tally(records)[BestKey]
  {
    if records != [] {
      var row := BuildRow(records[0]).value;
      var rest := WriteRows(records[1..]);
      StatusColumnAgreesWithTally(records[1..]);
      BuildRowSpec(records[0]);
      CountLabelCons(records, 2);
      var rows := WriteRows(records).rows;
      assert rows[0] == row && rows[1..] == rest.rows;
    }
  }

  /** After the report was written in full, the tally pass cannot raise KeyError. */
  lemma WrittenReportIsLabelled(records: seq<SpamRecord>)
    requires WriteRows(records).failure.None?
    ensures AllLabelled(records)
  {
    WriteRowsIndexed(records);
    forall k | 0 <= k < |records|
      ensures records[k].labelValue.Some?
    {
      BuildRowSpec(records[k]);
    }
  }
}
