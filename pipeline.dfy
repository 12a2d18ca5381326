/**
 * The steps of `main` chained together: load the wanted FIDs, filter the
 * feed, write the report, show one converted timestamp and count the
 * labels.  File and network access are replaced by the lines of the FID
 * file and the decoded feed, which are parameters.
 */
module Pipeline {
  import opened Wrappers
  import opened Errors
  import opened Records
  import opened FidLoader
  import opened Matcher
  import opened Report
  import opened Summary
  import opened Timestamps

  /**
   * Every row of the report names a wanted FID that some record of the feed
   * carries: rows come only from matched records, and the FID written is
   * the record's own `type.fid`.
   */
  lemma ReportedFidsAreWanted(records: seq<SpamRecord>, targets: set<string>)
    ensures var rows := WriteRows(MatchFilter(records, targets)).rows;
            forall k :: 0 <= k < |rows| ==>
              && FidText(rows[k].fid) in targets
              && exists i :: 0 <= i < |records| && Matches(records[i], targets) && records[i].typ.value.fid == Some(rows[k].fid)
  {
    var matching := MatchFilter(records, targets);
    var rows := WriteRows(matching).rows;
    WriteRowsIndexed(matching);
    MatchFilterPositions(records, targets);
    var idx := MatchIndices(records, targets);
    forall k | 0 <= k < |rows|
      ensures && FidText(rows[k].fid) in targets
              && exists i :: 0 <= i < |records| && Matches(records[i], targets) && records[i].typ.value.fid == Some(rows[k].fid)
    {
      BuildRowSpec(matching[k]);
      MatchSound(records, targets, k);
      assert matching[k] == records[idx[k]];
      assert Matches(records[idx[k]], targets);
    }
  }

  /**
   * `main` without its console output: returns the rows handed to the CSV
   * writer after the header, the label counts (or the error that ended the
   * run) and the sample date text shown for the first matched record.
   */
  method RunPipeline(fidLines: seq<string>, spamData: seq<SpamRecord>)
      returns (rows: seq<Row>, outcome: Result<map<string, nat>, Failure>, sample: Option<string>)
    ensures var matching := MatchFilter(spamData, LoadFids(fidLines));
            && rows == WriteRows(matching).rows
            && (outcome.Ok? <==> WriteRows(matching).failure.None?)
            && (outcome.Err? ==> WriteRows(matching).failure == Some(outcome.error))
            && (outcome.Ok? ==> |rows| == |matching| && outcome.value == Tally(matching))
            && (sample.Some? <==> outcome.Ok? && |matching| > 0)
    ensures forall k :: 0 <= k < |rows| ==> FidText(rows[k].fid) in LoadFids(fidLines)
    ensures sample.Some? ==> |rows| > 0 && sample.value == rows[0].dateTimeUtc
  {
    var targetFids := LoadFids(fidLines);
    var matchingRecords := FindMatchingRecords(spamData, targetFids);
    var failure;
    rows, failure := SaveResults(matchingRecords);
    ReportedFidsAreWanted(spamData, targetFids);
    if failure.Some? {
      return rows, Err(failure.value), None;
    }
    WriteRowsIndexed(matchingRecords);
    sample := None;
    if |matchingRecords| > 0 {
      BuildRowSpec(matchingRecords[0]);
      var sampleTimestamp := matchingRecords[0].timestamp.value;
      var sampleDateTime := ConvertTimestamp(sampleTimestamp);
      sample := Some(sampleDateTime.value);
    }
    WrittenReportIsLabelled(matchingRecords);
    outcome := TallyLabels(matchingRecords);
  }
}
