/**
 * `find_matching_records`: keeps, in feed order, the records whose
 * `type.fid`, converted with `str`, is one of the wanted FIDs.  Records
 * without a `type` or without a `fid` in it are skipped silently.
 */
module Matcher {
  import opened Wrappers
  import opened Records

  /** The condition of the loop's `if`: `type` present, `fid` present in it, and `str(fid)` wanted. */
  predicate Matches(r: SpamRecord, targets: set<string>) {
    r.typ.Some? && r.typ.value.fid.Some? && FidText(r.typ.value.fid.value) in targets
  }

  /** The matching records of `records`, in their order. */
  function MatchFilter(records: seq<SpamRecord>, targets: set<string>): (out: seq<SpamRecord>)
    ensures |out| <= |records|
    ensures forall k :: 0 <= k < |out| ==> Matches(out[k], targets)
  {
    if records == [] then
      []
    else
      var last := records[|records| - 1];
      MatchFilter(records[..|records| - 1], targets) + (if Matches(last, targets) then [last] else [])
  }

  /** The loop of `find_matching_records`, appending each matching record to the result list. */
  method FindMatchingRecords(spamData: seq<SpamRecord>, targetFids: set<string>) returns (matching: seq<SpamRecord>)
    ensures matching == MatchFilter(spamData, targetFids)
  {
    matching := [];
    for i := 0 to |spamData|
      invariant matching == MatchFilter(spamData[..i], targetFids)
    {
      var record := spamData[i];
      if record.typ.Some? && record.typ.value.fid.Some? && FidText(record.typ.value.fid.value) in targetFids {
        matching := matching + [record];
      }
      assert spamData[..i + 1][..i] == spamData[..i];
    }
    assert spamData[..|spamData|] == spamData;
  }

  /** The ascending positions of the matching records in `records`. */
  function MatchIndices(records: seq<SpamRecord>, targets: set<string>): (idx: seq<nat>)
  {
    if records == [] then
      []
    else
      var n := |records| - 1;
      MatchIndices(records[..n], targets) + (if Matches(records[n], targets) then [n] else [])
  }

  /**
   * The filter keeps exactly the matching positions, in increasing order:
   * the result is the input with the non-matching records deleted.
   */
  lemma MatchFilterPositions(records: seq<SpamRecord>, targets: set<string>)
    ensures var out, idx := MatchFilter(records, targets), MatchIndices(records, targets);
            && |idx| == |out|
            && (forall k :: 0 <= k < |idx| ==> idx[k] < |records| && out[k] == records[idx[k]])
            && Ascending(idx)
            && (forall i :: 0 <= i < |records| ==> (i in idx <==> Matches(records[i], targets)))
  {
    MatchIndicesPick(records, targets);
    MatchIndicesAscending(records, targets);
    MatchIndicesMembership(records, targets);
  }

  lemma {:induction false} MatchIndicesPick(records: seq<SpamRecord>, targets: set<string>)
    ensures var out, idx := MatchFilter(records, targets), MatchIndices(records, targets);
            && |idx| == |out|
            && (forall k :: 0 <= k < |idx| ==> idx[k] < |records| && out[k] == records[idx[k]])
  {
    if records != [] {
      var n := |records| - 1;
      MatchIndicesPick(records[..n], targets);
      var idx := MatchIndices(records[..n], targets);
      forall k | 0 <= k < |idx| ensures records[..n][idx[k]] == records[idx[k]] { }
    }
  }

  predicate Ascending(s: seq<nat>) {
    forall k, l :: 0 <= k < l < |s| ==> s[k] < s[l]
  }

  lemma {:induction false} MatchIndicesAscending(records: seq<SpamRecord>, targets: set<string>)
    ensures Ascending(MatchIndices(records, targets))
  {
    if records != [] {
      var n := |records| - 1;
      MatchIndicesAscending(records[..n], targets);
      MatchIndicesBound(records[..n], targets);
      var front := MatchIndices(records[..n], targets);
      var idx := MatchIndices(records, targets);
      forall k, l | 0 <= k < l < |idx|
        ensures idx[k] < idx[l]
      {
        assert idx[k] == front[k] && front[k] in front;
        if l < |front| {
          assert idx[l] == front[l];
        } else {
          assert idx[l] == n;
        }
      }
    }
  }

  lemma {:induction false} MatchIndicesMembership(records: seq<SpamRecord>, targets: set<string>)
    ensures var idx := MatchIndices(records, targets);
            forall i :: 0 <= i < |records| ==> (i in idx <==> Matches(records[i], targets))
  {
    if records != [] {
      var n := |records| - 1;
      MatchIndicesMembership(records[..n], targets);
      MatchIndicesBound(records[..n], targets);
      forall i | 0 <= i < n ensures records[..n][i] == records[i] { }
    }
  }

  lemma {:induction false} MatchIndicesBound(records: seq<SpamRecord>, targets: set<string>)
    ensures forall i :: i in MatchIndices(records, targets) ==> i < |records|
  {
    if records != [] {
      MatchIndicesBound(records[..|records| - 1], targets);
    }
  }

  /** Soundness: every record returned has a `type.fid` whose string form is wanted. */
  lemma MatchSound(records: seq<SpamRecord>, targets: set<string>, k: int)
    requires 0 <= k < |MatchFilter(records, targets)|
    ensures var r := MatchFilter(records, targets)[k];
            r.typ.Some? && r.typ.value.fid.Some? && FidText(r.typ.value.fid.value) in targets
  {
    MatchFilterPositions(records, targets);
  }

  /** Completeness: every input record with a wanted `type.fid` is returned. */
  lemma MatchComplete(records: seq<SpamRecord>, targets: set<string>, i: int)
    requires 0 <= i < |records|
    requires records[i].typ.Some? && records[i].typ.value.fid.Some?
    requires FidText(records[i].typ.value.fid.value) in targets
    ensures records[i] in MatchFilter(records, targets)
  {
    MatchFilterPositions(records, targets);
    var idx := MatchIndices(records, targets);
    var k :| 0 <= k < |idx| && idx[k] == i;
  }

  /** Records without a `type`, or whose `type` has no `fid`, never reach the result. */
  lemma MatchSkipsIncomplete(records: seq<SpamRecord>, targets: set<string>, r: SpamRecord)
    requires r.typ.None? || r.typ.value.fid.None?
    ensures r !in MatchFilter(records, targets)
  {
  }

  /** Filtering the result again changes nothing. */
  lemma {:induction false} MatchFilterIdempotent(records: seq<SpamRecord>, targets: set<string>)
    ensures MatchFilter(MatchFilter(records, targets), targets) == MatchFilter(records, targets)
  {
    if records != [] {
      var n := |records| - 1;
      var front := MatchFilter(records[..n], targets);
      MatchFilterIdempotent(records[..n], targets);
      if Matches(records[n], targets) {
        var out := front + [records[n]];
        assert out[..|out| - 1] == front && out[|out| - 1] == records[n];
        assert MatchFilter(out, targets) == MatchFilter(front, targets) + [records[n]];
        assert MatchFilter(records, targets) == out;
      } else {
        assert MatchFilter(records, targets) == front;
      }
    }
  }
}
