/**
 * The annotation reconciler as the object the pipeline uses: it holds the caller's SSM (the
 * same array, not a copy, so every merge is visible to the caller) and the two call-level
 * fields, and folds the external payloads into them in place. Each method is proved against
 * the specification function of module AnnotationSpec that says what it does.
 */
module TextUtils {
  import opened AnnotationSpec

  /**
   * A profanity payload object. `profanity` is the list under the key "profanity", or `None`
   * when the payload is empty or lacks the key. The merge pads or truncates this list in place,
   * so the caller sees the adjusted list afterwards.
   */
  class ProfanityResults {
    var profanity: Option<seq<ProfanityEntry>>

    constructor (profanity: Option<seq<ProfanityEntry>>)
      ensures this.profanity == profanity
    {
      this.profanity := profanity;
    }
  }

  /** What `finalize` hands on: the SSM and the two call-level fields. */
  datatype Report = Report(ssm: seq<Utterance>, summary: string, conflict: bool)

  /** The surviving sentiment entries, built by one appending pass over the payload list. */
  method CollectValidEntries(entries: seq<SentimentEntry>) returns (valid: seq<Assignment>)
    ensures valid == ValidEntries(entries)
    ensures |valid| <= |entries| && forall k :: 0 <= k < |valid| ==> IsLabel(valid[k].sentiment)
  {
    valid := [];
    for i := 0 to |entries|
      invariant valid == ValidEntries(entries[..i])
    {
      assert entries[..i + 1][..i] == entries[..i];
      var entry := entries[i];
      if !entry.Mapping? || entry.sentiment.None? {
        continue;
      }
      var idx := if entry.index.Some? then entry.index.value else -1;
      var sent := entry.sentiment.value;
      if !IsLabel(sent) {
        sent := Neutral;
      }
      valid := valid + [Assignment(idx, sent)];
    }
    assert entries[..|entries|] == entries;
  }

  class Annotator {
    const ssm: array<Utterance>
    var globalSummary: string
    var globalConflict: bool

    /** Holds the caller's SSM; the summary starts empty and the conflict flag false. */
    constructor (ssm: array<Utterance>)
      ensures this.ssm == ssm && ssm[..] == old(ssm[..])
      ensures globalSummary == "" && !globalConflict
    {
      this.ssm := ssm;
      globalSummary := "";
      globalConflict := false;
    }

    /** Gives every record lacking a sentiment the sentiment Neutral. */
    method FillSentiments()
      modifies ssm
      ensures ssm[..] == FillSentiment(old(ssm[..]))
    {
      for i := 0 to ssm.Length
        invariant forall k :: 0 <= k < i ==> ssm[k] == WithSentiment(old(ssm[k]))
        invariant forall k :: i <= k < ssm.Length ==> ssm[k] == old(ssm[k])
      {
        if ssm[i].sentiment.None? {
          ssm[i] := ssm[i].(sentiment := Some(Neutral));
        }
      }
    }

    /** Gives every record lacking a profane flag the flag false. */
    method FillProfanes()
      modifies ssm
      ensures ssm[..] == FillProfane(old(ssm[..]))
    {
      for i := 0 to ssm.Length
        invariant forall k :: 0 <= k < i ==> ssm[k] == WithProfane(old(ssm[k]))
        invariant forall k :: i <= k < ssm.Length ==> ssm[k] == old(ssm[k])
      {
        if ssm[i].profane.None? {
          ssm[i] := ssm[i].(profane := Some(false));
        }
      }
    }

    /**
     * Merges a sentiment payload: normalises its shape, filters and coerces the entries,
     * recovers positions when every index is foreign, writes the in-range entries and gives
     * Neutral to the records still lacking a sentiment.
     */
    method AddSentiment(results: SentimentResults)
      modifies ssm
      ensures ssm[..] == MergeSentiment(old(ssm[..]), results)
    {
      var entries: seq<SentimentEntry>;
      match results {
        case BareList(es) =>
          entries := es;
        case Keyed(ListValue(es)) =>
          entries := es;
        case Keyed(NotAList) =>
          FillSentiments();
          return;
        case Unusable =>
          FillSentiments();
          return;
      }
      var n := ssm.Length;
      var valid := CollectValidEntries(entries);
      var anyInRange := exists k :: 0 <= k < |valid| && 0 <= valid[k].index < n;
      if !anyInRange && |valid| <= n {
        valid := Reindexed(valid);
      }
      assert valid == Targets(ValidEntries(entries), n);
      WriteSentiments(valid);
      FillSentiments();
    }

    /** Writes each assignment's sentiment at its index, in order; other indices are skipped. */
    method WriteSentiments(valid: seq<Assignment>)
      modifies ssm
      ensures ssm[..] == WriteAll(old(ssm[..]), valid)
    {
      ghost var s0 := ssm[..];
      for i := 0 to |valid|
        invariant ssm[..] == WriteAll(s0, valid[..i])
      {
        assert valid[..i + 1][..i] == valid[..i];
        var idx := valid[i].index;
        if 0 <= idx < ssm.Length {
          ssm[idx] := ssm[idx].(sentiment := Some(valid[i].sentiment));
        }
      }
      assert valid[..|valid|] == valid;
    }

    /**
     * Merges a profanity payload. Without the "profanity" key, only defaults the missing flags.
     * Otherwise pads the payload's list with synthetic false entries, or truncates it, to one
     * entry per record, then writes each entry's flag at its index. A missing key in an entry
     * (KeyError) or an index below -n (IndexError) stops the merge with the writes made so far.
     */
    method AddProfanity(results: ProfanityResults) returns (failure: Option<Failure>)
      modifies ssm, results
      ensures old(results.profanity).None? ==> results.profanity.None?
      ensures old(results.profanity).Some? ==>
        results.profanity == Some(Fit(old(results.profanity).value, ssm.Length))
      ensures MergeProfanity(old(ssm[..]), old(results.profanity)) == Applied(ssm[..], failure)
    {
      if results.profanity.None? {
        FillProfanes();
        return None;
      }
      FitToLength(results);
      failure := ApplyEntries(results.profanity.value);
    }

    /** Pads the payload's list with `{index: i, profane: false}`, or truncates it, to `n` entries. */
    method FitToLength(results: ProfanityResults)
      requires results.profanity.Some?
      modifies results
      ensures results.profanity == Some(Fit(old(results.profanity).value, ssm.Length))
    {
      var n := ssm.Length;
      var given := results.profanity.value;
      if |given| < n {
        for idx := |given| to n
          invariant results.profanity.Some? && |results.profanity.value| == idx
          invariant forall k :: 0 <= k < idx ==>
            results.profanity.value[k] == if k < |given| then given[k] else PadEntry(k)
        {
          results.profanity := Some(results.profanity.value + [ProfanityEntry(Some(idx), Some(false))]);
        }
        assert results.profanity.value == Fit(given, n);
      } else if |given| > n {
        results.profanity := Some(given[..n]);
      } else {
        assert given[..n] == given;
      }
    }

    /**
     * Writes each entry's flag at its index (Python's negative indexing included) until an
     * entry raises; returns the exception, if any.
     */
    method ApplyEntries(fitted: seq<ProfanityEntry>) returns (failure: Option<Failure>)
      modifies ssm
      ensures ApplyProfanity(old(ssm[..]), fitted) == Applied(ssm[..], failure)
    {
      var n := ssm.Length;
      ghost var s0 := ssm[..];
      for i := 0 to |fitted|
        invariant ApplyProfanity(s0, fitted[..i]) == Applied(ssm[..], None)
      {
        assert fitted[..i + 1][..i] == fitted[..i];
        var entry := fitted[i];
        if entry.index.None? {
          failure := Some(KeyError("index"));
          assert ApplyProfanity(s0, fitted[..i + 1]) == Applied(ssm[..], failure);
          FailureSticks(s0, fitted, i + 1);
          return;
        }
        var idx := entry.index.value;
        if idx < n {
          if entry.profane.None? {
            failure := Some(KeyError("profane"));
            assert ApplyProfanity(s0, fitted[..i + 1]) == Applied(ssm[..], failure);
            FailureSticks(s0, fitted, i + 1);
            return;
          }
          if idx < -n {
            failure := Some(IndexError(idx));
            assert ApplyProfanity(s0, fitted[..i + 1]) == Applied(ssm[..], failure);
            FailureSticks(s0, fitted, i + 1);
            return;
          }
          var slot := if idx < 0 then n + idx else idx;
          ssm[slot] := ssm[slot].(profane := entry.profane);
        }
      }
      assert fitted[..|fitted|] == fitted;
      failure := None;
    }

    /**
     * Sets the call summary when the payload carries one (`None`: the payload is empty or
     * lacks the key "summary", and the summary is left as it was); returns the summary.
     */
    method AddSummary(summary: Option<string>) returns (current: string)
      modifies this
      ensures globalSummary == if summary.Some? then summary.value else old(globalSummary)
      ensures globalConflict == old(globalConflict) && current == globalSummary
      ensures unchanged(ssm)
    {
      if summary.None? {
        return globalSummary;
      }
      globalSummary := summary.value;
      current := globalSummary;
    }

    /**
     * Sets the call conflict flag when the payload carries one (`None`: the payload is empty
     * or lacks the key "conflict"); returns the flag.
     */
    method AddConflict(conflict: Option<bool>) returns (current: bool)
      modifies this
      ensures globalConflict == if conflict.Some? then conflict.value else old(globalConflict)
      ensures globalSummary == old(globalSummary) && current == globalConflict
      ensures unchanged(ssm)
    {
      if conflict.None? {
        return globalConflict;
      }
      globalConflict := conflict.value;
      current := globalConflict;
    }

    /**
     * Gives every record a sentiment (Neutral) and a profane flag (false) where it lacks one,
     * and reports the SSM with the call summary and conflict flag.
     */
    method Finalize() returns (report: Report)
      modifies ssm
      ensures ssm[..] == Finalized(old(ssm[..]))
      ensures report == Report(ssm[..], globalSummary, globalConflict)
      ensures Complete(report.ssm)
    {
      for i := 0 to ssm.Length
        invariant forall k :: 0 <= k < i ==> ssm[k] == WithProfane(WithSentiment(old(ssm[k])))
        invariant forall k :: i <= k < ssm.Length ==> ssm[k] == old(ssm[k])
      {
        if ssm[i].sentiment.None? {
          ssm[i] := ssm[i].(sentiment := Some(Neutral));
        }
        if ssm[i].profane.None? {
          ssm[i] := ssm[i].(profane := Some(false));
        }
      }
      report := Report(ssm[..], globalSummary, globalConflict);
    }
  }
}
