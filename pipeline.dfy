/**
 * The driver `CommentsAnalysis.run` of analyzer.py and the result store it
 * appends to. `crew.kickoff` (the LLM call) and `json.loads` are parameters:
 * any function of the chunk and any partial parser.
 */
module Pipeline {
  import opened Wrappers
  import opened Json
  import opened Batcher
  import opened JsonRepair
  import opened Merger

  /** `chunk_size` in `run`. */
  const ChunkSize: nat := 20

  /** What `crew.kickoff` does for one chunk: it returns text or raises. */
  datatype KickoffResult = Returned(text: string) | Raised

  /**
   * What one returned text adds to the store. `run` repairs it and parses it;
   * on success `append_result_to_json` repairs the repaired text again and
   * parses that, and only a second success is appended.
   */
  function ChunkResult(raw: string, parse: string -> Option<Json>): Option<Json> {
    var fixed := FixTrailingCommas(raw);
    if parse(fixed).None? then None else parse(FixTrailingCommas(fixed))
  }

  /** What a run of returned texts adds to the store, in chunk order. */
  function Stored(raws: seq<string>, parse: string -> Option<Json>): seq<Json>
    decreases |raws|
  {
    if raws == [] then []
    else
      Stored(raws[..|raws| - 1], parse) +
      match ChunkResult(raws[|raws| - 1], parse)
      case Some(j) => [j]
      case None => []
  }

  /** The kickoff outcome of every chunk, chunk `i` being task `i + 1`. */
  function Outcomes(chunks: seq<seq<string>>, kickoff: (nat, seq<string>) -> KickoffResult): (outs: seq<KickoffResult>)
    ensures |outs| == |chunks| && forall i :: 0 <= i < |chunks| ==> outs[i] == kickoff(i, chunks[i])
  {
    seq(|chunks|, i requires 0 <= i < |chunks| => kickoff(i, chunks[i]))
  }

  /** The index of the first chunk whose kickoff raises, or the number of chunks. */
  function FirstRaised(outs: seq<KickoffResult>): (n: nat)
    ensures n <= |outs|
    ensures forall j :: 0 <= j < n ==> outs[j].Returned?
    ensures n < |outs| ==> outs[n].Raised?
  {
    if outs == [] || outs[0].Raised? then 0 else 1 + FirstRaised(outs[1..])
  }

  function Texts(outs: seq<KickoffResult>): seq<string>
    requires forall j :: 0 <= j < |outs| ==> outs[j].Returned?
  {
    seq(|outs|, j requires 0 <= j < |outs| => outs[j].text)
  }

  /** The analysis object: its two JSON files, held in memory. */
  class CommentsAnalysis {
    /** Contents of `raw_results.json`: one parsed result per stored chunk. */
    var rawResults: seq<Json>
    /** Contents of `final_results.json`, once `merge_results` has written it. */
    var finalResults: Option<Report>

    /** `__init__` with `initialize_results_file`: the store starts empty. */
    constructor ()
      ensures rawResults == [] && finalResults == None
    {
      rawResults := [];
      finalResults := None;
    }

    /** `append_result_to_json`: repair, parse, and append only when the parse succeeds. */
    method AppendResultToJson(result: string, parse: string -> Option<Json>)
      modifies this
      ensures rawResults == old(rawResults) +
        match parse(FixTrailingCommas(result))
        case Some(j) => [j]
        case None => []
      ensures finalResults == old(finalResults)
    {
      var fixedResult := FixTrailingCommas(result);
      var jsonResult := parse(fixedResult);
      if jsonResult.None? {
        return;
      }
      rawResults := rawResults + [jsonResult.value];
    }

    /** `merge_results`: the report is written only when the merge does not raise. */
    method MergeResults()
      modifies this
      ensures rawResults == old(rawResults)
      ensures finalResults == if Merge(rawResults).Some? then Merge(rawResults) else old(finalResults)
    {
      var merged := MergeEntries(rawResults);
      if merged.Some? {
        finalResults := merged;
      }
    }

    /**
     * `run` on the loaded comment list. Chunks are processed in order; a chunk
     * whose text does not parse adds nothing and the loop goes on; a kickoff
     * that raises ends the run there, without merging.
     */
    method Run(comments: seq<string>, kickoff: (nat, seq<string>) -> KickoffResult, parse: string -> Option<Json>)
      modifies this
      ensures var outs := Outcomes(SplitComments(comments, ChunkSize), kickoff);
        var n := FirstRaised(outs);
        rawResults == old(rawResults) + Stored(Texts(outs[..n]), parse) &&
        finalResults == if n == |outs| && Merge(rawResults).Some? then Merge(rawResults) else old(finalResults)
    {
      var chunks := SplitComments(comments, ChunkSize);
      ghost var outs := Outcomes(chunks, kickoff);
      var idx := 0;
      while idx < |chunks|
        invariant 0 <= idx <= |chunks|
        invariant forall j :: 0 <= j < idx ==> outs[j].Returned?
        invariant rawResults == old(rawResults) + Stored(Texts(outs[..idx]), parse)
        invariant finalResults == old(finalResults)
      {
        var result := kickoff(idx, chunks[idx]);
        if result.Raised? {
          FirstRaisedAt(outs, idx);
          return;
        }
        var fixedResult := FixTrailingCommas(result.text);
        if parse(fixedResult).Some? {
          AppendResultToJson(fixedResult, parse);
        }
        StoredSnoc(outs, idx, parse);
        idx := idx + 1;
      }
      FirstRaisedAt(outs, idx);
      MergeResults();
    }
  }

  lemma FirstRaisedAt(outs: seq<KickoffResult>, n: nat)
    requires n <= |outs| && (forall j :: 0 <= j < n ==> outs[j].Returned?) && (n < |outs| ==> outs[n].Raised?)
    ensures FirstRaised(outs) == n
  {
  }

  lemma StoredSnoc(outs: seq<KickoffResult>, i: nat, parse: string -> Option<Json>)
    requires i < |outs| && forall j :: 0 <= j <= i ==> outs[j].Returned?
    ensures Stored(Texts(outs[..i + 1]), parse) ==
      Stored(Texts(outs[..i]), parse) +
      match ChunkResult(outs[i].text, parse)
      case Some(j) => [j]
      case None => []
  {
    var t := Texts(outs[..i + 1]);
    assert t[..|t| - 1] == Texts(outs[..i]);
  }

  // ---------------------------------------------------------------------------
  // What the store receives

  /** Chunks are independent: the store after two runs of chunks is the two contributions in order. */
  lemma {:induction false} StoredAppend(a: seq<string>, b: seq<string>, parse: string -> Option<Json>)
    ensures Stored(a + b, parse) == Stored(a, parse) + Stored(b, parse)
    decreases |b|
  {
    if b == [] {
      assert a + b == a;
    } else {
      var init := b[..|b| - 1];
      StoredAppend(a, init, parse);
      assert (a + b)[..|a + b| - 1] == a + init && (a + b)[|a + b| - 1] == b[|b| - 1];
    }
  }

  /**
   * A chunk whose repaired text does not parse contributes nothing, and the
   * chunks after it are stored exactly as if it had not been there.
   */
  lemma FailedChunkSkipped(a: seq<string>, bad: string, b: seq<string>, parse: string -> Option<Json>)
    requires ChunkResult(bad, parse) == None
    ensures Stored(a + [bad] + b, parse) == Stored(a, parse) + Stored(b, parse)
  {
    StoredAppend(a + [bad], b, parse);
    StoredAppend(a, [bad], parse);
    assert Stored([bad], parse) == [] by {
      assert [bad][..0] == [];
    }
  }

  /**
   * When every chunk's text parses both times, the store receives, in chunk
   * order, the parse of each text repaired twice.
   */
  lemma {:induction false} StoredAllParse(raws: seq<string>, parse: string -> Option<Json>)
    requires forall i :: 0 <= i < |raws| ==> ChunkResult(raws[i], parse).Some?
    ensures |Stored(raws, parse)| == |raws|
    ensures forall i :: 0 <= i < |raws| ==>
      Some(Stored(raws, parse)[i]) == parse(FixTrailingCommas(FixTrailingCommas(raws[i])))
    decreases |raws|
  {
    if raws != [] {
      var init := raws[..|raws| - 1];
      StoredAllParse(init, parse);
    }
  }

  /** The store never receives more results than there were chunks. */
  lemma {:induction false} StoredBound(raws: seq<string>, parse: string -> Option<Json>)
    ensures |Stored(raws, parse)| <= |raws|
    decreases |raws|
  {
    if raws != [] {
      StoredBound(raws[..|raws| - 1], parse);
    }
  }

  /**
   * A run over an empty comment list stores nothing and writes a report with
   * the six themes, all empty.
   */
  method RunOnNoComments(kickoff: (nat, seq<string>) -> KickoffResult, parse: string -> Option<Json>)
    returns (stored: seq<Json>, report: Option<Report>)
    ensures stored == [] && report == Some(EmptyReport)
  {
    var none: seq<string> := [];
    var analysis := new CommentsAnalysis();
    analysis.Run(none, kickoff, parse);
    assert SplitComments(none, ChunkSize) == [];
    stored, report := analysis.rawResults, analysis.finalResults;
  }
}
