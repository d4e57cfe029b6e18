/**
  `AggregatorExecutionContext`: a slot for every server, a countdown that the last answer brings to its end, and the
  joined answer.
 */
module AggregatorContext {
  import opened Bytes
  import opened Options
  import opened RemoteSearchQuery

  // the status bytes of `RemoteSearchResult`
  const SUCCESS: int := 0
  const TIMEOUT: int := 1
  const FAILED_NETWORK: int := 2

  type Slots = seq<Option<SearchResult>>

  /** The index results of the first `n` slots in server order; an empty slot gives none. */
  function Joined(slots: Slots, n: nat): seq<IndexResult>
    requires n <= |slots|
    decreases n
  {
    if n == 0 then [] else Joined(slots, n - 1) + if slots[n - 1].Some? then slots[n - 1].value.all else []
  }

  /** `fetch_sub` on the 32-bit counter. */
  function FetchSub(count: nat, finished: nat): nat {
    (count - finished) % UINT32
  }

  class AggregatorExecutionContext {
    var m_unfinishedCount: nat
    var m_results: Slots

    constructor (totalServerNumber: nat)
      ensures |m_results| == totalServerNumber && m_unfinishedCount == totalServerNumber % UINT32
      ensures forall i :: 0 <= i < |m_results| ==> m_results[i] == None
    {
      m_results := seq(totalServerNumber, _ => None);
      m_unfinishedCount := totalServerNumber % UINT32;
    }

    /** `GetResult(i).reset(result)`. */
    method SetResult(i: nat, result: SearchResult)
      requires i < |m_results|
      modifies `m_results
      ensures m_results == old(m_results)[i := Some(result)]
    {
      m_results := m_results[i := Some(result)];
    }

    method IsCompletedAfterFinsh(finishedCount: nat) returns (completed: bool)
      modifies `m_unfinishedCount
      ensures m_unfinishedCount == FetchSub(old(m_unfinishedCount), finishedCount)
      ensures completed == (old(m_unfinishedCount) <= finishedCount)
    {
      var lastCount := m_unfinishedCount;
      m_unfinishedCount := (m_unfinishedCount - finishedCount) % UINT32;
      completed := lastCount <= finishedCount;
    }

    /** How much room the first loop of `AggregateResults` reserves. */
    method CountResults() returns (resultNum: nat)
      ensures resultNum == |Joined(m_results, |m_results|)|
    {
      resultNum := 0;
      for i := 0 to |m_results|
        invariant resultNum == |Joined(m_results, i)|
      {
        if m_results[i].Some? {
          resultNum := resultNum + |m_results[i].value.all|;
        }
      }
    }

    method AggregateResults() returns (remoteResult: SearchResult)
      ensures remoteResult == SearchResult(SUCCESS, Joined(m_results, |m_results|))
    {
      var resultNum := CountResults();
      var all: seq<IndexResult> := [];
      for i := 0 to |m_results|
        invariant all == Joined(m_results, i)
      {
        if m_results[i].Some? {
          var results := m_results[i].value.all;
          ghost var before := all;
          for j := 0 to |results|
            invariant all == before + results[..j]
          {
            all := all + [results[j]];
          }
          assert results[..|results|] == results;
        }
      }
      remoteResult := SearchResult(SUCCESS, all);
    }

    /** A server's callback, run without interruption: the answer goes into its slot, and the last one aggregates. */
    method RunCallback(i: nat, result: SearchResult) returns (reply: Option<SearchResult>)
      requires i < |m_results|
      modifies `m_results, `m_unfinishedCount
      ensures m_results == old(m_results)[i := Some(result)] && m_unfinishedCount == FetchSub(old(m_unfinishedCount), 1)
      ensures reply == if old(m_unfinishedCount) <= 1 then Some(SearchResult(SUCCESS, Joined(m_results, |m_results|)))
        else None
    {
      SetResult(i, result);
      reply := None;
      var completed := IsCompletedAfterFinsh(1);
      if completed {
        var remoteResult := AggregateResults();
        reply := Some(remoteResult);
      }
    }
  }
}
