/** Merging the agents' reports (internal/latency/ebpf_source.go). */
module EbpfSource {
  import opened GoInt
  import opened Aggregator
  import opened Options

  datatype AgentPodStats = AgentPodStats(p50Us: int, p99Us: int, sampleCount: int)

  /** time.Duration(us) * time.Microsecond, in int64. */
  function Microseconds(us: int): int { Wrap64(us * 1000) }

  function Converted(a: AgentPodStats, now: int): Stats {
    Stats(Microseconds(a.p50Us), Microseconds(a.p99Us), a.sampleCount, now)
  }

  /** A thousand times the microseconds, or the int64 that this wraps to. */
  predicate IsNanosecondsOf(ns: int, us: int) {
    && -0x8000_0000_0000_0000 <= ns < 0x8000_0000_0000_0000
    && (ns - 1000 * us) % 0x1_0000_0000_0000_0000 == 0
    && (-0x8000_0000_0000_0000 <= 1000 * us < 0x8000_0000_0000_0000 ==> ns == 1000 * us)
  }

  /** The end of fetchFromAgent: keep the requested pods, or all when none are named, and convert the units. */
  method Filtered(podLatencies: map<string, AgentPodStats>, podIPs: seq<string>, now: int)
    returns (stats: map<string, Stats>)
    ensures forall ip :: ip in stats <==> ip in podLatencies && (podIPs == [] || ip in podIPs)
    ensures forall ip :: ip in stats ==>
      && IsNanosecondsOf(stats[ip].p50, podLatencies[ip].p50Us)
      && IsNanosecondsOf(stats[ip].p99, podLatencies[ip].p99Us)
      && stats[ip].sampleCount == podLatencies[ip].sampleCount
      && stats[ip].lastUpdated == now
  {
    stats := map[];
    var rest := podLatencies.Keys;
    while rest != {}
      invariant rest <= podLatencies.Keys
      invariant forall ip :: ip in stats <==> ip in podLatencies && ip !in rest && (podIPs == [] || ip in podIPs)
      invariant forall ip :: ip in stats ==>
        && IsNanosecondsOf(stats[ip].p50, podLatencies[ip].p50Us)
        && IsNanosecondsOf(stats[ip].p99, podLatencies[ip].p99Us)
        && stats[ip].sampleCount == podLatencies[ip].sampleCount
        && stats[ip].lastUpdated == now
      decreases |rest|
    {
      var ip :| ip in rest;
      rest := rest - {ip};
      if |podIPs| > 0 && ip !in podIPs {
        continue;
      }
      stats := stats[ip := Converted(podLatencies[ip], now)];
    }
  }

  // ---------- the merge ----------

  datatype AgentResult = Fetched(stats: map<string, Stats>) | Failed(error: string)

  datatype Latencies = Merged(stats: map<string, Stats>) | NoEndpoints | AllFailed(lastError: string)

  function At(m: map<string, Stats>, ip: string): Option<Stats> {
    if ip in m then Some(m[ip]) else None
  }

  function ReportOf(r: AgentResult, ip: string): Option<Stats> {
    match r case Fetched(stats) => At(stats, ip) case Failed(_) => None
  }

  /** A later report replaces the kept one only with a larger sample count. */
  function Larger(kept: Option<Stats>, report: Option<Stats>): Option<Stats> {
    if report.Some? && (kept.None? || report.value.sampleCount > kept.value.sampleCount) then report else kept
  }

  /** The report kept for an IP after the results received so far: the first with the largest sample count. */
  function Best(results: seq<AgentResult>, ip: string): Option<Stats> {
    if results == [] then None
    else Larger(Best(results[..|results| - 1], ip), ReportOf(results[|results| - 1], ip))
  }

  lemma BestStep(results: seq<AgentResult>, r: AgentResult, ip: string)
    ensures Best(results + [r], ip) == Larger(Best(results, ip), ReportOf(r, ip))
  {
    assert (results + [r])[..|results|] == results;
  }

  /** Some agent that answered reported the IP. */
  ghost predicate Reported(results: seq<AgentResult>, ip: string) {
    exists i :: 0 <= i < |results| && Reports(results[i], ip)
  }

  predicate Reports(r: AgentResult, ip: string) { r.Fetched? && ip in r.stats }

  /** The report of the agent at index i: no other counts more samples, and none before it as many. */
  ghost predicate IsFirstLargest(results: seq<AgentResult>, ip: string, i: nat)
    requires i < |results| && Reports(results[i], ip)
  {
    forall j :: 0 <= j < |results| && Reports(results[j], ip) ==>
      && results[j].stats[ip].sampleCount <= results[i].stats[ip].sampleCount
      && (j < i ==> results[j].stats[ip].sampleCount < results[i].stats[ip].sampleCount)
  }

  ghost predicate KeptFrom(results: seq<AgentResult>, ip: string, s: Stats) {
    exists i: nat :: i < |results| && Reports(results[i], ip) && IsFirstLargest(results, ip, i)
      && results[i].stats[ip] == s
  }

  ghost predicate LastFailure(results: seq<AgentResult>, i: nat, error: string) {
    && i < |results| && results[i] == Failed(error)
    && forall j :: i < j < |results| ==> results[j].Fetched?
  }

  lemma KeepsFirst(before: seq<AgentResult>, last: AgentResult, ip: string, i: nat)
    requires i < |before| && Reports(before[i], ip) && IsFirstLargest(before, ip, i)
    requires Reports(last, ip) ==> last.stats[ip].sampleCount <= before[i].stats[ip].sampleCount
    ensures IsFirstLargest(before + [last], ip, i)
  {
  }

  lemma TakesLast(before: seq<AgentResult>, last: AgentResult, ip: string)
    requires Reports(last, ip)
    requires forall j :: 0 <= j < |before| && Reports(before[j], ip) ==>
      before[j].stats[ip].sampleCount < last.stats[ip].sampleCount
    ensures IsFirstLargest(before + [last], ip, |before|)
  {
  }

  lemma {:induction false} NothingKept(results: seq<AgentResult>, ip: string)
    ensures Best(results, ip).None? ==> forall j :: 0 <= j < |results| ==> !Reports(results[j], ip)
  {
    if results != [] {
      NothingKept(results[..|results| - 1], ip);
    }
  }

  /** What the merge keeps is the report of the first agent with the largest count. */
  lemma {:induction false} FirstLargestIndex(results: seq<AgentResult>, ip: string) returns (i: nat)
    requires Best(results, ip).Some?
    ensures i < |results| && Reports(results[i], ip) && IsFirstLargest(results, ip, i)
    ensures Best(results, ip) == Some(results[i].stats[ip])
  {
    var n := |results| - 1;
    var before, last := results[..n], results[n];
    assert results == before + [last];
    NothingKept(before, ip);
    if Best(before, ip).None? {
      i := n;
      TakesLast(before, last, ip);
    } else {
      i := FirstLargestIndex(before, ip);
      if Reports(last, ip) && last.stats[ip].sampleCount > before[i].stats[ip].sampleCount {
        i := n;
        TakesLast(before, last, ip);
      } else {
        KeepsFirst(before, last, ip, i);
      }
    }
  }

  lemma BestIsFirstLargest(results: seq<AgentResult>, ip: string)
    ensures Best(results, ip).Some? <==> Reported(results, ip)
    ensures Best(results, ip).Some? ==> KeptFrom(results, ip, Best(results, ip).value)
  {
    if Best(results, ip).Some? {
      var _ := FirstLargestIndex(results, ip);
    } else {
      NothingKept(results, ip);
    }
  }

  /** Results are in the order the channel delivers them, which is a race between the agents; within one
      result the map iteration takes any order. */
  method GetLatencies(results: seq<AgentResult>) returns (r: Latencies)
    ensures r.NoEndpoints? <==> results == []
    ensures r.Merged? ==> forall ip :: At(r.stats, ip) == Best(results, ip)
    ensures r.Merged? ==> forall ip :: ip in r.stats <==> Reported(results, ip)
    ensures r.Merged? ==> forall ip :: ip in r.stats ==> KeptFrom(results, ip, r.stats[ip])
    ensures r.AllFailed? <==> results != [] && Silent(results) && exists e :: Failed(e) in results
    ensures r.AllFailed? ==> exists i :: 0 <= i < |results| && LastFailure(results, i, r.lastError)
  {
    if |results| == 0 {
      return NoEndpoints;
    }
    var aggregated: map<string, Stats> := map[];
    var lastErr: Option<string> := None;
    for i := 0 to |results|
      invariant forall ip :: At(aggregated, ip) == Best(results[..i], ip)
      invariant lastErr.Some? ==> exists k :: 0 <= k < i && LastFailure(results[..i], k, lastErr.value)
      invariant lastErr.None? ==> forall e :: Failed(e) !in results[..i]
    {
      assert results[..i + 1] == results[..i] + [results[i]];
      forall ip
        ensures Best(results[..i + 1], ip) == Larger(Best(results[..i], ip), ReportOf(results[i], ip))
      {
        BestStep(results[..i], results[i], ip);
      }
      if results[i].Failed? {
        lastErr := Some(results[i].error);
        assert LastFailure(results[..i + 1], i, results[i].error);
        continue;
      }
      if lastErr.Some? {
        ghost var k :| 0 <= k < i && LastFailure(results[..i], k, lastErr.value);
        assert LastFailure(results[..i + 1], k, lastErr.value);
      }
      aggregated := MergeOne(aggregated, results[i].stats);
    }
    assert results[..|results|] == results;
    EmptyMerge(results);
    forall ip
      ensures Best(results, ip).Some? <==> Reported(results, ip)
      ensures Best(results, ip).Some? ==> KeptFrom(results, ip, Best(results, ip).value)
    {
      BestIsFirstLargest(results, ip);
    }
    if aggregated != map[] {
      var ip :| ip in aggregated;
      assert Best(results, ip) == At(aggregated, ip);
    }
    if |aggregated| == 0 && lastErr.Some? {
      return AllFailed(lastErr.value);
    }
    return Merged(aggregated);
  }

  method MergeOne(aggregated: map<string, Stats>, stats: map<string, Stats>) returns (merged: map<string, Stats>)
    ensures forall ip :: At(merged, ip) == Larger(At(aggregated, ip), At(stats, ip))
  {
    merged := aggregated;
    var rest := stats.Keys;
    while rest != {}
      invariant rest <= stats.Keys
      invariant forall ip ::
        At(merged, ip) == if ip in rest then At(aggregated, ip) else Larger(At(aggregated, ip), At(stats, ip))
      decreases |rest|
    {
      var ip :| ip in rest;
      rest := rest - {ip};
      assert At(merged, ip) == At(aggregated, ip);
      if ip !in merged || stats[ip].sampleCount > merged[ip].sampleCount {
        merged := merged[ip := stats[ip]];
      }
    }
  }

  // ---------- the merge does not depend on the race ----------

  ghost predicate IsReport(results: seq<AgentResult>, ip: string, s: Stats) {
    exists r :: r in results && ReportOf(r, ip) == Some(s)
  }

  ghost predicate IsLargest(results: seq<AgentResult>, ip: string, s: Stats) {
    IsReport(results, ip, s) && forall s' :: IsReport(results, ip, s') ==> s'.sampleCount <= s.sampleCount
  }

  /** An IP is kept exactly when some agent reported it, with a report of the largest sample count. */
  lemma {:induction false} BestIsLargest(results: seq<AgentResult>, ip: string)
    ensures Best(results, ip).None? ==> forall s :: !IsReport(results, ip, s)
    ensures Best(results, ip).Some? ==> IsLargest(results, ip, Best(results, ip).value)
  {
    if results != [] {
      var before, r := results[..|results| - 1], results[|results| - 1];
      assert results == before + [r];
      BestIsLargest(before, ip);
      assert forall s :: IsReport(results, ip, s) <==> IsReport(before, ip, s) || ReportOf(r, ip) == Some(s) by {
        assert r in results;
        assert forall q :: q in results <==> q in before || q == r;
      }
    }
  }

  /** No two different reports for the IP share the largest sample count. */
  ghost predicate Untied(results: seq<AgentResult>, ip: string) {
    forall s, s' :: IsLargest(results, ip, s) && IsLargest(results, ip, s') ==> s == s'
  }

  /** In whatever order the agents answer: the same IPs, with the same sample counts, and without ties for
      the largest count the same reports; and the same answer to whether the whole merge fails. */
  lemma MergeConfluence(results: seq<AgentResult>, results': seq<AgentResult>, ip: string)
    requires multiset(results) == multiset(results')
    ensures Best(results, ip).Some? <==> Best(results', ip).Some?
    ensures Best(results, ip).Some? ==> Best(results, ip).value.sampleCount == Best(results', ip).value.sampleCount
    ensures Untied(results, ip) ==> Best(results, ip) == Best(results', ip)
    ensures Silent(results) <==> Silent(results')
    ensures (exists e :: Failed(e) in results) <==> (exists e :: Failed(e) in results')
  {
    SameMembers(results, results');
    BestIsLargest(results, ip);
    BestIsLargest(results', ip);
    assert forall s :: IsReport(results, ip, s) <==> IsReport(results', ip, s);
    if Best(results', ip).Some? {
      assert IsLargest(results, ip, Best(results', ip).value);
    }
  }

  lemma SameMembers(results: seq<AgentResult>, results': seq<AgentResult>)
    requires multiset(results) == multiset(results')
    ensures forall r :: r in results <==> r in results'
  {
    assert forall r :: r in results <==> r in multiset(results);
    assert forall r :: r in results' <==> r in multiset(results');
  }

  /** No agent that answered reported anything. */
  ghost predicate Silent(results: seq<AgentResult>) {
    forall r :: r in results && r.Fetched? ==> r.stats == map[]
  }

  lemma SilentHasNoReports(results: seq<AgentResult>)
    ensures Silent(results) <==> forall ip, s :: !IsReport(results, ip, s)
  {
    if !Silent(results) {
      var r :| r in results && r.Fetched? && r.stats != map[];
      var ip :| ip in r.stats;
      assert ReportOf(r, ip) == Some(r.stats[ip]);
      assert IsReport(results, ip, r.stats[ip]);
    }
  }

  /** The merge is empty exactly when no agent reported anything, in whatever order they answered. */
  lemma EmptyMerge(results: seq<AgentResult>)
    ensures (forall ip :: Best(results, ip).None?) <==> Silent(results)
  {
    SilentHasNoReports(results);
    forall ip
      ensures Best(results, ip).None? <==> forall s :: !IsReport(results, ip, s)
    {
      BestIsLargest(results, ip);
    }
    if !Silent(results) {
      var ip, s :| IsReport(results, ip, s);
      assert Best(results, ip).Some?;
    }
  }

  // ---------- and when it does ----------

  /** A report that arrives first and is not exceeded stays. */
  lemma {:induction false} FirstLargestStays(r: AgentResult, rest: seq<AgentResult>, ip: string, s: Stats)
    requires ReportOf(r, ip) == Some(s)
    requires forall q :: q in rest && ReportOf(q, ip).Some? ==> ReportOf(q, ip).value.sampleCount <= s.sampleCount
    ensures Best([r] + rest, ip) == Some(s)
  {
    if rest == [] {
      BestStep([], r, ip);
      assert [] + [r] == [r] + rest;
    } else {
      var before, last := rest[..|rest| - 1], rest[|rest| - 1];
      FirstLargestStays(r, before, ip, s);
      BestStep([r] + before, last, ip);
      assert [r] + rest == [r] + before + [last];
    }
  }

  /** Every report of the largest sample count is the one kept, if its agent answers first. */
  lemma AnyLargestCanWin(results: seq<AgentResult>, ip: string, s: Stats) returns (results': seq<AgentResult>)
    requires IsLargest(results, ip, s)
    ensures multiset(results') == multiset(results) && Best(results', ip) == Some(s)
  {
    var r :| r in results && ReportOf(r, ip) == Some(s);
    var i :| 0 <= i < |results| && results[i] == r;
    var rest := results[..i] + results[i + 1..];
    results' := [r] + rest;
    assert results == results[..i] + [r] + results[i + 1..];
    forall q | q in rest && ReportOf(q, ip).Some?
      ensures ReportOf(q, ip).value.sampleCount <= s.sampleCount
    {
      assert q in results;
      assert IsReport(results, ip, ReportOf(q, ip).value);
    }
    FirstLargestStays(r, rest, ip, s);
  }

  /** The report kept for an IP is the same in every order of arrival exactly when the largest sample count
      belongs to one report only: otherwise each of those that tie is kept in some order. */
  lemma OrderFreeIff(results: seq<AgentResult>, ip: string)
    ensures Untied(results, ip) <==>
      forall results' :: multiset(results') == multiset(results) ==> Best(results', ip) == Best(results, ip)
  {
    forall results' | multiset(results') == multiset(results) && Untied(results, ip)
      ensures Best(results', ip) == Best(results, ip)
    {
      MergeConfluence(results, results', ip);
    }
    if !Untied(results, ip) {
      var s, s' :| IsLargest(results, ip, s) && IsLargest(results, ip, s') && s != s';
      var _ := AnyLargestCanWin(results, ip, s);
      var _ := AnyLargestCanWin(results, ip, s');
    }
  }

  /** Of two different reports with the same count, the one that arrives first is kept. */
  lemma TiesDependOnOrder(ip: string, a: Stats, b: Stats)
    requires a.sampleCount == b.sampleCount
    ensures Best([Fetched(map[ip := a])] + [Fetched(map[ip := b])], ip) == Some(a)
    ensures Best([Fetched(map[ip := b])] + [Fetched(map[ip := a])], ip) == Some(b)
  {
    var first, second := Fetched(map[ip := a]), Fetched(map[ip := b]);
    BestStep([], first, ip);
    BestStep([], second, ip);
    assert [] + [first] == [first] && [] + [second] == [second];
    BestStep([first], second, ip);
    BestStep([second], first, ip);
  }
}
