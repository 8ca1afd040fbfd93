/** The agent's per-destination sample windows (internal/ebpf/collector.go). */
module Collector {
  import opened Order
  import opened Interpolation
  import opened EventCodec

  const MAX_SAMPLES := 10000

  datatype PodStats = PodStats(p50Us: int, p99Us: int, sampleCount: int, lastUpdated: int)

  datatype Op = Recorded(destination: string, rttNs: uint64) | Evicted(active: map<string, bool>) | Cleared

  predicate IsActive(active: map<string, bool>, ip: string) { ip in active && active[ip] }

  /** What one operation does to a destination's history. */
  function Extend(before: seq<uint64>, op: Op, ip: string): seq<uint64> {
    match op
    case Recorded(destination, rttNs) => if destination == ip then before + [rttNs] else before
    case Evicted(active) => if IsActive(active, ip) then before else []
    case Cleared => []
  }

  /** The round-trip times of one destination since it was last evicted or everything was reset. */
  function History(log: seq<Op>, ip: string): seq<uint64> {
    if log == [] then [] else Extend(History(log[..|log| - 1], ip), log[|log| - 1], ip)
  }

  lemma HistoryStep(log: seq<Op>, op: Op, ip: string)
    ensures History(log + [op], ip) == Extend(History(log, ip), op, ip)
  {
    assert (log + [op])[..|log|] == log;
  }

  function Window(h: seq<uint64>): (w: seq<uint64>)
    ensures |w| <= MAX_SAMPLES && |w| <= |h|
  {
    if |h| <= MAX_SAMPLES then h else h[|h| - MAX_SAMPLES..]
  }

  /** Appending to a window and trimming it gives the window of the longer history. */
  lemma WindowPush(h: seq<uint64>, x: uint64)
    ensures var w := Window(h) + [x];
      Window(h + [x]) == if |w| > MAX_SAMPLES then w[|w| - MAX_SAMPLES..] else w
  {
  }

  /** What is reported about a window. */
  function StatsOf(samples: seq<uint64>, now: int): PodStats {
    var sorted := SortInts(samples);
    PodStats(PercentileUint64(sorted, 50) / 1000, PercentileUint64(sorted, 99) / 1000, |samples|, now)
  }

  /** It depends on the multiset of the samples only, and puts the median at or below the 99th percentile. */
  lemma StatsLaws(samples: seq<uint64>, sorted: seq<int>, now: int)
    requires samples != [] && SortOf(sorted, samples)
    ensures StatsOf(samples, now).p50Us == PercentileUint64(sorted, 50) / 1000
    ensures StatsOf(samples, now).p99Us == PercentileUint64(sorted, 99) / 1000
    ensures 0 <= StatsOf(samples, now).p50Us <= StatsOf(samples, now).p99Us < 0x8000_0000_0000_0000
    ensures StatsOf(samples, now).sampleCount == |samples| && StatsOf(samples, now).lastUpdated == now
  {
    SortUnique(SortInts(samples), sorted);
    SameLength(sorted, samples);
    PercentileMonotone(sorted, 50, 99);
    PercentileBracket(sorted, 50);
    PercentileBracket(sorted, 99);
    assert sorted[0] in multiset(samples) && sorted[|sorted| - 1] in multiset(samples);
    assert forall x :: x in multiset(samples) ==> x in samples;
  }

  /** Each buffer is the end of its own destination's history, whatever else was recorded or evicted. */
  ghost predicate Reflects(samples: map<string, seq<uint64>>, log: seq<Op>) {
    && (forall ip :: ip in samples <==> History(log, ip) != [])
    && (forall ip :: ip in samples ==> samples[ip] == Window(History(log, ip)))
  }

  lemma RecordReflects(samples: map<string, seq<uint64>>, log: seq<Op>, ip: string, rttNs: uint64, w: seq<uint64>)
    requires Reflects(samples, log)
    requires w == Window(History(log, ip) + [rttNs])
    ensures Reflects(samples[ip := w], log + [Recorded(ip, rttNs)])
  {
  }

  class Collector {
    var samples: map<string, seq<uint64>>
    ghost var log: seq<Op>

    ghost predicate Valid()
      reads this
    {
      Reflects(samples, log)
    }

    constructor ()
      ensures Valid() && log == []
    {
      samples, log := map[], [];
    }

    method RecordEvent(evt: LatencyEvent)
      requires Valid()
      modifies this
      ensures Valid() && log == old(log) + [Recorded(UInt32ToIP(evt.dstIP), evt.rttNs)]
      ensures var ip := UInt32ToIP(evt.dstIP);
        var all := (if ip in old(samples) then old(samples)[ip] else []) + [evt.rttNs];
        samples == old(samples)[ip := if |all| > 10000 then all[|all| - 10000..] else all]
    {
      Append(UInt32ToIP(evt.dstIP), evt.rttNs);
    }

    method Append(ip: string, rttNs: uint64)
      requires Valid()
      modifies this
      ensures Valid() && log == old(log) + [Recorded(ip, rttNs)]
      ensures var all := (if ip in old(samples) then old(samples)[ip] else []) + [rttNs];
        samples == old(samples)[ip := if |all| > 10000 then all[|all| - 10000..] else all]
    {
      var w := (if ip in samples then samples[ip] else []) + [rttNs];
      WindowPush(History(log, ip), rttNs);
      if |w| > MAX_SAMPLES {
        w := w[|w| - MAX_SAMPLES..];
      }
      RecordReflects(samples, log, ip, rttNs, w);
      samples := samples[ip := w];
      log := log + [Recorded(ip, rttNs)];
    }

    method GetStats(now: int) returns (result: map<string, PodStats>)
      requires Valid()
      ensures forall ip :: ip in result <==> History(log, ip) != []
      ensures forall ip :: ip in result ==> result[ip] == StatsOf(Window(History(log, ip)), now)
      ensures result.Keys == samples.Keys && forall ip :: ip in result ==> result[ip] == StatsOf(samples[ip], now)
    {
      result := map[];
      var rest := samples.Keys;
      while rest != {}
        invariant rest <= samples.Keys
        invariant forall ip :: ip in result <==> ip in samples && ip !in rest
        invariant forall ip :: ip in result ==> result[ip] == StatsOf(samples[ip], now)
        decreases |rest|
      {
        var ip :| ip in rest;
        rest := rest - {ip};
        if |samples[ip]| == 0 {
          continue;
        }
        var sorted := SortInts(samples[ip]);
        result := result[ip := PodStats(
          PercentileUint64(sorted, 50) / 1000, PercentileUint64(sorted, 99) / 1000, |samples[ip]|, now)];
      }
    }

    /** An empty list of addresses asks for everything. */
    method GetStatsForIPs(ips: seq<string>, now: int) returns (result: map<string, PodStats>)
      requires Valid()
      ensures forall ip :: ip in result <==> History(log, ip) != [] && (ips == [] || ip in ips)
      ensures forall ip :: ip in result ==> result[ip] == StatsOf(Window(History(log, ip)), now)
      ensures forall ip :: ip in result <==> ip in samples && (ips == [] || ip in ips)
      ensures forall ip :: ip in result ==> result[ip] == StatsOf(samples[ip], now)
    {
      var all := GetStats(now);
      if |ips| == 0 {
        return all;
      }
      result := Filtered(all, ips);
    }

    static method Filtered(all: map<string, PodStats>, ips: seq<string>) returns (filtered: map<string, PodStats>)
      ensures forall ip :: ip in filtered <==> ip in all && ip in ips
      ensures forall ip :: ip in filtered ==> filtered[ip] == all[ip]
    {
      filtered := map[];
      for i := 0 to |ips|
        invariant forall ip :: ip in filtered <==> ip in all && ip in ips[..i]
        invariant forall ip :: ip in filtered ==> filtered[ip] == all[ip]
      {
        if ips[i] in all {
          filtered := filtered[ips[i] := all[ips[i]]];
        }
      }
      assert ips[..|ips|] == ips;
    }

    method Reset()
      requires Valid()
      modifies this
      ensures Valid() && log == old(log) + [Cleared]
      ensures samples == map[]
    {
      forall ip
        ensures History(log + [Cleared], ip) == []
      {
        HistoryStep(log, Cleared, ip);
      }
      samples := map[];
      log := log + [Cleared];
    }

    method EvictStale(activeIPs: map<string, bool>)
      requires Valid()
      modifies this
      ensures Valid() && log == old(log) + [Evicted(activeIPs)]
      ensures forall ip :: ip in samples <==> ip in old(samples) && ip in activeIPs && activeIPs[ip]
      ensures forall ip :: ip in samples ==> samples[ip] == old(samples)[ip]
    {
      forall ip
        ensures History(log + [Evicted(activeIPs)], ip) == if IsActive(activeIPs, ip) then History(log, ip) else []
      {
        HistoryStep(log, Evicted(activeIPs), ip);
      }
      var rest := samples.Keys;
      while rest != {}
        invariant log == old(log) && rest <= old(samples).Keys
        invariant forall ip :: ip in samples <==> ip in old(samples) && (ip in rest || IsActive(activeIPs, ip))
        invariant forall ip :: ip in samples ==> samples[ip] == old(samples)[ip]
        decreases |rest|
      {
        var ip :| ip in rest;
        rest := rest - {ip};
        if !IsActive(activeIPs, ip) {
          samples := samples - {ip};
        }
      }
      log := log + [Evicted(activeIPs)];
    }
  }
}
