/** The kernel's matching of sends to receives (internal/ebpf/bpf/tcp_latency.c).  Each hook is one atomic step. */
module TcpLatency {
  import opened Arithmetic
  import opened EventCodec
  import opened GoInt
  import opened Options
  import Collector

  const MAX_ENTRIES := 65536
  const MAX_RTT_NS := 30_000_000_000

  datatype FlowKey = FlowKey(srcIP: uint32, dstIP: uint32, srcPort: uint16, dstPort: uint16)

  datatype Agg = Agg(totalRttNs: uint64, sampleCount: uint64, maxRttNs: uint64, minRttNs: uint64)

  /** Unsigned 64-bit subtraction and addition wrap around. */
  function Sub64(a: uint64, b: uint64): (r: uint64)
    ensures (a - b) % 0x1_0000_0000_0000_0000 == r
  {
    if a >= b then a - b else a - b + TWO_64
  }

  function Add64(a: uint64, b: uint64): (r: uint64)
    ensures (a + b) % 0x1_0000_0000_0000_0000 == r
  {
    if a + b < TWO_64 then a + b else a + b - TWO_64
  }

  /** The fate of one hook call; a ring-buffer reservation may fail. */
  datatype Hook = Sent(key: FlowKey, at: uint64) | Received(key: FlowKey, at: uint64, reserved: bool)

  // ---------- what a run of hooks leaves in the maps ----------

  /** bpf_map_update_elem fails only for a new key in a full map, and the program ignores that. */
  function Put<K, V>(m: map<K, V>, k: K, v: V): map<K, V> {
    if k in m || |m| < MAX_ENTRIES then m[k := v] else m
  }

  function Lookup<K, V>(m: map<K, V>, k: K): Option<V> {
    if k in m then Some(m[k]) else None
  }

  type Stamped = map<FlowKey, uint64>

  function StampsAfter(stamps: Stamped, h: Hook): Stamped {
    match h
    case Sent(key, at) => Put(stamps, key, at)
    case Received(key, _, _) => stamps - {key}
  }

  function Stamps(log: seq<Hook>): Stamped {
    if log == [] then map[] else StampsAfter(Stamps(log[..|log| - 1]), log[|log| - 1])
  }

  /** The sample that call h makes with the stamps it finds, if any. */
  function Sample(stamps: Stamped, h: Hook): Option<uint64> {
    if h.Received? && h.key in stamps && Sub64(h.at, stamps[h.key]) <= MAX_RTT_NS
    then Some(Sub64(h.at, stamps[h.key]))
    else None
  }

  /** The sample made by call i of a run. */
  function SampleAt(log: seq<Hook>, i: nat): Option<uint64>
    requires i < |log|
  {
    Sample(Stamps(log[..i]), log[i])
  }

  function Aggregated(kept: Option<Agg>, rtt: uint64): Agg {
    match kept
    case None => Agg(rtt, 1, rtt, rtt)
    case Some(a) => Agg(
      Add64(a.totalRttNs, rtt),
      Add64(a.sampleCount, 1),
      if rtt > a.maxRttNs then rtt else a.maxRttNs,
      if rtt < a.minRttNs || a.minRttNs == 0 then rtt else a.minRttNs)
  }

  function AggregatesAfter(aggs: map<uint32, Agg>, dst: uint32, sample: Option<uint64>): map<uint32, Agg> {
    match sample
    case None => aggs
    case Some(rtt) => Put(aggs, dst, Aggregated(Lookup(aggs, dst), rtt))
  }

  function Aggregates(log: seq<Hook>): map<uint32, Agg> {
    if log == [] then map[]
    else AggregatesAfter(Aggregates(log[..|log| - 1]), log[|log| - 1].key.dstIP, SampleAt(log, |log| - 1))
  }

  function EventsOf(h: Hook, sample: Option<uint64>): seq<LatencyEvent> {
    if sample.Some? && h.Received? && h.reserved
    then [LatencyEvent(h.key.srcIP, h.key.dstIP, h.key.srcPort, h.key.dstPort, sample.value, h.at)]
    else []
  }

  /** All events ever submitted to the ring buffer. */
  function Submitted(log: seq<Hook>): seq<LatencyEvent> {
    if log == [] then []
    else Submitted(log[..|log| - 1]) + EventsOf(log[|log| - 1], SampleAt(log, |log| - 1))
  }

  lemma RunStep(log: seq<Hook>, h: Hook)
    ensures var sample := Sample(Stamps(log), h);
      && Stamps(log + [h]) == StampsAfter(Stamps(log), h)
      && SampleAt(log + [h], |log|) == sample
      && Aggregates(log + [h]) == AggregatesAfter(Aggregates(log), h.key.dstIP, sample)
      && Submitted(log + [h]) == Submitted(log) + EventsOf(h, sample)
  {
    assert (log + [h])[..|log|] == log;
  }

  lemma NoSampleStep(log: seq<Hook>, h: Hook)
    requires Sample(Stamps(log), h) == None
    ensures Aggregates(log + [h]) == Aggregates(log) && Submitted(log + [h]) == Submitted(log)
  {
    RunStep(log, h);
  }

  lemma ReceiveStep(log: seq<Hook>, key: FlowKey, now: uint64, reserved: bool)
    ensures Stamps(log + [Received(key, now, reserved)]) == Stamps(log) - {key}
    ensures key !in Stamps(log) ==> Stamps(log) - {key} == Stamps(log)
  {
  }

  class Programs {
    var tcpSendTimestamps: map<FlowKey, uint64>
    var latencyEvents: seq<LatencyEvent>
    var perIPLatency: map<uint32, Agg>
    ghost var log: seq<Hook>

    ghost predicate Valid()
      reads this
    {
      && tcpSendTimestamps == Stamps(log)
      && perIPLatency == Aggregates(log)
      && latencyEvents == Submitted(log)
    }

    constructor ()
      ensures Valid() && log == []
    {
      tcpSendTimestamps, latencyEvents, perIPLatency, log := map[], [], map[], [];
    }

    method TcpSendmsg(key: FlowKey, ts: uint64)
      requires Valid()
      modifies this
      ensures Valid() && log == old(log) + [Sent(key, ts)]
    {
      RunStep(log, Sent(key, ts));
      tcpSendTimestamps := Put(tcpSendTimestamps, key, ts);
      log := log + [Sent(key, ts)];
    }

    method TcpRcvEstablished(key: FlowKey, now: uint64, reserved: bool)
      requires Valid()
      modifies this
      ensures Valid() && log == old(log) + [Received(key, now, reserved)]
    {
      ghost var before, h := log, Received(key, now, reserved);
      log := log + [h];
      ReceiveStep(before, key, now, reserved);
      if key !in tcpSendTimestamps {
        NoSampleStep(before, h);
        return;
      }
      var rtt := Sub64(now, tcpSendTimestamps[key]);
      tcpSendTimestamps := tcpSendTimestamps - {key};
      if rtt > MAX_RTT_NS {
        NoSampleStep(before, h);
        return;
      }
      RunStep(before, h);
      if reserved {
        latencyEvents := latencyEvents +
          [LatencyEvent(key.srcIP, key.dstIP, key.srcPort, key.dstPort, rtt, now)];
      }
      if key.dstIP in perIPLatency {
        var agg := Accumulate(perIPLatency[key.dstIP], rtt);
        perIPLatency := perIPLatency[key.dstIP := agg];
      } else {
        perIPLatency := Put(perIPLatency, key.dstIP, Agg(rtt, 1, rtt, rtt));
      }
    }
  }

  method Accumulate(kept: Agg, rtt: uint64) returns (agg: Agg)
    ensures agg == Aggregated(Some(kept), rtt)
  {
    agg := kept;
    agg := agg.(totalRttNs := Add64(agg.totalRttNs, rtt));
    agg := agg.(sampleCount := Add64(agg.sampleCount, 1));
    if rtt > agg.maxRttNs {
      agg := agg.(maxRttNs := rtt);
    }
    if rtt < agg.minRttNs || agg.minRttNs == 0 {
      agg := agg.(minRttNs := rtt);
    }
  }

  // ---------- matching ----------

  /** The latest call for a flow. */
  function LastOf(log: seq<Hook>, key: FlowKey): (r: Option<nat>)
    ensures r.Some? ==> r.value < |log| && log[r.value].key == key
    ensures forall i :: 0 <= i < |log| && log[i].key == key ==> r.Some? && i <= r.value
  {
    if log == [] then None
    else if log[|log| - 1].key == key then Some(|log| - 1)
    else LastOf(log[..|log| - 1], key)
  }

  /** A send that is lost because its flow is new and the map is full. */
  predicate Dropped(log: seq<Hook>, j: nat)
    requires j < |log|
  {
    log[j].key !in Stamps(log[..j]) && |Stamps(log[..j])| >= 65536
  }

  /** A flow has a stamp exactly when its latest call is a send that was not dropped, and then that send's. */
  lemma {:induction false} StampIsLatestSend(log: seq<Hook>, key: FlowKey)
    ensures key in Stamps(log) <==>
      LastOf(log, key).Some? && log[LastOf(log, key).value].Sent? && !Dropped(log, LastOf(log, key).value)
    ensures key in Stamps(log) ==> Stamps(log)[key] == log[LastOf(log, key).value].at
  {
    if log != [] {
      var n := |log| - 1;
      var before := log[..n];
      assert log == before + [log[n]];
      RunStep(before, log[n]);
      if log[n].key != key {
        StampIsLatestSend(before, key);
        assert LastOf(log, key) == LastOf(before, key);
        if LastOf(before, key).Some? {
          assert before[..LastOf(before, key).value] == log[..LastOf(before, key).value];
        }
      }
    }
  }

  /** The clock the hooks read never goes back. */
  ghost predicate Monotone(log: seq<Hook>) {
    forall i, j :: 0 <= i < j < |log| ==> log[i].at <= log[j].at
  }

  /** The send a sample is measured from. */
  function Source(log: seq<Hook>, i: nat): Option<nat>
    requires i < |log|
  {
    LastOf(log[..i], log[i].key)
  }

  /** A receive makes a sample exactly when the latest call of its flow is a stored send at most 30 seconds
      ago, and the sample is the time since that send. */
  lemma SampleRule(log: seq<Hook>, i: nat)
    requires i < |log| && log[i].Received? && Monotone(log)
    ensures SampleAt(log, i).Some? <==>
      var j := Source(log, i);
      j.Some? && log[j.value].Sent? && !Dropped(log, j.value) && log[i].at - log[j.value].at <= MAX_RTT_NS
    ensures SampleAt(log, i).Some? ==> SampleAt(log, i).value == log[i].at - log[Source(log, i).value].at
  {
    StampIsLatestSend(log[..i], log[i].key);
    var j := Source(log, i);
    if j.Some? {
      assert log[..i][..j.value] == log[..j.value];
      assert log[..i][j.value] == log[j.value];
    }
  }

  /** No two samples are measured from the same send. */
  lemma StampUsedOnce(log: seq<Hook>, i: nat, i': nat)
    requires i < i' < |log| && SampleAt(log, i).Some? && SampleAt(log, i').Some?
    ensures Source(log, i) != Source(log, i')
  {
    StampIsLatestSend(log[..i], log[i].key);
    StampIsLatestSend(log[..i'], log[i'].key);
    var j, j' := Source(log, i), Source(log, i');
    assert log[..i][j.value] == log[j.value] && log[..i'][j'.value] == log[j'.value];
    if log[i].key == log[i'].key {
      assert log[..i'][i] == log[i];
    }
  }

  // ---------- aggregates ----------

  /** The accepted round-trip times to one destination. */
  function Rtts(log: seq<Hook>, dst: uint32): seq<uint64> {
    if log == [] then []
    else Rtts(log[..|log| - 1], dst) + Share(log[|log| - 1], SampleAt(log, |log| - 1), dst)
  }

  function Share(h: Hook, sample: Option<uint64>, dst: uint32): seq<uint64> {
    if sample.Some? && h.key.dstIP == dst then [sample.value] else []
  }

  function Fold(rs: seq<uint64>): Option<Agg> {
    if rs == [] then None else Some(Aggregated(Fold(rs[..|rs| - 1]), rs[|rs| - 1]))
  }

  lemma FoldStep(rs: seq<uint64>, r: uint64)
    ensures Fold(rs + [r]) == Some(Aggregated(Fold(rs), r))
  {
    assert (rs + [r])[..|rs|] == rs;
  }

  /** A destination's aggregate covers all its accepted times; it has none only if it has no accepted times
      or was first seen with the map full. */
  lemma {:induction false} AggregateCoversRtts(log: seq<Hook>, dst: uint32)
    ensures dst in Aggregates(log) ==> Some(Aggregates(log)[dst]) == Fold(Rtts(log, dst))
    ensures dst !in Aggregates(log) && Rtts(log, dst) != [] ==> |Aggregates(log)| >= 65536
  {
    if log != [] {
      var before, n := log[..|log| - 1], |log| - 1;
      AggregateCoversRtts(before, dst);
      var aggs, d, sample := Aggregates(before), log[n].key.dstIP, SampleAt(log, n);
      if sample.Some? && d == dst {
        FoldStep(Rtts(before, dst), sample.value);
      } else {
        assert Rtts(log, dst) == Rtts(before, dst);
        PutGrows(aggs, d, Aggregated(Lookup(aggs, d), if sample.Some? then sample.value else 0));
      }
    }
  }

  lemma PutGrows<K, V>(m: map<K, V>, k: K, v: V)
    ensures |Put(m, k, v)| >= |m|
  {
  }

  ghost predicate IsMaximum(rs: seq<uint64>, m: int) { m in rs && forall r :: r in rs ==> r <= m }

  ghost predicate IsMinimum(rs: seq<uint64>, m: int) { m in rs && forall r :: r in rs ==> m <= r }

  lemma ModAdd(x: int, r: uint64)
    requires x >= 0
    ensures Add64(x % TWO_64, r) == (x + r) % TWO_64
  {
  }

  lemma {:induction false} SumIsNatural(rs: seq<uint64>)
    ensures Sum(rs) >= 0
  {
    if rs != [] {
      SumIsNatural(rs[..|rs| - 1]);
    }
  }

  /** Count, total and maximum of an aggregate, modulo 2^64. */
  lemma {:induction false} FoldTotals(rs: seq<uint64>)
    requires rs != []
    ensures Fold(rs).value.sampleCount == |rs| % TWO_64
    ensures Fold(rs).value.totalRttNs == Sum(rs) % TWO_64
    ensures IsMaximum(rs, Fold(rs).value.maxRttNs)
  {
    var before, r := rs[..|rs| - 1], rs[|rs| - 1];
    assert rs == before + [r];
    if before == [] {
      assert Sum(rs) == r;
    } else {
      FoldTotals(before);
      SumIsNatural(before);
      ModAdd(|before|, 1);
      ModAdd(Sum(before), r);
    }
  }

  /** The kept minimum is the minimum exactly when no time was zero, or the last one is: a zero is taken
      for "unset" by the next sample. */
  lemma {:induction false} FoldMinimum(rs: seq<uint64>)
    requires rs != []
    ensures IsMinimum(rs, Fold(rs).value.minRttNs) <==> 0 !in rs || rs[|rs| - 1] == 0
    ensures Fold(rs).value.minRttNs == 0 <==> rs[|rs| - 1] == 0
    ensures Fold(rs).value.minRttNs in rs
  {
    var before, r := rs[..|rs| - 1], rs[|rs| - 1];
    assert rs == before + [r];
    assert forall x :: x in rs <==> x in before || x == r;
    if before != [] {
      FoldMinimum(before);
    }
  }

  /** What an aggregate says about its destination's accepted round-trip times. */
  lemma Conservation(log: seq<Hook>, dst: uint32)
    requires dst in Aggregates(log)
    ensures var agg, rs := Aggregates(log)[dst], Rtts(log, dst);
      && rs != []
      && agg.sampleCount == |rs| % TWO_64
      && agg.totalRttNs == Sum(rs) % TWO_64
      && IsMaximum(rs, agg.maxRttNs)
      && (IsMinimum(rs, agg.minRttNs) <==> 0 !in rs || rs[|rs| - 1] == 0)
      && forall r :: r in rs ==> r <= 30_000_000_000
  {
    AggregateCoversRtts(log, dst);
    FoldTotals(Rtts(log, dst));
    FoldMinimum(Rtts(log, dst));
    RttsAreShort(log, dst);
  }

  lemma {:induction false} RttsAreShort(log: seq<Hook>, dst: uint32)
    ensures forall r :: r in Rtts(log, dst) ==> r <= MAX_RTT_NS
  {
    if log != [] {
      RttsAreShort(log[..|log| - 1], dst);
    }
  }

  lemma RttsStep(log: seq<Hook>, h: Hook, dst: uint32)
    ensures Rtts(log + [h], dst) == Rtts(log, dst) + Share(h, Sample(Stamps(log), h), dst)
  {
    RunStep(log, h);
    assert (log + [h])[..|log|] == log;
  }

  predicate Leaves(log: seq<Hook>, dst: uint32, stamps: Stamped, aggs: map<uint32, Agg>, rs: seq<uint64>) {
    Stamps(log) == stamps && Aggregates(log) == aggs && Rtts(log, dst) == rs
  }

  lemma SendLeaves(log: seq<Hook>, key: FlowKey, at: uint64, stamps: Stamped, aggs: map<uint32, Agg>, rs: seq<uint64>)
    requires Leaves(log, key.dstIP, stamps, aggs, rs) && |stamps| < MAX_ENTRIES
    ensures Leaves(log + [Sent(key, at)], key.dstIP, stamps[key := at], aggs, rs)
  {
    RunStep(log, Sent(key, at));
    RttsStep(log, Sent(key, at), key.dstIP);
  }

  lemma ReceiveLeaves(log: seq<Hook>, key: FlowKey, now: uint64, reserved: bool,
                      stamps: Stamped, aggs: map<uint32, Agg>, rs: seq<uint64>)
    requires Leaves(log, key.dstIP, stamps, aggs, rs) && |aggs| < MAX_ENTRIES
    requires key in stamps && Sub64(now, stamps[key]) <= MAX_RTT_NS
    ensures var rtt := Sub64(now, stamps[key]);
      Leaves(log + [Received(key, now, reserved)], key.dstIP, stamps - {key},
             aggs[key.dstIP := Aggregated(Lookup(aggs, key.dstIP), rtt)], rs + [rtt])
  {
    RunStep(log, Received(key, now, reserved));
    RttsStep(log, Received(key, now, reserved), key.dstIP);
  }

  function RoundTrip(log: seq<Hook>, key: FlowKey, at: uint64, now: uint64): seq<Hook> {
    log + [Sent(key, at)] + [Received(key, now, true)]
  }

  lemma RoundTripLeaves(log: seq<Hook>, key: FlowKey, at: uint64, now: uint64, aggs: map<uint32, Agg>, rs: seq<uint64>)
    requires Leaves(log, key.dstIP, map[], aggs, rs) && |aggs| < MAX_ENTRIES
    requires Sub64(now, at) <= MAX_RTT_NS
    ensures Leaves(RoundTrip(log, key, at, now), key.dstIP, map[],
                   aggs[key.dstIP := Aggregated(Lookup(aggs, key.dstIP), Sub64(now, at))], rs + [Sub64(now, at)])
  {
    SendLeaves(log, key, at, map[], aggs, rs);
    ReceiveLeaves(log + [Sent(key, at)], key, now, true, map[key := at], aggs, rs);
    assert map[key := at] - {key} == map[];
  }

  /** A run on which the kept minimum is wrong: a round trip too short for the clock, then a longer one. */
  lemma ZeroIsForgotten(key: FlowKey, at: uint64, now: uint64)
    requires at < now <= at + MAX_RTT_NS
    ensures Leaves(RoundTrip(RoundTrip([], key, at, at), key, at, now), key.dstIP,
                   map[], map[key.dstIP := Agg(now - at, 2, now - at, now - at)], [0, now - at])
    ensures !IsMinimum([0, now - at], now - at)
  {
    var rtt: uint64 := now - at;
    var once: map<uint32, Agg> := map[key.dstIP := Agg(0, 1, 0, 0)];
    RoundTripLeaves([], key, at, at, map[], []);
    assert [] + [0] == [0];
    RoundTripLeaves(RoundTrip([], key, at, at), key, at, now, once, [0]);
    assert [0] + [rtt] == [0, rtt];
    assert once[key.dstIP := Agg(rtt, 2, rtt, rtt)] == map[key.dstIP := Agg(rtt, 2, rtt, rtt)];
    assert 0 in [0, rtt];
  }

  /** The time since the latest call of the flow, in unsigned 64-bit arithmetic: of a clock that went back, a time far
      above any limit. */
  function Since(log: seq<Hook>, h: Hook): int {
    var sent := LastOf(log, h.key);
    if sent.Some? then Sub64(h.at, log[sent.value].at) else 0
  }

  /** A receive whose flow's latest call is a send that was stored, at most 30 seconds ago. */
  predicate Answers(log: seq<Hook>, h: Hook) {
    var sent := LastOf(log, h.key);
    && h.Received? && sent.Some? && log[sent.value].Sent? && !Dropped(log, sent.value)
    && Since(log, h) <= 30_000_000_000
  }

  lemma SampleMeaning(log: seq<Hook>, h: Hook)
    ensures Sample(Stamps(log), h).Some? <==> Answers(log, h)
    ensures Answers(log, h) ==> Sample(Stamps(log), h).value == Since(log, h)
  {
    StampIsLatestSend(log, h.key);
  }

  /** What a call adds to the ring buffer: an event with the flow, the time since its latest send and the time of
      receipt, when it answers that send and a reservation is to be had; nothing otherwise. */
  lemma EventRule(log: seq<Hook>, h: Hook)
    ensures var before, after := Submitted(log), Submitted(log + [h]);
      if Answers(log, h) && h.reserved then
        && |after| == |before| + 1 && before <= after
        && var e := after[|before|];
        && e.srcIP == h.key.srcIP && e.dstIP == h.key.dstIP
        && e.srcPort == h.key.srcPort && e.dstPort == h.key.dstPort
        && e.rttNs == Since(log, h) && e.timestampNs == h.at
      else after == before
  {
    RunStep(log, h);
    SampleMeaning(log, h);
  }

  /** And to the accepted times of a destination: the time since the send, when it answers one to that destination. */
  lemma AcceptedRule(log: seq<Hook>, h: Hook, dst: uint32)
    ensures Rtts([], dst) == []
    ensures var before, after := Rtts(log, dst), Rtts(log + [h], dst);
      if Answers(log, h) && h.key.dstIP == dst then
        |after| == |before| + 1 && before <= after && after[|before|] == Since(log, h)
      else after == before
  {
    RttsStep(log, h, dst);
    SampleMeaning(log, h);
  }

  // ---------- from the ring buffer to the sample windows ----------

  /** The collector's calls for a list of events. */
  function Recording(events: seq<LatencyEvent>): (ops: seq<Collector.Op>)
    ensures |ops| == |events|
  {
    if events == [] then []
    else
      var e := events[|events| - 1];
      Recording(events[..|events| - 1]) + [Collector.Recorded(UInt32ToIP(e.dstIP), e.rttNs)]
  }

  /** Events whose reservation fails are missing, and nothing else is. */
  ghost predicate AllReserved(log: seq<Hook>) {
    forall i :: 0 <= i < |log| && log[i].Received? ==> log[i].reserved
  }

  lemma RecordingStep(before: seq<LatencyEvent>, h: Hook, sample: Option<uint64>, dst: uint32)
    ensures Collector.History(Recording(before + EventsOf(h, sample)), UInt32ToIP(dst))
         == Collector.History(Recording(before), UInt32ToIP(dst))
            + if h.Received? && h.reserved then Share(h, sample, dst) else []
  {
    var events := EventsOf(h, sample);
    if events == [] {
      assert before + events == before;
    } else {
      var e := events[0];
      assert (before + events)[..|before|] == before && (before + events)[|before|] == e;
      Collector.HistoryStep(Recording(before), Collector.Recorded(UInt32ToIP(e.dstIP), e.rttNs), UInt32ToIP(dst));
      SameName(e.dstIP, dst);
    }
  }

  lemma SameName(x: uint32, y: uint32)
    ensures UInt32ToIP(x) == UInt32ToIP(y) <==> x == y
  {
    if UInt32ToIP(x) == UInt32ToIP(y) {
      UInt32ToIPInjective(x, y);
    }
  }

  /** A collector that records every submitted event keeps, under a destination's name, no more samples than
      the kernel accepted for that destination, and exactly its accepted times when no reservation failed. */
  lemma {:induction false} RingFeedsWindows(log: seq<Hook>, dst: uint32)
    ensures var h := Collector.History(Recording(Submitted(log)), UInt32ToIP(dst));
      && |h| <= |Rtts(log, dst)|
      && (AllReserved(log) ==> h == Rtts(log, dst))
  {
    if log != [] {
      var before, h := log[..|log| - 1], log[|log| - 1];
      RingFeedsWindows(before, dst);
      assert AllReserved(log) ==> AllReserved(before);
      RecordingStep(Submitted(before), h, SampleAt(log, |log| - 1), dst);
    }
  }
}
