/** What the fields of a breaker mean, in terms of the history of its calls, and how often it can eject. */
module BreakerHistory {
  import opened Arithmetic
  import opened CircuitBreaker

  // ---------- a pod's own history ----------

  /** What one pod sees: its readings and the recovery checks. */
  datatype Obs = Reading(p99: int, at: int) | Tick(at: int)

  /** The part of a run that concerns one pod, since it was last forgotten. */
  function Project(ops: seq<Op>, ip: string): seq<Obs> {
    if ops == [] then []
    else
      var before := Project(ops[..|ops| - 1], ip);
      match ops[|ops| - 1]
      case Record(other, p99, at) => if other == ip then before + [Reading(p99, at)] else before
      case Check(at) => if before == [] then [] else before + [Tick(at)]
      case Remove(other) => if other == ip then [] else before
      case Clear => []
  }

  function Step(cfg: Config, ps: PodState, o: Obs): PodState {
    match o
    case Reading(p99, at) => Observe(cfg, ps, p99, at)
    case Tick(at) => Recover(cfg, ps, at)
  }

  function PodRun(cfg: Config, obs: seq<Obs>): PodState {
    if obs == [] then FRESH else Step(cfg, PodRun(cfg, obs[..|obs| - 1]), obs[|obs| - 1])
  }

  /** An entry depends on nothing but its own pod's history: pods never influence each other. */
  lemma {:induction false} Locality(cfg: Config, ops: seq<Op>, ip: string)
    ensures ip in Run(cfg, ops) <==> Project(ops, ip) != []
    ensures Entry(Run(cfg, ops), ip) == PodRun(cfg, Project(ops, ip))
  {
    if ops != [] {
      Locality(cfg, ops[..|ops| - 1], ip);
      var before := Project(ops[..|ops| - 1], ip);
      match ops[|ops| - 1] {
        case Record(_, p99, at) =>
          assert (before + [Reading(p99, at)])[..|before|] == before;
        case Check(at) =>
          assert (before + [Tick(at)])[..|before|] == before;
        case _ =>
      }
    }
  }

  // ---------- the meaning of the violation count ----------

  /** A configured count below one acts as one. */
  function Required(cfg: Config): (n: int)
    ensures n >= 1
  {
    if cfg.consecutiveViolations < 1 then 1 else cfg.consecutiveViolations
  }

  /** Where the current stretch of Closed states begins. */
  function ClosedSince(cfg: Config, obs: seq<Obs>): (k: nat)
    requires PodRun(cfg, obs).state.Closed?
    ensures k <= |obs|
    decreases |obs|
  {
    if obs == [] || !PodRun(cfg, obs[..|obs| - 1]).state.Closed? then |obs|
    else ClosedSince(cfg, obs[..|obs| - 1])
  }

  /** The state is Closed after every prefix from there on, and was not just before. */
  lemma {:induction false} ClosedSinceMeaning(cfg: Config, obs: seq<Obs>, i: nat)
    requires PodRun(cfg, obs).state.Closed? && i <= |obs|
    ensures i >= ClosedSince(cfg, obs) ==> PodRun(cfg, obs[..i]).state.Closed?
    ensures i + 1 == ClosedSince(cfg, obs) ==> !PodRun(cfg, obs[..i]).state.Closed?
    decreases |obs|
  {
    if i == |obs| {
      assert obs[..i] == obs;
    } else {
      var before := obs[..|obs| - 1];
      assert before[..i] == obs[..i];
      if PodRun(cfg, before).state.Closed? {
        ClosedSinceMeaning(cfg, before, i);
      }
    }
  }

  function HeardIn(o: Obs): seq<int> {
    match o case Reading(p99, _) => [p99] case Tick(_) => []
  }

  function Readings(obs: seq<Obs>): seq<int> {
    if obs == [] then [] else Readings(obs[..|obs| - 1]) + HeardIn(obs[|obs| - 1])
  }

  /** The length of the longest run of readings above the threshold at the end of rs. */
  function Trailing(rs: seq<int>, threshold: int): (n: nat)
    ensures n <= |rs|
    ensures forall i :: |rs| - n <= i < |rs| ==> rs[i] > threshold
    ensures n < |rs| ==> rs[|rs| - n - 1] <= threshold
  {
    if rs == [] || rs[|rs| - 1] <= threshold then 0
    else 1 + Trailing(rs[..|rs| - 1], threshold)
  }

  /** The readings of the current Closed stretch. */
  function ClosedReadings(cfg: Config, obs: seq<Obs>): seq<int>
    requires PodRun(cfg, obs).state.Closed?
  {
    Readings(obs[ClosedSince(cfg, obs)..])
  }

  lemma ClosedReadingsStep(cfg: Config, before: seq<Obs>, o: Obs)
    requires PodRun(cfg, before).state.Closed?
    requires Step(cfg, PodRun(cfg, before), o).state.Closed?
    ensures PodRun(cfg, before + [o]) == Step(cfg, PodRun(cfg, before), o)
    ensures ClosedReadings(cfg, before + [o]) == ClosedReadings(cfg, before) + HeardIn(o)
  {
    PodRunStep(cfg, before, o);
    var k := ClosedSince(cfg, before);
    assert (before + [o])[..|before|] == before;
    assert (before + [o])[k..] == before[k..] + [o];
    assert (before[k..] + [o])[..|before[k..]|] == before[k..];
  }

  lemma TrailingStep(rs: seq<int>, p99: int, threshold: int)
    ensures Trailing(rs + [p99], threshold) == if p99 > threshold then Trailing(rs, threshold) + 1 else 0
  {
    assert (rs + [p99])[..|rs|] == rs;
  }

  /** The count of a Closed pod is the number of violations at the end of its current Closed stretch, and is
      short of what ejects; a pod that is not Closed keeps the count that ejected it. */
  predicate CountFits(cfg: Config, obs: seq<Obs>) {
    var ps := PodRun(cfg, obs);
    if ps.state.Closed? then
      ps.violationCount == Trailing(ClosedReadings(cfg, obs), cfg.p99Threshold) < Required(cfg)
    else
      ps.violationCount == Required(cfg)
  }

  /** In a Closed state, one more observation counts as the readings say. */
  lemma ClosedCountStep(cfg: Config, ps: PodState, rs: seq<int>, o: Obs)
    requires ps.state.Closed? && Step(cfg, ps, o).state.Closed?
    requires ps.violationCount == Trailing(rs, cfg.p99Threshold) < Required(cfg)
    ensures Step(cfg, ps, o).violationCount == Trailing(rs + HeardIn(o), cfg.p99Threshold) < Required(cfg)
  {
    if o.Reading? {
      TrailingStep(rs, o.p99, cfg.p99Threshold);
    } else {
      assert rs + HeardIn(o) == rs;
    }
  }

  lemma {:induction false} CountRefinesHistory(cfg: Config, obs: seq<Obs>)
    ensures CountFits(cfg, obs)
  {
    if obs != [] {
      var before, o := obs[..|obs| - 1], obs[|obs| - 1];
      assert obs == before + [o];
      CountRefinesHistory(cfg, before);
      PodRunStep(cfg, before, o);
      if PodRun(cfg, obs).state.Closed? {
        if PodRun(cfg, before).state.Closed? {
          ClosedCountStep(cfg, PodRun(cfg, before), ClosedReadings(cfg, before), o);
          ClosedReadingsStep(cfg, before, o);
        } else {
          assert ClosedReadings(cfg, obs) == [];
        }
      }
    }
  }

  /** A Closed pod is ejected by a reading exactly when that reading completes the required number of
      consecutive violations within its Closed stretch. */
  lemma EjectionRule(cfg: Config, obs: seq<Obs>, p99: int, at: int)
    requires PodRun(cfg, obs).state.Closed?
    ensures var rs := ClosedReadings(cfg, obs) + [p99];
      var n := Required(cfg);
      var after := PodRun(cfg, obs + [Reading(p99, at)]);
      && (after.state.Open? <==> |rs| >= n && forall i :: |rs| - n <= i < |rs| ==> rs[i] > cfg.p99Threshold)
      && (after.state.Open? ==> after.ejectedAt == at)
      && !after.state.HalfOpen?
  {
    CountRefinesHistory(cfg, obs);
    TrailingStep(ClosedReadings(cfg, obs), p99, cfg.p99Threshold);
    TrailingAtLeast(ClosedReadings(cfg, obs) + [p99], cfg.p99Threshold, Required(cfg));
    PodRunStep(cfg, obs, Reading(p99, at));
  }

  lemma PodRunStep(cfg: Config, obs: seq<Obs>, o: Obs)
    ensures PodRun(cfg, obs + [o]) == Step(cfg, PodRun(cfg, obs), o)
  {
    assert (obs + [o])[..|obs|] == obs;
  }

  lemma TrailingAtLeast(rs: seq<int>, threshold: int, n: int)
    requires n >= 1
    ensures Trailing(rs, threshold) >= n <==>
      |rs| >= n && forall i :: |rs| - n <= i < |rs| ==> rs[i] > threshold
  {
  }

  /** The same for the entries of a whole breaker; the count never overflows an int32. */
  lemma BreakerRefinesHistory(cfg: Config, ops: seq<Op>, ip: string)
    requires ip in Run(cfg, ops)
    ensures var ps, obs := Run(cfg, ops)[ip], Project(ops, ip);
      && obs != []
      && ps == PodRun(cfg, obs)
      && (if ps.state.Closed? then
            ps.violationCount == Trailing(ClosedReadings(cfg, obs), cfg.p99Threshold) < Required(cfg)
          else
            ps.violationCount == Required(cfg))
      && (cfg.consecutiveViolations < 0x8000_0000 ==> 0 <= ps.violationCount < 0x8000_0000)
  {
    Locality(cfg, ops, ip);
    CountRefinesHistory(cfg, Project(ops, ip));
  }

  // ---------- timing ----------

  predicate Timed(op: Op) { op.Record? || op.Check? }

  /** The clock never goes back. */
  ghost predicate Monotone(ops: seq<Op>) {
    forall i, j :: 0 <= i < j < |ops| && Timed(ops[i]) && Timed(ops[j]) ==> ops[i].at <= ops[j].at
  }

  predicate Forgets(op: Op, ip: string) { op.Clear? || (op.Remove? && op.podIP == ip) }

  predicate Ejects(cfg: Config, pods: Pods, op: Op, ip: string) {
    op.Record? && op.podIP == ip
    && !Entry(pods, ip).state.Open? && Entry(Apply(cfg, pods, op), ip).state.Open?
  }

  /** The instants at which a run ejects a pod. */
  function Ejections(cfg: Config, ops: seq<Op>, ip: string): seq<int> {
    if ops == [] then []
    else
      var before, op := ops[..|ops| - 1], ops[|ops| - 1];
      Ejections(cfg, before, ip) + if Ejects(cfg, Run(cfg, before), op, ip) then [op.at] else []
  }

  lemma EjectionsStep(cfg: Config, ops: seq<Op>, op: Op, ip: string)
    ensures Ejections(cfg, ops + [op], ip)
         == Ejections(cfg, ops, ip) + if Ejects(cfg, Run(cfg, ops), op, ip) then [op.at] else []
  {
    assert (ops + [op])[..|ops|] == ops;
  }

  ghost predicate NoLaterThan(ops: seq<Op>, t: int) {
    forall i :: 0 <= i < |ops| && Timed(ops[i]) ==> ops[i].at <= t
  }

  ghost predicate Spaced(times: seq<int>, gap: int) {
    forall i :: 0 <= i < |times| - 1 ==> times[i + 1] - times[i] >= gap
  }

  /** What a call makes of the pod's entry, when it does not forget it. */
  function Seen(cfg: Config, ps: PodState, op: Op, ip: string): PodState {
    if op.Record? && op.podIP == ip then Observe(cfg, ps, op.p99, op.at)
    else if op.Check? then Recover(cfg, ps, op.at)
    else ps
  }

  function EjectsAt(ps: PodState, after: PodState, op: Op, ip: string): seq<int> {
    if op.Record? && op.podIP == ip && !ps.state.Open? && after.state.Open? then [op.at] else []
  }

  lemma EntryStep(cfg: Config, ops: seq<Op>, op: Op, ip: string)
    requires !Forgets(op, ip)
    ensures var ps, ps' := Entry(Run(cfg, ops), ip), Entry(Run(cfg, ops + [op]), ip);
      ps' == Seen(cfg, ps, op, ip)
      && Ejections(cfg, ops + [op], ip) == Ejections(cfg, ops, ip) + EjectsAt(ps, ps', op, ip)
  {
    EjectionsStep(cfg, ops, op, ip);
    RunStep(cfg, ops, op);
  }

  /** Up to instant t: an Open pod remembers its last ejection, any other has had the interval since. */
  predicate Rested(es: seq<int>, ps: PodState, interval: int, t: int) {
    if ps.state.Open? then es != [] && ps.ejectedAt == es[|es| - 1]
    else es != [] ==> t - es[|es| - 1] >= interval
  }

  lemma EjectionStep(cfg: Config, es: seq<int>, ps: PodState, op: Op, ip: string, t': int, t: int)
    requires Spaced(es, cfg.recoveryInterval) && Rested(es, ps, cfg.recoveryInterval, t') && t' <= t
    requires Timed(op) ==> t' == op.at
    ensures var ps' := Seen(cfg, ps, op, ip);
      var es' := es + EjectsAt(ps, ps', op, ip);
      Spaced(es', cfg.recoveryInterval) && Rested(es', ps', cfg.recoveryInterval, t)
  {
  }

  /** The spacing so far, up to instant t. */
  ghost predicate KeepsSpacing(cfg: Config, ops: seq<Op>, ip: string, t: int) {
    && Spaced(Ejections(cfg, ops, ip), cfg.recoveryInterval)
    && Rested(Ejections(cfg, ops, ip), Entry(Run(cfg, ops), ip), cfg.recoveryInterval, t)
  }

  lemma SpacingStep(cfg: Config, ops: seq<Op>, op: Op, ip: string, t': int, t: int)
    requires KeepsSpacing(cfg, ops, ip, t') && t' <= t
    requires !Forgets(op, ip) && (Timed(op) ==> t' == op.at)
    ensures KeepsSpacing(cfg, ops + [op], ip, t)
  {
    EntryStep(cfg, ops, op, ip);
    EjectionStep(cfg, Ejections(cfg, ops, ip), Entry(Run(cfg, ops), ip), op, ip, t', t);
  }

  /** The calls go on from instant `now`, with a clock that never goes back, and never forget the pod. */
  ghost predicate Continues(more: seq<Op>, ip: string, now: int) {
    && Monotone(more)
    && (forall i :: 0 <= i < |more| && Timed(more[i]) ==> now <= more[i].at)
    && (forall i :: 0 <= i < |more| ==> !Forgets(more[i], ip))
  }

  lemma ContinuesBefore(more: seq<Op>, ip: string, now: int, t: int)
    requires more != [] && Continues(more, ip, now) && now <= t && NoLaterThan(more, t)
    ensures var t' := if Timed(more[|more| - 1]) then more[|more| - 1].at else t;
      Continues(more[..|more| - 1], ip, now) && now <= t' <= t && NoLaterThan(more[..|more| - 1], t')
  {
    forall i | 0 <= i < |more| - 1
      ensures more[..|more| - 1][i] == more[i]
    {
    }
  }

  /** Every continuation of a run that kept the spacing keeps it. */
  lemma {:induction false} EjectionInvariant(cfg: Config, ops: seq<Op>, more: seq<Op>, ip: string, now: int, t: int)
    requires KeepsSpacing(cfg, ops, ip, now)
    requires Continues(more, ip, now) && now <= t && NoLaterThan(more, t)
    ensures KeepsSpacing(cfg, ops + more, ip, t)
  {
    if more == [] {
      assert ops + more == ops;
    } else {
      var before, op := more[..|more| - 1], more[|more| - 1];
      var t' := if Timed(op) then op.at else t;
      ContinuesBefore(more, ip, now, t);
      EjectionInvariant(cfg, ops, before, ip, now, t');
      SpacingStep(cfg, ops + before, op, ip, t', t);
      assert ops + more == ops + before + [op];
    }
  }

  /** Two ejections of a pod are at least the recovery interval apart, over any interleaving of readings and
      recovery checks. */
  lemma EjectionSpacing(cfg: Config, ops: seq<Op>, ip: string)
    requires Monotone(ops)
    requires forall i :: 0 <= i < |ops| ==> !Forgets(ops[i], ip)
    ensures Spaced(Ejections(cfg, ops, ip), cfg.recoveryInterval)
  {
    EjectionInvariant(cfg, [], ops, ip, Earliest(ops), Latest(ops));
    assert [] + ops == ops;
  }

  function Latest(ops: seq<Op>): (t: int)
    ensures NoLaterThan(ops, t)
  {
    if ops == [] then 0
    else
      var t, op := Latest(ops[..|ops| - 1]), ops[|ops| - 1];
      if Timed(op) && op.at > t then op.at else t
  }

  function Earliest(ops: seq<Op>): (t: int)
    ensures t <= Latest(ops)
    ensures forall i :: 0 <= i < |ops| && Timed(ops[i]) ==> t <= ops[i].at
  {
    if ops == [] then 0
    else
      var t, op := Earliest(ops[..|ops| - 1]), ops[|ops| - 1];
      if Timed(op) && op.at < t then op.at else t
  }

  lemma {:induction false} SpacedSum(times: seq<int>, gap: int, i: nat, j: nat)
    requires Spaced(times, gap) && i <= j < |times|
    ensures times[j] - times[i] >= (j - i) * gap
  {
    if i < j {
      SpacedSum(times, gap, i, j - 1);
      assert (j - i) * gap == (j - 1 - i) * gap + gap;
      assert times[j - 1 + 1] - times[j - 1] >= gap;
    }
  }

  /** With a positive recovery interval, the ejections i to j of a pod that fall within a window of the given
      length number at most 1 + length / interval. */
  lemma EjectionRate(cfg: Config, ops: seq<Op>, ip: string, i: nat, j: nat, length: int)
    requires Monotone(ops) && cfg.recoveryInterval > 0
    requires forall k :: 0 <= k < |ops| ==> !Forgets(ops[k], ip)
    requires i <= j < |Ejections(cfg, ops, ip)|
    requires Ejections(cfg, ops, ip)[j] - Ejections(cfg, ops, ip)[i] <= length
    ensures j - i + 1 <= 1 + length / cfg.recoveryInterval
  {
    EjectionSpacing(cfg, ops, ip);
    SpacedSum(Ejections(cfg, ops, ip), cfg.recoveryInterval, i, j);
    Quotient(cfg.recoveryInterval, j - i, length);
  }

  // ---------- forgetting a pod ----------

  /** Readings of one pod above the threshold, all at one instant. */
  function Burst(cfg: Config, ip: string, at: int, n: nat): seq<Op> {
    seq(n, _ => Record(ip, cfg.p99Threshold + 1, at))
  }

  lemma BurstContinues(cfg: Config, ip: string, at: int, n: nat)
    ensures Continues(Burst(cfg, ip, at, n), ip, at)
  {
  }

  /** The pod is Closed with the given count, after the given ejections. */
  predicate CountsTo(cfg: Config, ops: seq<Op>, ip: string, n: nat, es: seq<int>) {
    var ps := Entry(Run(cfg, ops), ip);
    ps.state.Closed? && ps.violationCount == n && Ejections(cfg, ops, ip) == es
  }

  /** The pod was ejected at the given instant, after the given ejections, and is still Open. */
  predicate EjectedAt(cfg: Config, ops: seq<Op>, ip: string, at: int, es: seq<int>) {
    && Ejected(Run(cfg, ops), ip) && Run(cfg, ops)[ip].ejectedAt == at
    && Ejections(cfg, ops, ip) == es + [at]
  }

  lemma ViolationStep(cfg: Config, ops: seq<Op>, ip: string, at: int, n: nat, es: seq<int>)
    requires CountsTo(cfg, ops, ip, n, es) && n < Required(cfg)
    ensures var after := ops + [Record(ip, cfg.p99Threshold + 1, at)];
      if n + 1 < Required(cfg) then CountsTo(cfg, after, ip, n + 1, es) else EjectedAt(cfg, after, ip, at, es)
  {
    EntryStep(cfg, ops, Record(ip, cfg.p99Threshold + 1, at), ip);
  }

  lemma BurstStep(cfg: Config, ops: seq<Op>, ip: string, at: int, n: nat)
    requires n > 0
    ensures ops + Burst(cfg, ip, at, n) == ops + Burst(cfg, ip, at, n - 1) + [Record(ip, cfg.p99Threshold + 1, at)]
  {
  }

  /** A fresh pod is ejected by the last of as many violations as it takes. */
  lemma {:induction false} BurstEjects(cfg: Config, ops: seq<Op>, ip: string, at: int, n: nat, es: seq<int>)
    requires CountsTo(cfg, ops, ip, 0, es) && n <= Required(cfg)
    ensures var after := ops + Burst(cfg, ip, at, n);
      if n < Required(cfg) then CountsTo(cfg, after, ip, n, es) else EjectedAt(cfg, after, ip, at, es)
  {
    if n == 0 {
      assert ops + Burst(cfg, ip, at, 0) == ops;
    } else {
      BurstEjects(cfg, ops, ip, at, n - 1, es);
      ViolationStep(cfg, ops + Burst(cfg, ip, at, n - 1), ip, at, n - 1, es);
      BurstStep(cfg, ops, ip, at, n);
    }
  }

  lemma ForgottenIsFresh(cfg: Config, ops: seq<Op>, forget: Op, ip: string)
    requires Forgets(forget, ip)
    ensures CountsTo(cfg, ops + [forget], ip, 0, Ejections(cfg, ops, ip))
  {
    EjectionsStep(cfg, ops, forget, ip);
    RunStep(cfg, ops, forget);
  }

  lemma ForgettingIsSafe(cfg: Config, ops: seq<Op>, forget: Op, ip: string, now: int, more: seq<Op>)
    requires Spaced(Ejections(cfg, ops, ip), cfg.recoveryInterval)
    requires Forgets(forget, ip) && Continues(more, ip, now)
    requires var es := Ejections(cfg, ops, ip); es == [] || now - es[|es| - 1] >= cfg.recoveryInterval
    ensures Spaced(Ejections(cfg, ops + [forget] + more, ip), cfg.recoveryInterval)
  {
    ForgottenIsFresh(cfg, ops, forget, ip);
    var latest := Latest(more);
    EjectionInvariant(cfg, ops + [forget], more, ip, now, if latest < now then now else latest);
  }

  lemma TooClose(es: seq<int>, at: int, gap: int)
    requires es != [] && at - es[|es| - 1] < gap
    ensures !Spaced(es + [at], gap)
  {
    assert (es + [at])[|es| - 1 + 1] - (es + [at])[|es| - 1] < gap;
  }

  lemma ForgettingIsUnsafe(cfg: Config, ops: seq<Op>, forget: Op, ip: string, now: int) returns (more: seq<Op>)
    requires Forgets(forget, ip)
    requires var es := Ejections(cfg, ops, ip); es != [] && now - es[|es| - 1] < cfg.recoveryInterval
    ensures Continues(more, ip, now)
    ensures !Spaced(Ejections(cfg, ops + [forget] + more, ip), cfg.recoveryInterval)
  {
    var es, n := Ejections(cfg, ops, ip), Required(cfg);
    more := Burst(cfg, ip, now, n);
    BurstContinues(cfg, ip, now, n);
    ForgottenIsFresh(cfg, ops, forget, ip);
    BurstEjects(cfg, ops + [forget], ip, now, n, es);
    TooClose(es, now, cfg.recoveryInterval);
  }

  /** Forgetting a pod at instant `now` is safe, in that whatever is read from then on keeps its ejections apart,
      exactly when it was never ejected or the recovery interval has passed since it last was. */
  lemma ForgettingIsSafeIff(cfg: Config, ops: seq<Op>, forget: Op, ip: string, now: int)
    requires Spaced(Ejections(cfg, ops, ip), cfg.recoveryInterval)
    requires Forgets(forget, ip)
    ensures var es := Ejections(cfg, ops, ip);
      (forall more :: Continues(more, ip, now) ==>
         Spaced(Ejections(cfg, ops + [forget] + more, ip), cfg.recoveryInterval))
      <==> es == [] || now - es[|es| - 1] >= cfg.recoveryInterval
  {
    var es := Ejections(cfg, ops, ip);
    if es == [] || now - es[|es| - 1] >= cfg.recoveryInterval {
      forall more | Continues(more, ip, now) {
        ForgettingIsSafe(cfg, ops, forget, ip, now, more);
      }
    } else {
      var _ := ForgettingIsUnsafe(cfg, ops, forget, ip, now);
    }
  }

  lemma FreshBurst(cfg: Config, ip: string, at: int)
    ensures EjectedAt(cfg, Burst(cfg, ip, at, Required(cfg)), ip, at, [])
  {
    BurstEjects(cfg, [], ip, at, Required(cfg), []);
    assert [] + Burst(cfg, ip, at, Required(cfg)) == Burst(cfg, ip, at, Required(cfg));
  }

  lemma BurstsMonotone(cfg: Config, ip: string, at: int, n: nat)
    ensures Monotone(Burst(cfg, ip, at, n) + [Remove(ip)] + Burst(cfg, ip, at, n))
  {
  }

  /** An input on which it is not: enough violations, a removal, and as many again, all at one instant. */
  lemma RemovalBreaksSpacing(cfg: Config, ip: string, at: int)
    requires cfg.recoveryInterval > 0
    ensures var burst := Burst(cfg, ip, at, Required(cfg));
      && Monotone(burst + [Remove(ip)] + burst)
      && EjectedAt(cfg, burst + [Remove(ip)] + burst, ip, at, [at])
      && !Spaced([at] + [at], cfg.recoveryInterval)
  {
    var burst := Burst(cfg, ip, at, Required(cfg));
    FreshBurst(cfg, ip, at);
    ForgottenIsFresh(cfg, burst, Remove(ip), ip);
    BurstEjects(cfg, burst + [Remove(ip)], ip, at, Required(cfg), [at]);
    BurstsMonotone(cfg, ip, at, Required(cfg));
    TooClose([at], at, cfg.recoveryInterval);
  }
}
