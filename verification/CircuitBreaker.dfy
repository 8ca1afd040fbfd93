/** The per-pod circuit breaker (internal/circuitbreaker). */
module CircuitBreaker {

  datatype State = Closed | Open | HalfOpen

  datatype PodState = PodState(
    state: State,
    violationCount: int,
    lastViolationTime: int,
    ejectedAt: int,
    lastRecoveryProbeAt: int)

  datatype Config = Config(p99Threshold: int, consecutiveViolations: int, recoveryInterval: int)

  const ZERO_TIME := 0

  const FRESH := PodState(Closed, 0, ZERO_TIME, ZERO_TIME, ZERO_TIME)

  type Pods = map<string, PodState>

  // ---------- one step ----------

  /** A reading of one pod. */
  function Observe(cfg: Config, ps: PodState, p99: int, now: int): PodState {
    match ps.state
    case Closed =>
      if p99 > cfg.p99Threshold then
        var counted := ps.(violationCount := ps.violationCount + 1, lastViolationTime := now);
        if counted.violationCount >= cfg.consecutiveViolations then counted.(state := Open, ejectedAt := now)
        else counted
      else ps.(violationCount := 0)
    case Open => Recover(cfg, ps, now)
    case HalfOpen =>
      if p99 <= cfg.p99Threshold then ps.(state := Closed, violationCount := 0)
      else ps.(state := Open, ejectedAt := now)
  }

  /** A pod that has been Open for the recovery interval is probed. */
  function Recover(cfg: Config, ps: PodState, now: int): PodState {
    if ps.state.Open? && now - ps.ejectedAt >= cfg.recoveryInterval
    then ps.(state := HalfOpen, lastRecoveryProbeAt := now)
    else ps
  }

  function Entry(pods: Pods, ip: string): PodState {
    if ip in pods then pods[ip] else FRESH
  }

  datatype Op = Record(podIP: string, p99: int, at: int) | Check(at: int) | Remove(podIP: string) | Clear

  function Apply(cfg: Config, pods: Pods, op: Op): Pods {
    match op
    case Record(ip, p99, at) => pods[ip := Observe(cfg, Entry(pods, ip), p99, at)]
    case Check(at) => map ip | ip in pods :: Recover(cfg, pods[ip], at)
    case Remove(ip) => pods - {ip}
    case Clear => map[]
  }

  function Run(cfg: Config, ops: seq<Op>): Pods {
    if ops == [] then map[] else Apply(cfg, Run(cfg, ops[..|ops| - 1]), ops[|ops| - 1])
  }

  lemma RunStep(cfg: Config, ops: seq<Op>, op: Op)
    ensures Run(cfg, ops + [op]) == Apply(cfg, Run(cfg, ops), op)
  {
    assert (ops + [op])[..|ops|] == ops;
  }

  predicate Ejected(pods: Pods, ip: string) {
    ip in pods && pods[ip].state.Open?
  }

  /** Every method is atomic (the source holds the mutex) and reads the clock once. */
  class Breaker {
    const cfg: Config
    var pods: Pods
    ghost var log: seq<Op>

    /** The fields are what the whole history of calls makes of an empty breaker. */
    ghost predicate Valid()
      reads this
    {
      pods == Run(cfg, log)
    }

    constructor (cfg: Config)
      ensures Valid() && this.cfg == cfg && log == [] && pods == map[]
    {
      this.cfg := cfg;
      pods := map[];
      log := [];
    }

    method RecordLatency(podIP: string, p99: int, now: int)
      requires Valid()
      modifies this
      ensures Valid() && log == old(log) + [Record(podIP, p99, now)]
      ensures pods == Apply(cfg, old(pods), Record(podIP, p99, now))
    {
      RunStep(cfg, log, Record(podIP, p99, now));
      if podIP !in pods {
        pods := pods[podIP := FRESH];
      }
      var ps := pods[podIP];
      match ps.state {
        case Closed =>
          if p99 > cfg.p99Threshold {
            ps := ps.(violationCount := ps.violationCount + 1, lastViolationTime := now);
            if ps.violationCount >= cfg.consecutiveViolations {
              ps := ps.(state := Open, ejectedAt := now);
            }
          } else {
            ps := ps.(violationCount := 0);
          }
        case Open =>
          if now - ps.ejectedAt >= cfg.recoveryInterval {
            ps := ps.(state := HalfOpen, lastRecoveryProbeAt := now);
          }
        case HalfOpen =>
          if p99 <= cfg.p99Threshold {
            ps := ps.(state := Closed, violationCount := 0);
          } else {
            ps := ps.(state := Open, ejectedAt := now);
          }
      }
      pods := pods[podIP := ps];
      log := log + [Record(podIP, p99, now)];
    }

    method IsEjected(podIP: string) returns (ejected: bool)
      ensures ejected == Ejected(pods, podIP)
    {
      if podIP !in pods {
        return false;
      }
      return pods[podIP].state.Open?;
    }

    /** Each ejected pod once, in the order the map iteration happens to take. */
    method GetEjectedPods() returns (ejected: seq<string>)
      ensures forall ip :: ip in ejected <==> Ejected(pods, ip)
      ensures forall i, j :: 0 <= i < j < |ejected| ==> ejected[i] != ejected[j]
    {
      ejected := [];
      var rest := pods.Keys;
      while rest != {}
        invariant rest <= pods.Keys
        invariant forall ip :: ip in ejected <==> Ejected(pods, ip) && ip !in rest
        invariant forall i, j :: 0 <= i < j < |ejected| ==> ejected[i] != ejected[j]
        decreases |rest|
      {
        var ip :| ip in rest;
        rest := rest - {ip};
        if pods[ip].state.Open? {
          ejected := ejected + [ip];
        }
      }
    }

    method GetState(podIP: string) returns (ps: PodState, ok: bool)
      ensures ok <==> podIP in pods
      ensures ps == if ok then pods[podIP] else FRESH
    {
      if podIP !in pods {
        return FRESH, false;
      }
      return pods[podIP], true;
    }

    /** The map iteration may take any order; each pod's transition is its own. */
    method CheckRecovery(now: int) returns (transitioned: seq<string>)
      requires Valid()
      modifies this
      ensures Valid() && log == old(log) + [Check(now)]
      ensures pods == Apply(cfg, old(pods), Check(now))
      ensures forall ip :: ip in transitioned <==> ip in pods && pods[ip] != old(pods)[ip]
    {
      RunStep(cfg, log, Check(now));
      transitioned := [];
      var rest := pods.Keys;
      while rest != {}
        invariant log == old(log)
        invariant pods.Keys == old(pods).Keys && rest <= pods.Keys
        invariant forall ip :: ip in pods ==>
          pods[ip] == if ip in rest then old(pods)[ip] else Recover(cfg, old(pods)[ip], now)
        invariant forall ip :: ip in transitioned <==> ip in pods && pods[ip] != old(pods)[ip]
        decreases |rest|
      {
        var ip :| ip in rest;
        rest := rest - {ip};
        var ps := pods[ip];
        if ps.state.Open? && now - ps.ejectedAt >= cfg.recoveryInterval {
          pods := pods[ip := ps.(state := HalfOpen, lastRecoveryProbeAt := now)];
          transitioned := transitioned + [ip];
        }
      }
      log := log + [Check(now)];
    }

    method RemovePod(podIP: string)
      requires Valid()
      modifies this
      ensures Valid() && log == old(log) + [Remove(podIP)]
      ensures pods == old(pods) - {podIP}
    {
      RunStep(cfg, log, Remove(podIP));
      pods := pods - {podIP};
      log := log + [Remove(podIP)];
    }

    method Reset()
      requires Valid()
      modifies this
      ensures Valid() && log == old(log) + [Clear]
      ensures pods == map[]
    {
      RunStep(cfg, log, Clear);
      pods := map[];
      log := log + [Clear];
    }
  }
}
