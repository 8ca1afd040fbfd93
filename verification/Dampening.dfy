/** Suppression of endpoint updates (DampeningState in internal/latency/aggregator.go). */
module Dampening {
  import opened Arithmetic

  // ---------- one call ----------

  datatype Damp = Damp(previous: seq<string>, violations: int)

  const NEW := Damp([], 0)

  /** How many entries of selected are not among the previous ones; entries that left do not count. */
  function Additions(previous: seq<string>, selected: seq<string>): (n: nat)
    ensures n <= |selected|
    ensures n == 0 <==> forall ip :: ip in selected ==> ip in previous
  {
    if selected == [] then 0
    else
      var last := |selected| - 1;
      assert selected == selected[..last] + [selected[last]];
      Additions(previous, selected[..last]) + if selected[last] !in previous then 1 else 0
  }

  function Larger(a: seq<string>, b: seq<string>): nat {
    if |b| > |a| then |b| else |a|
  }

  /** At least threshold percent of the larger of the two sets is new. */
  predicate Significant(previous: seq<string>, selected: seq<string>, threshold: int) {
    100 * Additions(previous, selected) >= threshold * Larger(previous, selected)
  }

  /** The state after a call, and the call's verdict. */
  function Damped(d: Damp, selected: seq<string>, threshold: int, required: int): (Damp, bool) {
    if d.previous == [] then (Damp(selected, 0), true)
    else
      var violations := if Significant(d.previous, selected, threshold) then d.violations + 1 else 0;
      if violations >= required then (Damp(selected, 0), true)
      else (Damp(d.previous, violations), false)
  }

  // ---------- what one call decides, in plain terms ----------

  lemma {:induction false} AdditionsCount(previous: seq<string>, selected: seq<string>)
    ensures Additions(previous, selected) == |set i | 0 <= i < |selected| && selected[i] !in previous|
  {
    if selected != [] {
      var last := |selected| - 1;
      var before := set i | 0 <= i < last && selected[..last][i] !in previous;
      AdditionsCount(previous, selected[..last]);
      assert (set i | 0 <= i < |selected| && selected[i] !in previous)
        == if selected[last] !in previous then before + {last} else before;
    }
  }

  /** The change is the share of selected addresses that are new in the larger of the two sets; it is never more
      than 100 percent. */
  lemma ChangeMeaning(previous: seq<string>, selected: seq<string>, threshold: int)
    ensures var added := |set i | 0 <= i < |selected| && selected[i] !in previous|;
      var larger := if |selected| > |previous| then |selected| else |previous|;
      && (Significant(previous, selected, threshold) <==> 100 * added >= threshold * larger)
      && 0 <= added <= larger
  {
    AdditionsCount(previous, selected);
  }

  /** The whole verdict: the first non-empty set is published at once, any later one when enough calls in a row, this
      one included, changed enough; and what is kept for the next call. */
  lemma VerdictMeaning(d: Damp, selected: seq<string>, threshold: int, required: int)
    ensures var added := |set i | 0 <= i < |selected| && selected[i] !in d.previous|;
      var larger := if |selected| > |d.previous| then |selected| else |d.previous|;
      var count := if 100 * added >= threshold * larger then d.violations + 1 else 0;
      var (after, update) := Damped(d, selected, threshold, required);
      && (update <==> d.previous == [] || count >= required)
      && after.previous == (if update then selected else d.previous)
      && after.violations == (if update then 0 else count)
  {
    ChangeMeaning(d.previous, selected, threshold);
  }

  class DampeningState {
    var previousSelected: seq<string>
    var violationCount: int

    function State(): Damp
      reads this
    {
      Damp(previousSelected, violationCount)
    }

    constructor ()
      ensures State() == NEW
    {
      previousSelected, violationCount := [], 0;
    }

    method ShouldUpdate(newSelected: seq<string>, thresholdPercent: int, requiredConsecutive: int)
      returns (update: bool)
      modifies this
      ensures (State(), update) == Damped(old(State()), newSelected, thresholdPercent, requiredConsecutive)
    {
      if |previousSelected| == 0 {
        previousSelected := newSelected;
        violationCount := 0;
        return true;
      }
      var changePercent := ComputeChangePercent(newSelected);
      ChangeMeaning(previousSelected, newSelected, thresholdPercent);
      if changePercent >= thresholdPercent as real {
        violationCount := violationCount + 1;
      } else {
        violationCount := 0;
      }
      if violationCount >= requiredConsecutive {
        previousSelected := newSelected;
        violationCount := 0;
        return true;
      }
      return false;
    }

    /** The percentage, in exact arithmetic, and what comparing it with a threshold decides. */
    method ComputeChangePercent(newSelected: seq<string>) returns (percent: real)
      ensures 0.0 <= percent <= 100.0
      ensures previousSelected == [] ==> percent == 100.0
      ensures previousSelected != [] ==>
        var added := |set i | 0 <= i < |newSelected| && newSelected[i] !in previousSelected|;
        var larger := if |newSelected| > |previousSelected| then |newSelected| else |previousSelected|;
        forall t: int :: percent >= t as real <==> 100 * added >= t * larger
    {
      if |previousSelected| == 0 {
        return 100.0;
      }
      var prevSet: set<string> := {};
      for i := 0 to |previousSelected|
        invariant forall ip :: ip in prevSet <==> ip in previousSelected[..i]
      {
        prevSet := prevSet + {previousSelected[i]};
      }
      assert previousSelected[..|previousSelected|] == previousSelected;
      var changed := 0;
      for i := 0 to |newSelected|
        invariant changed == Additions(previousSelected, newSelected[..i])
      {
        assert newSelected[..i + 1][..i] == newSelected[..i];
        if newSelected[i] !in prevSet {
          changed := changed + 1;
        }
      }
      assert newSelected[..|newSelected|] == newSelected;
      var total := |previousSelected|;
      if |newSelected| > total {
        total := |newSelected|;
      }
      AdditionsCount(previousSelected, newSelected);
      percent := (changed as real / total as real) * 100.0;
      PercentRange(changed, total);
      forall t: int
        ensures percent >= t as real <==> 100 * changed >= t * total
      {
        PercentCompare(changed, total, t);
      }
    }
  }

  lemma PercentCompare(changed: int, total: int, t: int)
    requires total > 0
    ensures (changed as real / total as real) * 100.0 >= t as real <==> 100 * changed >= t * total
  {
  }

  lemma PercentRange(changed: int, total: int)
    requires 0 <= changed <= total && total > 0
    ensures 0.0 <= (changed as real / total as real) * 100.0 <= 100.0
  {
  }

  // ---------- runs ----------

  function After(d: Damp, sels: seq<seq<string>>, threshold: int, required: int): Damp {
    if sels == [] then d
    else Damped(After(d, sels[..|sels| - 1], threshold, required), sels[|sels| - 1], threshold, required).0
  }

  /** The answer to call i of a run that starts with a new dampener. */
  predicate Updates(sels: seq<seq<string>>, threshold: int, required: int, i: nat)
    requires i < |sels|
  {
    Damped(After(NEW, sels[..i], threshold, required), sels[i], threshold, required).1
  }

  /** The latest updating call before call i. */
  function LastUpdate(sels: seq<seq<string>>, threshold: int, required: int, i: nat): (p: nat)
    requires 1 <= i <= |sels|
    ensures p < i
    ensures forall j :: p < j < i ==> !Updates(sels, threshold, required, j)
    ensures p > 0 ==> Updates(sels, threshold, required, p)
  {
    if i == 1 || Updates(sels, threshold, required, i - 1) then i - 1
    else LastUpdate(sels, threshold, required, i - 1)
  }

  /** The number of calls just before call i, back to call p, that all changed significantly against call p. */
  function Streak(sels: seq<seq<string>>, threshold: int, p: nat, i: nat): (n: nat)
    requires p < i <= |sels|
    ensures n < i - p
    ensures forall j :: i - n <= j < i ==> Significant(sels[p], sels[j], threshold)
    ensures n < i - p - 1 ==> !Significant(sels[p], sels[i - n - 1], threshold)
  {
    if i == p + 1 || !Significant(sels[p], sels[i - 1], threshold) then 0
    else 1 + Streak(sels, threshold, p, i - 1)
  }

  ghost predicate Configured(sels: seq<seq<string>>, threshold: int, required: int) {
    threshold >= 1 && required >= 1 && sels != []
  }

  lemma SignificantAdds(previous: seq<string>, selected: seq<string>, threshold: int)
    requires previous != [] && threshold >= 1 && Significant(previous, selected, threshold)
    ensures Additions(previous, selected) > 0 && selected != []
  {
  }

  lemma AfterStep(sels: seq<seq<string>>, threshold: int, required: int, i: nat)
    requires 1 <= i <= |sels|
    ensures After(NEW, sels[..i], threshold, required)
         == Damped(After(NEW, sels[..i - 1], threshold, required), sels[i - 1], threshold, required).0
  {
    assert sels[..i][..i - 1] == sels[..i - 1];
  }

  /** The two fields hold the selection of the latest update and the streak since.  An empty one is stored only
      until the next call. */
  lemma {:induction false} StateOfRun(sels: seq<seq<string>>, threshold: int, required: int, i: nat)
    requires Configured(sels, threshold, required) && 1 <= i <= |sels|
    ensures var p := LastUpdate(sels, threshold, required, i);
      && After(NEW, sels[..i], threshold, required) == Damp(sels[p], Streak(sels, threshold, p, i))
      && Streak(sels, threshold, p, i) < required
      && (sels[p] == [] ==> p == i - 1)
      && Updates(sels, threshold, required, p)
  {
    AfterStep(sels, threshold, required, i);
    if i > 1 {
      StateOfRun(sels, threshold, required, i - 1);
      var p := LastUpdate(sels, threshold, required, i - 1);
      if sels[p] != [] && Significant(sels[p], sels[i - 1], threshold) {
        SignificantAdds(sels[p], sels[i - 1], threshold);
      }
    }
  }

  /** After the first call, the dampener updates exactly when the set stored at the previous update is empty, or the
      last `required` calls, all of them made since that update, each changed significantly against it. */
  lemma ExactTrigger(sels: seq<seq<string>>, threshold: int, required: int, i: nat)
    requires Configured(sels, threshold, required) && 1 <= i < |sels|
    ensures var p := LastUpdate(sels, threshold, required, i);
      && Updates(sels, threshold, required, p)
      && (Updates(sels, threshold, required, i) <==>
          || sels[p] == []
          || (&& i - p >= required
              && forall j :: i - required < j <= i ==> Significant(sels[p], sels[j], threshold)))
  {
    StateOfRun(sels, threshold, required, i);
  }

  /** From a first selection that is not empty on, no empty one is ever stored. */
  lemma {:induction false} StoredNonEmpty(sels: seq<seq<string>>, threshold: int, required: int, i: nat)
    requires Configured(sels, threshold, required) && sels[0] != [] && 1 <= i <= |sels|
    ensures sels[LastUpdate(sels, threshold, required, i)] != []
  {
    if i > 1 {
      var p := LastUpdate(sels, threshold, required, i - 1);
      StoredNonEmpty(sels, threshold, required, i - 1);
      ExactTrigger(sels, threshold, required, i - 1);
      if Updates(sels, threshold, required, i - 1) {
        SignificantAdds(sels[p], sels[i - 1], threshold);
      }
    }
  }

  function UpdateCount(sels: seq<seq<string>>, threshold: int, required: int, n: nat): nat
    requires n <= |sels|
  {
    if n == 0 then 0
    else UpdateCount(sels, threshold, required, n - 1) + if Updates(sels, threshold, required, n - 1) then 1 else 0
  }

  lemma {:induction false} UpdatesAreSpaced(sels: seq<seq<string>>, threshold: int, required: int, n: nat)
    requires Configured(sels, threshold, required) && sels[0] != [] && 1 <= n <= |sels|
    ensures required * (UpdateCount(sels, threshold, required, n) - 1) <= LastUpdate(sels, threshold, required, n)
  {
    var count := UpdateCount(sels, threshold, required, n - 1);
    if n > 1 {
      UpdatesAreSpaced(sels, threshold, required, n - 1);
      StoredNonEmpty(sels, threshold, required, n - 1);
      ExactTrigger(sels, threshold, required, n - 1);
      OneMore(required, count);
    } else {
      assert count == 0;
    }
  }

  lemma OneMore(k: int, count: int)
    ensures k * (count + 1 - 1) == k * (count - 1) + k
  {
  }

  /** At most 1 + (n - 1) / required updates in n calls, from a first selection that is not empty on. */
  lemma ChurnBound(sels: seq<seq<string>>, threshold: int, required: int)
    requires Configured(sels, threshold, required) && sels[0] != []
    ensures UpdateCount(sels, threshold, required, |sels|) <= 1 + (|sels| - 1) / required
  {
    UpdatesAreSpaced(sels, threshold, required, |sels|);
    Quotient(required, UpdateCount(sels, threshold, required, |sels|) - 1, |sels| - 1);
  }

  /** Selections that only drop members of the stored set never update, however many there are. */
  lemma {:induction false} DropsAreSuppressed(d: Damp, sels: seq<seq<string>>, threshold: int, required: int)
    requires threshold >= 1 && required >= 1 && d.previous != []
    requires forall i :: 0 <= i < |sels| ==> forall ip :: ip in sels[i] ==> ip in d.previous
    ensures After(d, sels, threshold, required).previous == d.previous
    ensures sels != [] ==> After(d, sels, threshold, required).violations == 0
  {
    if sels != [] {
      var last := sels[|sels| - 1];
      DropsAreSuppressed(d, sels[..|sels| - 1], threshold, required);
      if Significant(d.previous, last, threshold) {
        SignificantAdds(d.previous, last, threshold);
      }
    }
  }

  /** A stored set never becomes empty. */
  lemma StaysNonEmpty(d: Damp, selected: seq<string>, threshold: int, required: int)
    requires threshold >= 1 && required >= 1 && d.previous != []
    ensures Damped(d, selected, threshold, required).0.previous != []
    ensures !Damped(d, selected, threshold, required).1 ==>
      Damped(d, selected, threshold, required).0.previous == d.previous
  {
  }

  /** Empty selections before the first non-empty one all update and leave the dampener as if new. */
  lemma {:induction false} LeadingEmpties(sels: seq<seq<string>>, threshold: int, required: int, m: nat)
    requires m <= |sels|
    requires forall i :: 0 <= i < m ==> sels[i] == []
    ensures After(NEW, sels[..m], threshold, required) == NEW
    ensures forall i :: 0 <= i < |sels| && i <= m ==> Updates(sels, threshold, required, i)
  {
    if m > 0 {
      LeadingEmpties(sels, threshold, required, m - 1);
      AfterStep(sels, threshold, required, m);
    }
  }

  // ---------- the churn bound is the best possible ----------

  lemma {:induction false} CountOfPrefix(
    sels: seq<seq<string>>, more: seq<seq<string>>, threshold: int, required: int, n: nat)
    requires n <= |sels|
    ensures UpdateCount(sels + more, threshold, required, n) == UpdateCount(sels, threshold, required, n)
  {
    if n > 0 {
      CountOfPrefix(sels, more, threshold, required, n - 1);
      assert (sels + more)[..n - 1] == sels[..n - 1];
    }
  }

  function Total(sels: seq<seq<string>>, threshold: int, required: int): nat {
    UpdateCount(sels, threshold, required, |sels|)
  }

  lemma OneMoreCall(sels: seq<seq<string>>, s: seq<string>, threshold: int, required: int)
    ensures var (d, update) := Damped(After(NEW, sels, threshold, required), s, threshold, required);
      && After(NEW, sels + [s], threshold, required) == d
      && Total(sels + [s], threshold, required) == Total(sels, threshold, required) + if update then 1 else 0
  {
    CountOfPrefix(sels, [s], threshold, required, |sels|);
    assert (sels + [s])[..|sels|] == sels;
  }

  /** From a stored set {x}, offering {y} again and again updates at the last of `required` calls. */
  lemma {:induction false} Insist(
    sels: seq<seq<string>>, x: string, y: string, threshold: int, required: int, n: nat)
    returns (longer: seq<seq<string>>)
    requires 1 <= threshold <= 100 && required >= 1 && x != y && n <= required
    requires After(NEW, sels, threshold, required) == Damp([x], 0)
    ensures |longer| == |sels| + n && sels <= longer
    ensures n < required ==>
      After(NEW, longer, threshold, required) == Damp([x], n)
      && Total(longer, threshold, required) == Total(sels, threshold, required)
    ensures n == required ==>
      After(NEW, longer, threshold, required) == Damp([y], 0)
      && Total(longer, threshold, required) == Total(sels, threshold, required) + 1
  {
    if n == 0 {
      longer := sels;
    } else {
      var shorter := Insist(sels, x, y, threshold, required, n - 1);
      Replaced(x, y, threshold);
      OneMoreCall(shorter, [y], threshold, required);
      longer := shorter + [[y]];
    }
  }

  lemma Replaced(x: string, y: string, threshold: int)
    requires x != y && threshold <= 100
    ensures Significant([x], [y], threshold)
  {
    assert [y][..0] == [];
    assert Additions([x], [y]) == 1;
  }

  /** For every number m of further updates there is a run that reaches the bound. */
  lemma {:induction false} ChurnBoundIsTight(x: string, y: string, threshold: int, required: int, m: nat)
    returns (sels: seq<seq<string>>)
    requires 1 <= threshold <= 100 && required >= 1 && x != y
    ensures Configured(sels, threshold, required) && sels[0] != []
    ensures |sels| == 1 + required * m
    ensures UpdateCount(sels, threshold, required, |sels|) == 1 + m == 1 + (|sels| - 1) / required
    ensures After(NEW, sels, threshold, required) == Damp([if m % 2 == 0 then x else y], 0)
  {
    ExactQuotient(m, required);
    if m == 0 {
      sels := [[x]];
      OneMoreCall([], [x], threshold, required);
      assert [] + [[x]] == sels;
    } else {
      var before := ChurnBoundIsTight(x, y, threshold, required, m - 1);
      Times(required, m);
      if m % 2 == 0 {
        sels := Insist(before, y, x, threshold, required, required);
      } else {
        sels := Insist(before, x, y, threshold, required, required);
      }
      assert sels[0] == before[0];
    }
  }

  lemma Times(k: int, m: int)
    ensures k * m == k * (m - 1) + k
  {
  }

  lemma ExactQuotient(m: int, k: int)
    requires k >= 1
    ensures (k * m) / k == m
  {
    var q := (k * m) / k;
    assert k * (m - q) == k * m - k * q;
    assert k * (q - m) == k * q - k * m;
    BelowOne(k, m - q);
    BelowOne(k, q - m);
  }
}
