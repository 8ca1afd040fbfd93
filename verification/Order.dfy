/** Sorting by an integer key, as the sort package and the hand-written sort of the latency sources use it,
    and ranks in a collection of integers.  What a sort leaves open is which of two equal keys comes first. */
module Order {

  ghost predicate Ascending(s: seq<int>) {
    forall i, j :: 0 <= i < j < |s| ==> s[i] <= s[j]
  }

  ghost predicate AscendingBy<T>(key: T -> int, s: seq<T>) {
    forall i, j :: 0 <= i < j < |s| ==> key(s[i]) <= key(s[j])
  }

  /** r is what a sort of s may produce. */
  ghost predicate SortOf(r: seq<int>, s: seq<int>) {
    Ascending(r) && multiset(r) == multiset(s)
  }

  function Id(x: int): int { x }

  function Keys<T>(key: T -> int, s: seq<T>): (r: seq<int>)
    ensures |r| == |s|
    ensures forall i :: 0 <= i < |s| ==> r[i] == key(s[i])
  {
    seq(|s|, i requires 0 <= i < |s| => key(s[i]))
  }

  lemma ConsMultiset<T>(x: T, s: seq<T>)
    ensures multiset([x] + s) == multiset{x} + multiset(s)
  {
  }

  lemma ConsAscendingBy<T>(key: T -> int, x: T, s: seq<T>)
    requires AscendingBy(key, s)
    requires forall y :: y in multiset(s) ==> key(x) <= key(y)
    ensures AscendingBy(key, [x] + s)
  {
  }

  function InsertBy<T>(key: T -> int, x: T, s: seq<T>): seq<T> {
    if s == [] then [x]
    else if key(x) <= key(s[0]) then [x] + s
    else [s[0]] + InsertBy(key, x, s[1..])
  }

  lemma {:induction false} InsertByPermutes<T>(key: T -> int, x: T, s: seq<T>)
    ensures multiset(InsertBy(key, x, s)) == multiset{x} + multiset(s)
  {
    if s != [] {
      assert s == [s[0]] + s[1..];
      ConsMultiset(x, s);
      ConsMultiset(s[0], s[1..]);
      if key(x) > key(s[0]) {
        InsertByPermutes(key, x, s[1..]);
        ConsMultiset(s[0], InsertBy(key, x, s[1..]));
      }
    }
  }

  lemma {:induction false} InsertByAscends<T>(key: T -> int, x: T, s: seq<T>)
    requires AscendingBy(key, s)
    ensures AscendingBy(key, InsertBy(key, x, s))
  {
    if s != [] {
      if key(x) <= key(s[0]) {
        ConsAscendingBy(key, x, s);
      } else {
        InsertByAscends(key, x, s[1..]);
        InsertByPermutes(key, x, s[1..]);
        ConsAscendingBy(key, s[0], InsertBy(key, x, s[1..]));
      }
    }
  }

  /** One of the sorted permutations of s: there always is one. */
  function SortBy<T>(key: T -> int, s: seq<T>): (r: seq<T>)
    ensures AscendingBy(key, r)
    ensures multiset(r) == multiset(s)
  {
    if s == [] then []
    else
      var rest := SortBy(key, s[1..]);
      assert s == [s[0]] + s[1..];
      ConsMultiset(s[0], s[1..]);
      InsertByPermutes(key, s[0], rest);
      InsertByAscends(key, s[0], rest);
      InsertBy(key, s[0], rest)
  }

  function SortInts(s: seq<int>): (r: seq<int>)
    ensures SortOf(r, s)
  {
    SortBy(Id, s)
  }

  lemma SameLength<T>(a: seq<T>, b: seq<T>)
    requires multiset(a) == multiset(b)
    ensures |a| == |b|
  {
    assert |multiset(a)| == |a| && |multiset(b)| == |b|;
  }

  lemma RemoveAt<T>(s: seq<T>, i: nat)
    requires i < |s|
    ensures multiset(s) == multiset{s[i]} + multiset(s[..i] + s[i + 1..])
  {
    assert s == s[..i] + [s[i]] + s[i + 1..];
  }

  /** The first element of a, found in a permutation b of a and taken out of both. */
  lemma TakeOut<T>(a: seq<T>, b: seq<T>) returns (i: nat)
    requires a != [] && multiset(a) == multiset(b)
    ensures i < |b| && b[i] == a[0]
    ensures multiset(a[1..]) == multiset(b[..i] + b[i + 1..])
  {
    assert a[0] in multiset(b);
    i :| 0 <= i < |b| && b[i] == a[0];
    assert a == [a[0]] + a[1..];
    ConsMultiset(a[0], a[1..]);
    RemoveAt(b, i);
    assert multiset(a[1..]) == multiset(a) - multiset{a[0]};
  }

  lemma FirstIsLeast(s: seq<int>, x: int)
    requires Ascending(s) && x in multiset(s)
    ensures s[0] <= x
  {
  }

  lemma TailMultiset<T>(s: seq<T>)
    requires s != []
    ensures multiset(s[1..]) == multiset(s) - multiset{s[0]}
  {
    assert s == [s[0]] + s[1..];
    ConsMultiset(s[0], s[1..]);
  }

  lemma SameFirst(a: seq<int>, b: seq<int>)
    requires a != [] && b != [] && Ascending(a) && Ascending(b)
    requires multiset(a) == multiset(b)
    ensures a[0] == b[0]
  {
    assert a[0] in multiset(b) && b[0] in multiset(a);
    FirstIsLeast(b, a[0]);
    FirstIsLeast(a, b[0]);
  }

  lemma SameTails(a: seq<int>, b: seq<int>)
    requires a != [] && b != [] && a[0] == b[0] && multiset(a) == multiset(b)
    ensures multiset(a[1..]) == multiset(b[1..])
  {
    TailMultiset(a);
    TailMultiset(b);
  }

  lemma TailAscends(s: seq<int>)
    requires s != [] && Ascending(s)
    ensures Ascending(s[1..])
  {
  }

  /** Ascending sequences with the same elements are the same sequence. */
  lemma {:induction false} SortUnique(a: seq<int>, b: seq<int>)
    requires Ascending(a) && Ascending(b)
    requires multiset(a) == multiset(b)
    ensures a == b
  {
    SameLength(a, b);
    if a != [] {
      SameFirst(a, b);
      SameTails(a, b);
      TailAscends(a);
      TailAscends(b);
      SortUnique(a[1..], b[1..]);
      assert a == [a[0]] + a[1..] == [b[0]] + b[1..] == b;
    }
  }

  lemma KeysCons<T>(key: T -> int, s: seq<T>)
    requires s != []
    ensures multiset(Keys(key, s)) == multiset{key(s[0])} + multiset(Keys(key, s[1..]))
  {
    assert Keys(key, s) == [key(s[0])] + Keys(key, s[1..]);
  }

  lemma KeysWithout<T>(key: T -> int, s: seq<T>, i: nat)
    requires i < |s|
    ensures multiset(Keys(key, s)) == multiset{key(s[i])} + multiset(Keys(key, s[..i] + s[i + 1..]))
  {
    var k := Keys(key, s);
    assert k[..i] + k[i + 1..] == Keys(key, s[..i] + s[i + 1..]);
    RemoveAt(k, i);
  }

  /** Reordering the elements reorders the keys. */
  lemma {:induction false} KeysPermutation<T>(key: T -> int, a: seq<T>, b: seq<T>)
    requires multiset(a) == multiset(b)
    ensures multiset(Keys(key, a)) == multiset(Keys(key, b))
  {
    SameLength(a, b);
    if a != [] {
      var i := TakeOut(a, b);
      KeysPermutation(key, a[1..], b[..i] + b[i + 1..]);
      KeysCons(key, a);
      KeysWithout(key, b, i);
    }
  }

  /** Two sorted permutations of the same elements agree on the keys, whatever they do with ties. */
  lemma SortedKeysUnique<T>(key: T -> int, a: seq<T>, b: seq<T>)
    requires AscendingBy(key, a) && AscendingBy(key, b)
    requires multiset(a) == multiset(b)
    ensures Keys(key, a) == Keys(key, b)
  {
    KeysPermutation(key, a, b);
    SortUnique(Keys(key, a), Keys(key, b));
  }

  // ---------- ranks ----------

  /** How many elements of s are at most v.  (At most v - 1 is below v.) */
  function CountAtMost(s: seq<int>, v: int): (n: nat)
    ensures n <= |s|
  {
    if s == [] then 0 else (if s[0] <= v then 1 else 0) + CountAtMost(s[1..], v)
  }

  lemma {:induction false} CountMeaning(s: seq<int>, v: int)
    ensures CountAtMost(s, v) == |set i | 0 <= i < |s| && s[i] <= v|
  {
    if s != [] {
      var n := |s| - 1;
      var before := set i | 0 <= i < n && s[..n][i] <= v;
      CountMeaning(s[..n], v);
      assert s == s[..n] + [s[n]];
      CountAppend(s[..n], [s[n]], v);
      assert (set i | 0 <= i < |s| && s[i] <= v) == if s[n] <= v then before + {n} else before;
    }
  }

  lemma {:induction false} CountAppend(a: seq<int>, b: seq<int>, v: int)
    ensures CountAtMost(a + b, v) == CountAtMost(a, v) + CountAtMost(b, v)
  {
    if a == [] {
      assert a + b == b;
    } else {
      assert (a + b)[1..] == a[1..] + b;
      CountAppend(a[1..], b, v);
    }
  }

  lemma {:induction false} CountMonotone(s: seq<int>, v: int, w: int)
    requires v <= w
    ensures CountAtMost(s, v) <= CountAtMost(s, w)
  {
    if s != [] {
      CountMonotone(s[1..], v, w);
    }
  }

  lemma {:induction false} CountAll(s: seq<int>, v: int)
    requires forall i :: 0 <= i < |s| ==> s[i] <= v
    ensures CountAtMost(s, v) == |s|
  {
    if s != [] {
      CountAll(s[1..], v);
    }
  }

  lemma {:induction false} CountNone(s: seq<int>, v: int)
    requires forall i :: 0 <= i < |s| ==> s[i] > v
    ensures CountAtMost(s, v) == 0
  {
    if s != [] {
      CountNone(s[1..], v);
    }
  }

  lemma CountWithout(s: seq<int>, i: nat, v: int)
    requires i < |s|
    ensures CountAtMost(s, v) == (if s[i] <= v then 1 else 0) + CountAtMost(s[..i] + s[i + 1..], v)
  {
    CountAppend(s[..i], s[i + 1..], v);
    CountAppend(s[..i], s[i..], v);
    assert s == s[..i] + s[i..];
  }

  lemma {:induction false} CountPermutation(a: seq<int>, b: seq<int>, v: int)
    requires multiset(a) == multiset(b)
    ensures CountAtMost(a, v) == CountAtMost(b, v)
  {
    SameLength(a, b);
    if a != [] {
      var i := TakeOut(a, b);
      CountPermutation(a[1..], b[..i] + b[i + 1..], v);
      CountWithout(b, i, v);
    }
  }

  /** v is the pct-th percentile of s by the nearest-rank rule: an element with more than pct percent of
      the elements at or below it, and no more than pct percent below it. */
  ghost predicate IsPercentile(s: seq<int>, pct: int, v: int) {
    && v in s
    && 100 * CountAtMost(s, v) > pct * |s|
    && 100 * CountAtMost(s, v - 1) <= pct * |s|
  }

  /** The rule fixes the value. */
  lemma PercentileUnique(s: seq<int>, pct: int, v: int, w: int)
    requires IsPercentile(s, pct, v) && IsPercentile(s, pct, w)
    ensures v == w
  {
    if v < w {
      CountMonotone(s, v, w - 1);
    } else if w < v {
      CountMonotone(s, w, v - 1);
    }
  }

  lemma PercentilePermutation(a: seq<int>, b: seq<int>, pct: int, v: int)
    requires multiset(a) == multiset(b)
    ensures IsPercentile(a, pct, v) <==> IsPercentile(b, pct, v)
  {
    SameLength(a, b);
    assert v in a <==> v in multiset(a);
    assert v in b <==> v in multiset(b);
    CountPermutation(a, b, v);
    CountPermutation(a, b, v - 1);
  }

  lemma RankIndex(pct: int, n: int)
    requires 0 <= pct < 100 && n > 0
    ensures 0 <= (pct * n) / 100 < n
  {
  }

  lemma EnoughAtMost(s: seq<int>, idx: nat)
    requires Ascending(s) && idx < |s|
    ensures CountAtMost(s, s[idx]) >= idx + 1
  {
    var low, high := s[..idx + 1], s[idx + 1..];
    assert s == low + high;
    CountAppend(low, high, s[idx]);
    forall i | 0 <= i < |low|
      ensures low[i] <= s[idx]
    {
      assert low[i] == s[i];
    }
    CountAll(low, s[idx]);
  }

  lemma FewBelow(s: seq<int>, idx: nat)
    requires Ascending(s) && idx < |s|
    ensures CountAtMost(s, s[idx] - 1) <= idx
  {
    var low, high := s[..idx], s[idx..];
    assert s == low + high;
    CountAppend(low, high, s[idx] - 1);
    forall i | 0 <= i < |high|
      ensures high[i] > s[idx] - 1
    {
      assert high[i] == s[idx + i];
    }
    CountNone(high, s[idx] - 1);
  }

  /** Where the index arithmetic pct * n / 100 points in a sorted sequence. */
  lemma NearestRank(s: seq<int>, pct: int)
    requires Ascending(s) && s != [] && 0 <= pct < 100
    ensures 0 <= (pct * |s|) / 100 < |s|
    ensures IsPercentile(s, pct, s[(pct * |s|) / 100])
  {
    RankIndex(pct, |s|);
    EnoughAtMost(s, (pct * |s|) / 100);
    FewBelow(s, (pct * |s|) / 100);
  }

  /** With at most 100 elements the 99th percentile is the maximum. */
  lemma P99IsMaximum(s: seq<int>, v: int)
    requires 0 < |s| <= 100
    requires IsPercentile(s, 99, v)
    ensures forall x :: x in s ==> x <= v
  {
    forall i | 0 <= i < |s|
      ensures s[i] <= v
    {
      CountWithout(s, i, v);
    }
  }
}
