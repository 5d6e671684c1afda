/**
  The Misra-Gries frequency estimator as a function of the stream it has
  consumed. A candidate map holds at most `kMisra` values, each with a
  positive count. `Update` is one call of `process_number` (without the
  overflow guard on n, which the reader adds), and `Run` folds it over a stream.
  The lemmas give the classical guarantee: a stored count never exceeds the
  true frequency and falls short of it by at most n / k, so every value that
  occurs more than n / k times is still a candidate at the end.
*/
module MisraGries {

  type Candidates = map<nat, nat>

  /** `k_misra = max(k - 1, 1)`: the capacity of the candidate map for divisor k. */
  function KMisra(k: int): (r: nat)
    ensures r >= 1 && (k > 1 ==> r + 1 == k) && (k <= 1 ==> r == 1)
  {
    if k > 1 then k - 1 else 1
  }

  /** The representation invariant: bounded size, no zero or negative counts. */
  ghost predicate WellFormed(m: Candidates, kMisra: nat) {
    |m| <= kMisra && forall x :: x in m ==> m[x] >= 1
  }

  /** The stored count of `v`, 0 when `v` is not a candidate. */
  function Count(m: Candidates, v: nat): nat {
    if v in m then m[v] else 0
  }

  /** The eviction round: every count drops by one and the entries reaching
      zero go, so no entry is added. */
  function Decrement(m: Candidates): (r: Candidates)
    ensures r.Keys <= m.Keys
  {
    map x | x in m && m[x] > 1 :: m[x] - 1
  }

  /** One Misra-Gries step on value `v`: count a hit, admit a miss while there
      is room, otherwise run an eviction round and drop `v`. Unless it
      evicts, `v` ends up counted once more; when it evicts, `v` stays out. */
  function Update(m: Candidates, kMisra: nat, v: nat): (r: Candidates)
    ensures !Evicts(m, kMisra, v) ==> v in r && r[v] == Count(m, v) + 1
    ensures Evicts(m, kMisra, v) ==> v !in r
  {
    if v in m then m[v := m[v] + 1]
    else if |m| < kMisra then m[v := 1]
    else Decrement(m)
  }

  /** True when `v` finds a full map it is not in, so that `Update` evicts. */
  predicate Evicts(m: Candidates, kMisra: nat, v: nat) {
    v !in m && |m| >= kMisra
  }

  /** The candidate map after consuming `xs` from an empty map. */
  function Run(kMisra: nat, xs: seq<nat>): Candidates {
    if xs == [] then map[] else Update(Run(kMisra, xs[..|xs| - 1]), kMisra, xs[|xs| - 1])
  }

  /** How many of the steps in `xs` were eviction rounds. */
  function Evictions(kMisra: nat, xs: seq<nat>): nat {
    if xs == [] then 0
    else
      var before := xs[..|xs| - 1];
      Evictions(kMisra, before) + if Evicts(Run(kMisra, before), kMisra, xs[|xs| - 1]) then 1 else 0
  }

  /** Occurrences of `v` in the stream: its true frequency. */
  function Frequency(xs: seq<nat>, v: nat): nat {
    multiset(xs)[v]
  }

  // ---------------------------------------------------------------------
  // Sum of the stored counts

  ghost function Pick(s: set<nat>): (x: nat)
    requires s != {}
    ensures x in s
  {
    var x :| x in s; x
  }

  /** The sum of all stored counts. */
  ghost function Total(m: Candidates): nat
    decreases |m|
  {
    if m == map[] then 0
    else
      var x := Pick(m.Keys);
      assert x in m;
      m[x] + Total(m - {x})
  }

  /** `Total` does not depend on the key it peels off first. */
  lemma {:induction false} TotalRemove(m: Candidates, y: nat)
    requires y in m
    ensures Total(m) == m[y] + Total(m - {y})
    decreases |m|
  {
    var x := Pick(m.Keys);
    if x != y {
      TotalRemove(m - {x}, y);
      TotalRemove(m - {y}, x);
      assert m - {x} - {y} == m - {y} - {x};
    }
  }

  lemma TotalReplace(m: Candidates, v: nat, c: nat)
    ensures Total(m[v := c]) == Total(m - {v}) + c
  {
    TotalRemove(m[v := c], v);
    assert m[v := c] - {v} == m - {v};
  }

  /** Counting a hit adds one to the sum of the counts. */
  lemma TotalIncrement(m: Candidates, v: nat)
    requires v in m
    ensures Total(m[v := m[v] + 1]) == Total(m) + 1
  {
    TotalReplace(m, v, m[v] + 1);
    TotalRemove(m, v);
  }

  /** Admitting a new value with count 1 adds one to the sum of the counts. */
  lemma TotalInsert(m: Candidates, v: nat)
    requires v !in m
    ensures Total(m[v := 1]) == Total(m) + 1
  {
    TotalReplace(m, v, 1);
    assert m - {v} == m;
  }

  /** An eviction round removes exactly |m| from the sum of the counts. */
  lemma {:induction false} TotalDecrement(m: Candidates)
    requires forall x :: x in m ==> m[x] >= 1
    ensures Total(Decrement(m)) + |m| == Total(m)
    decreases |m|
  {
    if m != map[] {
      var y := Pick(m.Keys);
      var rest := m - {y};
      TotalDecrement(rest);
      assert |rest| + 1 == |m|;
      if m[y] > 1 {
        assert Decrement(m) - {y} == Decrement(rest);
        TotalRemove(Decrement(m), y);
      } else {
        assert Decrement(m) == Decrement(rest);
      }
    }
  }

  lemma SubsetCardinality(a: set<nat>, b: set<nat>)
    requires a <= b
    ensures |a| <= |b|
  {
    assert b == a + (b - a);
  }

  // ---------------------------------------------------------------------
  // Properties of one step

  /** Every step keeps the map within capacity and its counts positive. */
  lemma UpdateWellFormed(m: Candidates, kMisra: nat, v: nat)
    requires WellFormed(m, kMisra)
    ensures WellFormed(Update(m, kMisra, v), kMisra)
  {
    if v !in m && |m| >= kMisra {
      SubsetCardinality(Decrement(m).Keys, m.Keys);
    }
  }

  /**
    What one step does to the map. A hit adds one to the count of `v`, and a
    miss while there is room admits `v` with count 1; either way no other
    entry changes. A miss on a full map lowers every count by exactly one,
    removes exactly the entries that reach zero, and leaves `v` out.
  */
  lemma UpdateEffect(m: Candidates, kMisra: nat, v: nat)
    ensures var r := Update(m, kMisra, v);
      !Evicts(m, kMisra, v) ==>
        && v in r && r[v] == Count(m, v) + 1
        && forall u :: u != v ==> (u in r <==> u in m) && (u in m ==> r[u] == m[u])
    ensures var r := Update(m, kMisra, v);
      Evicts(m, kMisra, v) ==>
        && v !in r
        && forall u :: (u in r <==> u in m && m[u] > 1) && (u in r ==> r[u] + 1 == m[u])
  {
  }

  /** A hit or an admission adds one to the sum of the counts. */
  lemma UpdateTotalCounted(m: Candidates, kMisra: nat, v: nat)
    requires !Evicts(m, kMisra, v)
    ensures Total(Update(m, kMisra, v)) == Total(m) + 1
  {
    if v in m {
      TotalIncrement(m, v);
    } else {
      TotalInsert(m, v);
    }
  }

  /** An eviction round on a full map removes kMisra from the sum of the counts. */
  lemma UpdateTotalEvicted(m: Candidates, kMisra: nat, v: nat)
    requires WellFormed(m, kMisra) && Evicts(m, kMisra, v)
    ensures Total(Update(m, kMisra, v)) + kMisra == Total(m)
  {
    TotalDecrement(m);
  }

  // ---------------------------------------------------------------------
  // Properties of a whole stream

  /** Consuming one more value is one more `Update`, and one more eviction round when it evicts. */
  lemma RunStep(kMisra: nat, xs: seq<nat>, v: nat)
    ensures Run(kMisra, xs + [v]) == Update(Run(kMisra, xs), kMisra, v)
    ensures Evictions(kMisra, xs + [v]) ==
      Evictions(kMisra, xs) + if Evicts(Run(kMisra, xs), kMisra, v) then 1 else 0
  {
    assert (xs + [v])[..|xs|] == xs;
  }

  /**
    The invariant of the stream: the map is well formed, the counts plus
    kMisra + 1 per eviction round account for every value consumed, and each
    value's stored count lies between its true frequency minus the number of
    eviction rounds and its true frequency.
  */
  ghost predicate StreamInvariant(kMisra: nat, xs: seq<nat>) {
    Accounted(Run(kMisra, xs), kMisra, Evictions(kMisra, xs), |xs|, multiset(xs))
  }

  /** How one step changes a single stored count. */
  lemma CountAfterUpdate(m: Candidates, kMisra: nat, v: nat, u: nat)
    requires WellFormed(m, kMisra)
    ensures !Evicts(m, kMisra, v) ==>
      Count(Update(m, kMisra, v), u) == Count(m, u) + if u == v then 1 else 0
    ensures Evicts(m, kMisra, v) ==>
      Count(Update(m, kMisra, v), u) + (if u in m then 1 else 0) == Count(m, u)
  {
  }

  /** The values an eviction round discards: kMisra + 1 per round (the kMisra
      decremented counts and the incoming value), written without a product. */
  function Weight(e: nat, kMisra: nat): (w: nat)
  {
    if e == 0 then 0 else Weight(e - 1, kMisra) + kMisra + 1
  }

  lemma {:induction false} WeightIsProduct(e: nat, kMisra: nat)
    ensures Weight(e, kMisra) == e * (kMisra + 1)
  {
    if e > 0 {
      WeightIsProduct(e - 1, kMisra);
    }
  }

  /** The stream invariant over a map `m`, `e` eviction rounds, `n` values
      consumed and their frequencies `f`. */
  ghost predicate Accounted(m: Candidates, kMisra: nat, e: nat, n: nat, f: multiset<nat>) {
    && WellFormed(m, kMisra)
    && Total(m) + Weight(e, kMisra) == n
    && (forall u :: Count(m, u) <= f[u] <= Count(m, u) + e)
  }

  lemma AccountedStep(m: Candidates, kMisra: nat, e: nat, n: nat, f: multiset<nat>, v: nat)
    requires Accounted(m, kMisra, e, n, f)
    ensures Accounted(Update(m, kMisra, v), kMisra,
                      e + (if Evicts(m, kMisra, v) then 1 else 0), n + 1, f + multiset{v})
  {
    var m' := Update(m, kMisra, v);
    var e' := e + (if Evicts(m, kMisra, v) then 1 else 0);
    UpdateWellFormed(m, kMisra, v);
    if Evicts(m, kMisra, v) {
      UpdateTotalEvicted(m, kMisra, v);
    } else {
      UpdateTotalCounted(m, kMisra, v);
    }
    assert Total(m') + Weight(e', kMisra) == n + 1;
    FrequencyBoundsStep(m, kMisra, e, f, v);
  }

  lemma FrequencyBoundsStep(m: Candidates, kMisra: nat, e: nat, f: multiset<nat>, v: nat)
    requires WellFormed(m, kMisra)
    requires forall u :: Count(m, u) <= f[u] <= Count(m, u) + e
    ensures forall u ::
      var m' := Update(m, kMisra, v);
      var e' := e + (if Evicts(m, kMisra, v) then 1 else 0);
      Count(m', u) <= (f + multiset{v})[u] <= Count(m', u) + e'
  {
    forall u
      ensures Count(Update(m, kMisra, v), u) <= (f + multiset{v})[u]
      ensures (f + multiset{v})[u] <= Count(Update(m, kMisra, v), u) + e + (if Evicts(m, kMisra, v) then 1 else 0)
    {
      assert Count(m, u) <= f[u] <= Count(m, u) + e;
      CountAfterUpdate(m, kMisra, v, u);
    }
  }

  /** One more value keeps the stream invariant. */
  lemma StreamInvariantStep(kMisra: nat, xs: seq<nat>, v: nat)
    requires StreamInvariant(kMisra, xs)
    ensures StreamInvariant(kMisra, xs + [v])
  {
    RunStep(kMisra, xs, v);
    assert multiset(xs + [v]) == multiset(xs) + multiset{v};
    AccountedStep(Run(kMisra, xs), kMisra, Evictions(kMisra, xs), |xs|, multiset(xs), v);
  }

  lemma {:induction false} RunInvariant(kMisra: nat, xs: seq<nat>)
    requires kMisra >= 1
    ensures StreamInvariant(kMisra, xs)
  {
    if xs != [] {
      var before := xs[..|xs| - 1];
      assert xs == before + [xs[|xs| - 1]];
      RunInvariant(kMisra, before);
      StreamInvariantStep(kMisra, before, xs[|xs| - 1]);
    }
  }

  lemma MulMonotone(a: nat, b: nat, k: nat)
    requires a <= b
    ensures a * k <= b * k
  {
  }

  /**
    The Misra-Gries guarantee for divisor k > 1 (so kMisra = k - 1): every
    stored count is at most the true frequency, and undercounts it by at most
    n / k, that is (frequency - count) * k <= n.
  */
  lemma CountBounds(k: int, xs: seq<nat>, v: nat)
    requires k > 1
    ensures Count(Run(KMisra(k), xs), v) <= Frequency(xs, v)
    ensures (Frequency(xs, v) - Count(Run(KMisra(k), xs), v)) * k <= |xs|
  {
    var kMisra := KMisra(k);
    RunInvariant(kMisra, xs);
    var e := Evictions(kMisra, xs);
    WeightIsProduct(e, kMisra);
    var gap := Frequency(xs, v) - Count(Run(kMisra, xs), v);
    assert gap <= e;
    MulMonotone(gap, e, k);
  }

  /** Every value occurring more than n / k times is a candidate after the stream. */
  lemma HeavyHitterKept(k: int, xs: seq<nat>, v: nat)
    requires k > 1
    requires Frequency(xs, v) * k > |xs|
    ensures v in Run(KMisra(k), xs)
  {
    CountBounds(k, xs, v);
  }

  /** Whatever the stream, the map stays within capacity with positive counts. */
  lemma RunWellFormed(k: int, xs: seq<nat>)
    ensures WellFormed(Run(KMisra(k), xs), KMisra(k))
    ensures |Run(KMisra(k), xs)| <= KMisra(k)
  {
    RunInvariant(KMisra(k), xs);
  }
}
