/** Sampling distinct package batches (examples/juice_shop/run_batch.py:91-131). A sorted batch is
    modelled by the multiset of its names, which determines it. */
module BatchSampler {

  type Batch = multiset<string>

  // ---------------------------------------------------------------- counting

  // n choose k by Pascal's rule.
  ghost function Choose(n: nat, k: nat): nat {
    if k == 0 then 1 else if n == 0 then 0 else Choose(n - 1, k - 1) + Choose(n - 1, k)
  }

  lemma PascalProduct(a: int, b: int, c: int, n: int, k: int)
    requires b * k == a * (n - k) && c * (k + 1) == b * (n - 1 - k)
    ensures (b + c) * (k + 1) == (a + b) * (n - k)
  {
    calc {
      (b + c) * (k + 1);
      b * k + b + c * (k + 1);
      a * (n - k) + b + b * (n - 1 - k);
      { assert b + b * (n - 1 - k) == b * (n - k); }
      a * (n - k) + b * (n - k);
      (a + b) * (n - k);
    }
  }

  // The product rule behind the running quotient: the division in the loop leaves no remainder.
  lemma {:induction false} ChooseNext(n: nat, k: nat)
    ensures Choose(n, k + 1) * (k + 1) == Choose(n, k) * (n - k)
  {
    if n == 0 {
      assert Choose(0, k + 1) == 0;
    } else {
      ChooseNext(n - 1, k);
      if k == 0 {
        assert Choose(n, 1) == Choose(n - 1, 0) + Choose(n - 1, 1);
      } else {
        ChooseNext(n - 1, k - 1);
        PascalProduct(Choose(n - 1, k - 1), Choose(n - 1, k), Choose(n - 1, k + 1), n, k);
      }
    }
  }

  lemma {:induction false} ChooseWithin(n: nat, k: nat)
    requires k <= n
    ensures Choose(n, k) >= 1
  {
    if 0 < k { ChooseWithin(n - 1, k - 1); }
  }

  /** The loop's floor divisions are exact and give n choose k. */
  method MaxCombinations(n: nat, batchSize: int) returns (c: int)
    requires batchSize <= n
    ensures c == if batchSize <= 0 then 1 else Choose(n, batchSize)
  {
    c := 1;
    var i := 0;
    while i < batchSize
      invariant 0 <= i && (batchSize <= 0 ==> i == 0) && (batchSize > 0 ==> i <= batchSize)
      invariant c == Choose(n, i)
    {
      ChooseNext(n, i);
      ExactQuotient(Choose(n, i + 1), i + 1, c * (n - i));
      c := c * (n - i) / (i + 1);
      i := i + 1;
    }
  }

  lemma ExactQuotient(q: int, d: int, m: int)
    requires d > 0 && q * d == m
    ensures m / d == q
  {
    var r := m / d;
    assert m == r * d + m % d;
    SmallMultiple(q - r, d);
  }

  lemma SmallMultiple(x: int, d: int)
    requires d > 0
    ensures 0 <= x * d < d ==> x == 0
    ensures x * d == 0 ==> x == 0
  {
    if x >= 1 { assert x * d >= d; }
    if x <= -1 { assert x * d <= -d; }
  }

  // ---------------------------------------------------------------- the batches there are

  // The batches a sample can produce: k of the listed packages.
  ghost function Batches(packages: seq<string>, k: nat): set<Batch> {
    if k == 0 then {multiset{}}
    else if packages == [] then {}
    else Batches(packages[1..], k) + With(packages[0], Batches(packages[1..], k - 1))
  }

  ghost function With(x: string, batches: set<Batch>): set<Batch> {
    set b | b in batches :: b + multiset{x}
  }

  lemma WithMember(x: string, batches: set<Batch>, b: Batch)
    ensures b in With(x, batches) <==> x in b && b - multiset{x} in batches
  {
    if b in With(x, batches) {
      var c :| c in batches && b == c + multiset{x};
      assert b - multiset{x} == c;
    }
    if x in b {
      assert b == b - multiset{x} + multiset{x};
    }
  }

  // The number of batches in a set, counted one by one.
  ghost function SizeOf(batches: set<Batch>): nat {
    if batches == {} then 0 else
      var b :| b in batches;
      1 + SizeOf(batches - {b})
  }

  lemma {:induction false} SizeIsCardinality(batches: set<Batch>)
    ensures SizeOf(batches) == |batches|
  {
    if batches != {} {
      var b :| b in batches && SizeOf(batches) == 1 + SizeOf(batches - {b});
      SizeIsCardinality(batches - {b});
    }
  }

  lemma {:induction false} WithSize(x: string, batches: set<Batch>)
    ensures |With(x, batches)| == |batches|
  {
    if batches != {} {
      var b :| b in batches;
      var c := b + multiset{x};
      WithSize(x, batches - {b});
      assert With(x, batches) == With(x, batches - {b}) + {c};
      WithMember(x, batches - {b}, c);
      assert c - multiset{x} == b;
    }
  }

  // A draw of k from a pool.
  ghost predicate Draw(pool: multiset<string>, k: nat, b: Batch) {
    b <= pool && |b| == k
  }

  lemma DrawOne(x: string, pool: multiset<string>, k: nat, b: Batch)
    requires k > 0
    ensures Draw(pool + multiset{x}, k, b) <==> Draw(pool, k, b) || (x in b && Draw(pool, k - 1, b - multiset{x}))
  {
    if x in b {
      assert b == b - multiset{x} + multiset{x};
      assert |b - multiset{x}| == |b| - 1;
    }
  }

  // Nothing is drawn, or nothing is there.
  lemma BatchesNone(packages: seq<string>, k: nat, b: Batch)
    requires k == 0 || packages == []
    ensures b in Batches(packages, k) <==> Draw(multiset(packages), k, b)
  {
    if packages == [] && b <= multiset{} { assert b == multiset{}; }
  }

  lemma BatchesCons(packages: seq<string>, k: nat, b: Batch)
    requires k > 0 && packages != []
    requires var x, rest := packages[0], packages[1..];
             && (b in Batches(rest, k) <==> Draw(multiset(rest), k, b))
             && (b - multiset{x} in Batches(rest, k - 1) <==> Draw(multiset(rest), k - 1, b - multiset{x}))
    ensures b in Batches(packages, k) <==> Draw(multiset(packages), k, b)
  {
    var x, rest := packages[0], packages[1..];
    WithMember(x, Batches(rest, k - 1), b);
    DrawOne(x, multiset(rest), k, b);
    assert packages == [x] + rest && multiset(packages) == multiset(rest) + multiset{x};
  }

  /** They are exactly the sub-multisets of size k of the pool. */
  lemma {:induction false} BatchesAre(packages: seq<string>, k: nat, b: Batch)
    ensures b in Batches(packages, k) <==> Draw(multiset(packages), k, b)
  {
    if k == 0 || packages == [] {
      BatchesNone(packages, k, b);
    } else {
      BatchesAre(packages[1..], k, b);
      BatchesAre(packages[1..], k - 1, b - multiset{packages[0]});
      BatchesCons(packages, k, b);
    }
  }

  ghost predicate Distinct(packages: seq<string>) {
    forall i, j :: 0 <= i < j < |packages| ==> packages[i] != packages[j]
  }

  lemma DisjointParts(x: string, rest: seq<string>, k: nat)
    requires k > 0 && x !in rest
    ensures Batches(rest, k) !! With(x, Batches(rest, k - 1))
  {
    forall b | b in Batches(rest, k)
      ensures b !in With(x, Batches(rest, k - 1))
    {
      BatchesAre(rest, k, b);
      WithMember(x, Batches(rest, k - 1), b);
      assert x !in multiset(rest);
    }
  }

  lemma UnionSize(a: set<Batch>, c: set<Batch>)
    ensures SizeOf(a + c) <= SizeOf(a) + SizeOf(c)
    ensures a !! c ==> SizeOf(a + c) == SizeOf(a) + SizeOf(c)
  {
    SizeIsCardinality(a);
    SizeIsCardinality(c);
    SizeIsCardinality(a + c);
    assert a + c == a + (c - a);
    if a !! c { assert c - a == c; }
  }

  lemma OverlapSize(a: set<Batch>, c: set<Batch>, b: Batch)
    requires b in a && b in c
    ensures SizeOf(a + c) < SizeOf(a) + SizeOf(c)
  {
    SizeIsCardinality(a);
    SizeIsCardinality(c);
    SizeIsCardinality(a + c);
    assert a + c == a + (c - {b});
  }

  // Batches with and without the first position.
  lemma BatchesSplit(x: string, rest: seq<string>, k: nat)
    requires k > 0
    ensures Batches([x] + rest, k) == Batches(rest, k) + With(x, Batches(rest, k - 1))
    ensures SizeOf(With(x, Batches(rest, k - 1))) == SizeOf(Batches(rest, k - 1))
  {
    assert ([x] + rest)[1..] == rest;
    SizeIsCardinality(With(x, Batches(rest, k - 1)));
    SizeIsCardinality(Batches(rest, k - 1));
    WithSize(x, Batches(rest, k - 1));
  }

  lemma CountStep(x: string, rest: seq<string>, k: nat)
    requires k > 0
    ensures SizeOf(Batches([x] + rest, k)) <= SizeOf(Batches(rest, k)) + SizeOf(Batches(rest, k - 1))
    ensures x !in rest ==> SizeOf(Batches([x] + rest, k)) == SizeOf(Batches(rest, k)) + SizeOf(Batches(rest, k - 1))
  {
    BatchesSplit(x, rest, k);
    UnionSize(Batches(rest, k), With(x, Batches(rest, k - 1)));
    if x !in rest { DisjointParts(x, rest, k); }
  }

  lemma DistinctTail(x: string, rest: seq<string>)
    requires Distinct([x] + rest)
    ensures x !in rest && Distinct(rest)
  {
    var all := [x] + rest;
    assert forall i :: 0 <= i < |rest| ==> rest[i] == all[i + 1] && all[0] != all[i + 1];
  }

  // The count is what it should be.
  ghost predicate Counted(packages: seq<string>, k: nat) {
    && SizeOf(Batches(packages, k)) <= Choose(|packages|, k)
    && (Distinct(packages) ==> SizeOf(Batches(packages, k)) == Choose(|packages|, k))
  }

  // Pascal's rule for counts and for bounds on them.
  lemma ChooseSum(n: nat, k: nat, total: int, a: int, b: int)
    requires k > 0 && total <= a + b && a <= Choose(n, k) && b <= Choose(n, k - 1)
    ensures total <= Choose(n + 1, k)
    ensures total == a + b && a == Choose(n, k) && b == Choose(n, k - 1) ==> total == Choose(n + 1, k)
    ensures total < a + b || a < Choose(n, k) || b < Choose(n, k - 1) ==> total < Choose(n + 1, k)
  {
  }

  lemma CountedCons(x: string, rest: seq<string>, k: nat)
    requires k > 0 && Counted(rest, k) && Counted(rest, k - 1)
    ensures Counted([x] + rest, k)
  {
    var total, a, b := SizeOf(Batches([x] + rest, k)), SizeOf(Batches(rest, k)), SizeOf(Batches(rest, k - 1));
    assert total <= a + b && (x !in rest ==> total == a + b) by { CountStep(x, rest, k); }
    assert Distinct([x] + rest) ==> x !in rest && Distinct(rest) by { if Distinct([x] + rest) { DistinctTail(x, rest); } }
    ChooseSum(|rest|, k, total, a, b);
  }

  lemma CountedNone(packages: seq<string>, k: nat)
    requires k == 0 || packages == []
    ensures Counted(packages, k)
  {
  }

  lemma {:induction false} CountedAll(packages: seq<string>, k: nat)
    ensures Counted(packages, k)
  {
    if k == 0 || packages == [] {
      CountedNone(packages, k);
    } else {
      CountedAll(packages[1..], k);
      CountedAll(packages[1..], k - 1);
      CountedCons(packages[0], packages[1..], k);
      assert [packages[0]] + packages[1..] == packages;
    }
  }

  /** A pool of distinct packages has n choose k batches, and any pool at most that many. */
  lemma BatchCount(packages: seq<string>, k: nat)
    ensures |Batches(packages, k)| <= Choose(|packages|, k)
    ensures Distinct(packages) ==> |Batches(packages, k)| == Choose(|packages|, k)
  {
    CountedAll(packages, k);
    SizeIsCardinality(Batches(packages, k));
  }

  // ---------------------------------------------------------------- repeated names

  lemma {:induction false} ChooseAll(n: nat, k: nat)
    requires k >= n
    ensures Choose(n, k) == if k == n then 1 else 0
  {
    if n > 0 { ChooseAll(n - 1, k - 1); ChooseAll(n - 1, k); }
  }

  lemma SomeBatch(packages: seq<string>, k: nat)
    requires k <= |packages|
    ensures multiset(packages[..k]) in Batches(packages, k)
  {
    assert packages == packages[..k] + packages[k..];
    BatchesAre(packages, k, multiset(packages[..k]));
  }

  lemma DrawGrows(x: string, pool: multiset<string>, few: Batch, k: nat)
    requires Draw(pool, k, few)
    ensures Draw(pool + multiset{x}, k, few) && Draw(pool + multiset{x}, k + 1, few + multiset{x})
  {
  }

  // A batch with a name is still one of a larger pool.
  lemma GrownBatch(x: string, others: seq<string>, rest: seq<string>, few: Batch, k: nat)
    requires multiset(rest) == multiset(others) + multiset{x} && few in Batches(others, k)
    ensures few in Batches(rest, k) && few + multiset{x} in Batches(rest, k + 1)
  {
    BatchesAre(others, k, few);
    DrawGrows(x, multiset(others), few, k);
    BatchesAre(rest, k, few);
    BatchesAre(rest, k + 1, few + multiset{x});
  }

  lemma WithoutAt(rest: seq<string>, i: nat)
    requires i < |rest|
    ensures multiset(rest) == multiset(rest[..i] + rest[i + 1..]) + multiset{rest[i]}
  {
    assert rest == rest[..i] + [rest[i]] + rest[i + 1..];
  }

  // A batch that holds a name and can be drawn with and without the name's first position.
  lemma SharedBatch(x: string, rest: seq<string>, k: nat) returns (b: Batch)
    requires x in rest && 0 < k <= |rest|
    ensures b in Batches(rest, k) && b in With(x, Batches(rest, k - 1))
  {
    var i :| 0 <= i < |rest| && rest[i] == x;
    var others := rest[..i] + rest[i + 1..];
    WithoutAt(rest, i);
    var few := multiset(others[..k - 1]);
    SomeBatch(others, k - 1);
    GrownBatch(x, others, rest, few, k - 1);
    b := few + multiset{x};
    assert b - multiset{x} == few;
    WithMember(x, Batches(rest, k - 1), b);
  }

  // A batch that can be drawn in two ways counts once.
  lemma SharedCounts(x: string, rest: seq<string>, k: nat)
    requires x in rest && 0 < k <= |rest|
    ensures SizeOf(Batches([x] + rest, k)) < SizeOf(Batches(rest, k)) + SizeOf(Batches(rest, k - 1))
  {
    var b := SharedBatch(x, rest, k);
    BatchesSplit(x, rest, k);
    OverlapSize(Batches(rest, k), With(x, Batches(rest, k - 1)), b);
  }

  // A strict loss at the first position, or after it, is a strict loss.
  lemma FewerTail(x: string, rest: seq<string>, k: nat, j: nat)
    requires k > 0 && j in {k, k - 1}
    requires SizeOf(Batches([x] + rest, k)) < SizeOf(Batches(rest, k)) + SizeOf(Batches(rest, k - 1))
             || SizeOf(Batches(rest, j)) < Choose(|rest|, j)
    ensures SizeOf(Batches([x] + rest, k)) < Choose(|rest| + 1, k)
  {
    assert SizeOf(Batches([x] + rest, k)) <= SizeOf(Batches(rest, k)) + SizeOf(Batches(rest, k - 1)) by { CountStep(x, rest, k); }
    assert SizeOf(Batches(rest, k)) <= Choose(|rest|, k) by { CountedAll(rest, k); }
    assert SizeOf(Batches(rest, k - 1)) <= Choose(|rest|, k - 1) by { CountedAll(rest, k - 1); }
    ChooseSum(|rest|, k, SizeOf(Batches([x] + rest, k)), SizeOf(Batches(rest, k)), SizeOf(Batches(rest, k - 1)));
  }

  lemma {:induction false} FewerSize(packages: seq<string>, k: nat)
    requires !Distinct(packages) && 0 < k < |packages|
    ensures SizeOf(Batches(packages, k)) < Choose(|packages|, k)
  {
    var x, rest := packages[0], packages[1..];
    var j := if k < |rest| then k else k - 1;
    assert [x] + rest == packages;
    if x in rest {
      SharedCounts(x, rest, k);
    } else {
      RepeatedTail(x, rest);
      FewerSize(rest, j);
    }
    FewerTail(x, rest, k, j);
  }

  /** With a repeated name there are strictly fewer batches than positions allow, unless a batch takes
      nothing or everything. */
  lemma StrictlyFewer(packages: seq<string>, k: nat)
    requires !Distinct(packages) && 0 < k < |packages|
    ensures |Batches(packages, k)| < Choose(|packages|, k)
  {
    FewerSize(packages, k);
    SizeIsCardinality(Batches(packages, k));
  }

  lemma RepeatedTail(x: string, rest: seq<string>)
    requires !Distinct([x] + rest) && x !in rest
    ensures !Distinct(rest) && |rest| >= 2
  {
    var all := [x] + rest;
    var i, j :| 0 <= i < j < |all| && all[i] == all[j];
    assert all[j] == rest[j - 1];
    assert i > 0 && all[i] == rest[i - 1];
  }

  lemma EveryBatchCounted(packages: seq<string>, k: nat)
    requires k <= |packages|
    ensures |Batches(packages, k)| >= Choose(|packages|, k) <==> Distinct(packages) || k == 0 || k == |packages|
  {
    BatchCount(packages, k);
    if k == |packages| {
      ChooseAll(k, k);
      BatchesAre(packages, k, multiset(packages));
      assert Batches(packages, k) != {};
    } else if k > 0 && !Distinct(packages) {
      StrictlyFewer(packages, k);
    }
  }

  // ---------------------------------------------------------------- the sampling loop

  datatype Sampled =
    | TooFewPackages       // the explicit ValueError
    | NegativeSample       // the generator's own error for a negative batch size
    | Running(batches: seq<Batch>)
    | Done(batches: seq<Batch>)

  function Target(numBatches: int, combinations: int): int {
    if numBatches <= combinations then numBatches else combinations
  }

  ghost predicate DistinctBatches(batches: seq<Batch>) {
    forall i, j :: 0 <= i < j < |batches| ==> batches[i] != batches[j]
  }

  ghost function SeenIn(batches: seq<Batch>): set<Batch> {
    set b | b in batches
  }

  lemma {:induction false} SeenSize(batches: seq<Batch>)
    requires DistinctBatches(batches)
    ensures |SeenIn(batches)| == |batches|
  {
    if batches != [] {
      var last, rest := batches[|batches| - 1], batches[..|batches| - 1];
      SeenSize(rest);
      assert batches == rest + [last];
      assert SeenIn(batches) == SeenIn(rest) + {last};
    }
  }

  ghost function Needed(packages: seq<string>, k: nat, numBatches: int): int {
    Target(numBatches, Choose(|packages|, k))
  }

  // The loop, for a given rest of the stream.
  function SamplesFrom(batches: seq<Batch>, draws: seq<Batch>, target: int): Sampled
    decreases |draws|
  {
    if |batches| >= target then Done(batches)
    else if draws == [] then Running(batches)
    else SamplesFrom(if draws[0] in batches then batches else batches + [draws[0]], draws[1..], target)
  }

  // What a run on a stream of draws comes to.
  ghost function SampleOf(packages: seq<string>, batchSize: int, numBatches: int, draws: seq<Batch>): Sampled {
    if |packages| < batchSize then TooFewPackages
    else if batchSize < 0 then (if numBatches > 0 then NegativeSample else Done([]))
    else SamplesFrom([], draws, Needed(packages, batchSize, numBatches))
  }

  /** Samples until enough distinct batches have been seen. The generator is the stream of draws;
      Running is a run whose stream has ended early. Every collected batch is a sample, none
      repeats, and the loop stops exactly when min(numBatches, n choose k) are collected. */
  method SampleBatches(packages: seq<string>, batchSize: int, numBatches: int, draws: seq<Batch>) returns (r: Sampled)
    requires batchSize >= 0 ==> forall d :: d in draws ==> d in Batches(packages, batchSize)
    ensures r.TooFewPackages? <==> |packages| < batchSize
    ensures r.NegativeSample? <==> batchSize < 0 && numBatches > 0
    ensures r.Done? && batchSize < 0 ==> r.batches == []
    ensures (r.Running? || r.Done?) && batchSize >= 0 ==>
              DistinctBatches(r.batches) && SeenIn(r.batches) <= Batches(packages, batchSize)
    ensures r.Done? && batchSize >= 0 ==>
              |r.batches| == if numBatches <= 0 then 0
                             else if numBatches <= Choose(|packages|, batchSize) then numBatches else Choose(|packages|, batchSize)
    ensures r.Running? ==> batchSize >= 0 && |r.batches| < numBatches && |r.batches| < Choose(|packages|, batchSize)
                           && SeenIn(r.batches) == (set d | d in draws)
    ensures r == SampleOf(packages, batchSize, numBatches, draws)
  {
    if |packages| < batchSize {
      return TooFewPackages;
    }
    var seen, batches, drawn: nat := {}, [], 0;
    var combinations := MaxCombinations(|packages|, batchSize);
    var target := Target(numBatches, combinations);
    if batchSize < 0 {
      return if target > 0 then NegativeSample else Done([]);
    }
    assert draws[0..] == draws;
    while |batches| < target
      invariant drawn <= |draws| && seen == SeenIn(batches) == (set d | d in draws[..drawn])
      invariant DistinctBatches(batches) && seen <= Batches(packages, batchSize)
      invariant |batches| <= if target <= 0 then 0 else target
      invariant SamplesFrom(batches, draws[drawn..], target) == SamplesFrom([], draws, target)
      decreases |draws| - drawn
    {
      if drawn == |draws| {
        assert draws[..drawn] == draws;
        return Running(batches);
      }
      var sampled := draws[drawn];
      assert draws[drawn..][0] == sampled && draws[drawn..][1..] == draws[drawn + 1..];
      assert sampled in draws && draws[..drawn + 1] == draws[..drawn] + [sampled];
      if sampled !in seen {
        seen := seen + {sampled};
        batches := batches + [sampled];
      }
      drawn := drawn + 1;
    }
    return Done(batches);
  }

  /** While the loop runs on distinct packages, a batch it has not seen is still there to be drawn:
      no reachable state is stuck. */
  lemma UnseenBatch(packages: seq<string>, k: nat, numBatches: int, batches: seq<Batch>)
    requires Distinct(packages) && DistinctBatches(batches) && SeenIn(batches) <= Batches(packages, k)
    requires |batches| < Needed(packages, k, numBatches)
    ensures exists b :: b in Batches(packages, k) && b !in SeenIn(batches)
  {
    SeenSize(batches);
    BatchCount(packages, k);
    var unseen := Batches(packages, k) - SeenIn(batches);
    assert |unseen| > 0;
    var b :| b in unseen;
  }

  ghost predicate AllDrawn(packages: seq<string>, k: nat, draws: seq<Batch>) {
    forall d :: d in draws ==> d in Batches(packages, k)
  }

  // Some draws bring the sampler to an end.
  ghost predicate Finishes(packages: seq<string>, k: nat, numBatches: int) {
    exists draws :: AllDrawn(packages, k, draws) && SampleOf(packages, k, numBatches, draws).Done?
  }

  lemma {:induction false} SamplesBounded(all: set<Batch>, batches: seq<Batch>, draws: seq<Batch>, target: int)
    requires DistinctBatches(batches) && SeenIn(batches) <= all && forall d :: d in draws ==> d in all
    requires SamplesFrom(batches, draws, target).Done?
    ensures target <= |all|
    decreases |draws|
  {
    SeenSize(batches);
    SubsetSize(SeenIn(batches), all);
    if |batches| < target {
      var next := if draws[0] in batches then batches else batches + [draws[0]];
      assert SeenIn(next) == SeenIn(batches) + {draws[0]};
      SamplesBounded(all, next, draws[1..], target);
    }
  }

  lemma {:induction false} SamplesListed(batches: seq<Batch>, draws: seq<Batch>, target: int)
    requires DistinctBatches(batches + draws) && |batches| + |draws| >= target
    ensures SamplesFrom(batches, draws, target).Done?
    decreases |draws|
  {
    if |batches| < target {
      var all := batches + draws;
      assert all[|batches|] == draws[0];
      assert forall i :: 0 <= i < |batches| ==> all[i] == batches[i];
      assert batches + [draws[0]] + draws[1..] == all;
      SamplesListed(batches + [draws[0]], draws[1..], target);
    }
  }

  /** Some draws finish the loop exactly when the pool has as many different batches as the target
      counts; otherwise every stream of draws leaves it running. */
  lemma CanFinish(packages: seq<string>, k: nat, numBatches: int)
    requires k <= |packages|
    ensures Finishes(packages, k, numBatches) <==> |Batches(packages, k)| >= Needed(packages, k, numBatches)
    ensures !Finishes(packages, k, numBatches) ==>
              forall draws :: AllDrawn(packages, k, draws) ==> SampleOf(packages, k, numBatches, draws).Running?
  {
    var target := Needed(packages, k, numBatches);
    forall draws | AllDrawn(packages, k, draws)
      ensures SampleOf(packages, k, numBatches, draws).Done? ==> |Batches(packages, k)| >= target
      ensures SampleOf(packages, k, numBatches, draws).Done? || SampleOf(packages, k, numBatches, draws).Running?
    {
      DoneOrRunning([], draws, target);
      if SamplesFrom([], draws, target).Done? { SamplesBounded(Batches(packages, k), [], draws, target); }
    }
    if |Batches(packages, k)| >= target {
      var draws := Listing(Batches(packages, k));
      SeenSize(draws);
      assert [] + draws == draws;
      SamplesListed([], draws, target);
      assert forall d :: d in draws ==> d in SeenIn(draws);
      assert AllDrawn(packages, k, draws) && SampleOf(packages, k, numBatches, draws).Done?;
    }
  }

  lemma {:induction false} DoneOrRunning(batches: seq<Batch>, draws: seq<Batch>, target: int)
    ensures SamplesFrom(batches, draws, target).Done? || SamplesFrom(batches, draws, target).Running?
    decreases |draws|
  {
    if |batches| < target && draws != [] {
      DoneOrRunning(if draws[0] in batches then batches else batches + [draws[0]], draws[1..], target);
    }
  }

  /** The sampler can finish for every number of batches asked for if and only if the names are
      distinct, or a batch takes nothing or the whole pool. */
  lemma FinishesExactly(packages: seq<string>, k: nat)
    requires k <= |packages|
    ensures (forall n: int :: Finishes(packages, k, n)) <==> Distinct(packages) || k == 0 || k == |packages|
  {
    EveryBatchCounted(packages, k);
    forall n: int ensures Finishes(packages, k, n) <==> |Batches(packages, k)| >= Needed(packages, k, n) {
      CanFinish(packages, k, n);
    }
    var most := Choose(|packages|, k);
    assert Needed(packages, k, most) == most;
    if |Batches(packages, k)| < most {
      assert !Finishes(packages, k, most);
    }
  }

  lemma SubsetSize(a: set<Batch>, b: set<Batch>)
    requires a <= b
    ensures |a| <= |b|
  {
    assert b == a + (b - a);
  }

  lemma {:induction false} Listing(batches: set<Batch>) returns (r: seq<Batch>)
    ensures DistinctBatches(r) && SeenIn(r) == batches
  {
    if batches == {} {
      r := [];
    } else {
      var b :| b in batches;
      var rest := Listing(batches - {b});
      r := rest + [b];
      assert SeenIn(r) == SeenIn(rest) + {b} && b !in SeenIn(rest);
    }
  }

  /** Two equal names: two positions, one batch, and two batches of one asked for are never found. */
  lemma RepeatedNames()
    ensures |Batches(["a", "a"], 1)| == 1 && Needed(["a", "a"], 1, 2) == 2
    ensures forall draws :: AllDrawn(["a", "a"], 1, draws) ==> SampleOf(["a", "a"], 1, 2, draws).Running?
  {
    CanFinish(["a", "a"], 1, 2);
    assert Batches(["a", "a"][1..], 1) == {multiset{"a"}} by { OneBatch("a"); assert ["a", "a"][1..] == ["a"]; }
    assert With("a", {multiset{}}) == {multiset{"a"}} by { assert multiset{} + multiset{"a"} == multiset{"a"}; }
    assert Batches(["a", "a"], 1) == {multiset{"a"}};
    assert Choose(2, 1) == 2 by { assert Choose(1, 0) == 1 && Choose(1, 1) == 1; }
  }

  lemma OneBatch(x: string)
    ensures Batches([x], 1) == {multiset{x}}
  {
    assert [x][1..] == [];
    assert With(x, {multiset{}}) == {multiset{x}} by { assert multiset{} + multiset{x} == multiset{x}; }
  }
}
