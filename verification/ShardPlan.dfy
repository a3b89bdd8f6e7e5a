/** Sizing the mutation gate's shard matrix (`hack/mutants-shard-plan.py`). */
module ShardPlan {
  import opened Basics

  datatype Platform = Platform(secsPerMutant: nat, budgetSecs: nat, minShards: nat, maxShards: nat)

  const LINUX := Platform(40, 30 * 60, 2, 16)
  const WINDOWS := Platform(120, 40 * 60, 4, 36)

  predicate Sane(p: Platform) {
    0 < p.secsPerMutant && 0 < p.budgetSecs && 0 < p.minShards <= p.maxShards
  }

  /** `math.ceil(a / b)`, exactly: the least `q` with `a <= q * b`. */
  function CeilDiv(a: nat, b: nat): (q: nat)
    requires b > 0
    ensures a <= q * b && (0 < q ==> (q - 1) * b < a)
  {
    DivMod(a, b);
    assert (a / b + 1) * b == a / b * b + b;
    if a % b == 0 then a / b else a / b + 1
  }

  /** `shard_count`: the least number of shards in the platform's range whose budgets
      hold the work, or the largest there is; a negative count is an error. */
  function ShardCount(mutants: int, p: Platform): (n: Option<nat>)
    requires Sane(p)
    ensures n.None? <==> mutants < 0
    ensures n.Some? ==> p.minShards <= n.value <= p.maxShards
    ensures n.Some? ==> mutants * p.secsPerMutant <= n.value * p.budgetSecs || n.value == p.maxShards
    ensures n.Some? ==> forall k: nat :: p.minShards <= k < n.value ==> k * p.budgetSecs < mutants * p.secsPerMutant
  {
    if mutants < 0 then None
    else
      var needed := CeilDiv(mutants * p.secsPerMutant, p.budgetSecs);
      var capped := if needed < p.maxShards then needed else p.maxShards;
      var n := if p.minShards < capped then capped else p.minShards;
      LeastCount(mutants * p.secsPerMutant, p.budgetSecs, needed, n, p.minShards);
      Some(n)
  }

  lemma LeastCount(work: nat, budget: nat, needed: nat, n: nat, least: nat)
    requires work <= needed * budget && (0 < needed ==> (needed - 1) * budget < work) && (n == least || n <= needed)
    ensures needed <= n ==> work <= n * budget
    ensures forall k: nat :: least <= k < n ==> k * budget < work
  {
    if needed <= n {
      Monotone(needed, n, budget);
    }
    forall k: nat | least <= k < n ensures k * budget < work {
      Monotone(k, needed - 1, budget);
    }
  }

  /** How many of the first `count` mutants go to shard `k` when mutant `i` goes to
      shard `i % n`. */
  ghost function Dealt(count: nat, n: nat, k: nat): nat
    requires n > 0
  {
    if count == 0 then 0 else Dealt(count - 1, n, k) + (if (count - 1) % n == k then 1 else 0)
  }

  /** The seconds of work in shard `k` of the planned matrix. */
  ghost function Work(mutants: nat, p: Platform, k: nat): nat
    requires Sane(p)
  {
    Dealt(mutants, ShardCount(mutants, p).value, k) * p.secsPerMutant
  }

  /** The promise of the plan, exactly: when a mutant's cost divides the budget, every
      shard fits its budget if and only if the mutants fit the largest matrix. */
  lemma FitsExactlyWhen(mutants: nat, p: Platform)
    requires Sane(p) && p.budgetSecs % p.secsPerMutant == 0
    ensures (forall k :: 0 <= k < ShardCount(mutants, p).value ==> Work(mutants, p, k) <= p.budgetSecs)
       <==> mutants * p.secsPerMutant <= p.maxShards * p.budgetSecs
  {
    if mutants * p.secsPerMutant <= p.maxShards * p.budgetSecs {
      forall k | 0 <= k < ShardCount(mutants, p).value
        ensures Work(mutants, p, k) <= p.budgetSecs
      {
        FitsToOneMutant(mutants, p, k);
      }
    } else {
      PastTheMaximum(mutants, p);
    }
  }

  /** Whatever a mutant costs, a shard overshoots by less than one mutant. */
  lemma FitsToOneMutant(mutants: nat, p: Platform, k: nat)
    requires Sane(p) && mutants * p.secsPerMutant <= p.maxShards * p.budgetSecs
    requires k < ShardCount(mutants, p).value
    ensures Work(mutants, p, k) < p.budgetSecs + p.secsPerMutant
    ensures p.budgetSecs % p.secsPerMutant == 0 ==> Work(mutants, p, k) <= p.budgetSecs
  {
    var n := ShardCount(mutants, p).value;
    Enough(mutants * p.secsPerMutant, p.budgetSecs, n, p.maxShards);
    DealtIs(mutants, n, k);
    FullestShard(mutants, n, p.secsPerMutant, p.budgetSecs, Dealt(mutants, n, k));
  }

  /** Past the largest matrix some shard is over budget. */
  lemma PastTheMaximum(mutants: nat, p: Platform)
    requires Sane(p) && mutants * p.secsPerMutant > p.maxShards * p.budgetSecs
    ensures exists k :: 0 <= k < ShardCount(mutants, p).value && Work(mutants, p, k) > p.budgetSecs
  {
    var n := ShardCount(mutants, p).value;
    Monotone(n, p.maxShards, p.budgetSecs);
    DealtOnce(mutants, n);
    if forall k :: 0 <= k < n ==> Work(mutants, p, k) <= p.budgetSecs {
      AllFit(mutants, p, n);
    }
  }

  /** Both shipped platforms are of the exact kind. */
  lemma ShippedPlatforms(p: Platform)
    requires p == LINUX || p == WINDOWS
    ensures Sane(p) && p.budgetSecs % p.secsPerMutant == 0
  {
  }

  // ---- The deal ----

  /** Shard `k` has one mutant for every full round, and one more if the last round
      reaches it. */
  lemma {:induction false} DealtIs(count: nat, n: nat, k: nat)
    requires k < n
    ensures Dealt(count, n, k) == count / n + (if k < count % n then 1 else 0)
  {
    if count > 0 {
      DealtIs(count - 1, n, k);
      NextRound(count - 1, n);
    }
  }

  lemma NextRound(c: nat, n: nat)
    requires n > 0
    ensures if c % n == n - 1 then (c + 1) / n == c / n + 1 && (c + 1) % n == 0
            else (c + 1) / n == c / n && (c + 1) % n == c % n + 1
  {
    DivMod(c, n);
    var q: nat, r: nat := c / n, c % n;
    Distribute(q, 1, n);
    if r == n - 1 {
      Quotient(c + 1, n, q + 1, 0);
    } else {
      Quotient(c + 1, n, q, r + 1);
    }
  }

  /** The mutants in the first `k` shards. */
  ghost function DealtUpTo(count: nat, n: nat, k: nat): nat
    requires k <= n && n > 0
  {
    if k == 0 then 0 else DealtUpTo(count, n, k - 1) + Dealt(count, n, k - 1)
  }

  /** Every mutant is dealt to exactly one shard. */
  lemma {:induction false} DealtOnce(count: nat, n: nat)
    requires n > 0
    ensures DealtUpTo(count, n, n) == count
  {
    if count == 0 {
      NothingDealt(n, n);
    } else {
      DealtOnce(count - 1, n);
      OneMoreDealt(count, n, n);
    }
  }

  lemma {:induction false} NothingDealt(n: nat, k: nat)
    requires k <= n && n > 0
    ensures DealtUpTo(0, n, k) == 0
  {
    if k > 0 {
      NothingDealt(n, k - 1);
    }
  }

  lemma {:induction false} OneMoreDealt(count: nat, n: nat, k: nat)
    requires 0 < count && k <= n && n > 0
    ensures DealtUpTo(count, n, k) == DealtUpTo(count - 1, n, k) + (if (count - 1) % n < k then 1 else 0)
  {
    if k > 0 {
      OneMoreDealt(count, n, k - 1);
    }
  }

  lemma {:induction false} AllFit(mutants: nat, p: Platform, k: nat)
    requires Sane(p) && k <= ShardCount(mutants, p).value
    requires forall j :: 0 <= j < ShardCount(mutants, p).value ==> Work(mutants, p, j) <= p.budgetSecs
    ensures DealtUpTo(mutants, ShardCount(mutants, p).value, k) * p.secsPerMutant <= k * p.budgetSecs
  {
    if k > 0 {
      var n := ShardCount(mutants, p).value;
      AllFit(mutants, p, k - 1);
      assert Work(mutants, p, k - 1) <= p.budgetSecs;
      Distribute(DealtUpTo(mutants, n, k - 1), Dealt(mutants, n, k - 1), p.secsPerMutant);
      Distribute(k - 1, 1, p.budgetSecs);
    }
  }

  // ---- The arithmetic ----

  /** The planned `n` shards hold the whole work whenever the largest matrix does. */
  lemma Enough(total: nat, budget: nat, n: nat, largest: nat)
    requires budget > 0 && total <= largest * budget
    requires n >= CeilDiv(total, budget) || n >= largest
    ensures total <= n * budget
  {
    Monotone(if n >= largest then largest else CeilDiv(total, budget), n, budget);
  }

  /** `d` mutants in the fullest of `n` shards, which hold `c` mutants in all. */
  lemma FullestShard(c: nat, n: nat, s: nat, b: nat, d: nat)
    requires n > 0 && s > 0 && c * s <= n * b && d <= c / n + (if c % n > 0 then 1 else 0)
    ensures d * s < b + s
    ensures b % s == 0 ==> d * s <= b
  {
    if d > 0 {
      DivMod(c, n);
      Monotone(d - 1, if c % n > 0 then c / n else c / n - 1, n);
      Distribute(c / n - 1, 1, n);
      assert (d - 1) * n < c;
      Strict((d - 1) * n, c, s);
      Swap(d - 1, n, s);
      Swap(b, n, 1);
      Cancel((d - 1) * s, b, n);
      Distribute(d - 1, 1, s);
      if b % s == 0 {
        DivMod(b, s);
        Cancel(d - 1, b / s, s);
        Monotone(d, b / s, s);
      }
    }
  }

  lemma DivMod(a: nat, n: nat)
    requires n > 0
    ensures a == a / n * n + a % n && 0 <= a % n < n && 0 <= a / n
  {
  }

  lemma Quotient(a: nat, n: nat, q: nat, r: nat)
    requires n > 0 && r < n && a == q * n + r
    ensures a / n == q && a % n == r
  {
    DivMod(a, n);
    if a / n < q {
      Monotone(a / n + 1, q, n);
      Distribute(a / n, 1, n);
    } else if q < a / n {
      Monotone(q + 1, a / n, n);
      Distribute(q, 1, n);
    }
  }

  lemma Monotone(a: int, b: int, c: nat)
    requires a <= b
    ensures a * c <= b * c
  {
  }

  lemma Strict(a: int, b: int, c: nat)
    requires a < b && 0 < c
    ensures a * c < b * c
  {
  }

  lemma Cancel(a: int, b: int, c: nat)
    requires a * c < b * c
    ensures a < b
  {
    if b <= a {
      Monotone(b, a, c);
    }
  }

  lemma Distribute(a: int, b: int, c: int)
    ensures (a + b) * c == a * c + b * c
  {
  }

  lemma Swap(a: int, b: int, c: int)
    ensures a * b * c == a * c * b
  {
  }
}
