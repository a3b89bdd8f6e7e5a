/** How one step of a journey is graded (`hack/dogfood/run_journeys.py`): which of
    its actions may bear the assertion, which earlier ones may rescue it, and how a
    decisive step that was never entered may still be credited. */
module Grading {
  import opened Basics
  import opened Oracles

  /** A step, as far as grading reads it. `seeds` says that it declares
      `seed_files`. */
  datatype StepSpec = StepSpec(asserts: Assertions, cmdRe: Regex, seeds: bool)

  /** An auditable credit of a decisive step. */
  datatype Credit =
    | Matched(step: nat)
    | Observed(step: nat, at: nat, cmd: string)
    | Rescue(step: nat, at: nat, cmd: string, refusal: bool,
             targetAt: nat, targetCmd: string, superseded: seq<Candidate>)

  datatype StepGrade = StepGrade(candidates: seq<Candidate>, credits: seq<Credit>)

  // ---- Eligible targets ----

  ghost predicate Increasing(s: seq<nat>) {
    forall x, y :: 0 <= x < y < |s| ==> s[x] < s[y]
  }

  /** Indices in `[lo, hi)` whose command matches, in run order. */
  function Matching(p: string -> bool, actions: seq<Action>, lo: nat, hi: nat): (found: seq<nat>)
    requires lo <= hi <= |actions|
    ensures forall i :: i in found <==> lo <= i < hi && p(actions[i].command)
    ensures Increasing(found)
    decreases hi
  {
    if lo == hi then []
    else
      var before := Matching(p, actions, lo, hi - 1);
      assert forall x :: 0 <= x < |before| ==> before[x] in before;
      if p(actions[hi - 1].command) then before + [hi - 1] else before
  }

  /** `_eligible_targets` over the step's own actions `actions[lo..]`. */
  function Eligible(rules: Rules, step: StepSpec, actions: seq<Action>, lo: nat): (found: seq<nat>)
    requires lo < |actions|
    ensures forall i :: i in found <==> MayBear(rules, step, actions, lo, i)
    ensures Increasing(found)
  {
    match step.cmdRe
    case BadRegex => [|actions| - 1]
    case Regex(matches) => Matching(matches, actions, lo, |actions|)
    case NoRegex =>
      var product := Matching(rules.productCmd, actions, lo, |actions|);
      assert product == [] || product[0] in product;
      if product == [] then [|actions| - 1] else product
  }

  lemma EligibleEmpty(rules: Rules, step: StepSpec, actions: seq<Action>, lo: nat)
    requires lo < |actions|
    ensures Eligible(rules, step, actions, lo) == [] <==> forall i :: !MayBear(rules, step, actions, lo, i)
  {
    var e := Eligible(rules, step, actions, lo);
    if e != [] {
      assert e[0] in e;
    }
  }

  /** The action at `i` may bear the step's assertion: the declared pattern names
      it; or nothing is declared and it runs the product (the final action standing
      in when nothing does); or the declared pattern is unusable and it is final. */
  ghost predicate MayBear(rules: Rules, step: StepSpec, actions: seq<Action>, lo: nat, i: int) {
    && lo <= i < |actions|
    && match step.cmdRe
       case BadRegex => i == |actions| - 1
       case Regex(matches) => matches(actions[i].command)
       case NoRegex =>
         if exists j :: lo <= j < |actions| && rules.productCmd(actions[j].command)
         then rules.productCmd(actions[i].command)
         else i == |actions| - 1
  }

  /** The default target: the last action that may bear the assertion. */
  ghost predicate IsTarget(rules: Rules, step: StepSpec, actions: seq<Action>, lo: nat, t: nat) {
    && MayBear(rules, step, actions, lo, t)
    && forall i :: MayBear(rules, step, actions, lo, i) ==> i <= t
  }

  // ---- Rescue ----

  /** The only two shapes that may stand in for a failing target: an earlier action
      of a step that declares a refusal, or the byte-identical product command asked
      at least two actions earlier and not before the seed watermark. */
  ghost predicate MayRescue(rules: Rules, step: StepSpec, actions: seq<Action>, lo: nat, mark: nat,
                      t: nat, i: int)
  {
    && 0 <= i < t < |actions|
    && if ExpectsNonzero(step.asserts) then MayBear(rules, step, actions, lo, i)
       else
         && actions[t].command != ""
         && mark <= i < t - 1
         && actions[i].command == actions[t].command
         && rules.creditCmd(actions[t].command)
  }

  /** `_rescue_candidates`, oldest first (the scan below starts at the end). */
  function RescuePool(rules: Rules, step: StepSpec, actions: seq<Action>, lo: nat, mark: nat, t: nat)
    : (pool: seq<nat>)
    requires lo < |actions| && IsTarget(rules, step, actions, lo, t)
    ensures forall i :: i in pool <==> MayRescue(rules, step, actions, lo, mark, t, i)
    ensures Increasing(pool)
  {
    var eligible := Eligible(rules, step, actions, lo);
    var cmd := actions[t].command;
    if ExpectsNonzero(step.asserts) then
      LastIsTarget(rules, step, actions, lo, t);
      eligible[..|eligible| - 1]
    else if cmd == "" || t < 2 || t - 1 < mark || !rules.creditCmd(cmd) then []
    else Matching((c: string) => c == cmd, actions, mark, t - 1)
  }

  lemma LastIsTarget(rules: Rules, step: StepSpec, actions: seq<Action>, lo: nat, t: nat)
    requires lo < |actions| && IsTarget(rules, step, actions, lo, t)
    ensures var e := Eligible(rules, step, actions, lo);
            && |e| > 0 && e[|e| - 1] == t
            && forall i :: i in e[..|e| - 1] <==> MayBear(rules, step, actions, lo, i) && i < t
  {
    var e := Eligible(rules, step, actions, lo);
    assert t in e;
    var x :| 0 <= x < |e| && e[x] == t;
    assert e[|e| - 1] in e;
    assert x == |e| - 1;
    forall i ensures i in e[..|e| - 1] <==> MayBear(rules, step, actions, lo, i) && i < t {
      if MayBear(rules, step, actions, lo, i) && i < t {
        assert i in e;
        var y :| 0 <= y < |e| && e[y] == i;
        assert e[..|e| - 1][y] == i;
      }
    }
  }

  /** The newest member of the pool that satisfies every assertion. */
  function NewestSatisfying(rules: Rules, s: Assertions, actions: seq<Action>, pool: seq<nat>, decisive: bool)
    : (found: Option<nat>)
    requires forall i :: i in pool ==> i < |actions|
    requires Increasing(pool)
    ensures found.None? <==> forall i :: i in pool ==> !Satisfies(rules, s, actions[i])
    ensures found.Some? ==>
              && found.value in pool && Satisfies(rules, s, actions[found.value])
              && forall i :: i in pool && i > found.value ==> !Satisfies(rules, s, actions[i])
  {
    if pool == [] then None
    else
      var newest := pool[|pool| - 1];
      var rest := pool[..|pool| - 1];
      assert newest in pool;
      assert forall i :: i in pool <==> i in rest || i == newest;
      if GradeTarget(rules, s, actions, newest, decisive) == [] then Some(newest)
      else NewestSatisfying(rules, s, actions, rest, decisive)
  }

  // ---- Grading one step ----

  function Unreached(decisive: bool): Candidate {
    Candidate(UnreachedDecisive, decisive, -1, "")
  }

  /** `_grade_step_functional` for step `k`, whose own actions are `actions[lo..]`
      and whose seed watermark is `mark`. Credits are recorded for decisive steps. */
  function GradeStep(rules: Rules, step: StepSpec, k: nat, actions: seq<Action>, lo: nat, mark: nat,
                     decisive: bool)
    : (g: StepGrade)
    requires lo <= |actions|
  {
    if lo == |actions| then StepGrade([], [])
    else
      var eligible := Eligible(rules, step, actions, lo);
      if eligible == [] then StepGrade(if decisive then [Unreached(true)] else [], [])
      else
        var t := eligible[|eligible| - 1];
        assert t in eligible;
        assert forall i :: i in eligible ==> i <= t;
        var graded := GradeTarget(rules, step.asserts, actions, t, decisive);
        if graded == [] then StepGrade([], [])
        else
          var pool := RescuePool(rules, step, actions, lo, mark, t);
          match NewestSatisfying(rules, step.asserts, actions, pool, decisive)
          case None => StepGrade(graded, [])
          case Some(i) =>
            var credit := Rescue(k, i, actions[i].command, ExpectsNonzero(step.asserts),
                                 t, actions[t].command, graded);
            StepGrade([], if decisive then [credit] else [])
  }

  /** Some action that may rescue the target satisfies the step in full. */
  ghost predicate Rescued(rules: Rules, step: StepSpec, actions: seq<Action>, lo: nat, mark: nat, t: nat) {
    exists i :: MayRescue(rules, step, actions, lo, mark, t, i) && Satisfies(rules, step.asserts, actions[i])
  }

  /** The rescue credit a decisive step owes: the newest rescuer, with the non-empty
      list of candidates it supersedes. */
  ghost predicate RescueCredit(rules: Rules, step: StepSpec, k: nat, actions: seq<Action>, lo: nat, mark: nat,
                         t: nat, c: Credit)
  {
    && c.Rescue? && c.step == k
    && MayRescue(rules, step, actions, lo, mark, t, c.at)
    && Satisfies(rules, step.asserts, actions[c.at])
    && (forall i :: c.at < i && MayRescue(rules, step, actions, lo, mark, t, i)
                    ==> !Satisfies(rules, step.asserts, actions[i]))
    && c.cmd == actions[c.at].command
    && (c.refusal <==> ExpectsNonzero(step.asserts))
    && c.targetAt == t && c.targetCmd == actions[t].command
    && c.superseded == GradeTarget(rules, step.asserts, actions, t, true) != []
  }

  /** Step grading meets its declarative specification, for every step, journey and
      watermark: no candidates exactly when the target or a legitimate rescuer
      satisfies everything, and never a silent rescue of a decisive step. */
  lemma GradeStepSpec(rules: Rules, step: StepSpec, k: nat, actions: seq<Action>, lo: nat, mark: nat,
                      decisive: bool, t: nat)
    requires lo < |actions| && IsTarget(rules, step, actions, lo, t)
    ensures var g := GradeStep(rules, step, k, actions, lo, mark, decisive);
            var passes := Satisfies(rules, step.asserts, actions[t]);
            var rescued := Rescued(rules, step, actions, lo, mark, t);
            && (g.candidates == [] <==> passes || rescued)
            && (g.candidates != [] ==> g.candidates == GradeTarget(rules, step.asserts, actions, t, decisive))
            && (if decisive && !passes && rescued
                then |g.credits| == 1 && RescueCredit(rules, step, k, actions, lo, mark, t, g.credits[0])
                else g.credits == [])
  {
    LastIsTarget(rules, step, actions, lo, t);
    var pool := RescuePool(rules, step, actions, lo, mark, t);
    var found := NewestSatisfying(rules, step.asserts, actions, pool, decisive);
    if found.Some? {
      assert MayRescue(rules, step, actions, lo, mark, t, found.value);
    }
  }

  /** A declared command that never ran is "unreached" on a decisive step, and
      nothing at all elsewhere: no other action is graded in its place. */
  lemma GradeStepWithoutTarget(rules: Rules, step: StepSpec, k: nat, actions: seq<Action>, lo: nat,
                               mark: nat, decisive: bool)
    requires lo < |actions| && forall i :: !MayBear(rules, step, actions, lo, i)
    ensures GradeStep(rules, step, k, actions, lo, mark, decisive)
            == StepGrade(if decisive then [Candidate(UnreachedDecisive, true, -1, "")] else [], [])
    ensures step.cmdRe.Regex? && forall i :: lo <= i < |actions| ==> !step.cmdRe.matches(actions[i].command)
  {
    EligibleEmpty(rules, step, actions, lo);
    if !step.cmdRe.Regex? {
      var i := SomeActionBears(rules, step, actions, lo);
      assert false;
    }
    forall i | lo <= i < |actions| ensures !step.cmdRe.matches(actions[i].command) {
      assert !MayBear(rules, step, actions, lo, i);
    }
  }

  lemma SomeActionBears(rules: Rules, step: StepSpec, actions: seq<Action>, lo: nat) returns (i: nat)
    requires lo < |actions| && !step.cmdRe.Regex?
    ensures MayBear(rules, step, actions, lo, i)
  {
    i := |actions| - 1;
    if step.cmdRe.NoRegex? {
      if j :| lo <= j < |actions| && rules.productCmd(actions[j].command) {
        i := j;
      }
    }
  }

  lemma TargetExists(rules: Rules, step: StepSpec, actions: seq<Action>, lo: nat) returns (t: nat)
    requires lo < |actions| && exists i :: MayBear(rules, step, actions, lo, i)
    ensures IsTarget(rules, step, actions, lo, t)
  {
    var e := Eligible(rules, step, actions, lo);
    var i :| MayBear(rules, step, actions, lo, i);
    assert i in e;
    t := e[|e| - 1];
    assert t in e;
  }

  // ---- Seed watermarks and the credit of an unentered step ----

  /** `_drift_watermark`: the latest watermark established at or before step `k`. */
  function DriftWatermark(marks: seq<(nat, nat)>, k: nat): (w: nat)
    ensures forall m :: m in marks && m.0 <= k ==> m.1 <= w
    ensures w == 0 || exists m :: m in marks && m.0 <= k && m.1 == w
  {
    if marks == [] then 0
    else
      var last := marks[|marks| - 1];
      var rest := marks[..|marks| - 1];
      var w := DriftWatermark(rest, k);
      assert forall m :: m in marks <==> m in rest || m == last;
      if last.0 <= k && last.1 > w then last.1 else w
  }

  /** The action may credit an unentered step: declared by the step, the product in
      command position, and not before the watermark. */
  ghost predicate MayCredit(rules: Rules, step: StepSpec, actions: seq<Action>, mark: nat, i: int) {
    && mark <= i < |actions|
    && step.cmdRe.Regex? && !step.cmdRe.matches("")
    && step.cmdRe.matches(actions[i].command)
    && rules.creditCmd(actions[i].command)
  }

  /** The scan of `_grade_decisive_from_observed`, newest action first. */
  function ObservedAction(rules: Rules, step: StepSpec, actions: seq<Action>, mark: nat, n: nat)
    : (found: Option<nat>)
    requires n <= |actions|
    ensures found.None? <==> forall i :: 0 <= i < n ==> !MayCredit(rules, step, actions, mark, i)
    ensures found.Some? ==>
              && found.value < n && MayCredit(rules, step, actions, mark, found.value)
              && forall i :: found.value < i < n ==> !MayCredit(rules, step, actions, mark, i)
  {
    if !step.cmdRe.Regex? || step.cmdRe.matches("") then None
    else if n == 0 || n - 1 < mark then None
    else if step.cmdRe.matches(actions[n - 1].command) && rules.creditCmd(actions[n - 1].command) then
      assert MayCredit(rules, step, actions, mark, n - 1);
      Some(n - 1)
    else ObservedAction(rules, step, actions, mark, n - 1)
  }
}
