/** What a positive journey guarantees, over every journey, Actor and cap setting. */
module Honesty {
  import opened Basics
  import opened Oracles
  import opened Grading
  import opened StateHooks
  import opened Journeys
  import opened Summary

  // ---- The declarative meaning of "this journey was measured and passed" ----

  function Mark(steps: seq<Step>, trace: Trace, i: nat): nat
    requires 0 < |trace.bounds| <= |steps| + 1
  {
    DriftWatermark(MarksOf(steps, trace.bounds, |trace.bounds| - 1), i)
  }

  /** Step `i` ran, and its target passed or was rescued with a recorded credit. */
  ghost predicate EnteredAndHeld(rules: Rules, steps: seq<Step>, trace: Trace, credits: seq<Credit>, i: nat, t: nat)
    requires i < |steps| && Entered(trace, i) && Bounds(trace.actions, trace.bounds)
    requires |trace.bounds| <= |steps| + 1
  {
    var acts := trace.actions[..trace.bounds[i + 1]];
    var lo := trace.bounds[i];
    && IsTarget(rules, steps[i].spec, acts, lo, t)
    && (|| Satisfies(rules, steps[i].spec.asserts, acts[t])
        || exists c :: c in credits && RescueCredit(rules, steps[i].spec, i, acts, lo, Mark(steps, trace, i), t, c))
  }

  /** Step `i` was not entered, but the newest action that may credit it satisfies
      it, and the credit is on record. */
  ghost predicate CreditedAndHeld(rules: Rules, steps: seq<Step>, trace: Trace, credits: seq<Credit>, i: nat, at: nat)
    requires i < |steps| && 0 < |trace.bounds| <= |steps| + 1
  {
    && MayCredit(rules, steps[i].spec, trace.actions, Mark(steps, trace, i), at)
    && (forall j :: at < j < |trace.actions| ==>
          !MayCredit(rules, steps[i].spec, trace.actions, Mark(steps, trace, i), j))
    && Satisfies(rules, steps[i].spec.asserts, trace.actions[at])
    && Observed(i, at, trace.actions[at].command) in credits
  }

  ghost predicate DecisiveHeld(rules: Rules, steps: seq<Step>, trace: Trace, credits: seq<Credit>, i: nat)
    requires i < |steps| && Bounds(trace.actions, trace.bounds) && |trace.bounds| <= |steps| + 1
  {
    if Entered(trace, i)
    then exists t: nat :: EnteredAndHeld(rules, steps, trace, credits, i, t)
    else exists at: nat :: CreditedAndHeld(rules, steps, trace, credits, i, at)
  }

  /** A declared state hook was gradable, every assertion in it held of the state
      captured at the step's own boundary, and the credit is on record. */
  ghost predicate StateHeld(steps: seq<Step>, env: Env, trace: Trace, credits: seq<Credit>, i: nat)
    requires i < |steps|
  {
    steps[i].state.Some? ==>
      && DecisiveHook(steps[i].state.value).Some?
      && (i + 2 < |trace.bounds| ==> StateHolds(steps[i].state.value, env.boundary(i)))
      && (i + 2 >= |trace.bounds| ==> StateHolds(steps[i].state.value, env.final))
      && Matched(i) in credits
  }

  /** The assertions could be evaluated on the action: no pattern is broken, and the exit
      status, right or wrong, is the command's own. */
  ghost predicate Measured(rules: Rules, s: Assertions, a: Action) {
    && !s.stdoutRe.BadRegex? && !s.stderrRe.BadRegex?
    && !StatusIsEchoed(rules, s, a) && !RefusalIsMissing(rules, s, a) && !SuccessIsMasked(rules, s, a)
  }

  /** A step that is not decisive may fail, but its target has to be measured, unless
      another action may stand in for it. */
  ghost predicate OrdinaryHeld(rules: Rules, steps: seq<Step>, trace: Trace, i: nat)
    requires i < |steps| && i + 1 < |trace.bounds| <= |steps| + 1 && Bounds(trace.actions, trace.bounds)
  {
    var spec, acts, lo := steps[i].spec, trace.actions[..trace.bounds[i + 1]], trace.bounds[i];
    forall t: nat :: IsTarget(rules, spec, acts, lo, t) ==>
      Measured(rules, spec.asserts, acts[t]) || Rescued(rules, spec, acts, lo, Mark(steps, trace, i), t)
  }

  /** The conditions that have nothing to do with the decisive assertions. */
  ghost predicate NothingElseWrong(rules: Rules, steps: seq<Step>, env: Env, trace: Trace)
    requires Bounds(trace.actions, trace.bounds) && |trace.bounds| <= |steps| + 1
  {
    && trace.starved == 0
    // Some snapshot of the product's state could be taken, if anything ran at all.
    && (trace.actions != [] ==> exists a :: a in trace.actions && !a.reconcileError)
    // No state hook is declared on a step that is never graded.
    && (forall i :: 0 <= i < |steps| && steps[i].state.Some? ==> IsDecisive(steps, i))
    && Clean(env.console)
    && (forall a :: a in trace.actions ==> Clean(a.findings))
    && (forall i :: 0 <= i < |trace.bounds| - 1 && !IsDecisive(steps, i) ==> OrdinaryHeld(rules, steps, trace, i))
  }

  ghost predicate Honest(rules: Rules, steps: seq<Step>, env: Env, trace: Trace, credits: seq<Credit>)
    requires Bounds(trace.actions, trace.bounds) && |trace.bounds| <= |steps| + 1
  {
    && NothingElseWrong(rules, steps, env, trace)
    && forall i :: 0 <= i < |steps| && IsDecisive(steps, i) ==>
         DecisiveHeld(rules, steps, trace, credits, i) && StateHeld(steps, env, trace, credits, i)
  }

  // ---- Which reports are clean ----

  lemma {:induction false} CleanSteps(rules: Rules, steps: seq<Step>, actions: seq<Action>, bounds: seq<nat>, n: nat)
    requires n <= |steps| && Ordered(actions, bounds, n)
    ensures Clean(StepReports(rules, steps, actions, bounds, n).candidates) <==>
            forall i :: 0 <= i < n ==>
              && Clean(FindingsFrom(actions[..bounds[i + 1]], bounds[i]))
              && Clean(StepReport(rules, steps, actions, bounds, i).candidates)
    ensures forall c :: c in StepReports(rules, steps, actions, bounds, n).credits <==>
              exists i :: 0 <= i < n && c in StepReport(rules, steps, actions, bounds, i).credits
  {
    hide StepReport, FindingsFrom;
    if n > 0 {
      CleanSteps(rules, steps, actions, bounds, n - 1);
    }
  }

  lemma {:induction false} CleanUnentered(rules: Rules, steps: seq<Step>, trace: Trace, n: nat)
    requires n <= |steps| && 0 < |trace.bounds| <= |steps| + 1
    ensures Clean(UnenteredReports(rules, steps, trace, n).candidates) <==>
            forall i :: 0 <= i < n ==> Clean(UnenteredReport(rules, steps, trace, i).candidates)
    ensures forall c :: c in UnenteredReports(rules, steps, trace, n).credits <==>
              exists i :: 0 <= i < n && c in UnenteredReport(rules, steps, trace, i).credits
  {
    hide UnenteredReport;
    if n > 0 {
      CleanUnentered(rules, steps, trace, n - 1);
    }
  }

  lemma {:induction false} CleanState(rules: Rules, steps: seq<Step>, env: Env, trace: Trace, n: nat)
    requires n <= |steps| && 0 < |trace.bounds| <= |steps| + 1
    ensures Clean(StateReports(rules, steps, env, trace, n).candidates) <==>
            forall i :: 0 <= i < n ==> Clean(StateReport(rules, steps, env, trace, i).candidates)
    ensures forall c :: c in StateReports(rules, steps, env, trace, n).credits <==>
              exists i :: 0 <= i < n && c in StateReport(rules, steps, env, trace, i).credits
  {
    hide StateReport;
    if n > 0 {
      CleanState(rules, steps, env, trace, n - 1);
    }
  }

  lemma CleanGrade(rules: Rules, s: Assertions, actions: seq<Action>, i: nat)
    requires i < |actions|
    ensures Clean(GradeTarget(rules, s, actions, i, true)) <==> Satisfies(rules, s, actions[i])
  {
    var graded := GradeTarget(rules, s, actions, i, true);
    if graded != [] {
      assert graded[0] in graded && Flips(graded[0]);
    }
  }

  lemma CleanOrdinaryGrade(rules: Rules, s: Assertions, actions: seq<Action>, i: nat)
    requires i < |actions|
    ensures Clean(GradeTarget(rules, s, actions, i, false)) <==> Measured(rules, s, actions[i])
  {
    hide GradeTarget, FunctionalOracle;
    EveryVerdictIsReported(rules, s, actions, i, false, Infra);
    EveryVerdictIsReported(rules, s, actions, i, false, MaskedProbe);
    EveryVerdictIsReported(rules, s, actions, i, false, UnverifiableRefusal);
  }

  /** The report of a step that is not decisive is clean exactly when it was measured. */
  lemma OrdinaryClean(rules: Rules, steps: seq<Step>, trace: Trace, i: nat)
    requires i < |steps| && Bounds(trace.actions, trace.bounds) && i + 1 < |trace.bounds| <= |steps| + 1
    requires !IsDecisive(steps, i)
    ensures Clean(StepReport(rules, steps, trace.actions, trace.bounds, i).candidates)
            <==> OrdinaryHeld(rules, steps, trace, i)
  {
    hide GradeTarget, MarksOf, DriftWatermark, IsDecisive, Satisfies, Measured;
    var spec := steps[i].spec;
    var acts, lo, mark := trace.actions[..trace.bounds[i + 1]], trace.bounds[i], Mark(steps, trace, i);
    MarkAtStep(steps, trace, i);
    var g := StepReport(rules, steps, trace.actions, trace.bounds, i);
    assert g == GradeStep(rules, spec, i, acts, lo, mark, false);
    if lo < |acts| && exists j :: MayBear(rules, spec, acts, lo, j) {
      var t := TargetExists(rules, spec, acts, lo);
      GradeStepSpec(rules, spec, i, acts, lo, mark, false, t);
      CleanOrdinaryGrade(rules, spec.asserts, acts, t);
      SatisfiedIsMeasured(rules, spec.asserts, acts[t]);
      assert forall t': nat :: IsTarget(rules, spec, acts, lo, t') ==> t' == t;
    } else if lo < |acts| {
      GradeStepWithoutTarget(rules, spec, i, acts, lo, mark, false);
    }
  }

  lemma SatisfiedIsMeasured(rules: Rules, s: Assertions, a: Action)
    ensures Satisfies(rules, s, a) ==> Measured(rules, s, a)
  {
  }

  lemma {:induction false} FindingsClean(actions: seq<Action>, lo: nat)
    ensures Clean(FindingsFrom(actions, lo)) <==> forall k :: lo <= k < |actions| ==> Clean(actions[k].findings)
  {
    hide Clean;
    if lo < |actions| {
      var n := |actions| - 1;
      FindingsClean(actions[..n], lo);
      CleanConcat(FindingsFrom(actions[..n], lo), actions[n].findings);
      assert forall i :: lo <= i < n ==> actions[..n][i] == actions[i];
    } else {
      CleanNothing();
    }
  }

  lemma CleanNothing()
    ensures Clean([])
  {
  }

  ghost predicate CleanBetween(actions: seq<Action>, lo: nat, hi: nat) {
    forall k :: lo <= k < hi && k < |actions| ==> Clean(actions[k].findings)
  }

  /** The findings of the steps are those of the actions. */
  lemma CleanFindings(actions: seq<Action>, bounds: seq<nat>)
    requires Bounds(actions, bounds)
    ensures (forall i :: 0 <= i < |bounds| - 1 ==> Clean(FindingsFrom(actions[..bounds[i + 1]], bounds[i])))
            <==> forall a :: a in actions ==> Clean(a.findings)
  {
    hide FindingsFrom, Clean;
    forall i | 0 <= i < |bounds| - 1
      ensures Clean(FindingsFrom(actions[..bounds[i + 1]], bounds[i]))
         <==> CleanBetween(actions, bounds[i], bounds[i + 1])
    {
      FindingsClean(actions[..bounds[i + 1]], bounds[i]);
    }
    if forall i :: 0 <= i < |bounds| - 1 ==> Clean(FindingsFrom(actions[..bounds[i + 1]], bounds[i])) {
      forall k | 0 <= k < |actions| ensures Clean(actions[k].findings) {
        var i := StepOf(actions, bounds, k, |bounds| - 1);
        assert Clean(FindingsFrom(actions[..bounds[i + 1]], bounds[i]));
      }
    }
  }

  /** The step an action belongs to. */
  lemma {:induction false} StepOf(actions: seq<Action>, bounds: seq<nat>, k: nat, n: nat) returns (i: nat)
    requires Bounds(actions, bounds) && n < |bounds| && k < bounds[n]
    ensures i < n && bounds[i] <= k < bounds[i + 1]
  {
    if bounds[n - 1] <= k {
      i := n - 1;
    } else {
      i := StepOf(actions, bounds, k, n - 1);
    }
  }

  /** The watermark step `i` was graded with is the one the whole trace gives it. */
  lemma MarkAtStep(steps: seq<Step>, trace: Trace, i: nat)
    requires Bounds(trace.actions, trace.bounds) && |trace.bounds| <= |steps| + 1 && i + 1 < |trace.bounds|
    ensures DriftWatermark(MarksOf(steps, trace.bounds, i + 1), i) == Mark(steps, trace, i)
  {
    hide DriftWatermark, MarksOf;
    LaterMarksIgnored(steps, trace.bounds, i, |trace.bounds| - 1);
  }

  ghost predicate SameMark(a: seq<(nat, nat)>, b: seq<(nat, nat)>, i: nat) {
    DriftWatermark(a, i) == DriftWatermark(b, i)
  }

  lemma SameMarkVia(a: seq<(nat, nat)>, b: seq<(nat, nat)>, c: seq<(nat, nat)>, i: nat)
    requires (a == b || SameMark(a, b, i)) && (b == c || SameMark(b, c, i))
    ensures SameMark(a, c, i)
  {
    hide DriftWatermark;
  }

  lemma {:induction false} LaterMarksIgnored(steps: seq<Step>, bounds: seq<nat>, i: nat, n: nat)
    requires i < n <= |steps| && n < |bounds|
    ensures SameMark(MarksOf(steps, bounds, n), MarksOf(steps, bounds, i + 1), i)
  {
    hide SameMark, MarksOf;
    var all, own := MarksOf(steps, bounds, n), MarksOf(steps, bounds, i + 1);
    if n == i + 1 {
      SameMarkVia(all, all, own, i);
    } else {
      var fewer := MarksOf(steps, bounds, n - 1);
      LaterMarksIgnored(steps, bounds, i, n - 1);
      MarksStep(steps, bounds, n);
      if steps[n - 1].spec.seeds {
        LaterMarkIgnored(fewer, (n - 1, bounds[n - 1]), i);
      }
      SameMarkVia(all, fewer, own, i);
    }
  }

  lemma MarksStep(steps: seq<Step>, bounds: seq<nat>, n: nat)
    requires 0 < n <= |steps| && n < |bounds|
    ensures MarksOf(steps, bounds, n)
         == if steps[n - 1].spec.seeds then MarksOf(steps, bounds, n - 1) + [(n - 1, bounds[n - 1])]
            else MarksOf(steps, bounds, n - 1)
  {
  }

  lemma LaterMarkIgnored(marks: seq<(nat, nat)>, m: (nat, nat), i: nat)
    requires i < m.0
    ensures SameMark(marks + [m], marks, i)
  {
    assert (marks + [m])[..|marks|] == marks;
  }

  /** The report of an entered decisive step is clean exactly when the step held. */
  lemma EnteredClean(rules: Rules, steps: seq<Step>, trace: Trace, credits: seq<Credit>, i: nat)
    requires i < |steps| && Bounds(trace.actions, trace.bounds) && |trace.bounds| <= |steps| + 1
    requires IsDecisive(steps, i) && Entered(trace, i)
    requires forall c :: c in StepReport(rules, steps, trace.actions, trace.bounds, i).credits ==> c in credits
    ensures Clean(StepReport(rules, steps, trace.actions, trace.bounds, i).candidates)
            <==> DecisiveHeld(rules, steps, trace, credits, i)
  {
    hide GradeTarget, MarksOf, DriftWatermark, IsDecisive, Satisfies;
    var spec := steps[i].spec;
    var acts, lo, mark := trace.actions[..trace.bounds[i + 1]], trace.bounds[i], Mark(steps, trace, i);
    MarkAtStep(steps, trace, i);
    var g := StepReport(rules, steps, trace.actions, trace.bounds, i);
    assert g == GradeStep(rules, spec, i, acts, lo, mark, true);
    if exists j :: MayBear(rules, spec, acts, lo, j) {
      var t := TargetExists(rules, spec, acts, lo);
      GradeStepSpec(rules, spec, i, acts, lo, mark, true, t);
      CleanGrade(rules, spec.asserts, acts, t);
      if Clean(g.candidates) {
        assert EnteredAndHeld(rules, steps, trace, credits, i, t);
      }
      if t': nat :| EnteredAndHeld(rules, steps, trace, credits, i, t') {
        assert t' == t;
        assert g.candidates == [];
      }
    } else {
      GradeStepWithoutTarget(rules, spec, i, acts, lo, mark, true);
      assert Unreached(true) in g.candidates && Flips(Unreached(true));
    }
  }

  lemma UnenteredClean(rules: Rules, steps: seq<Step>, trace: Trace, credits: seq<Credit>, i: nat)
    requires i < |steps| && Bounds(trace.actions, trace.bounds) && |trace.bounds| <= |steps| + 1
    requires IsDecisive(steps, i) && !Entered(trace, i)
    requires forall c :: c in UnenteredReport(rules, steps, trace, i).credits ==> c in credits
    ensures var g := UnenteredReport(rules, steps, trace, i);
            && (Clean(g.candidates) <==> DecisiveHeld(rules, steps, trace, credits, i))
            && (IsUnreached(rules, steps, trace, i) ==> !Clean(g.candidates))
  {
    hide GradeTarget, MarksOf, DriftWatermark, IsDecisive, Satisfies;
    var g := UnenteredReport(rules, steps, trace, i);
    match ObservedAction(rules, steps[i].spec, trace.actions, Mark(steps, trace, i), |trace.actions|)
    case None =>
      assert Unreached(false) in g.candidates && Flips(Unreached(false));
    case Some(at) =>
      CleanGrade(rules, steps[i].spec.asserts, trace.actions, at);
      assert Observed(i, at, trace.actions[at].command) in g.credits;
      if Clean(g.candidates) {
        assert CreditedAndHeld(rules, steps, trace, credits, i, at);
      }
  }

  lemma StateClean(rules: Rules, steps: seq<Step>, env: Env, trace: Trace, credits: seq<Credit>, i: nat)
    requires i < |steps| && 0 < |trace.bounds| <= |steps| + 1
    requires IsDecisive(steps, i) && !IsUnreached(rules, steps, trace, i)
    requires forall c :: c in StateReport(rules, steps, env, trace, i).credits ==> c in credits
    ensures Clean(StateReport(rules, steps, env, trace, i).candidates) <==> StateHeld(steps, env, trace, credits, i)
  {
    hide IsDecisive, IsUnreached, DecisiveHook, StateHolds;
    var g := StateReport(rules, steps, env, trace, i);
    if g.candidates != [] {
      assert g.candidates[0] in g.candidates && Flips(g.candidates[0]);
    } else if steps[i].state.Some? {
      assert Matched(i) in g.credits;
    }
  }

  /** A decisive step that nobody entered, and that no action may credit, is reported
      once, as unreached: its state hook adds nothing. */
  lemma UnreachedOnce(rules: Rules, steps: seq<Step>, env: Env, trace: Trace, i: nat)
    requires i < |steps| && Bounds(trace.actions, trace.bounds) && |trace.bounds| <= |steps| + 1
    requires IsDecisive(steps, i) && !Entered(trace, i)
    requires forall at :: !MayCredit(rules, steps[i].spec, trace.actions, Mark(steps, trace, i), at)
    ensures StateReport(rules, steps, env, trace, i) == StepGrade([], [])
    ensures UnenteredReport(rules, steps, trace, i) == StepGrade([Candidate(UnreachedDecisive, false, -1, "")], [])
  {
    hide MarksOf, DriftWatermark, IsDecisive, HookReport, MayCredit;
    assert ObservedAction(rules, steps[i].spec, trace.actions, Mark(steps, trace, i), |trace.actions|).None?;
  }

  // ---- The honesty theorem ----

  lemma CleanConcat(a: seq<Candidate>, b: seq<Candidate>)
    ensures Clean(a + b) <==> Clean(a) && Clean(b)
  {
    assert forall c :: c in a + b <==> c in a || c in b;
  }

  lemma CleanInfra(b: bool)
    ensures Clean(InfraIf(b)) <==> !b
  {
    if b {
      assert InfraIf(b)[0] in InfraIf(b) && Flips(InfraIf(b)[0]);
    }
  }

  /** The parts of a clean report. */
  lemma CleanParts(rules: Rules, steps: seq<Step>, env: Env, trace: Trace)
    requires Bounds(trace.actions, trace.bounds) && |trace.bounds| <= |steps| + 1
    ensures Clean(Judged(rules, steps, env, trace).candidates) <==>
            && Clean(StepReports(rules, steps, trace.actions, trace.bounds, |trace.bounds| - 1).candidates)
            && trace.starved == 0
            && Clean(UnenteredReports(rules, steps, trace, |steps|).candidates)
            && !ReconcilerUnusable(trace.actions)
            && (forall i :: 0 <= i < |steps| ==> !IsStray(steps, i))
            && Clean(StateReports(rules, steps, env, trace, |steps|).candidates)
            && Clean(env.console)
  {
    hide StepReports, UnenteredReports, StateReports, IsStray, InfraIf, ReconcilerUnusable, Clean;
    var a := StepReports(rules, steps, trace.actions, trace.bounds, |trace.bounds| - 1).candidates;
    var b := InfraIf(trace.starved > 0);
    var c := UnenteredReports(rules, steps, trace, |steps|).candidates;
    var d := InfraIf(ReconcilerUnusable(trace.actions));
    var e := InfraIf(exists i :: 0 <= i < |steps| && IsStray(steps, i));
    var f := StateReports(rules, steps, env, trace, |steps|).candidates;
    CleanConcat(a, b);
    CleanConcat(a + b, c);
    CleanConcat(a + b + c, d);
    CleanConcat(a + b + c + d, e);
    CleanConcat(a + b + c + d + e, f);
    CleanConcat(a + b + c + d + e + f, env.console);
    CleanInfra(trace.starved > 0);
    CleanInfra(ReconcilerUnusable(trace.actions));
    CleanInfra(exists i :: 0 <= i < |steps| && IsStray(steps, i));
  }

  /** All reports of step `i` are clean exactly when the step held (if it is
      decisive) and its own findings and grade flip nothing. */
  lemma StepClean(rules: Rules, steps: seq<Step>, env: Env, trace: Trace, credits: seq<Credit>, i: nat)
    requires i < |steps| && Bounds(trace.actions, trace.bounds) && |trace.bounds| <= |steps| + 1
    requires i + 1 < |trace.bounds| ==>
               forall c :: c in StepReport(rules, steps, trace.actions, trace.bounds, i).credits ==> c in credits
    requires forall c :: c in UnenteredReport(rules, steps, trace, i).credits ==> c in credits
    requires forall c :: c in StateReport(rules, steps, env, trace, i).credits ==> c in credits
    ensures (i + 1 < |trace.bounds| ==> Clean(StepReport(rules, steps, trace.actions, trace.bounds, i).candidates))
            && Clean(UnenteredReport(rules, steps, trace, i).candidates)
            && Clean(StateReport(rules, steps, env, trace, i).candidates)
            <==>
            && (i + 1 < |trace.bounds| && !IsDecisive(steps, i) ==> OrdinaryHeld(rules, steps, trace, i))
            && (IsDecisive(steps, i) ==>
                  DecisiveHeld(rules, steps, trace, credits, i) && StateHeld(steps, env, trace, credits, i))
  {
    hide DecisiveHeld, StateHeld, OrdinaryHeld, GradeStep, IsDecisive;
    if i + 1 < |trace.bounds| && !IsDecisive(steps, i) {
      OrdinaryClean(rules, steps, trace, i);
    } else if IsDecisive(steps, i) {
      if Entered(trace, i) {
        EnteredClean(rules, steps, trace, credits, i);
        StateClean(rules, steps, env, trace, credits, i);
      } else {
        UnenteredClean(rules, steps, trace, credits, i);
        if i + 1 < |trace.bounds| {
          NothingRan(rules, steps, trace, i);
        }
        if !IsUnreached(rules, steps, trace, i) {
          StateClean(rules, steps, env, trace, credits, i);
        }
      }
    }
  }

  lemma NothingRan(rules: Rules, steps: seq<Step>, trace: Trace, i: nat)
    requires i < |steps| && Bounds(trace.actions, trace.bounds) && i + 1 < |trace.bounds| <= |steps| + 1
    requires !Entered(trace, i)
    ensures StepReport(rules, steps, trace.actions, trace.bounds, i) == StepGrade([], [])
  {
    assert trace.bounds[i] == trace.bounds[i + 1];
  }

  lemma SnapshotTaken(actions: seq<Action>)
    ensures ReconcilerUnusable(actions) <==> actions != [] && forall a :: a in actions ==> a.reconcileError
  {
    if ReconcilerUnusable(actions) {
      forall a | a in actions ensures a.reconcileError {
        var i :| 0 <= i < |actions| && actions[i] == a;
      }
    }
  }

  lemma NoStray(steps: seq<Step>)
    ensures (forall i :: 0 <= i < |steps| ==> !IsStray(steps, i)) <==>
            forall i :: 0 <= i < |steps| && steps[i].state.Some? ==> IsDecisive(steps, i)
  {
    hide IsDecisive;
    assert forall i :: 0 <= i < |steps| ==> (IsStray(steps, i) <==> steps[i].state.Some? && !IsDecisive(steps, i));
  }

  lemma CreditsJudged(rules: Rules, steps: seq<Step>, env: Env, trace: Trace)
    requires Bounds(trace.actions, trace.bounds) && |trace.bounds| <= |steps| + 1
    ensures var r := Judged(rules, steps, env, trace);
            && r.actions == trace.actions
            && forall c ::
                 || c in StepReports(rules, steps, trace.actions, trace.bounds, |trace.bounds| - 1).credits
                 || c in UnenteredReports(rules, steps, trace, |steps|).credits
                 || c in StateReports(rules, steps, env, trace, |steps|).credits
                 ==> c in r.credits
  {
    hide StepReports, UnenteredReports, StateReports;
  }

  /** A journey reads positive exactly when it was honestly measured: every decisive
      step was exercised and satisfied, with a credit on record wherever the evidence
      is not the step's own last action; every state hook declared on one held of the
      state at that step's boundary; and nothing else went wrong. A positive journey
      is never also counted as degraded. */
  lemma HonestPositive(rules: Rules, steps: seq<Step>, caps: Caps, env: Env, trace: Trace)
    requires steps != [] && TraceOk(steps, caps, trace)
    ensures var r := Judged(rules, steps, env, trace);
            && (VerdictOf(r.candidates) == Positive <==> Honest(rules, steps, env, trace, r.credits))
            && (VerdictOf(r.candidates) == Positive ==> !Degraded(r))
  {
    hide StepReport, UnenteredReport, StateReport, FindingsFrom, DecisiveHeld, StateHeld, OrdinaryHeld,
         IsDecisive, VerdictOf, Judged, Clean, IsStray, ReconcilerUnusable;
    var r := Judged(rules, steps, env, trace);
    var ran := |trace.bounds| - 1;
    CleanParts(rules, steps, env, trace);
    CleanSteps(rules, steps, trace.actions, trace.bounds, ran);
    CleanFindings(trace.actions, trace.bounds);
    CleanUnentered(rules, steps, trace, |steps|);
    CleanState(rules, steps, env, trace, |steps|);
    CreditsJudged(rules, steps, env, trace);
    SnapshotTaken(trace.actions);
    NoStray(steps);
    forall i | 0 <= i < |steps|
      ensures (i < ran ==> Clean(StepReport(rules, steps, trace.actions, trace.bounds, i).candidates))
              && Clean(UnenteredReport(rules, steps, trace, i).candidates)
              && Clean(StateReport(rules, steps, env, trace, i).candidates)
              <==>
              && (i < ran && !IsDecisive(steps, i) ==> OrdinaryHeld(rules, steps, trace, i))
              && (IsDecisive(steps, i) ==>
                    DecisiveHeld(rules, steps, trace, r.credits, i) && StateHeld(steps, env, trace, r.credits, i))
    {
      StepClean(rules, steps, env, trace, r.credits, i);
    }
    if Clean(r.candidates) {
      NotDegraded(rules, steps, trace, r);
    }
  }

  lemma NotDegraded(rules: Rules, steps: seq<Step>, trace: Trace, r: Result)
    requires steps != [] && Bounds(trace.actions, trace.bounds) && |trace.bounds| <= |steps| + 1
    requires r.actions == trace.actions && Clean(r.candidates)
    requires forall i :: 0 <= i < |steps| && IsDecisive(steps, i) ==> DecisiveHeld(rules, steps, trace, r.credits, i)
    ensures !Degraded(r)
  {
    var d := SomeDecisive(steps);
    assert DecisiveHeld(rules, steps, trace, r.credits, d);
    InfraFlips(r.candidates);
  }

  lemma InfraFlips(cs: seq<Candidate>)
    ensures HasKind(cs, Infra) ==> !Clean(cs)
  {
    if i :| 0 <= i < |cs| && cs[i].kind == Infra {
      assert cs[i] in cs && Flips(cs[i]);
    }
  }

  lemma SomeDecisive(steps: seq<Step>) returns (d: nat)
    requires steps != []
    ensures d < |steps| && IsDecisive(steps, d)
  {
    d := |steps| - 1;
    if i :| 0 <= i < |steps| && steps[i].core {
      d := i;
    }
  }

  // ---- The moment a state hook is about ----

  /** What the state becomes at the end of the journey changes nothing in the report of a
      step that another one followed. */
  lemma FinalDoesNotMatter(rules: Rules, steps: seq<Step>, env: Env, trace: Trace, i: nat, final: Evidence)
    requires i < |steps| && i + 2 < |trace.bounds| <= |steps| + 1
    ensures StateReport(rules, steps, env.(final := final), trace, i) == StateReport(rules, steps, env, trace, i)
  {
    hide HookReport, IsUnreached, IsDecisive;
  }

  /** And what was captured on the way changes nothing in the report of the last step
      that was opened, nor of the ones after it. */
  lemma BoundaryDoesNotMatter(rules: Rules, steps: seq<Step>, env: Env, trace: Trace, i: nat,
                              boundary: nat -> Evidence)
    requires i < |steps| && 0 < |trace.bounds| <= |steps| + 1 && |trace.bounds| <= i + 2
    ensures StateReport(rules, steps, env.(boundary := boundary), trace, i) == StateReport(rules, steps, env, trace, i)
  {
    hide HookReport, IsUnreached, IsDecisive;
  }

  /** A promise kept in the middle of a journey stays kept, whatever its later steps do
      to the state: when every step with a hook was followed by another one, the whole
      report is the same for every state the journey ends in. */
  lemma KeptThenUndone(rules: Rules, steps: seq<Step>, env: Env, trace: Trace, final: Evidence)
    requires Bounds(trace.actions, trace.bounds) && |trace.bounds| <= |steps| + 1
    requires forall i :: 0 <= i < |steps| && IsDecisive(steps, i) && steps[i].state.Some? ==> i + 2 < |trace.bounds|
    ensures Judged(rules, steps, env.(final := final), trace) == Judged(rules, steps, env, trace)
  {
    hide StepReports, UnenteredReports, StateReports, IsStray, InfraIf, ReconcilerUnusable, IsDecisive;
    SameStateReports(rules, steps, env, trace, final, |steps|);
  }

  lemma {:induction false} SameStateReports(rules: Rules, steps: seq<Step>, env: Env, trace: Trace, final: Evidence,
                                            n: nat)
    requires 0 < |trace.bounds| <= |steps| + 1 && n <= |steps|
    requires forall i :: 0 <= i < |steps| && IsDecisive(steps, i) && steps[i].state.Some? ==> i + 2 < |trace.bounds|
    ensures StateReports(rules, steps, env.(final := final), trace, n) == StateReports(rules, steps, env, trace, n)
  {
    hide HookReport, IsUnreached, IsDecisive;
    if n > 0 {
      SameStateReports(rules, steps, env, trace, final, n - 1);
    }
  }

  // ---- Credits and seed watermarks ----

  /** What the record of a credit can be trusted for. */
  ghost predicate CreditSound(rules: Rules, steps: seq<Step>, trace: Trace, c: Credit)
    requires Bounds(trace.actions, trace.bounds) && |trace.bounds| <= |steps| + 1
  {
    && c.step < |steps| && IsDecisive(steps, c.step)
    && (!c.Matched? ==>
          && c.at < |trace.actions| && c.cmd == trace.actions[c.at].command
          // No credit reaches back over a seed injection at or before its step.
          && (forall j :: 0 <= j < |trace.bounds| - 1 && j <= c.step && steps[j].spec.seeds ==>
                trace.bounds[j] <= c.at))
    && (c.Observed? ==> !Entered(trace, c.step))
    && (c.Rescue? ==>
          && Entered(trace, c.step) && c.superseded != []
          && trace.bounds[c.step] <= c.targetAt < trace.bounds[c.step + 1] && c.at < c.targetAt
          && (if c.refusal then trace.bounds[c.step] <= c.at
              // A re-observation comes from an earlier step, and a step that
              // re-seeds its world cannot have one.
              else c.at < trace.bounds[c.step] && !steps[c.step].spec.seeds))
  }

  /** The mark of a step is at or after every seed injection up to it. */
  lemma MarkDominates(steps: seq<Step>, trace: Trace, i: nat, j: nat)
    requires Bounds(trace.actions, trace.bounds) && |trace.bounds| <= |steps| + 1
    requires j <= i && j + 1 < |trace.bounds| && steps[j].spec.seeds
    ensures trace.bounds[j] <= Mark(steps, trace, i)
  {
    MarkRecorded(steps, trace.bounds, j, |trace.bounds| - 1);
  }

  lemma {:induction false} MarkRecorded(steps: seq<Step>, bounds: seq<nat>, j: nat, n: nat)
    requires j < n <= |steps| && n < |bounds| && steps[j].spec.seeds
    ensures (j, bounds[j]) in MarksOf(steps, bounds, n)
  {
    if n > j + 1 {
      MarkRecorded(steps, bounds, j, n - 1);
    }
  }

  /** And it is no later: it is the action count at some such injection, or zero. */
  lemma MarkAttained(steps: seq<Step>, trace: Trace, i: nat)
    requires 0 < |trace.bounds| <= |steps| + 1
    ensures Mark(steps, trace, i) == 0
            || exists j :: 0 <= j <= i && j + 1 < |trace.bounds| && steps[j].spec.seeds
                           && Mark(steps, trace, i) == trace.bounds[j]
  {
    hide MarksOf, DriftWatermark;
    var marks := MarksOf(steps, trace.bounds, |trace.bounds| - 1);
    if m :| m in marks && m.0 <= i && m.1 == Mark(steps, trace, i) {
      MarkIsSeed(steps, trace.bounds, |trace.bounds| - 1, m);
    }
  }

  lemma {:induction false} MarkIsSeed(steps: seq<Step>, bounds: seq<nat>, n: nat, m: (nat, nat))
    requires n <= |steps| && n < |bounds| && m in MarksOf(steps, bounds, n)
    ensures m.0 < n && steps[m.0].spec.seeds && m.1 == bounds[m.0]
  {
    if n > 0 && m in MarksOf(steps, bounds, n - 1) {
      MarkIsSeed(steps, bounds, n - 1, m);
    }
  }

  /** Every credit of every run respects the seed watermarks and points where it says. */
  lemma CreditsAreSound(rules: Rules, steps: seq<Step>, caps: Caps, env: Env, trace: Trace, c: Credit)
    requires TraceOk(steps, caps, trace) && c in Judged(rules, steps, env, trace).credits
    ensures CreditSound(rules, steps, trace, c)
  {
    hide StepReport, UnenteredReport, StateReport, FindingsFrom, CreditSound;
    var ran := |trace.bounds| - 1;
    CleanSteps(rules, steps, trace.actions, trace.bounds, ran);
    CleanUnentered(rules, steps, trace, |steps|);
    CleanState(rules, steps, env, trace, |steps|);
    if c in StepReports(rules, steps, trace.actions, trace.bounds, ran).credits {
      var i :| 0 <= i < ran && c in StepReport(rules, steps, trace.actions, trace.bounds, i).credits;
      RescueIsSound(rules, steps, caps, trace, i, c);
    } else if c in UnenteredReports(rules, steps, trace, |steps|).credits {
      var i :| 0 <= i < |steps| && c in UnenteredReport(rules, steps, trace, i).credits;
      ObservedIsSound(rules, steps, trace, i, c);
    } else {
      var i :| 0 <= i < |steps| && c in StateReport(rules, steps, env, trace, i).credits;
      MatchedIsSound(rules, steps, env, trace, i, c);
    }
  }

  lemma MatchedIsSound(rules: Rules, steps: seq<Step>, env: Env, trace: Trace, i: nat, c: Credit)
    requires i < |steps| && Bounds(trace.actions, trace.bounds) && |trace.bounds| <= |steps| + 1
    requires c in StateReport(rules, steps, env, trace, i).credits
    ensures CreditSound(rules, steps, trace, c)
  {
  }

  lemma ObservedIsSound(rules: Rules, steps: seq<Step>, trace: Trace, i: nat, c: Credit)
    requires i < |steps| && Bounds(trace.actions, trace.bounds) && |trace.bounds| <= |steps| + 1
    requires c in UnenteredReport(rules, steps, trace, i).credits
    ensures CreditSound(rules, steps, trace, c)
  {
    hide GradeTarget, MarksOf, DriftWatermark;
    forall j | 0 <= j < |trace.bounds| - 1 && j <= c.step && steps[j].spec.seeds ensures trace.bounds[j] <= c.at {
      MarkDominates(steps, trace, i, j);
    }
  }

  lemma RescueIsSound(rules: Rules, steps: seq<Step>, caps: Caps, trace: Trace, i: nat, c: Credit)
    requires TraceOk(steps, caps, trace) && i + 1 < |trace.bounds|
    requires c in StepReport(rules, steps, trace.actions, trace.bounds, i).credits
    ensures CreditSound(rules, steps, trace, c)
  {
    hide GradeTarget, MarksOf, DriftWatermark, IsDecisive, Satisfies, CreditSound, RescueCredit;
    var spec := steps[i].spec;
    var acts, lo, mark := trace.actions[..trace.bounds[i + 1]], trace.bounds[i], Mark(steps, trace, i);
    MarkAtStep(steps, trace, i);
    assert StepReport(rules, steps, trace.actions, trace.bounds, i)
        == GradeStep(rules, spec, i, acts, lo, mark, IsDecisive(steps, i));
    if forall j :: !MayBear(rules, spec, acts, lo, j) {
      GradeStepWithoutTarget(rules, spec, i, acts, lo, mark, IsDecisive(steps, i));
      assert false;
    }
    var t := TargetExists(rules, spec, acts, lo);
    GradeStepSpec(rules, spec, i, acts, lo, mark, IsDecisive(steps, i), t);
    assert DistinctCommands(acts, lo);
    RescueCreditIsSound(rules, steps, trace, i, t, c);
  }

  lemma RescueCreditIsSound(rules: Rules, steps: seq<Step>, trace: Trace, i: nat, t: nat, c: Credit)
    requires i < |steps| && IsDecisive(steps, i)
    requires Bounds(trace.actions, trace.bounds) && i + 1 < |trace.bounds| <= |steps| + 1
    requires var acts, lo := trace.actions[..trace.bounds[i + 1]], trace.bounds[i];
             && lo < |acts| && DistinctCommands(acts, lo) && IsTarget(rules, steps[i].spec, acts, lo, t)
             && RescueCredit(rules, steps[i].spec, i, acts, lo, Mark(steps, trace, i), t, c)
    ensures CreditSound(rules, steps, trace, c)
  {
    hide GradeTarget, MarksOf, DriftWatermark, IsDecisive, Satisfies, ExpectsNonzero, Mark;
    forall j | 0 <= j < |trace.bounds| - 1 && j <= i && steps[j].spec.seeds
      ensures trace.bounds[j] <= Mark(steps, trace, i)
    {
      MarkDominates(steps, trace, i, j);
    }
    var acts := trace.actions[..trace.bounds[i + 1]];
    assert !c.refusal ==> acts[c.at].command == acts[t].command;
  }

  // ---- The whole bundle ----

  const EXIT_CATASTROPHIC := 3

  /** `main` over a shard's journeys: exit 3 when more than half of the results are
      degraded. For the record: the trace of every journey that was opened and what had
      been spent before each. */
  method RunBundle(rules: Rules, journeys: seq<seq<Step>>, envs: seq<Env>, caps: Caps)
    returns (results: seq<Result>, spent: real, exit: int, ghost traces: seq<Trace>, ghost ledger: seq<real>)
    requires |envs| == |journeys|
    ensures IsBundle(journeys, envs, caps, traces, ledger) && spent == ledger[|traces|]
    ensures AllMeasured(rules, journeys, envs, caps, results, traces, ledger)
    // Every journey has its result, or the dollar cap cut off the one after the last.
    ensures || |results| == |journeys| == |traces|
            || (|traces| == |results| + 1 && CutOff(journeys, envs, caps, traces, ledger))
    ensures forall c :: AllCostsWithin(envs, c) && 0.0 < caps.maxUsd + c ==> spent < caps.maxUsd + c
    ensures exit == if 2 * CountDegraded(results, |results|) > |results| then 3 else 0
    ensures results != [] && Silent(envs) ==> exit == 3
  {
    hide AllMeasured, CutOff, Degraded, Silent, NoActions, IsEntry;
    results, spent, traces, ledger := RunShard(rules, journeys, envs, caps);
    var degraded := TallyDegraded(results);
    exit := if 2 * degraded > |results| then EXIT_CATASTROPHIC else 0;
    if Silent(envs) {
      AllDegraded(results, |results|);
    }
  }

  /** The loop of `main`: it stops at the first journey the dollar cap interrupts. */
  method RunShard(rules: Rules, journeys: seq<seq<Step>>, envs: seq<Env>, caps: Caps)
    returns (results: seq<Result>, spent: real, ghost traces: seq<Trace>, ghost ledger: seq<real>)
    requires |envs| == |journeys|
    ensures IsBundle(journeys, envs, caps, traces, ledger) && spent == ledger[|traces|]
    ensures AllMeasured(rules, journeys, envs, caps, results, traces, ledger)
    ensures || |results| == |journeys| == |traces|
            || (|traces| == |results| + 1 && CutOff(journeys, envs, caps, traces, ledger))
    ensures forall c :: AllCostsWithin(envs, c) && 0.0 < caps.maxUsd + c ==> spent < caps.maxUsd + c
    ensures Silent(envs) ==> NoActions(results)
  {
    results, spent, traces, ledger := [], 0.0, [], [0.0];
    hide Judged, TraceOk, IsRun, Spend, AllMeasured, IsBundle, IsEntry, StepsOf, Completed, CostsWithin, NeverAnswers;
    BundleStarts(rules, journeys, envs, caps);
    for i := 0 to |journeys|
      invariant |results| == |traces| == i && |ledger| == i + 1 && spent == ledger[i]
      invariant IsBundle(journeys, envs, caps, traces, ledger)
      invariant AllMeasured(rules, journeys, envs, caps, results, traces, ledger)
      invariant forall c :: AllCostsWithin(envs, c) && 0.0 < caps.maxUsd + c ==> spent < caps.maxUsd + c
      invariant Silent(envs) ==> NoActions(results)
    {
      var outcome, trace, usd := RunJourney(rules, journeys[i], envs[i], caps, spent);
      EntryMade(journeys[i], envs[i], caps, trace, spent, usd);
      BundleGrows(journeys, envs, caps, traces, ledger, trace, usd);
      MeasuredGrows(rules, journeys, envs, caps, results, traces, ledger, trace, usd);
      traces, ledger := traces + [trace], ledger + [usd];
      spent := usd;
      if outcome.OutOfBudget? {
        break;
      }
      results := results + [outcome.result];
    }
  }

  /** `count_degraded`. */
  method TallyDegraded(results: seq<Result>) returns (n: nat)
    ensures n == CountDegraded(results, |results|)
  {
    hide Degraded;
    n := 0;
    for i := 0 to |results|
      invariant n == CountDegraded(results, i)
    {
      if Degraded(results[i]) {
        n := n + 1;
      }
    }
  }

  /** Results without actions are all degraded. */
  lemma {:induction false} AllDegraded(rs: seq<Result>, n: nat)
    requires n <= |rs| && NoActions(rs)
    ensures CountDegraded(rs, n) == n
  {
    if n > 0 {
      AllDegraded(rs, n - 1);
    }
  }

  function Turns(trace: Trace): nat {
    if trace.starts == [] then 0 else trace.starts[|trace.starts| - 1]
  }

  /** Journey by journey: each trace is that of the run of its journey against its Actor,
      starting from what the earlier ones had spent. */
  ghost predicate IsBundle(journeys: seq<seq<Step>>, envs: seq<Env>, caps: Caps, traces: seq<Trace>,
                           ledger: seq<real>)
  {
    && |traces| <= |journeys| == |envs| && |ledger| == |traces| + 1 && ledger[0] == 0.0
    && forall i :: 0 <= i < |traces| ==> IsEntry(journeys[i], envs[i], caps, traces[i], ledger[i], ledger[i + 1])
  }

  ghost predicate IsEntry(journey: seq<Step>, env: Env, caps: Caps, trace: Trace, before: real, after: real) {
    && after == before + Spend(env.actor, 0, Turns(trace))
    && exists end :: IsRun(StepsOf(journey), caps, env.actor, before, trace, end)
  }

  lemma BundleStarts(rules: Rules, journeys: seq<seq<Step>>, envs: seq<Env>, caps: Caps)
    requires |envs| == |journeys|
    ensures IsBundle(journeys, envs, caps, [], [0.0]) && AllMeasured(rules, journeys, envs, caps, [], [], [0.0])
  {
  }

  lemma EntryMade(journey: seq<Step>, env: Env, caps: Caps, trace: Trace, before: real, after: real)
    requires IsRun(StepsOf(journey), caps, env.actor, before, trace, BudgetOut)
          || Completed(StepsOf(journey), caps, env.actor, before, trace)
    requires trace.starts != [] && after == before + Spend(env.actor, 0, trace.starts[|trace.starts| - 1])
    ensures IsEntry(journey, env, caps, trace, before, after)
  {
    hide IsRun, Spend, StepsOf;
  }

  lemma BundleGrows(journeys: seq<seq<Step>>, envs: seq<Env>, caps: Caps, traces: seq<Trace>, ledger: seq<real>,
                    trace: Trace, usd: real)
    requires IsBundle(journeys, envs, caps, traces, ledger) && |traces| < |journeys|
    requires IsEntry(journeys[|traces|], envs[|traces|], caps, trace, ledger[|traces|], usd)
    ensures IsBundle(journeys, envs, caps, traces + [trace], ledger + [usd])
  {
    hide IsEntry;
    var traces', ledger' := traces + [trace], ledger + [usd];
    forall i | 0 <= i < |traces'|
      ensures IsEntry(journeys[i], envs[i], caps, traces'[i], ledger'[i], ledger'[i + 1])
    {
      if i < |traces| {
        assert IsEntry(journeys[i], envs[i], caps, traces[i], ledger[i], ledger[i + 1]);
      }
    }
  }

  /** Every result is the judgement of the run of its journey. */
  ghost predicate AllMeasured(rules: Rules, journeys: seq<seq<Step>>, envs: seq<Env>, caps: Caps,
                              results: seq<Result>, traces: seq<Trace>, ledger: seq<real>) {
    && |results| <= |traces| <= |journeys| == |envs| && |traces| < |ledger|
    && forall i :: 0 <= i < |results| ==>
         MeasuredWith(rules, journeys[i], caps, envs[i], ledger[i], results[i], traces[i])
  }

  lemma MeasuredGrows(rules: Rules, journeys: seq<seq<Step>>, envs: seq<Env>, caps: Caps,
                      results: seq<Result>, traces: seq<Trace>, ledger: seq<real>, trace: Trace, usd: real)
    requires AllMeasured(rules, journeys, envs, caps, results, traces, ledger)
    requires |results| == |traces| < |journeys| && |ledger| == |traces| + 1
    ensures AllMeasured(rules, journeys, envs, caps, results, traces + [trace], ledger + [usd])
    ensures forall r :: MeasuredWith(rules, journeys[|results|], caps, envs[|results|], ledger[|results|], r, trace)
              ==> AllMeasured(rules, journeys, envs, caps, results + [r], traces + [trace], ledger + [usd])
  {
    hide MeasuredWith;
    var traces', ledger' := traces + [trace], ledger + [usd];
    forall i | 0 <= i < |results|
      ensures MeasuredWith(rules, journeys[i], caps, envs[i], ledger'[i], results[i], traces'[i])
    {
      assert MeasuredWith(rules, journeys[i], caps, envs[i], ledger[i], results[i], traces[i]);
    }
  }

  /** The last journey opened was cut off by the dollar cap. */
  ghost predicate CutOff(journeys: seq<seq<Step>>, envs: seq<Env>, caps: Caps, traces: seq<Trace>, ledger: seq<real>) {
    && 0 < |traces| <= |journeys| == |envs| && |ledger| == |traces| + 1
    && var i := |traces| - 1;
       IsRun(StepsOf(journeys[i]), caps, envs[i].actor, ledger[i], traces[i], BudgetOut)
  }

  /** No model ever answers. */
  ghost predicate Silent(envs: seq<Env>) {
    forall i :: 0 <= i < |envs| ==> NeverAnswers(envs[i].actor)
  }

  ghost predicate NoActions(rs: seq<Result>) {
    forall i :: 0 <= i < |rs| ==> rs[i].actions == []
  }

  ghost predicate AllCostsWithin(envs: seq<Env>, c: real) {
    forall i :: 0 <= i < |envs| ==> CostsWithin(envs[i].actor, c)
  }

  /** The result is the judgement of the run of the journey against its Actor, which
      starts with `usd` spent; there is only one such run. */
  ghost predicate MeasuredWith(rules: Rules, journey: seq<Step>, caps: Caps, env: Env, usd: real, r: Result,
                               trace: Trace)
  {
    && Completed(StepsOf(journey), caps, env.actor, usd, trace) && TraceOk(StepsOf(journey), caps, trace)
    && r == Judged(rules, StepsOf(journey), env, trace)
  }

  /** A positive result was honestly measured, by the one run that was made. */
  lemma PositiveResultIsHonest(rules: Rules, journey: seq<Step>, caps: Caps, env: Env, usd: real, r: Result,
                               trace: Trace)
    requires MeasuredWith(rules, journey, caps, env, usd, r, trace)
    ensures VerdictOf(r.candidates) == Positive <==> Honest(rules, StepsOf(journey), env, trace, r.credits)
    ensures VerdictOf(r.candidates) == Positive ==> !Degraded(r)
    ensures r.actions == trace.actions
    ensures forall other, end :: IsRun(StepsOf(journey), caps, env.actor, usd, other, end) ==> other == trace
  {
    hide Honest, VerdictOf, Degraded, StepsOf, IsRun;
    HonestPositive(rules, StepsOf(journey), caps, env, trace);
    forall other, end | IsRun(StepsOf(journey), caps, env.actor, usd, other, end) ensures other == trace {
      var end' := if IsRun(StepsOf(journey), caps, env.actor, usd, trace, Next) then Next else CapHit;
      RunIsUnique(StepsOf(journey), caps, env.actor, usd, other, end, trace, end');
    }
  }

  /** No result of a bundle counts both as positive and as degraded. */
  lemma {:induction false} PositivesAndDegraded(rules: Rules, journeys: seq<seq<Step>>, caps: Caps, envs: seq<Env>,
                                                ledger: seq<real>, rs: seq<Result>, traces: seq<Trace>, n: nat)
    requires n <= |rs| <= |journeys| == |envs| && |rs| <= |traces| && |rs| <= |ledger|
    requires forall i :: 0 <= i < |rs| ==> MeasuredWith(rules, journeys[i], caps, envs[i], ledger[i], rs[i], traces[i])
    ensures CountVerdict(rs, n, Positive) + CountDegraded(rs, n) <= n
  {
    hide MeasuredWith, Degraded, VerdictOf;
    if n > 0 {
      var i := n - 1;
      PositivesAndDegraded(rules, journeys, caps, envs, ledger, rs, traces, i);
      PositiveResultIsHonest(rules, journeys[i], caps, envs[i], ledger[i], rs[i], traces[i]);
    }
  }
}
