/** The Actor loop and the run of a whole journey (`hack/dogfood/run_journeys.py`).

    The Actor's replies and the shell's answers are the values of `actor`, one per
    model call, so a statement about every `actor` is one about every behaviour.
    Lists that the source passes around and appends to are in-out values here. */
module Journeys {
  import opened Basics
  import opened Oracles
  import opened Grading
  import opened StateHooks

  /** `state` is the value under the key `expect_state`, when the key is present. */
  datatype Step = Step(spec: StepSpec, core: bool, state: Option<Json>)

  /** One model call. `Failed` is an error reply, `Finished` any reply without a
      runnable command, `Typed` a command with what running it recorded (`None`
      when the runner itself failed). */
  datatype Turn =
    | Raised
    | Failed(cost: real)
    | Finished(cost: real)
    | Typed(command: string, cost: real, ran: Option<Action>)

  datatype Caps = Caps(maxTurns: int, stepCap: int, maxUsd: real)

  datatype StepEnd = Next | CapHit | BudgetOut

  datatype Run = Run(
    actions: seq<Action>,
    candidates: seq<Candidate>,
    credits: seq<Credit>,
    turns: nat,
    starved: nat,
    marks: seq<(nat, nat)>,
    usd: real)

  function Max(a: int, b: int): int {
    if a < b then b else a
  }

  /** The findings of `actions[lo..]`, in run order. */
  function FindingsFrom(actions: seq<Action>, lo: nat): seq<Candidate> {
    if |actions| <= lo then []
    else FindingsFrom(actions[..|actions| - 1], lo) + actions[|actions| - 1].findings
  }

  // ---- What one step does ----

  ghost predicate DistinctCommands(actions: seq<Action>, lo: nat) {
    forall i, j :: lo <= i < j < |actions| ==> actions[i].command != actions[j].command
  }

  ghost predicate CostsWithin(actor: nat -> Turn, c: real) {
    forall t: nat :: !actor(t).Raised? ==> 0.0 <= actor(t).cost <= c
  }

  ghost predicate NeverAnswers(actor: nat -> Turn) {
    forall t: nat :: actor(t).Raised? || actor(t).Failed?
  }

  /** Turn `t` of a step that opened at turn `lo` typed a command new to the step, and
      it ran. Any other turn ends the step. */
  ghost predicate Runs(actor: nat -> Turn, lo: nat, t: nat) {
    && actor(t).Typed? && actor(t).ran.Some?
    && forall u: nat :: lo <= u < t && actor(u).Typed? ==> actor(u).command != actor(t).command
  }

  function ActionOf(turn: Turn): Action
    requires turn.Typed? && turn.ran.Some?
  {
    turn.ran.value.(command := turn.command)
  }

  /** Everything that ran in turns `lo..hi` of a step that opened at `lo`, in turn order. */
  ghost function RecordedIn(actor: nat -> Turn, lo: nat, hi: nat): seq<Action> {
    if hi <= lo then []
    else RecordedIn(actor, lo, hi - 1) +
         (if Runs(actor, lo, hi - 1) then [actor(hi - 1).ran.value.(command := actor(hi - 1).command)] else [])
  }

  /** The model calls that failed. */
  ghost function FailedTurns(actor: nat -> Turn, lo: nat, hi: nat): nat {
    if hi <= lo then 0
    else FailedTurns(actor, lo, hi - 1) + (if actor(hi - 1).Raised? || actor(hi - 1).Failed? then 1 else 0)
  }

  function CostOf(turn: Turn): real {
    if turn.Raised? then 0.0 else turn.cost
  }

  ghost function Spend(actor: nat -> Turn, lo: nat, hi: nat): real {
    if hi <= lo then 0.0
    else Spend(actor, lo, hi - 1) + (if actor(hi - 1).Raised? then 0.0 else actor(hi - 1).cost)
  }

  /** The caps let turn `t` be taken, after `ran` actions and `usd` spent. */
  predicate Allowed(caps: Caps, ran: int, t: int, usd: real) {
    ran < caps.stepCap && t < caps.maxTurns && usd < caps.maxUsd
  }

  /** The turns of a step that opens at turn `lo`, after `ran` actions and `usd` spent,
      are exactly `lo..hi`, and it ends that way: every turn was allowed, every turn but
      the last ran something new, and the step stopped either because the last one did
      not or because no further turn was allowed. */
  ghost predicate Window(caps: Caps, actor: nat -> Turn, ran: nat, usd: real, lo: nat, hi: nat, end: StepEnd) {
    && lo <= hi
    && (forall t: nat :: lo <= t < hi ==> Allowed(caps, ran + t - lo, t, usd + Spend(actor, lo, t)))
    && (forall t: nat :: lo <= t < hi - 1 ==> Runs(actor, lo, t))
    && (if lo < hi && !Runs(actor, lo, hi - 1) then end.Next?
        else
          && !Allowed(caps, ran + hi - lo, hi, usd + Spend(actor, lo, hi))
          && end == if ran + hi - lo >= caps.stepCap || hi >= caps.maxTurns then CapHit else BudgetOut)
  }

  /** The step recorded all that ran, counted every failed call and paid for every call. */
  ghost predicate Recorded(caps: Caps, actor: nat -> Turn, before: Run, after: Run) {
    && before.turns <= after.turns
    && after.actions == before.actions + RecordedIn(actor, before.turns, after.turns)
    && after.starved == before.starved + FailedTurns(actor, before.turns, after.turns)
    && after.usd == before.usd + Spend(actor, before.turns, after.turns)
  }

  ghost predicate StepTurns(caps: Caps, actor: nat -> Turn, before: Run, after: Run, end: StepEnd) {
    && Recorded(caps, actor, before, after)
    && Window(caps, actor, |before.actions|, before.usd, before.turns, after.turns, end)
  }

  /** The caps hold for the step: actions, model calls and money. */
  ghost predicate WithinCaps(caps: Caps, actor: nat -> Turn, before: Run, after: Run) {
    && |after.actions| <= Max(|before.actions|, caps.stepCap)
    && before.turns <= after.turns <= Max(before.turns, caps.maxTurns)
    && forall c :: CostsWithin(actor, c) && before.usd < caps.maxUsd + c ==> after.usd < caps.maxUsd + c
  }

  /** What `_run_step` leaves behind: its own actions with pairwise distinct commands,
      its seed watermark, the findings of its actions and one grade of the step. */
  ghost predicate StepRan(rules: Rules, step: Step, k: nat, decisive: bool, before: Run, after: Run) {
    && before.actions <= after.actions
    && DistinctCommands(after.actions, |before.actions|)
    && after.marks == before.marks + MarkOf(step, k, |before.actions|)
    && var g := GradeStep(rules, step.spec, k, after.actions, |before.actions|,
                          DriftWatermark(after.marks, k), decisive);
       && after.candidates == before.candidates + FindingsFrom(after.actions, |before.actions|) + g.candidates
       && after.credits == before.credits + g.credits
  }

  function MarkOf(step: Step, k: nat, start: nat): seq<(nat, nat)> {
    if step.spec.seeds then [(k, start)] else []
  }

  /** `_run_step`: the Actor loop, then one grade on every way out but the dollar cap. */
  method RunStep(rules: Rules, step: Step, k: nat, decisive: bool, caps: Caps, actor: nat -> Turn, run: Run)
    returns (after: Run, end: StepEnd)
    ensures StepTurns(caps, actor, run, after, end)
    ensures !end.BudgetOut? ==> StepRan(rules, step, k, decisive, run, after)
    ensures WithinCaps(caps, actor, run, after)
    ensures NeverAnswers(actor) ==>
              after.actions == run.actions && (end.Next? ==> after.starved > run.starved)
  {
    hide GradeStep, DriftWatermark, Window, RecordedIn, FailedTurns, Spend;
    var start := |run.actions|;
    after := run.(marks := run.marks + MarkOf(step, k, start));
    after, end := ActorLoop(caps, actor, after);
    if !end.BudgetOut? {
      var g := GradeStep(rules, step.spec, k, after.actions, start, DriftWatermark(after.marks, k), decisive);
      after := after.(candidates := after.candidates + g.candidates, credits := after.credits + g.credits);
    }
  }

  /** What the Actor loop leaves behind besides the actions. */
  ghost predicate Looped(caps: Caps, actor: nat -> Turn, run: Run, after: Run) {
    && run.actions <= after.actions && DistinctCommands(after.actions, |run.actions|)
    && after.candidates == run.candidates + FindingsFrom(after.actions, |run.actions|)
    && after.credits == run.credits && after.marks == run.marks
    && WithinCaps(caps, actor, run, after)
    && (NeverAnswers(actor) ==> after.actions == run.actions)
  }

  /** One more model call, paid for, that ran nothing. */
  lemma TurnTaken(caps: Caps, actor: nat -> Turn, run: Run, now: Run)
    requires Looped(caps, actor, run, now) && now.turns < caps.maxTurns && now.usd < caps.maxUsd
    ensures Looped(caps, actor, run, Taken(actor, now))
  {
    hide DistinctCommands, FindingsFrom;
  }

  /** The command it carried was new and ran. */
  lemma ActionRecorded(caps: Caps, actor: nat -> Turn, run: Run, now: Run)
    requires Looped(caps, actor, run, now) && |now.actions| < caps.stepCap && run.turns < now.turns
    requires var turn := actor(now.turns - 1);
             turn.Typed? && turn.ran.Some?
             && forall i :: |run.actions| <= i < |now.actions| ==> now.actions[i].command != turn.command
    ensures var action := ActionOf(actor(now.turns - 1));
            Looped(caps, actor, run,
                   now.(actions := now.actions + [action], candidates := now.candidates + action.findings))
  {
    hide CostsWithin;
    var action := ActionOf(actor(now.turns - 1));
    assert (now.actions + [action])[..|now.actions|] == now.actions;
  }

  /** The step is under way: every turn so far was allowed and ran something new. */
  ghost predicate Going(caps: Caps, actor: nat -> Turn, run: Run, now: Run) {
    && Recorded(caps, actor, run, now)
    && |now.actions| == |run.actions| + now.turns - run.turns
    && (forall t: nat :: run.turns <= t < now.turns ==>
          Allowed(caps, |run.actions| + t - run.turns, t, run.usd + Spend(actor, run.turns, t)))
    && (forall t: nat :: run.turns <= t < now.turns ==> Runs(actor, run.turns, t))
  }

  /** `seen` holds the commands typed so far, which are those of the recorded actions. */
  ghost predicate SeenIs(actor: nat -> Turn, run: Run, now: Run, seen: set<string>) {
    && run.turns <= now.turns && |run.actions| <= |now.actions|
    && (forall u: nat :: run.turns <= u < now.turns && actor(u).Typed? ==> actor(u).command in seen)
    && (forall c :: c in seen ==> TypedIn(actor, run.turns, now.turns, c))
    && (forall i :: |run.actions| <= i < |now.actions| ==> now.actions[i].command in seen)
  }

  ghost predicate TypedIn(actor: nat -> Turn, lo: nat, hi: nat, c: string) {
    exists u: nat :: lo <= u < hi && actor(u).Typed? && actor(u).command == c
  }

  /** The next turn runs its command exactly when that is new. */
  lemma SeenDecides(actor: nat -> Turn, run: Run, now: Run, seen: set<string>)
    requires SeenIs(actor, run, now, seen) && actor(now.turns).Typed?
    ensures var turn := actor(now.turns);
            && (Runs(actor, run.turns, now.turns) <==> turn.ran.Some? && turn.command !in seen)
            && (turn.command !in seen ==>
                  forall i :: |run.actions| <= i < |now.actions| ==> now.actions[i].command != turn.command)
  {
  }

  lemma SeenGrows(actor: nat -> Turn, run: Run, now: Run, seen: set<string>, after: Run)
    requires SeenIs(actor, run, now, seen) && Runs(actor, run.turns, now.turns)
    requires after.turns == now.turns + 1 && after.actions == now.actions + [ActionOf(actor(now.turns))]
    ensures SeenIs(actor, run, after, seen + {actor(now.turns).command})
  {
    forall c | c in seen + {actor(now.turns).command} ensures TypedIn(actor, run.turns, after.turns, c) {
      if c in seen {
        var u: nat :| run.turns <= u < now.turns && actor(u).Typed? && actor(u).command == c;
      }
    }
  }

  /** The next turn, whatever it brings. */
  ghost function Taken(actor: nat -> Turn, now: Run): Run {
    var turn := actor(now.turns);
    now.(turns := now.turns + 1, usd := now.usd + CostOf(turn),
         starved := now.starved + if turn.Raised? || turn.Failed? then 1 else 0)
  }

  lemma NothingTyped(actor: nat -> Turn, lo: nat, t: nat)
    requires !actor(t).Typed?
    ensures !Runs(actor, lo, t)
  {
  }

  lemma Stopped(caps: Caps, actor: nat -> Turn, run: Run, now: Run)
    requires Going(caps, actor, run, now) && Allowed(caps, |now.actions|, now.turns, now.usd)
    requires !Runs(actor, run.turns, now.turns)
    ensures StepTurns(caps, actor, run, Taken(actor, now), Next)
  {
    hide Runs, Allowed;
  }

  lemma WentOn(caps: Caps, actor: nat -> Turn, run: Run, now: Run)
    requires Going(caps, actor, run, now) && Allowed(caps, |now.actions|, now.turns, now.usd)
    requires Runs(actor, run.turns, now.turns)
    ensures var action := ActionOf(actor(now.turns));
            Going(caps, actor, run,
                  Taken(actor, now).(actions := now.actions + [action], candidates := now.candidates + action.findings))
  {
    hide Allowed;
  }

  lemma Capped(caps: Caps, actor: nat -> Turn, run: Run, now: Run)
    requires Going(caps, actor, run, now) && !Allowed(caps, |now.actions|, now.turns, now.usd)
    ensures StepTurns(caps, actor, run, now,
                      if |now.actions| >= caps.stepCap || now.turns >= caps.maxTurns then CapHit else BudgetOut)
  {
    hide Runs;
  }

  lemma LoopStarts(caps: Caps, actor: nat -> Turn, run: Run)
    ensures Looped(caps, actor, run, run) && Going(caps, actor, run, run) && SeenIs(actor, run, run, {})
  {
  }

  /** `_next_command`: one model call, paid for; a failed one is tallied, and only a reply
      that carries a command goes on. */
  method NextCommand(actor: nat -> Turn, now: Run) returns (after: Run, typed: Option<Turn>)
    ensures after == Taken(actor, now)
    ensures typed == if actor(now.turns).Typed? then Some(actor(now.turns)) else None
  {
    var reply := actor(now.turns);
    after, typed := now.(turns := now.turns + 1, usd := now.usd + CostOf(reply)), None;
    if reply.Raised? || reply.Failed? {
      after := after.(starved := after.starved + 1);
    } else if reply.Typed? {
      typed := Some(reply);
    }
  }

  /** The `while True` of `_run_step`. */
  method ActorLoop(caps: Caps, actor: nat -> Turn, run: Run) returns (after: Run, end: StepEnd)
    ensures StepTurns(caps, actor, run, after, end)
    ensures Looped(caps, actor, run, after)
    ensures NeverAnswers(actor) && end.Next? ==> after.starved > run.starved
  {
    var seen: set<string> := {};
    after, end := run, Next;
    LoopStarts(caps, actor, run);
    hide Looped, Going, StepTurns, SeenIs, Runs, CostsWithin, Spend, RecordedIn, FailedTurns, WithinCaps;
    while true
      invariant Looped(caps, actor, run, after) && Going(caps, actor, run, after) && SeenIs(actor, run, after, seen)
      invariant after.starved == run.starved && run.turns <= after.turns && |run.actions| <= |after.actions|
      decreases caps.maxTurns - after.turns
    {
      if |after.actions| >= caps.stepCap || after.turns >= caps.maxTurns {
        Capped(caps, actor, run, after);
        end := CapHit;
        break;
      }
      if after.usd >= caps.maxUsd {
        Capped(caps, actor, run, after);
        end := BudgetOut;
        break;
      }
      ghost var before := after;
      TurnTaken(caps, actor, run, after);
      var typed;
      after, typed := NextCommand(actor, after);
      if typed.None? {
        NothingTyped(actor, run.turns, before.turns);
        Stopped(caps, actor, run, before);
        break;
      }
      var reply := typed.value;
      SeenDecides(actor, run, before, seen);
      if reply.command in seen {
        Stopped(caps, actor, run, before);
        break;
      }
      ghost var known := seen;
      seen := seen + {reply.command};
      if reply.ran.None? {
        Stopped(caps, actor, run, before);
        break;
      }
      WentOn(caps, actor, run, before);
      ActionRecorded(caps, actor, run, after);
      var action := ActionOf(reply);
      after := after.(actions := after.actions + [action], candidates := after.candidates + action.findings);
      SeenGrows(actor, run, before, known, after);
    }
  }

  // ---- A whole journey ----

  /** What the run left to be judged. `bounds[i]..bounds[i + 1]` are the actions of
      step `i`; steps from `|bounds| - 1` on were never opened. For the record,
      `starts[i]..starts[i + 1]` are its turns. */
  datatype Trace = Trace(actions: seq<Action>, bounds: seq<nat>, starved: nat, starts: seq<nat>)

  datatype Env = Env(actor: nat -> Turn, boundary: nat -> Evidence, final: Evidence, console: seq<Candidate>)

  datatype Result = Result(actions: seq<Action>, candidates: seq<Candidate>, credits: seq<Credit>)

  datatype Outcome = OutOfBudget | Finished(result: Result)

  ghost predicate AssertsNothing(s: Assertions) {
    forall rules: Rules, a: Action :: Satisfies(rules, s, a)
  }

  /** A journey without steps runs as one step that asserts nothing. */
  function StepsOf(steps: seq<Step>): (r: seq<Step>)
    ensures steps != [] ==> r == steps
    ensures steps == [] ==>
              && |r| == 1 && !r[0].spec.cmdRe.Regex? && !r[0].spec.seeds && r[0].state.None?
              && AssertsNothing(r[0].spec.asserts)
  {
    if steps == [] then
      [Step(StepSpec(Assertions("", NoExit, NoRegex, NoRegex), NoRegex, false), false, None)]
    else steps
  }

  /** `_decisive_step_indices`: the core steps, or the last one if there is none. */
  predicate IsDecisive(steps: seq<Step>, i: nat): (r: bool)
    requires i < |steps|
    ensures (exists j :: 0 <= j < |steps| && steps[j].core) ==> (r <==> steps[i].core)
    ensures (forall j :: 0 <= j < |steps| ==> !steps[j].core) ==> (r <==> i == |steps| - 1)
  {
    steps[i].core || (i == |steps| - 1 && forall j :: 0 <= j < |steps| ==> !steps[j].core)
  }

  predicate Entered(trace: Trace, i: nat) {
    i + 1 < |trace.bounds| && trace.bounds[i] < trace.bounds[i + 1]
  }

  ghost predicate Bounds(actions: seq<Action>, bounds: seq<nat>) {
    && |bounds| > 0 && bounds[0] == 0 && bounds[|bounds| - 1] == |actions|
    && forall i, j :: 0 <= i <= j < |bounds| ==> bounds[i] <= bounds[j]
  }

  /** The watermarks of the first `n` steps. */
  function MarksOf(steps: seq<Step>, bounds: seq<nat>, n: nat): seq<(nat, nat)>
    requires n <= |steps| && n < |bounds|
  {
    if n == 0 then [] else MarksOf(steps, bounds, n - 1) + MarkOf(steps[n - 1], n - 1, bounds[n - 1])
  }

  /** The grade of step `i`, on the actions run so far when it ended. */
  function StepReport(rules: Rules, steps: seq<Step>, actions: seq<Action>, bounds: seq<nat>, i: nat): StepGrade
    requires i < |steps| && i + 1 < |bounds| && bounds[i] <= bounds[i + 1] <= |actions|
  {
    GradeStep(rules, steps[i].spec, i, actions[..bounds[i + 1]], bounds[i],
              DriftWatermark(MarksOf(steps, bounds, i + 1), i), IsDecisive(steps, i))
  }

  ghost predicate Ordered(actions: seq<Action>, bounds: seq<nat>, n: nat) {
    n < |bounds| && forall i, j :: 0 <= i <= j <= n ==> bounds[i] <= bounds[j] <= |actions|
  }

  /** What the first `n` steps add to the journey. */
  ghost function StepReports(rules: Rules, steps: seq<Step>, actions: seq<Action>, bounds: seq<nat>, n: nat): StepGrade
    requires n <= |steps| && Ordered(actions, bounds, n)
  {
    if n == 0 then StepGrade([], [])
    else
      var before := StepReports(rules, steps, actions, bounds, n - 1);
      var g := StepReport(rules, steps, actions, bounds, n - 1);
      StepGrade(before.candidates + FindingsFrom(actions[..bounds[n]], bounds[n - 1]) + g.candidates,
                before.credits + g.credits)
  }

  lemma {:induction false} MarksFrame(steps: seq<Step>, bounds: seq<nat>, more: seq<nat>, n: nat)
    requires n <= |steps| && n < |bounds| && bounds <= more
    ensures MarksOf(steps, bounds, n) == MarksOf(steps, more, n)
  {
    if n > 0 {
      MarksFrame(steps, bounds, more, n - 1);
    }
  }

  /** Later steps do not disturb what earlier ones reported. */
  lemma {:induction false} StepReportsFrame(rules: Rules, steps: seq<Step>, actions: seq<Action>, bounds: seq<nat>,
                                            actions': seq<Action>, bounds': seq<nat>, n: nat)
    requires n <= |steps| && Ordered(actions, bounds, n)
    requires actions <= actions' && bounds <= bounds'
    ensures Ordered(actions', bounds', n)
    ensures StepReports(rules, steps, actions, bounds, n) == StepReports(rules, steps, actions', bounds', n)
  {
    hide GradeStep, DriftWatermark, FindingsFrom, MarksOf, IsDecisive;
    if n > 0 {
      StepReportsFrame(rules, steps, actions, bounds, actions', bounds', n - 1);
      MarksFrame(steps, bounds, bounds', n);
      assert bounds[n] == bounds'[n] && bounds[n - 1] == bounds'[n - 1];
      assert actions[..bounds[n]] == actions'[..bounds'[n]];
      assert StepReport(rules, steps, actions, bounds, n - 1) == StepReport(rules, steps, actions', bounds', n - 1);
    }
  }

  /** A decisive step nobody entered: credited from an observed action, or unreached. */
  function UnenteredReport(rules: Rules, steps: seq<Step>, trace: Trace, i: nat): StepGrade
    requires i < |steps| && 0 < |trace.bounds| <= |steps| + 1
  {
    if !IsDecisive(steps, i) || Entered(trace, i) then StepGrade([], [])
    else
      var mark := DriftWatermark(MarksOf(steps, trace.bounds, |trace.bounds| - 1), i);
      match ObservedAction(rules, steps[i].spec, trace.actions, mark, |trace.actions|)
      case None => StepGrade([Unreached(false)], [])
      case Some(at) =>
        StepGrade(GradeTarget(rules, steps[i].spec.asserts, trace.actions, at, true),
                  [Observed(i, at, trace.actions[at].command)])
  }

  /** Neither entered nor credited: the hook grader must add nothing for it. */
  predicate IsUnreached(rules: Rules, steps: seq<Step>, trace: Trace, i: nat)
    requires i < |steps| && 0 < |trace.bounds| <= |steps| + 1
  {
    && IsDecisive(steps, i) && !Entered(trace, i)
    && ObservedAction(rules, steps[i].spec, trace.actions,
                      DriftWatermark(MarksOf(steps, trace.bounds, |trace.bounds| - 1), i), |trace.actions|).None?
  }

  /** The capture a step's hook is graded on: the one taken when the next step
      starts, else the one at the end of the journey. */
  function EvidenceFor(env: Env, trace: Trace, i: nat): Evidence {
    if i + 2 < |trace.bounds| then env.boundary(i) else env.final
  }

  function StateReport(rules: Rules, steps: seq<Step>, env: Env, trace: Trace, i: nat): StepGrade
    requires i < |steps| && 0 < |trace.bounds| <= |steps| + 1
  {
    if !IsDecisive(steps, i) || steps[i].state.None? || IsUnreached(rules, steps, trace, i) then StepGrade([], [])
    else HookReport(steps[i].state.value, EvidenceFor(env, trace, i), i, trace.actions == [])
  }

  predicate IsStray(steps: seq<Step>, i: nat)
    requires i < |steps|
  {
    steps[i].state.Some? && !IsDecisive(steps, i)
  }

  ghost function UnenteredReports(rules: Rules, steps: seq<Step>, trace: Trace, n: nat): StepGrade
    requires n <= |steps| && 0 < |trace.bounds| <= |steps| + 1
  {
    if n == 0 then StepGrade([], [])
    else
      var before := UnenteredReports(rules, steps, trace, n - 1);
      var g := UnenteredReport(rules, steps, trace, n - 1);
      StepGrade(before.candidates + g.candidates, before.credits + g.credits)
  }

  ghost function StateReports(rules: Rules, steps: seq<Step>, env: Env, trace: Trace, n: nat): StepGrade
    requires n <= |steps| && 0 < |trace.bounds| <= |steps| + 1
  {
    if n == 0 then StepGrade([], [])
    else
      var before := StateReports(rules, steps, env, trace, n - 1);
      var g := StateReport(rules, steps, env, trace, n - 1);
      StepGrade(before.candidates + g.candidates, before.credits + g.credits)
  }

  predicate ReconcilerUnusable(actions: seq<Action>) {
    actions != [] && forall i :: 0 <= i < |actions| ==> actions[i].reconcileError
  }

  function InfraIf(b: bool): (cs: seq<Candidate>)
    ensures (cs == [] <==> !b) && forall c :: c in cs ==> c.kind == Infra
  {
    if b then [Candidate(Infra, false, -1, "")] else []
  }

  /** The whole report of a journey, as a function of what happened in it. */
  ghost function Judged(rules: Rules, steps: seq<Step>, env: Env, trace: Trace): Result
    requires Bounds(trace.actions, trace.bounds) && |trace.bounds| <= |steps| + 1
  {
    var ran := StepReports(rules, steps, trace.actions, trace.bounds, |trace.bounds| - 1);
    var unentered := UnenteredReports(rules, steps, trace, |steps|);
    var state := StateReports(rules, steps, env, trace, |steps|);
    Result(
      trace.actions,
      ran.candidates + InfraIf(trace.starved > 0) + unentered.candidates
      + InfraIf(ReconcilerUnusable(trace.actions))
      + InfraIf(exists i :: 0 <= i < |steps| && IsStray(steps, i))
      + state.candidates + env.console,
      ran.credits + unentered.credits + state.credits)
  }

  /** What every trace of a run satisfies. */
  ghost predicate TraceOk(steps: seq<Step>, caps: Caps, trace: Trace) {
    && Bounds(trace.actions, trace.bounds) && 1 < |trace.bounds| <= |steps| + 1
    && |trace.actions| <= Max(0, caps.stepCap)
    && forall i :: 0 <= i < |trace.bounds| - 1 ==>
         DistinctCommands(trace.actions[..trace.bounds[i + 1]], trace.bounds[i])
  }

  /** What holds between two steps of a journey. */
  ghost predicate Between(rules: Rules, steps: seq<Step>, caps: Caps, run: Run, bounds: seq<nat>, k: nat) {
    && k <= |steps| && |bounds| == k + 1 && Bounds(run.actions, bounds)
    && run.marks == MarksOf(steps, bounds, k)
    && StepReports(rules, steps, run.actions, bounds, k) == StepGrade(run.candidates, run.credits)
    && |run.actions| <= Max(0, caps.stepCap)
    && forall i :: 0 <= i < k ==> DistinctCommands(run.actions[..bounds[i + 1]], bounds[i])
  }

  lemma BetweenSteps(rules: Rules, steps: seq<Step>, caps: Caps, run: Run, bounds: seq<nat>, k: nat, after: Run)
    requires k < |steps| && Between(rules, steps, caps, run, bounds, k)
    requires StepRan(rules, steps[k], k, IsDecisive(steps, k), run, after)
    requires |after.actions| <= Max(0, caps.stepCap)
    ensures Between(rules, steps, caps, after, bounds + [|after.actions|], k + 1)
  {
    hide GradeStep, DriftWatermark, FindingsFrom, IsDecisive, Max;
    var more := bounds + [|after.actions|];
    StepReportsFrame(rules, steps, run.actions, bounds, after.actions, more, k);
    MarksFrame(steps, bounds, more, k);
    assert after.actions[..more[k + 1]] == after.actions;
    forall i | 0 <= i < k + 1 ensures DistinctCommands(after.actions[..more[i + 1]], more[i]) {
      if i < k {
        assert after.actions[..more[i + 1]] == run.actions[..bounds[i + 1]];
      }
    }
  }

  // ---- The run a trace is of ----

  /** Step `i` took exactly the turns `starts[i]..starts[i + 1]`, recorded exactly what
      ran in them, and ended that way. */
  ghost predicate StepWas(caps: Caps, actor: nat -> Turn, usd: real, actions: seq<Action>, bounds: seq<nat>,
                          starts: seq<nat>, i: nat, end: StepEnd)
    requires i + 1 < |bounds| == |starts|
  {
    && bounds[i] <= bounds[i + 1] <= |actions|
    && actions[bounds[i]..bounds[i + 1]] == RecordedIn(actor, starts[i], starts[i + 1])
    && Window(caps, actor, bounds[i], usd + Spend(actor, 0, starts[i]), starts[i], starts[i + 1], end)
  }

  /** The trace of the first `n` steps, which ended that way. */
  ghost predicate Followed(caps: Caps, actor: nat -> Turn, usd: real, actions: seq<Action>, bounds: seq<nat>,
                           starved: nat, starts: seq<nat>, n: nat, end: StepEnd) {
    && |bounds| == |starts| == n + 1 && bounds[0] == starts[0] == 0 && bounds[n] == |actions|
    && (forall i: nat :: i < n - 1 ==> StepWas(caps, actor, usd, actions, bounds, starts, i, Next))
    && (n > 0 ==> StepWas(caps, actor, usd, actions, bounds, starts, n - 1, end))
    && starved == FailedTurns(actor, 0, starts[n])
  }

  /** The trace is that of the run of these steps against this Actor, which starts with
      `usd` spent and ends that way: the steps one after the other, each from where the
      last one ended, until one is stopped by a cap or none is left. */
  ghost predicate IsRun(steps: seq<Step>, caps: Caps, actor: nat -> Turn, usd: real, trace: Trace, end: StepEnd) {
    && 1 < |trace.bounds| <= |steps| + 1
    && Followed(caps, actor, usd, trace.actions, trace.bounds, trace.starved, trace.starts, |trace.bounds| - 1, end)
    && (end.Next? ==> |trace.bounds| == |steps| + 1)
  }

  lemma {:induction false} SpendSplit(actor: nat -> Turn, lo: nat, hi: nat)
    requires lo <= hi
    ensures Spend(actor, 0, hi) == Spend(actor, 0, lo) + Spend(actor, lo, hi)
    ensures FailedTurns(actor, 0, hi) == FailedTurns(actor, 0, lo) + FailedTurns(actor, lo, hi)
  {
    if lo < hi {
      SpendSplit(actor, lo, hi - 1);
    }
  }

  /** One more step. */
  lemma FollowOn(caps: Caps, actor: nat -> Turn, usd: real, now: Run, bounds: seq<nat>, starts: seq<nat>, k: nat,
                 after: Run, end: StepEnd)
    requires Followed(caps, actor, usd, now.actions, bounds, now.starved, starts, k, Next)
    requires now.turns == starts[k] && now.usd == usd + Spend(actor, 0, now.turns)
    requires StepTurns(caps, actor, now, after, end)
    ensures Followed(caps, actor, usd, after.actions, bounds + [|after.actions|], after.starved,
                     starts + [after.turns], k + 1, end)
    ensures after.usd == usd + Spend(actor, 0, after.turns)
  {
    hide Window, RecordedIn, Spend, FailedTurns;
    SpendSplit(actor, now.turns, after.turns);
    var bounds', starts' := bounds + [|after.actions|], starts + [after.turns];
    assert after.actions[bounds'[k]..bounds'[k + 1]] == RecordedIn(actor, starts'[k], starts'[k + 1]);
    assert StepWas(caps, actor, usd, after.actions, bounds', starts', k, end);
    forall i: nat | i < k ensures StepWas(caps, actor, usd, after.actions, bounds', starts', i, Next) {
      assert StepWas(caps, actor, usd, now.actions, bounds, starts, i, Next);
      assert after.actions[bounds[i]..bounds[i + 1]] == now.actions[bounds[i]..bounds[i + 1]];
    }
  }

  /** The turns of a step, and how it ends, are determined by where it starts. */
  lemma WindowIsUnique(caps: Caps, actor: nat -> Turn, ran: nat, usd: real, lo: nat, hi: nat, end: StepEnd,
                       hi': nat, end': StepEnd)
    requires Window(caps, actor, ran, usd, lo, hi, end) && Window(caps, actor, ran, usd, lo, hi', end')
    ensures hi == hi' && end == end'
  {
    hide Runs, Allowed, Spend;
    if hi < hi' {
      NoLonger(caps, actor, ran, usd, lo, hi, end, hi', end');
    } else if hi' < hi {
      NoLonger(caps, actor, ran, usd, lo, hi', end', hi, end);
    }
  }

  lemma NoLonger(caps: Caps, actor: nat -> Turn, ran: nat, usd: real, lo: nat, hi: nat, end: StepEnd,
                 hi': nat, end': StepEnd)
    requires Window(caps, actor, ran, usd, lo, hi, end) && hi < hi'
    ensures !Window(caps, actor, ran, usd, lo, hi', end')
  {
    hide Runs, Allowed, Spend;
  }

  /** There is only one run: two traces of it are the same, and end the same way. */
  lemma RunIsUnique(steps: seq<Step>, caps: Caps, actor: nat -> Turn, usd: real,
                    a: Trace, end: StepEnd, b: Trace, end': StepEnd)
    requires IsRun(steps, caps, actor, usd, a, end) && IsRun(steps, caps, actor, usd, b, end')
    ensures a == b && end == end'
  {
    hide StepWas;
    var m, n := |a.bounds| - 1, |b.bounds| - 1;
    if m <= n {
      SameLength(steps, caps, actor, usd, a, end, b, end');
    } else {
      SameLength(steps, caps, actor, usd, b, end', a, end);
    }
    SamePrefix(caps, actor, usd, a, end, b, end', n - 1);
    LastStep(caps, actor, usd, a, end, b, end');
  }

  /** Traces of the same run agree on where every step starts, as long as both go on. */
  lemma {:induction false} SamePrefix(caps: Caps, actor: nat -> Turn, usd: real, a: Trace, end: StepEnd,
                                      b: Trace, end': StepEnd, i: nat)
    requires i + 1 < |a.bounds| && i + 1 < |b.bounds|
    requires Followed(caps, actor, usd, a.actions, a.bounds, a.starved, a.starts, |a.bounds| - 1, end)
    requires Followed(caps, actor, usd, b.actions, b.bounds, b.starved, b.starts, |b.bounds| - 1, end')
    ensures a.bounds[..i + 1] == b.bounds[..i + 1] && a.starts[..i + 1] == b.starts[..i + 1]
    ensures a.bounds[i] <= |a.actions| && b.bounds[i] <= |b.actions|
    ensures a.actions[..a.bounds[i]] == b.actions[..b.bounds[i]]
  {
    hide Window, RecordedIn, Spend, FailedTurns;
    if i > 0 {
      SamePrefix(caps, actor, usd, a, end, b, end', i - 1);
      SameStep(caps, actor, usd, a, Next, b, Next, i - 1);
      assert a.bounds[..i + 1] == a.bounds[..i] + [a.bounds[i]] && b.bounds[..i + 1] == b.bounds[..i] + [b.bounds[i]];
      assert a.starts[..i + 1] == a.starts[..i] + [a.starts[i]] && b.starts[..i + 1] == b.starts[..i] + [b.starts[i]];
    }
  }

  /** A step that starts the same goes the same. */
  lemma SameStep(caps: Caps, actor: nat -> Turn, usd: real, a: Trace, end: StepEnd, b: Trace, end': StepEnd, i: nat)
    requires i + 1 < |a.bounds| == |a.starts| && i + 1 < |b.bounds| == |b.starts|
    requires StepWas(caps, actor, usd, a.actions, a.bounds, a.starts, i, end)
    requires StepWas(caps, actor, usd, b.actions, b.bounds, b.starts, i, end')
    requires a.bounds[i] == b.bounds[i] && a.starts[i] == b.starts[i]
    requires a.actions[..a.bounds[i]] == b.actions[..b.bounds[i]]
    ensures end == end' && a.bounds[i + 1] == b.bounds[i + 1] && a.starts[i + 1] == b.starts[i + 1]
    ensures a.actions[..a.bounds[i + 1]] == b.actions[..b.bounds[i + 1]]
  {
    hide Window, RecordedIn, Spend;
    WindowIsUnique(caps, actor, a.bounds[i], usd + Spend(actor, 0, a.starts[i]), a.starts[i],
                   a.starts[i + 1], end, b.starts[i + 1], end');
    var ran := RecordedIn(actor, a.starts[i], a.starts[i + 1]);
    assert a.actions[..a.bounds[i + 1]] == a.actions[..a.bounds[i]] + ran;
    assert b.actions[..b.bounds[i + 1]] == b.actions[..b.bounds[i]] + ran;
    assert |ran| == a.bounds[i + 1] - a.bounds[i] && |ran| == b.bounds[i + 1] - b.bounds[i];
  }

  lemma SameLength(steps: seq<Step>, caps: Caps, actor: nat -> Turn, usd: real,
                   a: Trace, end: StepEnd, b: Trace, end': StepEnd)
    requires IsRun(steps, caps, actor, usd, a, end) && IsRun(steps, caps, actor, usd, b, end')
    requires |a.bounds| <= |b.bounds|
    ensures |a.bounds| == |b.bounds|
  {
    hide StepWas;
    if |a.bounds| < |b.bounds| {
      var i := |a.bounds| - 2;
      SamePrefix(caps, actor, usd, a, end, b, end', i);
      assert a.bounds[..i + 1][i] == b.bounds[..i + 1][i] && a.starts[..i + 1][i] == b.starts[..i + 1][i];
      SameStep(caps, actor, usd, a, end, b, Next, i);
    }
  }

  lemma LastStep(caps: Caps, actor: nat -> Turn, usd: real, a: Trace, end: StepEnd, b: Trace, end': StepEnd)
    requires 1 < |a.bounds| == |b.bounds|
    requires Followed(caps, actor, usd, a.actions, a.bounds, a.starved, a.starts, |a.bounds| - 1, end)
    requires Followed(caps, actor, usd, b.actions, b.bounds, b.starved, b.starts, |b.bounds| - 1, end')
    requires var i := |a.bounds| - 2;
             a.bounds[..i + 1] == b.bounds[..i + 1] && a.starts[..i + 1] == b.starts[..i + 1]
             && a.bounds[i] <= |a.actions| && b.bounds[i] <= |b.actions|
             && a.actions[..a.bounds[i]] == b.actions[..b.bounds[i]]
    ensures a == b && end == end'
  {
    hide StepWas, FailedTurns;
    var i := |a.bounds| - 2;
    assert a.bounds[..i + 1][i] == b.bounds[..i + 1][i] && a.starts[..i + 1][i] == b.starts[..i + 1][i];
    SameStep(caps, actor, usd, a, end, b, end', i);
    assert a.bounds == a.bounds[..i + 1] + [a.bounds[i + 1]] && b.bounds == b.bounds[..i + 1] + [b.bounds[i + 1]];
    assert a.starts == a.starts[..i + 1] + [a.starts[i + 1]] && b.starts == b.starts[..i + 1] + [b.starts[i + 1]];
    assert a.actions == a.actions[..|a.actions|] && b.actions == b.actions[..|b.actions|];
  }

  /** `run_journey`. */
  method RunJourney(rules: Rules, journey: seq<Step>, env: Env, caps: Caps, usd: real)
    returns (outcome: Outcome, trace: Trace, spent: real)
    ensures outcome.OutOfBudget? ==> IsRun(StepsOf(journey), caps, env.actor, usd, trace, BudgetOut)
    ensures outcome.Finished? ==> Completed(StepsOf(journey), caps, env.actor, usd, trace)
    ensures outcome.Finished? ==>
              && TraceOk(StepsOf(journey), caps, trace)
              && outcome.result == Judged(rules, StepsOf(journey), env, trace)
    ensures trace.starts != [] && trace.starts[|trace.starts| - 1] <= Max(0, caps.maxTurns)
    ensures spent == usd + Spend(env.actor, 0, trace.starts[|trace.starts| - 1])
    ensures forall c :: CostsWithin(env.actor, c) && usd < caps.maxUsd + c ==> spent < caps.maxUsd + c
    ensures outcome.Finished? && NeverAnswers(env.actor) ==> outcome.result.actions == []
  {
    hide GradeStep, UnenteredReports, StateReports, StepReports, DistinctCommands, Followed, Spend;
    var steps := StepsOf(journey);
    var run, starts, end, captured := RunSteps(rules, steps, env, caps, usd);
    trace := Trace(run.0.actions, run.1, run.0.starved, starts);
    spent := run.0.usd;
    if end.BudgetOut? {
      return OutOfBudget, trace, spent;
    }
    var candidates := run.0.candidates + InfraIf(trace.starved > 0);
    var unentered := CreditUnentered(rules, steps, trace);
    candidates := candidates + unentered.candidates + InfraIf(ReconcilerUnusable(trace.actions));
    var state := GradeStateHooks(rules, steps, env, trace, captured);
    candidates := candidates + state.candidates + env.console;
    outcome := Outcome.Finished(Result(run.0.actions, candidates, run.0.credits + unentered.credits + state.credits));
    assert candidates == Judged(rules, steps, env, trace).candidates;
  }

  /** The run ended by itself or at the step or turn cap. */
  ghost predicate Completed(steps: seq<Step>, caps: Caps, actor: nat -> Turn, usd: real, trace: Trace) {
    IsRun(steps, caps, actor, usd, trace, Next) || IsRun(steps, caps, actor, usd, trace, CapHit)
  }

  /** A capture is taken for the step when the next one opens. */
  predicate Declares(steps: seq<Step>, i: nat)
    requires i < |steps|
  {
    IsDecisive(steps, i) && steps[i].state.Some?
  }

  /** The captures taken by the time `n` steps have been opened: one at the boundary of
      every declaring step but the last of them. */
  ghost predicate Captured(steps: seq<Step>, boundary: nat -> Evidence, captured: map<nat, Evidence>, n: nat)
    requires n <= |steps|
  {
    && (forall j: nat :: j in captured <==> j + 1 < n && Declares(steps, j))
    && (forall j: nat :: j in captured ==> captured[j] == boundary(j))
  }

  /** The steps that wait for a capture when step `k` opens. */
  function Pending(steps: seq<Step>, k: nat): seq<nat>
    requires k <= |steps|
  {
    if k > 0 && Declares(steps, k - 1) then [k - 1] else []
  }

  lemma NothingCaptured(steps: seq<Step>, boundary: nat -> Evidence)
    ensures Captured(steps, boundary, map[], 0)
  {
    hide Declares;
  }

  /** As step `k` opens, the state is captured for the steps that wait for it. */
  method CaptureOnOpening(steps: seq<Step>, boundary: nat -> Evidence, before: map<nat, Evidence>, k: nat,
                          pending: seq<nat>)
    returns (captured: map<nat, Evidence>)
    requires k < |steps| && Captured(steps, boundary, before, k)
    requires pending == Pending(steps, k)
    ensures Captured(steps, boundary, captured, k + 1)
  {
    hide Declares;
    captured := before;
    if pending != [] {
      captured := before + map j | j in pending :: boundary(k - 1);
    }
  }

  /** The loop of `run_journey` over the steps, with the action and the turn count at
      each boundary, and the state captured there. */
  method RunSteps(rules: Rules, steps: seq<Step>, env: Env, caps: Caps, usd: real)
    returns (run: (Run, seq<nat>), starts: seq<nat>, end: StepEnd, captured: map<nat, Evidence>)
    requires steps != []
    ensures !end.BudgetOut? ==> 0 < |run.1| <= |steps| + 1 && Captured(steps, env.boundary, captured, |run.1| - 1)
    ensures IsRun(steps, caps, env.actor, usd, Trace(run.0.actions, run.1, run.0.starved, starts), end)
    ensures starts != [] && run.0.turns == starts[|starts| - 1] && run.0.usd == usd + Spend(env.actor, 0, run.0.turns)
    ensures !end.BudgetOut? ==> |run.1| > 1 && Between(rules, steps, caps, run.0, run.1, |run.1| - 1)
    ensures WithinCaps(caps, env.actor, Run([], [], [], 0, 0, [], usd), run.0)
    ensures NeverAnswers(env.actor) ==> run.0.actions == []
  {
    hide GradeStep, StepReport, StepRan, StepTurns, StepWas, Pending, IsDecisive, Captured;
    var now := Run([], [], [], 0, 0, [], usd);
    var bounds: seq<nat> := [0];
    starts, end, captured := [0], Next, map[];
    var pending := Pending(steps, 0);
    NothingCaptured(steps, env.boundary);
    var k := 0;
    while k < |steps| && end.Next?
      invariant !end.BudgetOut? && (k == 0 ==> end.Next?) && |starts| == k + 1
      invariant Between(rules, steps, caps, now, bounds, k)
      invariant Followed(caps, env.actor, usd, now.actions, bounds, now.starved, starts, k, end)
      invariant now.turns == starts[k] && now.usd == usd + Spend(env.actor, 0, now.turns)
      invariant WithinCaps(caps, env.actor, Run([], [], [], 0, 0, [], usd), now)
      invariant NeverAnswers(env.actor) ==> now.actions == []
      invariant Captured(steps, env.boundary, captured, k)
      invariant end.Next? ==> pending == Pending(steps, k)
    {
      captured := CaptureOnOpening(steps, env.boundary, captured, k, pending);
      var after;
      after, end := RunStep(rules, steps[k], k, IsDecisive(steps, k), caps, env.actor, now);
      FollowOn(caps, env.actor, usd, now, bounds, starts, k, after, end);
      starts := starts + [after.turns];
      if end.BudgetOut? {
        return (after, bounds + [|after.actions|]), starts, end, captured;
      }
      pending := Pending(steps, k + 1);
      BetweenSteps(rules, steps, caps, now, bounds, k, after);
      now, bounds, k := after, bounds + [|after.actions|], k + 1;
    }
    run := (now, bounds);
  }

  /** The loop of `run_journey` over the decisive steps nobody entered. */
  method CreditUnentered(rules: Rules, steps: seq<Step>, trace: Trace) returns (g: StepGrade)
    requires 0 < |trace.bounds| <= |steps| + 1
    ensures g == UnenteredReports(rules, steps, trace, |steps|)
  {
    hide UnenteredReport;
    g := StepGrade([], []);
    for i := 0 to |steps|
      invariant g == UnenteredReports(rules, steps, trace, i)
    {
      var r := UnenteredReport(rules, steps, trace, i);
      g := StepGrade(g.candidates + r.candidates, g.credits + r.credits);
    }
  }

  /** A hook is declared on a step that is never graded. */
  method HasStray(steps: seq<Step>) returns (stray: bool)
    ensures stray <==> exists i :: 0 <= i < |steps| && IsStray(steps, i)
  {
    stray := false;
    for i := 0 to |steps|
      invariant stray <==> exists j :: 0 <= j < i && IsStray(steps, j)
    {
      stray := stray || IsStray(steps, i);
    }
  }

  /** The hook of one step, on the capture taken for it or else on the last one. */
  method GradeStateHook(rules: Rules, steps: seq<Step>, env: Env, trace: Trace, captured: map<nat, Evidence>, i: nat)
    returns (g: StepGrade)
    requires 0 < |trace.bounds| <= |steps| + 1 && i < |steps|
    requires Captured(steps, env.boundary, captured, |trace.bounds| - 1)
    ensures g == StateReport(rules, steps, env, trace, i)
  {
    hide IsUnreached, HookReport, IsDecisive;
    g := StepGrade([], []);
    if Declares(steps, i) && !IsUnreached(rules, steps, trace, i) {
      var evidence := if i in captured then captured[i] else env.final;
      g := HookReport(steps[i].state.value, evidence, i, trace.actions == []);
    }
  }

  /** `_grade_decisive_state_hooks`: one complaint about hooks on steps that are never
      graded, then every decisive step that declares one and was reached. */
  method GradeStateHooks(rules: Rules, steps: seq<Step>, env: Env, trace: Trace, captured: map<nat, Evidence>)
    returns (g: StepGrade)
    requires 0 < |trace.bounds| <= |steps| + 1
    requires Captured(steps, env.boundary, captured, |trace.bounds| - 1)
    ensures var state := StateReports(rules, steps, env, trace, |steps|);
            g == StepGrade(InfraIf(exists i :: 0 <= i < |steps| && IsStray(steps, i)) + state.candidates, state.credits)
  {
    hide StateReport, IsStray, InfraIf, Captured;
    var stray := HasStray(steps);
    g := StepGrade(InfraIf(stray), []);
    for i := 0 to |steps|
      invariant g == StepGrade(InfraIf(stray) + StateReports(rules, steps, env, trace, i).candidates,
                               StateReports(rules, steps, env, trace, i).credits)
    {
      var r := GradeStateHook(rules, steps, env, trace, captured, i);
      g := StepGrade(g.candidates + r.candidates, g.credits + r.credits);
    }
  }
}
