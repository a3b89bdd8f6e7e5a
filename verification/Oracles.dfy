/** The exit-code and output oracles that grade one shell action of a dogfood
    journey (`hack/dogfood/oracles.py`, and the stream hooks of
    `hack/dogfood/run_journeys.py`).

    Regular expressions are values of type `string -> bool`: only the way their
    answers are combined is modelled. */
module Oracles {

  /** What a step declares as `expect_exit`. `Malformed` is any present value that
      is neither "nonzero" nor an integer (a boolean, a list, another string). */
  datatype ExpectExit = NoExit | Nonzero | Code(code: int) | Malformed

  /** A declared pattern. `NoRegex` covers an absent, empty or non-string value,
      `BadRegex` one that does not compile. */
  datatype Regex = NoRegex | BadRegex | Regex(matches: string -> bool)

  /** The fixed patterns of the runner. */
  datatype Rules = Rules(
    refusalProse: string -> bool,
    trivialFallback: string -> bool,
    echoStatusTail: string -> bool,
    shellNotFound: string -> bool,
    productCmd: string -> bool,
    creditCmd: string -> bool)

  datatype Kind =
    | Functional | MaskedProbe | UnverifiableRefusal | Infra | UnreachedDecisive
    | Latency | Implicit | ReconcileSeq | ReconcileViolation | GuestConsole

  /** A finding. `at` is the action it points at, -1 for none. */
  datatype Candidate = Candidate(kind: Kind, decisive: bool, at: int, gradedCmd: string)

  /** One recorded shell action. `findings` is what the always-on oracles (crash
      markers, latency, reconciler, seed survival) reported right after it. */
  datatype Action = Action(
    command: string,
    exitCode: int,
    stdoutTail: string,
    stderrTail: string,
    reconcileError: bool,
    findings: seq<Candidate>)

  /** The assertions of a step that are graded on an action. */
  datatype Assertions = Assertions(
    prose: string,
    expectExit: ExpectExit,
    stdoutRe: Regex,
    stderrRe: Regex)

  predicate DeclaresExit(s: Assertions) {
    s.expectExit.Nonzero? || s.expectExit.Code?
  }

  /** `step_expects_nonzero`: declarative only, prose never counts. */
  predicate ExpectsNonzero(s: Assertions): (r: bool)
    ensures r <==> match s.expectExit case Nonzero => true case Code(n) => n != 0 case _ => false
  {
    s.expectExit.Nonzero? || (s.expectExit.Code? && s.expectExit.code != 0)
  }

  predicate ShellNeverRan(rules: Rules, a: Action) {
    a.exitCode == 127 && rules.shellNotFound(a.stderrTail)
  }

  // ---- What a graded exit status has to mean, stated without the oracle ----

  /** The exit code is the one the step asked for. */
  ghost predicate ExitAsExpected(rules: Rules, s: Assertions, a: Action) {
    match s.expectExit
    case Nonzero => a.exitCode != 0
    case Code(n) => a.exitCode == n
    case _ =>
      s.prose == "" || (rules.refusalProse(s.prose) <==> a.exitCode != 0)
  }

  /** The exit code can be believed: no trailing `echo $?` owns it, a refusal was
      not merely a missing binary, and prose success does not hide behind `|| true`. */
  ghost predicate ExitIsEvidence(rules: Rules, s: Assertions, a: Action) {
    && (DeclaresExit(s) || s.prose != "" ==> !rules.echoStatusTail(a.command))
    && (s.expectExit.Nonzero? || (s.expectExit.NoExit? && s.prose != "" && rules.refusalProse(s.prose))
        ==> !ShellNeverRan(rules, a))
    && (!DeclaresExit(s) && s.prose != "" && !rules.refusalProse(s.prose)
        ==> !rules.trivialFallback(a.command))
  }

  /** A trailing `echo $?` owns the status that the step asserts something about. */
  ghost predicate StatusIsEchoed(rules: Rules, s: Assertions, a: Action) {
    (DeclaresExit(s) || s.prose != "") && rules.echoStatusTail(a.command)
  }

  /** A refusal was expected, and the shell did not find the command. */
  ghost predicate RefusalIsMissing(rules: Rules, s: Assertions, a: Action) {
    && (s.expectExit.Nonzero? || (s.expectExit.NoExit? && s.prose != "" && rules.refusalProse(s.prose)))
    && ShellNeverRan(rules, a)
  }

  /** A success expected in prose, and reported, hides behind a trivial fallback. */
  ghost predicate SuccessIsMasked(rules: Rules, s: Assertions, a: Action) {
    && !DeclaresExit(s) && s.prose != "" && !rules.refusalProse(s.prose)
    && a.exitCode == 0 && rules.trivialFallback(a.command)
  }

  ghost predicate StreamHolds(re: Regex, tail: string) {
    re.NoRegex? || (re.Regex? && re.matches(tail))
  }

  /** Every assertion of the step holds of this action, and verifiably so. */
  ghost predicate Satisfies(rules: Rules, s: Assertions, a: Action) {
    && ExitAsExpected(rules, s, a)
    && ExitIsEvidence(rules, s, a)
    && StreamHolds(s.stdoutRe, a.stdoutTail)
    && StreamHolds(s.stderrRe, a.stderrTail)
  }

  // ---- The oracles ----

  function FunctionalOracle(rules: Rules, s: Assertions, a: Action): (found: seq<Kind>)
    ensures found == [] <==> ExitAsExpected(rules, s, a) && ExitIsEvidence(rules, s, a)
    ensures |found| <= 1
    ensures forall k :: k in found ==> k in {Functional, MaskedProbe, UnverifiableRefusal}
    // A wrong exit code is only ever reported as such when nothing else explains it.
    ensures Functional in found ==> !ExitAsExpected(rules, s, a)
    ensures MaskedProbe in found || UnverifiableRefusal in found ==> !ExitIsEvidence(rules, s, a)
    ensures MaskedProbe in found <==> StatusIsEchoed(rules, s, a) || SuccessIsMasked(rules, s, a)
    ensures UnverifiableRefusal in found <==> !StatusIsEchoed(rules, s, a) && RefusalIsMissing(rules, s, a)
  {
    var expectsRefusal := s.expectExit.Nonzero?
                          || (s.expectExit.NoExit? && s.prose != "" && rules.refusalProse(s.prose));
    if (DeclaresExit(s) || s.prose != "") && rules.echoStatusTail(a.command) then [MaskedProbe]
    else if expectsRefusal && ShellNeverRan(rules, a) then [UnverifiableRefusal]
    else if s.expectExit.Nonzero? then (if a.exitCode == 0 then [Functional] else [])
    else if s.expectExit.Code? then (if a.exitCode != s.expectExit.code then [Functional] else [])
    else if s.prose == "" then []
    else if rules.refusalProse(s.prose) then (if a.exitCode == 0 then [Functional] else [])
    else if a.exitCode == 0 && rules.trivialFallback(a.command) then [MaskedProbe]
    else if a.exitCode != 0 then [Functional]
    else []
  }

  function StreamOracle(re: Regex, tail: string): (found: seq<Kind>)
    ensures found == [] <==> StreamHolds(re, tail)
    ensures Infra in found <==> re.BadRegex?
    ensures forall k :: k in found ==> k in {Functional, Infra}
  {
    match re
    case NoRegex => []
    case BadRegex => [Infra]
    case Regex(matches) => if matches(tail) then [] else [Functional]
  }

  lemma KindsOf(kinds: seq<Kind>, graded: seq<Candidate>)
    requires |graded| == |kinds| && forall i :: 0 <= i < |kinds| ==> graded[i].kind == kinds[i]
    ensures forall k :: (exists c :: c in graded && c.kind == k) <==> k in kinds
  {
    forall k | k in kinds ensures exists c :: c in graded && c.kind == k {
      var i :| 0 <= i < |kinds| && kinds[i] == k;
      assert graded[i] in graded;
    }
  }

  /** `_grade_target`: the functional and the stream verdicts on the action at `i`. */
  function GradeTarget(rules: Rules, s: Assertions, actions: seq<Action>, i: nat, decisive: bool)
    : (graded: seq<Candidate>)
    requires i < |actions|
    ensures graded == [] <==> Satisfies(rules, s, actions[i])
    ensures forall c :: c in graded ==>
              c.decisive == decisive && c.at == i && c.gradedCmd == actions[i].command
              && c.kind in {Functional, MaskedProbe, UnverifiableRefusal, Infra}
  {
    var a := actions[i];
    var kinds := FunctionalOracle(rules, s, a)
                 + StreamOracle(s.stdoutRe, a.stdoutTail)
                 + StreamOracle(s.stderrRe, a.stderrTail);
    seq(|kinds|, k requires 0 <= k < |kinds| => Candidate(kinds[k], decisive, i, a.command))
  }

  /** Every verdict on the action is reported, and nothing else: the exit code as what it
      is, a pattern that is no pattern as `Infra`, one that does not match as `Functional`. */
  lemma EveryVerdictIsReported(rules: Rules, s: Assertions, actions: seq<Action>, i: nat, decisive: bool, k: Kind)
    requires i < |actions|
    ensures (exists c :: c in GradeTarget(rules, s, actions, i, decisive) && c.kind == k) <==>
            var a := actions[i];
            || k in FunctionalOracle(rules, s, a)
            || (k == Infra && (s.stdoutRe.BadRegex? || s.stderrRe.BadRegex?))
            || (k == Functional && s.stdoutRe.Regex? && !s.stdoutRe.matches(a.stdoutTail))
            || (k == Functional && s.stderrRe.Regex? && !s.stderrRe.matches(a.stderrTail))
  {
    hide FunctionalOracle;
    var a := actions[i];
    var x, y, z := FunctionalOracle(rules, s, a), StreamOracle(s.stdoutRe, a.stdoutTail),
                   StreamOracle(s.stderrRe, a.stderrTail);
    KindsOf(x + y + z, GradeTarget(rules, s, actions, i, decisive));
    assert k in x + y + z <==> k in x || k in y || k in z;
  }

  // ---- Where the documented promise and the oracle part ----

  /** A refusal must not be scored from a command the shell never found. Of an
      action that is exactly that (and is not masked by `echo $?`), the oracle
      passes precisely these steps. The first two assert nothing the missing binary
      contradicts; the third is the gap: a malformed `expect_exit` leaves the prose
      in charge of the verdict but not of the guard. */
  lemma MissingBinaryPasses(rules: Rules, s: Assertions, a: Action)
    requires ShellNeverRan(rules, a) && !rules.echoStatusTail(a.command)
    ensures FunctionalOracle(rules, s, a) == [] <==>
            || s.expectExit == Code(127)
            || (!DeclaresExit(s) && s.prose == "")
            || (s.expectExit.Malformed? && s.prose != "" && rules.refusalProse(s.prose))
  {
  }

  /** A success hidden behind `|| true` must not be credited. Of an action that
      exits 0 that way the oracle passes exactly the steps that assert nothing, and
      those that declare `expect_exit: 0`: the mask is consulted on prose only. */
  lemma MaskedSuccessPasses(rules: Rules, s: Assertions, a: Action)
    requires a.exitCode == 0 && rules.trivialFallback(a.command) && !rules.echoStatusTail(a.command)
    ensures FunctionalOracle(rules, s, a) == [] <==>
            s.expectExit == Code(0) || (!DeclaresExit(s) && s.prose == "")
  {
  }

  /** Concrete inputs for the two gaps above. */
  lemma MissingBinaryGapIsReal()
    ensures exists rules: Rules, s: Assertions, a: Action ::
              && rules.refusalProse(s.prose) && ShellNeverRan(rules, a)
              && FunctionalOracle(rules, s, a) == []
  {
    var no: string -> bool := (x: string) => false;
    var yes: string -> bool := (x: string) => true;
    var rules := Rules(yes, yes, no, yes, no, no);
    var refusal := Assertions("the daemon refuses a foreign user", Malformed, NoRegex, NoRegex);
    var missing := Action("sudo -u nobody izba ls", 127, "", "sudo: izba: command not found", false, []);
    assert rules.refusalProse(refusal.prose) && ShellNeverRan(rules, missing);
    assert FunctionalOracle(rules, refusal, missing) == [];
  }

  lemma MaskedSuccessGapIsReal()
    ensures exists rules: Rules, s: Assertions, a: Action ::
              && s.expectExit == Code(0) && a.exitCode == 0 && rules.trivialFallback(a.command)
              && FunctionalOracle(rules, s, a) == []
  {
    var no: string -> bool := (x: string) => false;
    var yes: string -> bool := (x: string) => true;
    var rules := Rules(yes, yes, no, yes, no, no);
    var exact := Assertions("", Code(0), NoRegex, NoRegex);
    var masked := Action("test -f /data/hello.txt || true", 0, "", "", false, []);
    assert rules.trivialFallback(masked.command);
    assert FunctionalOracle(rules, exact, masked) == [];
  }
}
