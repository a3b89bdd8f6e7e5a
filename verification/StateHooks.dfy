/** The `expect_state` hook: its vocabulary and validity (`hack/dogfood/state_hooks.py`),
    the oracle that grades it (`hack/dogfood/gui/gui_oracles.py`) and the fold of a
    verdict into candidates and credits. */
module StateHooks {
  import opened Basics
  import opened Oracles
  import opened Grading

  /** A decoded JSON value; Python's `bool` and `int` are kept apart. */
  datatype Json =
    | Null | Bool(b: bool) | Int(n: int) | Float(r: real) | Str(s: string)
    | Arr(items: seq<Json>) | Obj(fields: map<string, Json>)

  type Spec = map<string, Json>

  predicate Truthy(j: Json) {
    match j
    case Null => false
    case Bool(b) => b
    case Int(n) => n != 0
    case Float(r) => r != 0.0
    case Str(s) => s != ""
    case Arr(items) => items != []
    case Obj(fields) => fields != map[]
  }

  /** `d.get(k)`. */
  function Get(d: Spec, k: string): Json {
    if k in d then d[k] else Null
  }

  predicate NonEmptyStr(j: Json) {
    j.Str? && j.s != ""
  }

  // ---- Validity of the declared values ----

  predicate ValidVolume(v: Json) {
    && v.Obj?
    && Truthy(Get(v.fields, "name"))
    && ("exists" in v.fields || "attached_to" in v.fields)
  }

  predicate ValidPort(v: Json) {
    && v.Obj?
    && Get(v.fields, "host").Int?
    && ("exists" in v.fields || "persistent" in v.fields)
  }

  const Blanks: set<char> := {' ', '\t', '\n', '\r'}

  function DropLeading(s: string, cs: set<char>): string {
    if s != "" && s[0] in cs then DropLeading(s[1..], cs) else s
  }

  function DropTrailing(s: string, cs: set<char>): string {
    if s != "" && s[|s| - 1] in cs then DropTrailing(s[..|s| - 1], cs) else s
  }

  /** `is_wildcard_host(normalize_policy_host(host))`; lower-casing cannot matter. */
  predicate IsWildcardHost(host: string) {
    var h := DropTrailing(DropTrailing(DropLeading(host, Blanks), Blanks), {'.'});
    "*." <= h || "**." <= h
  }

  predicate ValidPolicyPort(host: Json, port: Json) {
    && port.Obj?
    && Get(port.fields, "number").Int?
    && Get(port.fields, "pinned").Bool?
    && !(Get(port.fields, "pinned").b && host.Str? && IsWildcardHost(host.s))
  }

  predicate ValidPolicy(v: Json) {
    && v.Obj?
    && var p := v.fields;
       var scoped := "present" in p || "access" in p || "port" in p;
       && (scoped || "enforcing" in p)
       && (scoped ==> NonEmptyStr(Get(p, "host")))
       && ("enforcing" in p ==> p["enforcing"].Bool?)
       && ("present" in p ==> p["present"].Bool?)
       && ("access" in p ==> p["access"] == Str("read") || p["access"] == Str("read-write"))
       && ("port" in p ==> ValidPolicyPort(Get(p, "host"), p["port"]))
  }

  predicate ValidSandboxesExact(v: Json) {
    v.Arr? && forall j :: j in v.items ==> NonEmptyStr(j)
  }

  const PerSandbox: set<string> := {"exists", "status", "volume", "port", "policy"}
  const AssertionKeys: set<string> := PerSandbox + {"sandboxes_exact"}

  /** One declared assertion can be graded. */
  ghost predicate WellFormed(key: string, v: Json) {
    && (key == "volume" ==> ValidVolume(v))
    && (key == "port" ==> ValidPort(v))
    && (key == "policy" ==> ValidPolicy(v))
    && (key == "sandboxes_exact" ==> ValidSandboxesExact(v))
  }

  /** The state half of `step_decisive_hooks`: the hook, or nothing when any part of
      what was declared could not be graded. */
  function DecisiveHook(declared: Json): (hook: Option<Spec>)
    ensures hook.Some? <==>
            && declared.Obj?
            && (exists k :: k in AssertionKeys && k in declared.fields)
            && (forall k :: k in AssertionKeys && k in declared.fields ==> WellFormed(k, declared.fields[k]))
            && ((exists k :: k in PerSandbox && k in declared.fields) ==> Truthy(Get(declared.fields, "sandbox")))
    ensures hook.Some? ==> hook.value == declared.fields
  {
    if !declared.Obj? then None
    else
      var d := declared.fields;
      var perSandbox := "exists" in d || "status" in d || "volume" in d || "port" in d || "policy" in d;
      assert perSandbox <==> exists k :: k in PerSandbox && k in d;
      assert (exists k :: k in AssertionKeys && k in d) <==> perSandbox || "sandboxes_exact" in d;
      if perSandbox && !Truthy(Get(d, "sandbox")) then None
      else if !perSandbox && "sandboxes_exact" !in d then None
      else if "volume" in d && !ValidVolume(d["volume"]) then assert !WellFormed("volume", d["volume"]); None
      else if "port" in d && !ValidPort(d["port"]) then assert !WellFormed("port", d["port"]); None
      else if "policy" in d && !ValidPolicy(d["policy"]) then assert !WellFormed("policy", d["policy"]); None
      else if "sandboxes_exact" in d && !ValidSandboxesExact(d["sandboxes_exact"]) then
        assert !WellFormed("sandboxes_exact", d["sandboxes_exact"]); None
      else Some(d)
  }

  // ---- The oracle ----

  /** What the volume, port or policy grader said of its own evidence. */
  datatype Sub = Sub(fails: bool, unknown: bool)

  /** A state capture. `status` is each sandbox's reconciled status. */
  datatype Evidence = Evidence(
    reconcileUsable: bool,
    sandboxes: set<string>,
    status: map<string, Json>,
    volume: Json -> Sub,
    port: (Json, Json) -> Sub,
    policy: (Json, Json) -> Sub)

  datatype Verdict = HookMatched | HookMismatch | HookNoEvidence

  predicate Present(spec: Spec, ev: Evidence) {
    var name := Get(spec, "sandbox");
    name.Str? && name.s in ev.sandboxes
  }

  predicate StatusIs(spec: Spec, ev: Evidence, want: Json) {
    var name := Get(spec, "sandbox");
    name.Str? && name.s in ev.status && ev.status[name.s] == want
  }

  function Names(items: seq<Json>): set<string> {
    set j | j in items && j.Str? :: j.s
  }

  /** The names a `sandboxes_exact` value comes to when it is iterated over: nothing for a
      falsy value, characters for a string; `None` where that raises. */
  function Wanted(v: Json): Option<set<string>> {
    if !Truthy(v) then Some({})
    else match v
      case Arr(items) => Some(Names(items))
      case Str(s) => Some(set c | c in s :: [c])
      case Obj(fields) => Some(fields.Keys)
      case _ => None
  }

  /** What the oracle looks at for one assertion key: did it fail, was it unverifiable. */
  function GradeKey(spec: Spec, ev: Evidence, key: string): Sub
    requires key in spec
  {
    var v := spec[key];
    var name := Get(spec, "sandbox");
    if key == "exists" then
      if !ev.reconcileUsable then Sub(false, true) else Sub(Truthy(v) != Present(spec, ev), false)
    else if key == "status" then
      if !ev.reconcileUsable then Sub(false, true) else Sub(!StatusIs(spec, ev, v), false)
    else if key == "volume" then
      if v.Obj? then ev.volume(v) else Sub(false, false)
    else if key == "port" then
      if !v.Obj? then Sub(false, false)
      else if !ev.reconcileUsable then Sub(false, true)
      else if !Present(spec, ev) then Sub(true, false)
      else ev.port(name, v)
    else if key == "policy" then
      if v.Obj? then ev.policy(name, v) else Sub(false, false)
    else if !ev.reconcileUsable then Sub(false, true)
    else Sub(Wanted(v) != Some(ev.sandboxes), false)
  }

  function ExpectStateOracle(spec: Spec, ev: Evidence): Verdict {
    if exists k :: k in AssertionKeys && k in spec && GradeKey(spec, ev, k).fails then HookMismatch
    else if exists k :: k in AssertionKeys && k in spec && GradeKey(spec, ev, k).unknown then HookNoEvidence
    else HookMatched
  }

  /** The assertion really holds of evidence that was really observed. */
  ghost predicate Holds(spec: Spec, ev: Evidence, key: string)
    requires key in spec
  {
    var v := spec[key];
    var name := Get(spec, "sandbox");
    match key
    case "exists" => ev.reconcileUsable && (Truthy(v) <==> name.Str? && name.s in ev.sandboxes)
    case "status" => ev.reconcileUsable && name.Str? && name.s in ev.status && ev.status[name.s] == v
    case "volume" => ValidVolume(v) && ev.volume(v) == Sub(false, false)
    case "port" =>
      && ValidPort(v) && ev.reconcileUsable && name.Str? && name.s in ev.sandboxes
      && ev.port(name, v) == Sub(false, false)
    case "policy" => ValidPolicy(v) && ev.policy(name, v) == Sub(false, false)
    case _ => ValidSandboxesExact(v) && ev.reconcileUsable && ev.sandboxes == set j | j in v.items :: StrOf(j)
  }

  function StrOf(j: Json): string {
    if j.Str? then j.s else ""
  }

  /** The assertion does not hold, and the evidence to say so was there. */
  ghost predicate SeenToDiffer(spec: Spec, ev: Evidence, key: string)
    requires key in spec
  {
    match key
    case "volume" => ev.volume(spec[key]).fails
    case "policy" => ev.policy(Get(spec, "sandbox"), spec[key]).fails
    case "port" => ev.reconcileUsable && (Present(spec, ev) ==> ev.port(Get(spec, "sandbox"), spec[key]).fails)
    case _ => ev.reconcileUsable && !Holds(spec, ev, key)
  }

  ghost predicate Differs(declared: Json, ev: Evidence)
    requires declared.Obj?
  {
    exists k :: k in AssertionKeys && k in declared.fields && SeenToDiffer(declared.fields, ev, k)
  }

  /** Every assertion the author wrote down was checked, and held. */
  ghost predicate StateHolds(declared: Json, ev: Evidence) {
    && declared.Obj?
    && (exists k :: k in AssertionKeys && k in declared.fields)
    && forall k :: k in AssertionKeys && k in declared.fields ==> Holds(declared.fields, ev, k)
  }

  /** Grading through the normalizer drops nothing: a hook is credited exactly when
      it is gradable and every assertion declared in it holds of usable evidence. */
  lemma MatchedMeansEveryAssertionHeld(declared: Json, ev: Evidence)
    ensures var hook := DecisiveHook(declared);
            && (hook.Some? && ExpectStateOracle(hook.value, ev) == HookMatched
                <==> StateHolds(declared, ev) && hook.Some?)
            && (hook.Some? ==> (ExpectStateOracle(hook.value, ev) == HookMismatch <==> Differs(declared, ev)))
  {
    hide ValidVolume, ValidPort, ValidPolicy, Truthy, Holds, SeenToDiffer, GradeKey;
    var hook := DecisiveHook(declared);
    if hook.Some? {
      forall k | k in AssertionKeys && k in hook.value
        ensures Holds(hook.value, ev, k) <==> GradeKey(hook.value, ev, k) == Sub(false, false)
        ensures SeenToDiffer(hook.value, ev, k) <==> GradeKey(hook.value, ev, k).fails
      {
        AssertionHeld(hook.value, ev, k);
      }
    }
  }

  lemma AssertionHeld(d: Spec, ev: Evidence, k: string)
    requires k in AssertionKeys && k in d && WellFormed(k, d[k])
    ensures Holds(d, ev, k) <==> GradeKey(d, ev, k) == Sub(false, false)
    ensures SeenToDiffer(d, ev, k) <==> GradeKey(d, ev, k).fails
  {
    if k == "sandboxes_exact" {
      WantedNames(d[k].items);
    }
  }

  lemma WantedNames(items: seq<Json>)
    requires forall j :: j in items ==> NonEmptyStr(j)
    ensures Wanted(Arr(items)) == Some(set j | j in items :: StrOf(j))
  {
    var all := set j | j in items :: StrOf(j);
    forall s ensures s in Names(items) <==> s in all {
      if s in Names(items) {
        var j :| j in items && j.Str? && j.s == s;
        assert StrOf(j) in all;
      }
    }
    assert Names(items) == all;
    assert items == [] ==> all == {};
  }

  /** The oracle alone would not do: it skips a half-formed value in silence, which
      is why the normalizer must stand in front of it. */
  lemma OracleAloneSkipsHalfFormed(ev: Evidence)
    requires ev.reconcileUsable && "web" in ev.sandboxes
    ensures exists spec: Spec ::
              && "volume" in spec && !ValidVolume(spec["volume"])
              && ExpectStateOracle(spec, ev) == HookMatched
              && DecisiveHook(Obj(spec)).None?
  {
    var spec: Spec := map["sandbox" := Str("web"), "exists" := Bool(true), "volume" := Str("data")];
    assert Present(spec, ev);
    forall k | k in AssertionKeys && k in spec ensures GradeKey(spec, ev, k) == Sub(false, false) {
      assert k in {"exists", "volume"};
    }
    assert "volume" in AssertionKeys && !WellFormed("volume", spec["volume"]);
    assert DecisiveHook(Obj(spec)).None?;
  }

  // ---- The fold ----

  /** `apply_hook_verdict`: what the verdict on step `i` appends to the journey. */
  function ApplyHookVerdict(verdict: Verdict, i: nat): (g: StepGrade)
    ensures g.candidates == [] <==> verdict == HookMatched
    ensures g.credits != [] ==> g.credits == [Matched(i)] && g.candidates == []
    ensures g.candidates == [] ==> g.credits == [Matched(i)]
    ensures verdict == HookNoEvidence ==> |g.candidates| == 1 && g.candidates[0].kind == Infra
    ensures verdict == HookMismatch ==>
              |g.candidates| == 1 && g.candidates[0].kind == Functional && g.candidates[0].decisive
  {
    match verdict
    case HookMatched => StepGrade([], [Matched(i)])
    case HookNoEvidence => StepGrade([Candidate(Infra, false, -1, "")], [])
    case HookMismatch => StepGrade([Candidate(Functional, true, -1, "")], [])
  }

  /** The body of the loop in `_grade_decisive_state_hooks` for one declaring step. */
  function HookReport(declared: Json, ev: Evidence, i: nat, zeroActions: bool): (g: StepGrade)
    ensures g.candidates == [] <==> DecisiveHook(declared).Some? && StateHolds(declared, ev)
    ensures g.credits == if g.candidates == [] then [Matched(i)] else []
    ensures forall c :: c in g.candidates ==> c.kind != Latency && (c.kind == Functional ==> c.decisive)
    // A hook that cannot be graded, or fails where nothing ran, was not reached; missing
    // evidence is the runner's failure; only what was seen to differ is the product's.
    ensures var hook := DecisiveHook(declared);
            && (hook.None? ==> |g.candidates| == 1 && g.candidates[0].kind == UnreachedDecisive)
            && (hook.Some? && Differs(declared, ev) ==>
                  |g.candidates| == 1 && g.candidates[0].kind == if zeroActions then UnreachedDecisive else Functional)
            && (hook.Some? && !Differs(declared, ev) && !StateHolds(declared, ev) ==>
                  |g.candidates| == 1 && g.candidates[0].kind == Infra)
  {
    MatchedMeansEveryAssertionHeld(declared, ev);
    match DecisiveHook(declared)
    case None => StepGrade([Unreached(false)], [])
    case Some(spec) =>
      var verdict := ExpectStateOracle(spec, ev);
      if zeroActions && verdict == HookMismatch then StepGrade([Unreached(false)], [])
      else ApplyHookVerdict(verdict, i)
  }
}
