/** The verdict fold over finished journeys (`hack/dogfood/summarize_bundle.py`) and
    the degraded count with its exit code (`hack/dogfood/run_journeys.py`). */
module Summary {
  import opened Oracles
  import opened Journeys

  predicate Flips(c: Candidate) {
    match c.kind
    case Latency => false
    case Functional => c.decisive
    case _ => true
  }

  /** Nothing in the list flips a journey: there are only latency complaints, and
      failures of steps that are not decisive. */
  ghost predicate Clean(cs: seq<Candidate>) {
    forall c :: c in cs ==> c.kind == Latency || (c.kind == Functional && !c.decisive)
  }

  datatype Verdict = Positive | InfraFailed | UnreachedStep | Flipped

  predicate HasKind(cs: seq<Candidate>, k: Kind): (r: bool)
    ensures r <==> exists c :: c in cs && c.kind == k
  {
    exists i :: 0 <= i < |cs| && cs[i].kind == k
  }

  function FlipCount(cs: seq<Candidate>): (n: nat)
    ensures n <= |cs| && (n == 0 <==> Clean(cs))
  {
    if cs == [] then 0
    else
      var last := cs[|cs| - 1];
      assert cs == cs[..|cs| - 1] + [last];
      FlipCount(cs[..|cs| - 1]) + (if Flips(last) then 1 else 0)
  }

  /** The per-journey branch of `summarize`. A journey reads positive exactly when
      none of its candidates flips. */
  function VerdictOf(cs: seq<Candidate>): (v: Verdict)
    ensures v == Positive <==> Clean(cs)
    ensures v == InfraFailed <==> exists c :: c in cs && c.kind == Infra
    ensures v == UnreachedStep <==>
            && (exists c :: c in cs && c.kind == UnreachedDecisive)
            && (forall c :: c in cs ==> c.kind != Infra)
    ensures v == Flipped ==> FlipCount(cs) > 0
  {
    if HasKind(cs, Infra) then
      var i :| 0 <= i < |cs| && cs[i].kind == Infra;
      assert cs[i] in cs && Flips(cs[i]);
      InfraFailed
    else if HasKind(cs, UnreachedDecisive) then
      var i :| 0 <= i < |cs| && cs[i].kind == UnreachedDecisive;
      assert cs[i] in cs && Flips(cs[i]);
      UnreachedStep
    else if FlipCount(cs) > 0 then Flipped
    else Positive
  }

  /** `count_degraded`'s test: the journey measured nothing. */
  predicate Degraded(r: Result): (d: bool)
    ensures d <==> r.actions == [] || exists c :: c in r.candidates && c.kind == Infra
  {
    r.actions == [] || HasKind(r.candidates, Infra)
  }

  datatype Totals = Totals(
    journeys: nat,
    pos: nat,
    flip: nat,
    infra: nat,
    unreached: nat,
    soft: nat,
    flippedJourneys: nat)

  /** How many of the first `n` results have the verdict. */
  ghost function CountVerdict(rs: seq<Result>, n: nat, v: Verdict): nat
    requires n <= |rs|
  {
    if n == 0 then 0
    else CountVerdict(rs, n - 1, v) + (if VerdictOf(rs[n - 1].candidates) == v then 1 else 0)
  }

  /** How many of the first `n` results measured nothing: no action was recorded, or
      the infrastructure failed. */
  ghost function CountDegraded(rs: seq<Result>, n: nat): nat
    requires n <= |rs|
  {
    if n == 0 then 0
    else
      var r := rs[n - 1];
      CountDegraded(rs, n - 1)
      + (if r.actions == [] || exists c :: c in r.candidates && c.kind == Infra then 1 else 0)
  }

  /** All candidates of the first `n` results, and those that flip. */
  ghost function CountCandidates(rs: seq<Result>, n: nat): (nat, nat)
    requires n <= |rs|
  {
    if n == 0 then (0, 0)
    else
      var before := CountCandidates(rs, n - 1);
      (before.0 + |rs[n - 1].candidates|, before.1 + FlipCount(rs[n - 1].candidates))
  }

  /** The flipping candidates of the journeys that read as flipped. */
  ghost function CountFlips(rs: seq<Result>, n: nat): nat
    requires n <= |rs|
  {
    if n == 0 then 0
    else
      var cs := rs[n - 1].candidates;
      CountFlips(rs, n - 1) + (if VerdictOf(cs) == Flipped then FlipCount(cs) else 0)
  }

  /** The totals of `summarize`: every journey is counted under exactly one verdict,
      and every candidate is either soft or flipping. */
  method Summarize(results: seq<Result>) returns (tot: Totals)
    ensures tot.journeys == |results| == tot.pos + tot.infra + tot.unreached + tot.flippedJourneys
    ensures tot.pos == CountVerdict(results, |results|, Positive)
    ensures tot.infra == CountVerdict(results, |results|, InfraFailed)
    ensures tot.unreached == CountVerdict(results, |results|, UnreachedStep)
    ensures tot.flippedJourneys == CountVerdict(results, |results|, Flipped)
    ensures tot.flip == CountFlips(results, |results|)
    ensures tot.flippedJourneys <= tot.flip <= CountCandidates(results, |results|).1
    ensures tot.soft == CountCandidates(results, |results|).0 - CountCandidates(results, |results|).1
    ensures tot.pos == |results| ==> tot.flip == 0
  {
    hide VerdictOf, FlipCount;
    tot := Totals(0, 0, 0, 0, 0, 0, 0);
    for i := 0 to |results|
      invariant tot.journeys == i == tot.pos + tot.infra + tot.unreached + tot.flippedJourneys
      invariant tot.pos == CountVerdict(results, i, Positive)
      invariant tot.infra == CountVerdict(results, i, InfraFailed)
      invariant tot.unreached == CountVerdict(results, i, UnreachedStep)
      invariant tot.flippedJourneys == CountVerdict(results, i, Flipped)
      invariant tot.flip == CountFlips(results, i)
      invariant tot.flippedJourneys <= tot.flip <= CountCandidates(results, i).1
      invariant tot.flippedJourneys == 0 ==> tot.flip == 0
      invariant tot.soft == CountCandidates(results, i).0 - CountCandidates(results, i).1
    {
      var cs := results[i].candidates;
      tot := tot.(journeys := tot.journeys + 1, soft := tot.soft + |cs| - FlipCount(cs));
      match VerdictOf(cs) {
        case InfraFailed => tot := tot.(infra := tot.infra + 1);
        case UnreachedStep => tot := tot.(unreached := tot.unreached + 1);
        case Flipped =>
          tot := tot.(flip := tot.flip + FlipCount(cs), flippedJourneys := tot.flippedJourneys + 1);
        case Positive => tot := tot.(pos := tot.pos + 1);
      }
    }
  }
}
