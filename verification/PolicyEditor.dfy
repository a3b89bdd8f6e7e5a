/** The egress-policy editor (`app/src/components/PolicyEditor.tsx`) under every order
    of sandbox switches, late answers, edits and saves. */
module PolicyEditor {
  import opened Basics
  import opened PolicyRows

  datatype Load = Loading | Ready | LoadFailed

  /** One run of the loading effect; `alive` falls at its cleanup. */
  datatype Fetch = Fetch(name: string, alive: bool)

  datatype SavedPolicy = SavedPolicy(name: string, allow: seq<AllowEntry>, git: seq<GitRule>)

  /** What is committed on screen (`name` to `git`), the loading effects so far and, for
      the record, every policy written. */
  datatype State = State(
    name: string,
    shownName: string,
    load: Load,
    hosts: seq<Row>,
    git: seq<GitRow>,
    fetches: seq<Fetch>,
    saves: seq<SavedPolicy>)

  function Initial(name: string): State {
    State(name, name, Loading, [], [], [], [])
  }

  datatype Event =
    | ChangeName(name: string)
    | FlushEffects
    | Answer(fetch: nat, policy: Policy)
    | AnswerFails(fetch: nat)
    | EditHosts(hostEdit: HostEdit)
    | EditGit(gitEdit: GitEdit)
    | Save

  /** A render with another name: back to "unknown" in the same commit. */
  function OnName(s: State, name: string): State {
    if s.name == name then s else s.(name := name, shownName := name, load := Loading)
  }

  /** Passive effects run some time later: the last one is cleaned up, a new one asks. */
  function OnFlush(s: State): State {
    var n := |s.fetches|;
    if n > 0 && s.fetches[n - 1].name == s.name then s
    else
      var dropped := if n > 0 then s.fetches[n - 1 := s.fetches[n - 1].(alive := false)] else s.fetches;
      s.(fetches := dropped + [Fetch(s.name, true)])
  }

  /** An answer is painted if its question is alive and about the sandbox shown. */
  predicate Paints(s: State, i: nat) {
    i < |s.fetches| && s.fetches[i].alive && s.shownName == s.fetches[i].name
  }

  function OnAnswer(s: State, i: nat, p: Policy): State {
    if Paints(s, i) then s.(hosts := LoadedHosts(p), git := LoadedGit(p), load := Ready) else s
  }

  function OnFailure(s: State, i: nat): State {
    if Paints(s, i) then s.(load := LoadFailed) else s
  }

  function OnHostEdit(s: State, e: HostEdit): State {
    s.(hosts := ApplyHost(s.hosts, e))
  }

  function OnGitEdit(s: State, e: GitEdit): State {
    s.(git := ApplyGit(s.git, e))
  }

  function OnSave(s: State): State {
    if !s.load.Ready? || !AllPatternsOk(s.hosts) then s
    else s.(saves := s.saves + [SavedPolicy(s.name, AllowPayload(s.hosts), GitPayload(s.git))])
  }

  function Next(s: State, e: Event): State {
    match e
    case ChangeName(name) => OnName(s, name)
    case FlushEffects => OnFlush(s)
    case Answer(i, p) => OnAnswer(s, i, p)
    case AnswerFails(i) => OnFailure(s, i)
    case EditHosts(he) => OnHostEdit(s, he)
    case EditGit(ge) => OnGitEdit(s, ge)
    case Save => OnSave(s)
  }

  function Run(s: State, es: seq<Event>): State {
    if es == [] then s else Next(Run(s, es[..|es| - 1]), es[|es| - 1])
  }

  // ---- Where the rows of a save come from ----

  /** The edits among the events, in order. */
  function HostEditsOf(es: seq<Event>): seq<HostEdit> {
    if es == [] then []
    else
      var e := es[|es| - 1];
      HostEditsOf(es[..|es| - 1]) + if e.EditHosts? then [e.hostEdit] else []
  }

  function GitEditsOf(es: seq<Event>): seq<GitEdit> {
    if es == [] then []
    else
      var e := es[|es| - 1];
      GitEditsOf(es[..|es| - 1]) + if e.EditGit? then [e.gitEdit] else []
  }

  /** Event `k` of the run is an answer that was painted. */
  ghost predicate PaintedAt(name: string, es: seq<Event>, k: nat) {
    k < |es| && es[k].Answer? && Paints(Run(Initial(name), es[..k]), es[k].fetch)
  }

  /** It is the last one before event `j`. */
  ghost predicate LastPainted(name: string, es: seq<Event>, k: nat, j: nat) {
    k < j <= |es| && PaintedAt(name, es, k) && forall m: nat :: k < m < j ==> !PaintedAt(name, es, m)
  }

  /** The rows on screen before event `j` are those of the answer at `k`, and every edit
      made since, in order. */
  ghost predicate RowsFrom(name: string, es: seq<Event>, k: nat, j: nat)
    requires k < j <= |es| && es[k].Answer?
  {
    var s, p := Run(Initial(name), es[..j]), es[k].policy;
    && s.hosts == ApplyHosts(LoadedHosts(p), HostEditsOf(es[k + 1..j]))
    && s.git == ApplyGits(LoadedGit(p), GitEditsOf(es[k + 1..j]))
  }

  /** The sandbox asked about at `k` has been the one shown ever since. */
  ghost predicate ShownSince(name: string, es: seq<Event>, k: nat, j: nat)
    requires k < j <= |es| && es[k].Answer?
  {
    forall m: nat :: k <= m <= j ==> Asked(name, es, k) == Some(Run(Initial(name), es[..m]).name)
  }

  /** The sandbox the answer at `k` is about. */
  ghost function Asked(name: string, es: seq<Event>, k: nat): Option<string>
    requires k < |es| && es[k].Answer?
  {
    var fetches := Run(Initial(name), es[..k]).fetches;
    if es[k].fetch < |fetches| then Some(fetches[es[k].fetch].name) else None
  }

  /** A policy written by event `j`: for the sandbox that the last painted answer was
      about, which has been on screen ever since; with exactly the rows of that answer
      after the edits made since; and opening no passthrough that answer did not open. */
  ghost predicate Legitimate(name: string, es: seq<Event>, j: nat, k: nat, w: SavedPolicy) {
    && j < |es| && es[j].Save? && LastPainted(name, es, k, j)
    && Asked(name, es, k) == Some(w.name) && ShownSince(name, es, k, j)
    && w.allow == AllowPayload(ApplyHosts(LoadedHosts(es[k].policy), HostEditsOf(es[k + 1..j])))
    && w.git == GitPayload(ApplyGits(LoadedGit(es[k].policy), GitEditsOf(es[k + 1..j])))
    && forall host, port :: Opens(w.allow, host, port) ==> Opens(es[k].policy.allow, host, port)
  }

  /** Whatever holds up to event `j` does not depend on what comes after it. */
  lemma PrefixSees(name: string, es: seq<Event>, e: Event, k: nat, j: nat)
    requires k < j <= |es|
    ensures PaintedAt(name, es + [e], k) == PaintedAt(name, es, k)
    ensures LastPainted(name, es + [e], k, j) == LastPainted(name, es, k, j)
    ensures es[k].Answer? ==> Asked(name, es + [e], k) == Asked(name, es, k)
    ensures es[k].Answer? ==> RowsFrom(name, es + [e], k, j) == RowsFrom(name, es, k, j)
    ensures es[k].Answer? ==> ShownSince(name, es + [e], k, j) == ShownSince(name, es, k, j)
  {
    hide Run, Paints, ApplyHosts, ApplyGits, LoadedHosts, LoadedGit, HostEditsOf, GitEditsOf;
    var more := es + [e];
    assert forall m: nat :: m <= |es| ==> more[..m] == es[..m];
    assert more[k + 1..j] == es[k + 1..j];
    assert forall m: nat :: m < |es| ==> PaintedAt(name, more, m) == PaintedAt(name, es, m);
  }

  lemma RunSnoc(s: State, es: seq<Event>, e: Event)
    ensures Run(s, es + [e]) == Next(Run(s, es), e)
  {
    assert (es + [e])[..|es|] == es;
  }

  /** The rows change by edits and painted answers only, and a policy that may be saved
      was painted for the sandbox still shown. */
  lemma StepFacts(s: State, e: Event)
    requires s.shownName == s.name && !(e.Answer? && Paints(s, e.fetch))
    ensures var s' := Next(s, e);
            && s'.shownName == s'.name
            && s'.hosts == (if e.EditHosts? then ApplyHost(s.hosts, e.hostEdit) else s.hosts)
            && s'.git == (if e.EditGit? then ApplyGit(s.git, e.gitEdit) else s.git)
            && (s'.load.Ready? ==> s.load.Ready? && s'.name == s.name)
  {
    hide ApplyHost, ApplyGit, AllowPayload, GitPayload, AllPatternsOk, Paints;
  }

  /** Over every run: the rows on screen are those of the last painted answer and the
      edits since; and while they may be saved, its sandbox has been shown all along. */
  lemma {:induction false} Provenance(name: string, es: seq<Event>) returns (k: nat)
    ensures Run(Initial(name), es).shownName == Run(Initial(name), es).name
    ensures if exists m: nat :: PaintedAt(name, es, m) then
              && LastPainted(name, es, k, |es|) && RowsFrom(name, es, k, |es|)
              && (Run(Initial(name), es).load.Ready? ==> ShownSince(name, es, k, |es|))
            else !Run(Initial(name), es).load.Ready?
  {
    k := 0;
    if es != [] {
      hide Run, PaintedAt, RowsFrom, ShownSince, Asked;
      var init, e := es[..|es| - 1], es[|es| - 1];
      assert es == init + [e];
      k := Provenance(name, init);
      RunSnoc(Initial(name), init, e);
      if PaintedAt(name, es, |init|) {
        k := |init|;
        PaintsAnew(name, init, e);
      } else {
        PaintedBefore(name, init, e);
        if exists m: nat :: PaintedAt(name, es, m) {
          StaysPainted(name, init, e, k);
        } else {
          NotPainting(name, init, e);
        }
      }
    }
  }

  lemma PaintedBefore(name: string, init: seq<Event>, e: Event)
    ensures forall m: nat :: m != |init| ==> (PaintedAt(name, init + [e], m) <==> PaintedAt(name, init, m))
  {
    hide Run, Paints;
    assert forall m: nat :: m < |init| ==> (init + [e])[..m] == init[..m];
  }

  lemma NotPainting(name: string, init: seq<Event>, e: Event)
    requires var s := Run(Initial(name), init); s.shownName == s.name
    requires !PaintedAt(name, init + [e], |init|)
    ensures var s := Run(Initial(name), init); !(e.Answer? && Paints(s, e.fetch))
    ensures var s, s' := Run(Initial(name), init), Run(Initial(name), init + [e]);
            s'.shownName == s'.name && (s'.load.Ready? ==> s.load.Ready? && s'.name == s.name)
  {
    hide Run, Paints, Next;
    assert (init + [e])[..|init|] == init;
    RunSnoc(Initial(name), init, e);
    StepFacts(Run(Initial(name), init), e);
  }

  lemma PaintsAnew(name: string, init: seq<Event>, e: Event)
    requires var s := Run(Initial(name), init); s.shownName == s.name
    requires PaintedAt(name, init + [e], |init|)
    ensures var es, k := init + [e], |init|;
            && Run(Initial(name), es).shownName == Run(Initial(name), es).name
            && LastPainted(name, es, k, |es|) && RowsFrom(name, es, k, |es|) && ShownSince(name, es, k, |es|)
  {
    hide LoadedHosts, LoadedGit, Run;
    var es := init + [e];
    assert es[..|init|] == init && es[..|es|] == es && es[|init| + 1..|es|] == [];
    RunSnoc(Initial(name), init, e);
  }

  lemma StaysPainted(name: string, init: seq<Event>, e: Event, k: nat)
    requires var s := Run(Initial(name), init);
             && s.shownName == s.name && LastPainted(name, init, k, |init|) && RowsFrom(name, init, k, |init|)
             && (s.load.Ready? ==> ShownSince(name, init, k, |init|))
    requires !PaintedAt(name, init + [e], |init|)
    ensures var es := init + [e];
            && Run(Initial(name), es).shownName == Run(Initial(name), es).name
            && LastPainted(name, es, k, |es|) && RowsFrom(name, es, k, |es|)
            && (Run(Initial(name), es).load.Ready? ==> ShownSince(name, es, k, |es|))
  {
    hide Run, Paints, RowsFrom, ShownSince, Asked;
    PrefixSees(name, init, e, k, |init|);
    NotPainting(name, init, e);
    RowsFollow(name, init, e, k);
    if Run(Initial(name), init + [e]).load.Ready? {
      ShownOn(name, init, e, k);
    }
  }

  lemma RowsFollow(name: string, init: seq<Event>, e: Event, k: nat)
    requires k < |init| && init[k].Answer? && RowsFrom(name, init + [e], k, |init|)
    requires var s := Run(Initial(name), init); s.shownName == s.name && !(e.Answer? && Paints(s, e.fetch))
    ensures RowsFrom(name, init + [e], k, |init| + 1)
  {
    hide LoadedHosts, LoadedGit, ApplyHost, ApplyGit, ApplyHosts, ApplyGits, HostEditsOf, GitEditsOf, Run, Next, Paints;
    var es := init + [e];
    assert es[..|init|] == init && es[..|init| + 1] == es;
    RunSnoc(Initial(name), init, e);
    StepFacts(Run(Initial(name), init), e);
    assert es[k + 1..|init| + 1] == es[k + 1..|init|] + [e];
    EditsSnoc(LoadedHosts(es[k].policy), LoadedGit(es[k].policy), es[k + 1..|init|], e);
  }

  lemma EditsSnoc(hosts: seq<Row>, git: seq<GitRow>, es: seq<Event>, e: Event)
    ensures var rows := ApplyHosts(hosts, HostEditsOf(es));
            ApplyHosts(hosts, HostEditsOf(es + [e])) == if e.EditHosts? then ApplyHost(rows, e.hostEdit) else rows
    ensures var rows := ApplyGits(git, GitEditsOf(es));
            ApplyGits(git, GitEditsOf(es + [e])) == if e.EditGit? then ApplyGit(rows, e.gitEdit) else rows
  {
    hide ApplyHost, ApplyGit;
    var hes, ges := HostEditsOf(es), GitEditsOf(es);
    assert (es + [e])[..|es|] == es;
    if e.EditHosts? {
      assert (hes + [e.hostEdit])[..|hes|] == hes;
    } else {
      assert hes + [] == hes;
    }
    if e.EditGit? {
      assert (ges + [e.gitEdit])[..|ges|] == ges;
    } else {
      assert ges + [] == ges;
    }
  }

  lemma ShownOn(name: string, init: seq<Event>, e: Event, k: nat)
    requires k < |init| && init[k].Answer? && ShownSince(name, init + [e], k, |init|)
    requires Run(Initial(name), init + [e]).name == Run(Initial(name), init).name
    ensures ShownSince(name, init + [e], k, |init| + 1)
  {
    hide Run, Asked;
    var es := init + [e];
    assert es[..|init|] == init && es[..|init| + 1] == es;
    forall m: nat | k <= m <= |init| + 1 ensures Asked(name, es, k) == Some(Run(Initial(name), es[..m]).name) {
      assert Asked(name, es, k) == Some(Run(Initial(name), es[..|init|]).name);
    }
  }

  /** Over every run: whatever the order of switches, late or failed answers, effect
      flushes, edits and saves, every policy that was written is legitimate, and was
      written by the event that made it the `i`-th. */
  lemma {:induction false} EverySaveIsLegitimate(name: string, es: seq<Event>, i: nat) returns (j: nat, k: nat)
    requires i < |Run(Initial(name), es).saves|
    ensures Legitimate(name, es, j, k, Run(Initial(name), es).saves[i])
    ensures Run(Initial(name), es[..j]).saves == Run(Initial(name), es).saves[..i]
    ensures Run(Initial(name), es[..j + 1]).saves == Run(Initial(name), es).saves[..i + 1]
  {
    NoSavesYet(name);
    hide Run, Legitimate, AllowPayload, GitPayload, Next, Initial;
    var init, e := es[..|es| - 1], es[|es| - 1];
    assert es == init + [e];
    var s, s' := Run(Initial(name), init), Run(Initial(name), es);
    RunSnoc(Initial(name), init, e);
    SavesGrow(s, e);
    if i < |s.saves| {
      j, k := EverySaveIsLegitimate(name, init, i);
      StillLegitimate(name, init, e, j, k, s.saves[i]);
      JustPrefix(name, init, e, i, j);
    } else {
      j := |init|;
      assert es[..j] == init && es[..j + 1] == es;
      k := NewSaveIsLegitimate(name, init);
    }
  }

  lemma NoSavesYet(name: string)
    ensures Run(Initial(name), []).saves == []
  {
  }

  lemma NewSaveIsLegitimate(name: string, init: seq<Event>) returns (k: nat)
    requires Run(Initial(name), init).load.Ready?
    ensures var s := Run(Initial(name), init);
            Legitimate(name, init + [Save], |init|, k, SavedPolicy(s.name, AllowPayload(s.hosts), GitPayload(s.git)))
  {
    hide Run, Legitimate, LastPainted, RowsFrom, ShownSince, PaintedAt, AllowPayload, GitPayload, Initial;
    k := Provenance(name, init);
    SaveIsLegitimate(name, init, k);
  }

  lemma SavesGrow(s: State, e: Event)
    ensures var s' := Next(s, e);
            || s'.saves == s.saves
            || (e.Save? && s.load.Ready?
                && s'.saves == s.saves + [SavedPolicy(s.name, AllowPayload(s.hosts), GitPayload(s.git))])
  {
    hide AllowPayload, GitPayload, AllPatternsOk;
  }

  lemma JustPrefix(name: string, init: seq<Event>, e: Event, i: nat, j: nat)
    requires j < |init| && i < |Run(Initial(name), init).saves|
    requires Run(Initial(name), init).saves <= Run(Initial(name), init + [e]).saves
    ensures (init + [e])[..j] == init[..j] && (init + [e])[..j + 1] == init[..j + 1]
    ensures Run(Initial(name), init + [e]).saves[..i] == Run(Initial(name), init).saves[..i]
    ensures Run(Initial(name), init + [e]).saves[..i + 1] == Run(Initial(name), init).saves[..i + 1]
  {
    hide Run;
  }

  lemma StillLegitimate(name: string, init: seq<Event>, e: Event, j: nat, k: nat, w: SavedPolicy)
    requires Legitimate(name, init, j, k, w)
    ensures Legitimate(name, init + [e], j, k, w) && j < |init|
  {
    hide Run, LoadedHosts, LoadedGit, ApplyHosts, ApplyGits, AllowPayload, GitPayload, HostEditsOf, GitEditsOf,
         Paints, ShownSince, Asked, Opens;
    PrefixSees(name, init, e, k, j);
    assert (init + [e])[k + 1..j] == init[k + 1..j];
  }

  /** A save that is let through is legitimate. */
  lemma SaveIsLegitimate(name: string, init: seq<Event>, k: nat)
    requires LastPainted(name, init, k, |init|) && RowsFrom(name, init, k, |init|) && ShownSince(name, init, k, |init|)
    ensures var s := Run(Initial(name), init);
            Legitimate(name, init + [Save], |init|, k, SavedPolicy(s.name, AllowPayload(s.hosts), GitPayload(s.git)))
  {
    hide LoadedHosts, LoadedGit, ApplyHosts, ApplyGits, AllowPayload, GitPayload, HostEditsOf, GitEditsOf, Opens, Run;
    var es, s := init + [Save], Run(Initial(name), init);
    PrefixSees(name, init, Save, k, |init|);
    assert init[..|init|] == init && es[..|init|] == init && es[k + 1..|init|] == init[k + 1..|init|];
    var edits := HostEditsOf(es[k + 1..|init|]);
    forall host, port | Opens(AllowPayload(s.hosts), host, port) ensures Opens(es[k].policy.allow, host, port) {
      PassthroughsNeverSpread(es[k].policy, edits, host, port);
    }
  }

  // ---- A policy that can be loaded can be saved ----

  /** Of all questions asked so far the last one is alive, and no other. */
  ghost predicate LastIsAlive(s: State) {
    && s.shownName == s.name
    && forall i :: 0 <= i < |s.fetches| ==> (s.fetches[i].alive <==> i == |s.fetches| - 1)
  }

  lemma {:induction false} Asking(name: string, es: seq<Event>)
    ensures LastIsAlive(Run(Initial(name), es))
  {
    if es != [] {
      hide Run;
      var init, e := es[..|es| - 1], es[|es| - 1];
      assert es == init + [e];
      Asking(name, init);
      RunSnoc(Initial(name), init, e);
      AskingStep(Run(Initial(name), init), e);
    }
  }

  lemma AskingStep(s: State, e: Event)
    requires LastIsAlive(s)
    ensures LastIsAlive(Next(s, e))
  {
    hide AllowPayload, GitPayload, ApplyHost, ApplyGit, LoadedHosts, LoadedGit, AllPatternsOk;
  }

  /** An answer changes the screen exactly when it is to the last question and that is about
      the sandbox shown: the answer to an earlier question about the same sandbox is dropped. */
  lemma OnlyTheLastAnswerPaints(name: string, es: seq<Event>, i: nat)
    ensures var s := Run(Initial(name), es);
            Paints(s, i) <==> i + 1 == |s.fetches| && s.fetches[i].name == s.name
  {
    hide Run;
    Asking(name, es);
  }

  /** What becomes of the screen: a failure to answer shows as one and leaves the rows, an
      answer replaces them, and another sandbox is loading at once. */
  lemma WhatAnswersDo(name: string, es: seq<Event>, i: nat, p: Policy, other: string)
    ensures var s := Run(Initial(name), es);
            var last := i + 1 == |s.fetches| && s.fetches[i].name == s.name;
            && Next(s, Answer(i, p)) == (if last then s.(hosts := LoadedHosts(p), git := LoadedGit(p), load := Ready)
                                         else s)
            && Next(s, AnswerFails(i)) == (if last then s.(load := LoadFailed) else s)
            && (other != s.name ==>
                  Next(s, ChangeName(other)).name == other && Next(s, ChangeName(other)).load == Loading)
  {
    hide Run, LoadedHosts, LoadedGit, Paints;
    OnlyTheLastAnswerPaints(name, es, i);
  }

  /** Whatever happened before: once the pending effects have run, the answer to the last
      question is painted, and a save then writes that policy for the sandbox shown,
      unless a host in it is bad. */
  lemma LoadedCanBeSaved(name: string, es: seq<Event>, p: Policy)
    ensures var s, s' := Run(Initial(name), es), Run(Initial(name), es + [FlushEffects]);
            var asked := es + [FlushEffects, Answer(|s'.fetches| - 1, p)];
            && s'.fetches != [] && s'.fetches[|s'.fetches| - 1].name == s.name
            && Run(Initial(name), asked).load == Ready
            && Run(Initial(name), asked).hosts == LoadedHosts(p) && Run(Initial(name), asked).git == LoadedGit(p)
            && (AllPatternsOk(LoadedHosts(p)) ==>
                  Run(Initial(name), asked + [Save]).saves
                  == s.saves + [SavedPolicy(s.name, AllowPayload(LoadedHosts(p)), GitPayload(LoadedGit(p)))])
  {
    hide Run, AllowPayload, GitPayload, LoadedHosts, LoadedGit, AllPatternsOk, Initial;
    var s, flushed := Run(Initial(name), es), es + [FlushEffects];
    Asking(name, es);
    Asking(name, flushed);
    RunSnoc(Initial(name), es, FlushEffects);
    var answer := Answer(|Run(Initial(name), flushed).fetches| - 1, p);
    assert flushed + [answer] == es + [FlushEffects, answer];
    RunSnoc(Initial(name), flushed, answer);
    RunSnoc(Initial(name), flushed + [answer], Save);
  }

  /** The component itself. */
  class Editor {
    var name: string
    var shownName: string
    var load: Load
    var hosts: seq<Row>
    var gitRows: seq<GitRow>
    var fetches: seq<Fetch>
    ghost var saves: seq<SavedPolicy>

    ghost function View(): State
      reads this
    {
      State(name, shownName, load, hosts, gitRows, fetches, saves)
    }

    constructor (n: string)
      ensures View() == Initial(n)
    {
      name, shownName, load := n, n, Loading;
      hosts, gitRows, fetches := [], [], [];
      saves := [];
    }

    method Render(n: string)
      modifies this
      ensures View() == OnName(old(View()), n)
    {
      if name != n {
        name := n;
        shownName := n;
        load := Loading;
      }
    }

    method Flush()
      modifies this
      ensures View() == OnFlush(old(View()))
    {
      var n := |fetches|;
      if n == 0 || fetches[n - 1].name != name {
        if n > 0 {
          fetches := fetches[n - 1 := fetches[n - 1].(alive := false)];
        }
        fetches := fetches + [Fetch(name, true)];
      }
    }

    method Answered(i: nat, p: Policy)
      modifies this
      ensures View() == OnAnswer(old(View()), i, p)
    {
      if i < |fetches| && fetches[i].alive && shownName == fetches[i].name {
        hosts := LoadedHosts(p);
        gitRows := LoadedGit(p);
        load := Ready;
      }
    }

    method AnswerFailed(i: nat)
      modifies this
      ensures View() == OnFailure(old(View()), i)
    {
      if i < |fetches| && fetches[i].alive && shownName == fetches[i].name {
        load := LoadFailed;
      }
    }

    method EditHost(e: HostEdit)
      modifies this
      ensures View() == OnHostEdit(old(View()), e)
    {
      hosts := ApplyHost(hosts, e);
    }

    method EditGitRow(e: GitEdit)
      modifies this
      ensures View() == OnGitEdit(old(View()), e)
    {
      gitRows := ApplyGit(gitRows, e);
    }

    /** `save`: the call it makes, if it is not refused. */
    method SavePolicy() returns (sent: Option<SavedPolicy>)
      modifies this
      ensures View() == OnSave(old(View()))
      // Exactly when the policy was loaded and no row has a bad host; a row without one is no matter.
      ensures sent.Some? <==>
              old(load).Ready?
              && forall r :: r in old(hosts) ==> JsTrim(r.host) == "" || !BadHostPattern(JsTrim(r.host))
      ensures sent.Some? ==> sent.value.name == old(name) && saves == old(saves) + [sent.value]
      ensures sent.None? ==> saves == old(saves)
    {
      sent := None;
      if load.Ready? {
        for i := 0 to |hosts|
          invariant View() == old(View()) && sent.None?
          invariant forall j :: 0 <= j < i ==>
                      JsTrim(hosts[j].host) == "" || !BadHostPattern(JsTrim(hosts[j].host))
        {
          var h := JsTrim(hosts[i].host);
          if h != "" && BadHostPattern(h) {
            assert hosts[i] in hosts;
            return;
          }
        }
        sent := Some(SavedPolicy(name, AllowPayload(hosts), GitPayload(gitRows)));
        saves := saves + [sent.value];
      }
    }
  }
}
