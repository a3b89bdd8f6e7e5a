/** The serialized start/stop chain of the display tab
    (`app/src/components/DisplayTab.tsx`) against the backend registry, within one
    mount and for every interleaving of effects, cleanups and chain steps. */
module ProxyChain {
  import opened Basics
  import opened ProxyRegistry

  type Target = string

  /** One run of the embedding effect; `dropped` is its own flag. */
  datatype Effect = Effect(name: string, dropped: bool)

  datatype Op = Start(effect: nat) | Stop(effect: nat)

  /** `ops` is everything ever chained, `done` how much of it has run, `inFlight` that
      a start is waiting for the backend. `failedStops` is for the record. */
  datatype State = State(
    effects: seq<Effect>,
    ops: seq<Op>,
    done: nat,
    inFlight: bool,
    proxies: map<string, Proxy<Target, nat>>,
    proxyUrl: Option<nat>,
    failedStops: set<nat>)

  datatype Event =
    | RunEffect(name: string)
    | CleanUp
    | BeginStart
    | FinishStart(target: Option<Target>, bindable: Option<nat>)
    | FinishStop(ok: bool)
    | ProxyDies(name: string)

  const INITIAL: State := State([], [], 0, false, map[], None, {})

  /** The effect that has run and not been cleaned up. */
  predicate HasActive(s: State) {
    s.effects != [] && !s.effects[|s.effects| - 1].dropped
  }

  /** React cleans an effect up before it runs the next one. */
  function OnEffect(s: State, name: string): State {
    if HasActive(s) then s
    else s.(effects := s.effects + [Effect(name, false)], ops := s.ops + [Start(|s.effects|)])
  }

  function OnCleanUp(s: State): State {
    if !HasActive(s) then s
    else
      var e := |s.effects| - 1;
      s.(effects := s.effects[e := s.effects[e].(dropped := true)], proxyUrl := None, ops := s.ops + [Stop(e)])
  }

  predicate StartIsNext(s: State) {
    s.done < |s.ops| && s.ops[s.done].Start? && s.ops[s.done].effect < |s.effects|
  }

  /** The chain reaches a start: skip it if its effect is gone, else call the backend. */
  function OnBegin(s: State): State {
    if !StartIsNext(s) || s.inFlight then s
    else if s.effects[s.ops[s.done].effect].dropped then s.(done := s.done + 1)
    else s.(inFlight := true)
  }

  /** The backend answers: no target when the desktop cannot be resolved. */
  function OnStarted(s: State, target: Option<Target>, bindable: Option<nat>): State {
    if !StartIsNext(s) || !s.inFlight then s
    else
      var k := s.ops[s.done].effect;
      var e := s.effects[k];
      var after := s.(done := s.done + 1, inFlight := false);
      if target.None? then after
      else
        var (proxies, answer) := UrlSpec(s.proxies, e.name, target.value, bindable, k);
        after.(proxies := proxies,
               proxyUrl := if answer.Url? && !e.dropped then Some(answer.port) else s.proxyUrl)
  }

  function OnStopped(s: State, ok: bool): State {
    if s.done >= |s.ops| || !s.ops[s.done].Stop? || s.ops[s.done].effect >= |s.effects| then s
    else
      var k := s.ops[s.done].effect;
      if ok then s.(done := s.done + 1, proxies := s.proxies - {s.effects[k].name})
      else s.(done := s.done + 1, failedStops := s.failedStops + {k})
  }

  function OnDeath(s: State, name: string): State {
    if name in s.proxies then s.(proxies := s.proxies[name := s.proxies[name].(live := false)]) else s
  }

  function Next(s: State, e: Event): State {
    match e
    case RunEffect(name) => OnEffect(s, name)
    case CleanUp => OnCleanUp(s)
    case BeginStart => OnBegin(s)
    case FinishStart(target, bindable) => OnStarted(s, target, bindable)
    case FinishStop(ok) => OnStopped(s, ok)
    case ProxyDies(name) => OnDeath(s, name)
  }

  function Run(s: State, es: seq<Event>): State {
    if es == [] then s else Next(Run(s, es[..|es| - 1]), es[|es| - 1])
  }

  // ---- What every interleaving keeps ----

  /** Starts and stops alternate, effect by effect. */
  ghost predicate Alternates(s: State) {
    && |s.ops| == 2 * |s.effects| - (if HasActive(s) then 1 else 0)
    && (forall i :: 0 <= i < |s.ops| ==> i == 2 * s.ops[i].effect + (if s.ops[i].Stop? then 1 else 0))
    && (forall i :: 0 <= i < |s.effects| - 1 ==> s.effects[i].dropped)
  }

  /** A registered proxy belongs to an effect of that very sandbox whose start has run,
      and which is still running or whose stop failed. */
  ghost predicate Accounted(s: State, n: string)
    requires n in s.proxies
  {
    var o := s.proxies[n].owner;
    && o < |s.effects| && s.effects[o].name == n
    && 2 * o < s.done
    && (2 * o + 1 < s.done ==> o in s.failedStops)
  }

  /** The URL on screen is that of a registered proxy of the active effect's sandbox. */
  ghost predicate Framed(s: State) {
    s.proxyUrl.Some? ==>
      && HasActive(s) && s.done == |s.ops| && !s.inFlight
      && s.effects[|s.effects| - 1].name in s.proxies
      && s.proxies[s.effects[|s.effects| - 1].name].port == s.proxyUrl.value
  }

  ghost predicate Inv(s: State) {
    && Alternates(s)
    && s.done <= |s.ops| && (s.inFlight ==> StartIsNext(s))
    && (forall n :: n in s.proxies ==> Accounted(s, n))
    && Framed(s)
  }

  lemma NextKeeps(s: State, e: Event)
    requires Inv(s)
    ensures Inv(Next(s, e))
  {
    match e
    case RunEffect(name) => EffectKeeps(s, name);
    case CleanUp => CleanUpKeeps(s);
    case BeginStart => BeginKeeps(s);
    case FinishStart(target, bindable) => StartedKeeps(s, target, bindable);
    case FinishStop(ok) => StoppedKeeps(s, ok);
    case ProxyDies(name) => DeathKeeps(s, name);
  }

  lemma EffectKeeps(s: State, name: string)
    requires Inv(s)
    ensures Inv(OnEffect(s, name))
  {
    assert forall n :: n in s.proxies ==> Accounted(s, n);
  }

  lemma CleanUpKeeps(s: State)
    requires Inv(s)
    ensures Inv(OnCleanUp(s))
  {
    assert forall n :: n in s.proxies ==> Accounted(s, n);
  }

  lemma BeginKeeps(s: State)
    requires Inv(s)
    ensures Inv(OnBegin(s))
  {
    assert forall n :: n in s.proxies ==> Accounted(s, n);
  }

  lemma StartedKeeps(s: State, target: Option<Target>, bindable: Option<nat>)
    requires Inv(s)
    ensures Inv(OnStarted(s, target, bindable))
  {
    var s' := OnStarted(s, target, bindable);
    forall n | n in s'.proxies ensures Accounted(s', n) {
      assert n in s.proxies ==> Accounted(s, n);
    }
  }

  lemma StoppedKeeps(s: State, ok: bool)
    requires Inv(s)
    ensures Inv(OnStopped(s, ok))
  {
    var s' := OnStopped(s, ok);
    forall n | n in s'.proxies ensures Accounted(s', n) {
      assert Accounted(s, n);
    }
  }

  lemma DeathKeeps(s: State, name: string)
    requires Inv(s)
    ensures Inv(OnDeath(s, name))
  {
    var s' := OnDeath(s, name);
    forall n | n in s'.proxies ensures Accounted(s', n) {
      assert Accounted(s, n);
    }
  }

  lemma {:induction false} RunKeeps(es: seq<Event>)
    ensures Inv(Run(INITIAL, es))
  {
    hide Inv, Next;
    if es == [] {
      InitialHolds();
    } else {
      RunKeeps(es[..|es| - 1]);
      NextKeeps(Run(INITIAL, es[..|es| - 1]), es[|es| - 1]);
    }
  }

  lemma InitialHolds()
    ensures Inv(INITIAL)
  {
  }

  /** Once the chain has drained, every proxy left belongs to the active effect's
      sandbox, or to an effect whose stop failed. With no failed stop, none is left
      after unmount. */
  lemma DrainedRegistry(es: seq<Event>)
    requires var s := Run(INITIAL, es); s.done == |s.ops|
    ensures var s := Run(INITIAL, es);
            && (forall n :: n in s.proxies ==>
                  (HasActive(s) && n == s.effects[|s.effects| - 1].name) || s.proxies[n].owner in s.failedStops)
            && (!HasActive(s) && s.failedStops == {} ==> s.proxies == map[])
  {
    hide Run;
    RunKeeps(es);
    var s := Run(INITIAL, es);
    forall n | n in s.proxies
      ensures (HasActive(s) && n == s.effects[|s.effects| - 1].name) || s.proxies[n].owner in s.failedStops
    {
      assert Accounted(s, n);
    }
  }

  /** Whatever a stop removes was bound by its own effect or an earlier one: a stale
      stop never takes a later start's proxy away. */
  lemma StopNeverOvertakes(es: seq<Event>, ok: bool, n: string)
    requires var s := Run(INITIAL, es);
             s.done < |s.ops| && s.ops[s.done].Stop? && n in s.proxies && n !in Next(s, FinishStop(ok)).proxies
    ensures var s := Run(INITIAL, es); s.proxies[n].owner <= s.ops[s.done].effect
  {
    RunKeeps(es);
    assert Accounted(Run(INITIAL, es), n);
  }

  /** A frame is only ever shown for the active sandbox, on the port registered for it. */
  lemma FrameIsCurrent(es: seq<Event>)
    ensures Framed(Run(INITIAL, es))
  {
    RunKeeps(es);
  }

  /** The tab's refs and the backend it talks to. */
  class DisplayTab {
    var effects: seq<Effect>
    var ops: seq<Op>
    var done: nat
    var inFlight: bool
    var proxyUrl: Option<nat>
    const backend: Registry<Target, nat>
    ghost var failedStops: set<nat>

    ghost function View(): State
      reads this, backend
    {
      State(effects, ops, done, inFlight, backend.proxies, proxyUrl, failedStops)
    }

    constructor (registry: Registry<Target, nat>)
      requires registry.proxies == map[]
      ensures backend == registry && View() == INITIAL
    {
      effects, ops, done, inFlight, proxyUrl, failedStops := [], [], 0, false, None, {};
      backend := registry;
    }

    method RunEffect(name: string)
      requires !HasActive(View())
      modifies this
      ensures View() == OnEffect(old(View()), name)
    {
      ops := ops + [Start(|effects|)];
      effects := effects + [Effect(name, false)];
    }

    method CleanUp()
      requires HasActive(View())
      modifies this
      ensures View() == OnCleanUp(old(View()))
    {
      var e := |effects| - 1;
      effects := effects[e := effects[e].(dropped := true)];
      proxyUrl := None;
      ops := ops + [Stop(e)];
    }

    method BeginStart()
      requires StartIsNext(View()) && !inFlight
      modifies this
      ensures View() == OnBegin(old(View()))
    {
      if effects[ops[done].effect].dropped {
        done := done + 1;
      } else {
        inFlight := true;
      }
    }

    method FinishStart(target: Option<Target>, bindable: Option<nat>)
      requires StartIsNext(View()) && inFlight
      modifies this, backend
      ensures View() == OnStarted(old(View()), target, bindable)
    {
      var k := ops[done].effect;
      if target.Some? {
        var answer := backend.VncProxyUrl(effects[k].name, target.value, bindable, k);
        if answer.Url? && !effects[k].dropped {
          proxyUrl := Some(answer.port);
        }
      }
      done, inFlight := done + 1, false;
    }

    method FinishStop(ok: bool)
      requires done < |ops| && ops[done].Stop? && ops[done].effect < |effects|
      modifies this, backend
      ensures View() == OnStopped(old(View()), ok)
    {
      var k := ops[done].effect;
      if ok {
        backend.VncProxyStop(effects[k].name);
      } else {
        failedStops := failedStops + {k};
      }
      done := done + 1;
    }
  }

  // ---- The chain moves ----

  /** What each step does. An effect chains its start, and its cleanup takes the frame down
      and chains its stop. A start whose effect is gone binds nothing; any other asks the
      backend, and the answer is framed unless the effect is gone by then. A stop takes its
      sandbox's proxy down and touches no other. */
  lemma WhatStepsDo(s: State, e: Event)
    requires Inv(s)
    ensures var s' := Next(s, e);
            match e
            case RunEffect(name) =>
              if HasActive(s) then s' == s
              else HasActive(s') && s'.effects == s.effects + [Effect(name, false)]
                   && s'.ops == s.ops + [Start(|s.effects|)] && s'.done == s.done
            case CleanUp =>
              if HasActive(s) then !HasActive(s') && s'.proxyUrl.None? && s'.ops == s.ops + [Stop(|s.effects| - 1)]
              else s' == s
            case BeginStart =>
              StartIsNext(s) && !s.inFlight ==>
                && s'.proxies == s.proxies
                && if s.effects[s.ops[s.done].effect].dropped then s'.done == s.done + 1 && !s'.inFlight
                   else s'.done == s.done && s'.inFlight
            case FinishStart(target, bindable) =>
              StartIsNext(s) && s.inFlight ==>
                var effect := s.effects[s.ops[s.done].effect];
                var serving := target.Some? && effect.name in s.proxies && s.proxies[effect.name].live
                               && s.proxies[effect.name].target == target.value;
                && s'.done == s.done + 1 && !s'.inFlight
                && (target.Some? && (serving || bindable.Some?) ==>
                      && effect.name in s'.proxies && s'.proxies[effect.name].live
                      && s'.proxies[effect.name].target == target.value
                      && (!effect.dropped ==> s'.proxyUrl == Some(s'.proxies[effect.name].port))
                      && (effect.dropped ==> s'.proxyUrl == s.proxyUrl))
                && (target.None? || (!serving && bindable.None?) ==>
                      s'.proxies == s.proxies && s'.proxyUrl == s.proxyUrl)
            case FinishStop(ok) =>
              s.done < |s.ops| && s.ops[s.done].Stop? ==>
                && s'.done == s.done + 1 && s'.proxyUrl == s.proxyUrl
                && s'.proxies == if ok then s.proxies - {s.effects[s.ops[s.done].effect].name} else s.proxies
            case ProxyDies(name) =>
              && s' == s.(proxies := s'.proxies) && s'.proxies.Keys == s.proxies.Keys
              && forall n :: n in s.proxies ==>
                   s'.proxies[n] == if n == name then s.proxies[n].(live := false) else s.proxies[n]
  {
    hide Accounted, Framed;
  }

  /** The chain always drains: as long as something is chained, two steps at most finish
      its next operation, whatever the backend answers. */
  lemma ChainDrains(es: seq<Event>, target: Option<Target>, bindable: Option<nat>, ok: bool)
    requires var s := Run(INITIAL, es); s.done < |s.ops|
    ensures var s := Run(INITIAL, es);
            || Next(s, FinishStop(ok)).done == s.done + 1
            || Next(s, BeginStart).done == s.done + 1
            || Next(s, FinishStart(target, bindable)).done == s.done + 1
            || Next(Next(s, BeginStart), FinishStart(target, bindable)).done == s.done + 1
  {
    RunKeeps(es);
    hide Run, Accounted, Framed;
  }
}
