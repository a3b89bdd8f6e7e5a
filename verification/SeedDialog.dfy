/** The seed dialog as a consent surface (`app/src/components/SeedDialog.tsx`): a
    reviewed snapshot, ticks and access choices under polls and refreshes. */
module SeedDialog {
  import opened Basics
  import opened PolicyRows
  import opened SeedCandidates

  datatype SeedEntry = HttpEntry(host: string, port: nat, access: Access) | GitEntry(target: string, access: Access)

  /** `reviewed` is for the record: the access the user was shown when the row entered
      the review, or chose since. */
  datatype State = State(
    live: seq<Candidate>,
    snapshot: seq<Candidate>,
    checked: set<string>,
    access: map<string, Access>,
    reviewed: map<string, Access>,
    submitted: seq<seq<SeedEntry>>)

  datatype Event =
    | Poll(live: seq<Candidate>)
    | Toggle(key: string)
    | SelectAll
    | DeselectAll
    | Pick(key: string, access: Access)
    | Refresh
    | Submit

  function Keys(cs: seq<Candidate>): set<string> {
    set c | c in cs :: c.key
  }

  function SelectableKeys(cs: seq<Candidate>): set<string> {
    set c | c in cs && !c.disabled :: c.key
  }

  /** What `buildCandidates` delivers: one row per key, each the candidate of a target;
      a repository has a name. */
  ghost predicate ValidList(cs: seq<Candidate>) {
    && (forall i, j :: 0 <= i < j < |cs| ==> cs[i].key != cs[j].key)
    && forall c :: c in cs ==> exists t, a, d, access :: t != GitTarget("") && c == Make(t, a, d, access)
  }

  lemma SeedListIsValid(rows: seq<EndpointRow>, policy: Policy, cs: seq<Candidate>)
    requires IsSeedList(rows, policy, cs)
    ensures ValidList(cs)
  {
    hide Less, TargetOf, Make, Folded;
    forall i, j | 0 <= i < j < |cs| ensures cs[i].key != cs[j].key {
      LessIrreflexive(cs[i].key);
    }
    forall c | c in cs ensures exists t, a, d, access :: t != GitTarget("") && c == Make(t, a, d, access) {
      var t :| Seen(rows, policy, t) && c == Folded(rows, policy, t);
      RepoHasName(rows, policy, t);
      assert c == Make(t, c.allowCount, c.denyCount, c.defaultAccess) by {
        FoldedFields(rows, policy, t);
      }
    }
  }

  lemma RepoHasName(rows: seq<EndpointRow>, policy: Policy, t: Target)
    requires Seen(rows, policy, t)
    ensures t != GitTarget("")
  {
    hide GitOpFromPath, GitCovered, AllowKeys, UpTo, EndsWith, DropSlashes, DropSuffix;
  }

  lemma FoldedFields(rows: seq<EndpointRow>, policy: Policy, t: Target)
    ensures var c := Folded(rows, policy, t); c == Make(t, c.allowCount, c.denyCount, c.defaultAccess)
  {
  }

  /** The row with that key. */
  function RowOf(cs: seq<Candidate>, key: string): (c: Candidate)
    requires key in Keys(cs)
    ensures c in cs && c.key == key
  {
    if cs[0].key == key then cs[0]
    else
      assert key in Keys(cs[1..]) by {
        var c :| c in cs && c.key == key;
        assert c in cs[1..];
      }
      RowOf(cs[1..], key)
  }

  /** The access a row would be submitted with. */
  function Effective(s: State, key: string): Access
    requires key in Keys(s.snapshot)
  {
    if key in s.access then s.access[key] else RowOf(s.snapshot, key).defaultAccess
  }

  function EntryOf(c: Candidate, access: Access): SeedEntry {
    if c.kind.Git? && c.gitTarget.Some? && c.gitTarget.value != "" then GitEntry(c.gitTarget.value, access)
    else HttpEntry(if c.host.Some? then c.host.value else "", if c.port.Some? then c.port.value else 0, access)
  }

  /** The ticked selectable rows, in list order, as they are sent. */
  function Entries(cs: seq<Candidate>, checked: set<string>, access: map<string, Access>): (es: seq<SeedEntry>)
    ensures forall e :: e in es <==> exists c :: c in cs && !c.disabled && c.key in checked
                                       && e == EntryOf(c, if c.key in access then access[c.key] else c.defaultAccess)
  {
    if cs == [] then []
    else
      var before := Entries(cs[..|cs| - 1], checked, access);
      var c := cs[|cs| - 1];
      assert cs == cs[..|cs| - 1] + [c];
      if c.disabled || c.key !in checked then before
      else before + [EntryOf(c, if c.key in access then access[c.key] else c.defaultAccess)]
  }

  // ---- Events; a control exists only for a selectable row of the snapshot ----

  function Initial(live: seq<Candidate>): State {
    State(live, live, {}, map[], map k | k in Keys(live) :: RowOf(live, k).defaultAccess, [])
  }

  function OnToggle(s: State, key: string): State {
    if key !in SelectableKeys(s.snapshot) then s
    else s.(checked := if key in s.checked then s.checked - {key} else s.checked + {key})
  }

  function OnPick(s: State, key: string, access: Access): State {
    if key !in SelectableKeys(s.snapshot) then s
    else s.(access := s.access[key := access], reviewed := s.reviewed[key := access])
  }

  /** The access overrides after a refresh: pruned to the new list, and a surviving
      row whose suggestion changed keeps the one that was reviewed. */
  function RefreshedAccess(s: State): map<string, Access> {
    map k | k in Keys(s.live)
            && (k in s.access
                || (k in Keys(s.snapshot) && RowOf(s.live, k).defaultAccess != RowOf(s.snapshot, k).defaultAccess))
         :: if k in s.access then s.access[k] else RowOf(s.snapshot, k).defaultAccess
  }

  function OnRefresh(s: State): State {
    s.(snapshot := s.live,
       checked := s.checked * Keys(s.live),
       access := RefreshedAccess(s),
       reviewed := map k | k in Keys(s.live)
                     :: if k in s.reviewed then s.reviewed[k] else RowOf(s.live, k).defaultAccess)
  }

  /** The button is dead while nothing is selected. */
  function OnSubmit(s: State): State {
    var entries := Entries(s.snapshot, s.checked, s.access);
    if entries == [] then s else s.(submitted := s.submitted + [entries])
  }

  function Next(s: State, e: Event): State {
    match e
    case Poll(live) => s.(live := live)
    case Toggle(key) => OnToggle(s, key)
    case SelectAll => s.(checked := SelectableKeys(s.snapshot))
    case DeselectAll => s.(checked := {})
    case Pick(key, access) => OnPick(s, key, access)
    case Refresh => OnRefresh(s)
    case Submit => OnSubmit(s)
  }

  function Run(s: State, es: seq<Event>): State {
    if es == [] then s else Next(Run(s, es[..|es| - 1]), es[|es| - 1])
  }

  // ---- What every run keeps ----

  /** The entry is about the repository, or the host and the port, of a ticked row of the
      review, with the access that the review last showed for it. */
  ghost predicate Consented(s: State, e: SeedEntry) {
    exists t: Target ::
      && KeyOf(t) in SelectableKeys(s.snapshot) && KeyOf(t) in s.checked && KeyOf(t) in s.reviewed
      && Grants(e, t, s.reviewed[KeyOf(t)])
  }

  ghost predicate Grants(e: SeedEntry, t: Target, access: Access) {
    match t
    case GitTarget(repo) => e == GitEntry(repo, access)
    case HttpTarget(host, port) => e == HttpEntry(host, port, access)
    case RawTarget(_, _) => false
  }

  /** What a row is sent as. */
  lemma EntryIsGrant(t: Target, a: nat, d: nat, suggested: Access, access: Access)
    requires t != GitTarget("") && !t.RawTarget?
    ensures Grants(EntryOf(Make(t, a, d, suggested), access), t, access)
  {
    hide KeyOf, HostPort;
  }

  ghost predicate Inv(s: State) {
    && ValidList(s.live) && ValidList(s.snapshot)
    && s.checked <= SelectableKeys(s.snapshot)
    && s.access.Keys <= Keys(s.snapshot)
    && s.reviewed.Keys == Keys(s.snapshot)
    && forall k :: k in Keys(s.snapshot) ==> Effective(s, k) == s.reviewed[k]
  }

  lemma TargetFor(cs: seq<Candidate>, c: Candidate) returns (t: Target)
    requires ValidList(cs) && c in cs
    ensures c.key == KeyOf(t) && (c.disabled <==> t.RawTarget?)
    ensures !c.disabled ==> forall access :: Grants(EntryOf(c, access), t, access)
  {
    hide KeyOf, EntryOf, Grants;
    var u, x, y, z :| u != GitTarget("") && c == Make(u, x, y, z);
    t := u;
    if !c.disabled {
      forall access ensures Grants(EntryOf(c, access), t, access) {
        EntryIsGrant(u, x, y, z, access);
      }
    }
  }

  /** A selectable key stays selectable: the key says what kind of row it is. */
  lemma SelectableByKey(a: seq<Candidate>, b: seq<Candidate>, key: string)
    requires ValidList(a) && ValidList(b) && key in SelectableKeys(a) && key in Keys(b)
    ensures key in SelectableKeys(b)
  {
    var c :| c in a && !c.disabled && c.key == key;
    var d :| d in b && d.key == key;
    hide KeyOf, Make;
    var t := TargetFor(a, c);
    var u := TargetFor(b, d);
    KeyInjective(t, u);
  }

  lemma NextKeeps(s: State, e: Event)
    requires Inv(s) && (e.Poll? ==> ValidList(e.live))
    ensures Inv(Next(s, e))
  {
    hide ValidList, EntryOf, RowOf, Entries;
    assert SelectableKeys(s.snapshot) <= Keys(s.snapshot);
    if e.Refresh? {
      var s' := Next(s, e);
      forall k | k in s'.checked ensures k in SelectableKeys(s'.snapshot) {
        SelectableByKey(s.snapshot, s.live, k);
      }
    }
  }

  lemma {:induction false} RunKeeps(s: State, es: seq<Event>)
    requires Inv(s) && forall i :: 0 <= i < |es| && es[i].Poll? ==> ValidList(es[i].live)
    ensures Inv(Run(s, es))
  {
    hide Inv, ValidList;
    if es != [] {
      RunKeeps(s, es[..|es| - 1]);
      NextKeeps(Run(s, es[..|es| - 1]), es[|es| - 1]);
    }
  }

  lemma InitialHolds(live: seq<Candidate>)
    requires ValidList(live)
    ensures Inv(Initial(live))
  {
  }

  /** One event. The access of a surviving row changes only by a pick on it, its tick
      only by a control that ticks; a row that enters the review, be it for the first
      time or again, is unticked, without override, and as suggested. */
  lemma ConsentIsStable(s: State, e: Event, key: string)
    requires Inv(s) && (e.Poll? ==> ValidList(e.live)) && key in Keys(Next(s, e).snapshot)
    ensures var s' := Next(s, e);
            && (key in Keys(s.snapshot) && !(e.Pick? && e.key == key) ==> Effective(s', key) == Effective(s, key))
            && (key in Keys(s.snapshot) && !(e.Toggle? && e.key == key) && !e.SelectAll? && !e.DeselectAll?
                ==> (key in s'.checked <==> key in s.checked))
            && (key !in Keys(s.snapshot) ==>
                  && key !in s'.checked && key !in s'.access
                  && Effective(s', key) == RowOf(s'.snapshot, key).defaultAccess)
  {
    hide ValidList, RowOf, Entries, Keys, SelectableKeys;
    NextKeeps(s, e);
    SelectableAreKeys(s.snapshot);
  }

  lemma SelectableAreKeys(cs: seq<Candidate>)
    ensures SelectableKeys(cs) <= Keys(cs)
  {
  }

  /** What each control does: a tick flips one row, a pick gives one row the access that
      was picked, the two buttons tick every selectable row or none, a refresh shows the
      live list, and a poll changes nothing that is under review. */
  lemma WhatControlsDo(s: State, e: Event)
    requires Inv(s)
    ensures var s' := Next(s, e);
            match e
            case Poll(live) => s'.live == live && s' == s.(live := live)
            case Toggle(key) =>
              && s' == s.(checked := s'.checked)
              && forall k :: k in s'.checked <==>
                   if k == key && k in SelectableKeys(s.snapshot) then k !in s.checked else k in s.checked
            case SelectAll =>
              s' == s.(checked := s'.checked)
              && forall k :: k in s'.checked <==> exists c :: c in s.snapshot && !c.disabled && c.key == k
            case DeselectAll => s' == s.(checked := {})
            case Pick(key, access) =>
              && s'.snapshot == s.snapshot && s'.checked == s.checked && s'.submitted == s.submitted
              && forall k :: k in Keys(s.snapshot) ==>
                   Effective(s', k) == if k == key && k in SelectableKeys(s.snapshot) then access else Effective(s, k)
            case Refresh => s'.snapshot == s.live == s'.live && s'.submitted == s.submitted
            case Submit => s' == s.(submitted := s'.submitted)
  {
    hide ValidList, RowOf, Entries;
    assert SelectableKeys(s.snapshot) <= Keys(s.snapshot);
  }

  lemma {:induction false} NothingTicked(cs: seq<Candidate>, access: map<string, Access>)
    ensures Entries(cs, {}, access) == []
  {
    if cs != [] {
      NothingTicked(cs[..|cs| - 1], access);
    }
  }

  /** The button sends something exactly when a row is ticked. */
  lemma TickedIsSent(s: State)
    requires Inv(s)
    ensures Next(s, Submit).submitted != s.submitted <==> s.checked != {}
    ensures s.checked != {} ==>
              Next(s, Submit).submitted == s.submitted + [Entries(s.snapshot, s.checked, s.access)]
  {
    hide ValidList, EntryOf, Effective;
    var entries := Entries(s.snapshot, s.checked, s.access);
    if s.checked == {} {
      NothingTicked(s.snapshot, s.access);
    } else {
      var k :| k in s.checked;
      var c :| c in s.snapshot && !c.disabled && c.key == k;
      assert EntryOf(c, if c.key in s.access then s.access[c.key] else c.defaultAccess) in entries;
    }
  }

  /** Whole runs: as long as a row stays in the review and nobody picks on it, it
      would be submitted with the same access, whatever is polled or refreshed. */
  lemma {:induction false} AccessNeverWidensAlone(s: State, es: seq<Event>, key: string)
    requires Inv(s) && forall i :: 0 <= i < |es| && es[i].Poll? ==> ValidList(es[i].live)
    requires key in Keys(s.snapshot) && forall i :: 0 <= i <= |es| ==> key in Keys(Run(s, es[..i]).snapshot)
    requires forall i :: 0 <= i < |es| ==> !(es[i].Pick? && es[i].key == key)
    ensures key in Keys(Run(s, es).snapshot) && Effective(Run(s, es), key) == Effective(s, key)
  {
    hide Inv, ValidList, Next, Effective;
    assert es[..|es|] == es;
    assert es[..0] == [];
    if es != [] {
      var init := es[..|es| - 1];
      forall i | 0 <= i <= |init| ensures key in Keys(Run(s, init[..i]).snapshot) {
        assert init[..i] == es[..i];
      }
      AccessNeverWidensAlone(s, init, key);
      RunKeeps(s, init);
      ConsentIsStable(Run(s, init), es[|es| - 1], key);
    }
  }

  /** What a submission sends is exactly what was consented to, row by row. */
  lemma SubmissionIsConsent(s: State, entry: SeedEntry)
    requires Inv(s)
    ensures entry in Entries(s.snapshot, s.checked, s.access) <==> Consented(s, entry)
  {
    hide ValidList, EntryOf, KeyOf, Grants, Entries;
    forall c | c in s.snapshot
      ensures c.key in Keys(s.snapshot)
      ensures s.reviewed[c.key] == if c.key in s.access then s.access[c.key] else c.defaultAccess
    {
      assert c.key in Keys(s.snapshot);
      OneRowPerKey(s.snapshot, c);
    }
    if entry in Entries(s.snapshot, s.checked, s.access) {
      var c :| c in s.snapshot && !c.disabled && c.key in s.checked
               && entry == EntryOf(c, if c.key in s.access then s.access[c.key] else c.defaultAccess);
      var t := TargetFor(s.snapshot, c);
      assert Grants(EntryOf(c, s.reviewed[c.key]), t, s.reviewed[c.key]);
    }
    if t: Target :| KeyOf(t) in SelectableKeys(s.snapshot) && KeyOf(t) in s.checked && KeyOf(t) in s.reviewed
                    && Grants(entry, t, s.reviewed[KeyOf(t)]) {
      var c :| c in s.snapshot && !c.disabled && c.key == KeyOf(t);
      var u := TargetFor(s.snapshot, c);
      KeyInjective(t, u);
      assert Grants(EntryOf(c, s.reviewed[c.key]), t, s.reviewed[c.key]);
      GrantsOne(EntryOf(c, s.reviewed[c.key]), entry, t, s.reviewed[c.key]);
    }
  }

  lemma GrantsOne(e: SeedEntry, e': SeedEntry, t: Target, access: Access)
    requires Grants(e, t, access) && Grants(e', t, access)
    ensures e == e'
  {
  }

  lemma OneRowPerKey(cs: seq<Candidate>, c: Candidate)
    requires ValidList(cs) && c in cs
    ensures c.key in Keys(cs) && RowOf(cs, c.key) == c
  {
    var d := RowOf(cs, c.key);
    var i :| 0 <= i < |cs| && cs[i] == c;
    var j :| 0 <= j < |cs| && cs[j] == d;
    assert i == j;
  }

  /** The dialog component. */
  class Dialog {
    var live: seq<Candidate>
    var snapshot: seq<Candidate>
    var checked: set<string>
    var access: map<string, Access>
    ghost var reviewed: map<string, Access>
    ghost var submitted: seq<seq<SeedEntry>>

    ghost function View(): State
      reads this
    {
      State(live, snapshot, checked, access, reviewed, submitted)
    }

    constructor (rows: seq<Candidate>)
      ensures View() == Initial(rows)
    {
      live, snapshot, checked, access := rows, rows, {}, map[];
      reviewed, submitted := map k | k in Keys(rows) :: RowOf(rows, k).defaultAccess, [];
    }

    method ToggleChecked(key: string)
      requires key in SelectableKeys(snapshot)
      modifies this
      ensures View() == OnToggle(old(View()), key)
    {
      if key in checked {
        checked := checked - {key};
      } else {
        checked := checked + {key};
      }
    }

    method SetEntryAccess(key: string, v: Access)
      requires key in SelectableKeys(snapshot)
      modifies this
      ensures View() == OnPick(old(View()), key, v)
    {
      access := access[key := v];
      reviewed := reviewed[key := v];
    }

    /** `refreshSnapshot`: prune both maps, then walk the old snapshot. */
    method RefreshSnapshot()
      requires Inv(View())
      modifies this
      ensures View() == OnRefresh(old(View()))
    {
      hide Inv, Carried, RefreshedAccess, Keys;
      ghost var before := View();
      var next := Keys(live);
      var kept := set k | k in checked && k in next;
      var out := map k | k in access && k in next :: access[k];
      assert kept == checked * next;
      CarriedStart(before, out);
      for i := 0 to |snapshot|
        invariant View() == before && Carried(before, i, out)
      {
        CarriedStep(before, i, out);
        var row := snapshot[i];
        if row.key in next && row.key !in out && RowOf(live, row.key).defaultAccess != row.defaultAccess {
          out := out[row.key := row.defaultAccess];
        }
      }
      CarriedEnd(before, out);
      snapshot, checked, access := live, kept, out;
      reviewed := map k | k in next :: if k in reviewed then reviewed[k] else RowOf(live, k).defaultAccess;
    }

    method HandleAdd() returns (entries: seq<SeedEntry>)
      modifies this
      ensures View() == OnSubmit(old(View()))
      ensures entries == Entries(old(snapshot), old(checked), old(access))
      ensures old(Inv(View())) ==> forall e :: e in entries <==> Consented(old(View()), e)
    {
      hide Inv, Consented, Entries;
      ghost var s := View();
      forall e | Inv(s) ensures e in Entries(s.snapshot, s.checked, s.access) <==> Consented(s, e) {
        SubmissionIsConsent(s, e);
      }
      entries := Entries(snapshot, checked, access);
      if entries != [] {
        submitted := submitted + [entries];
      }
    }
  }

  /** The suggestion for a row of both lists changed. */
  ghost predicate ChangedRow(s: State, k: string) {
    k in Keys(s.live) && k in Keys(s.snapshot) && RowOf(s.live, k).defaultAccess != RowOf(s.snapshot, k).defaultAccess
  }

  ghost predicate Changed(s: State, n: nat, k: string)
    requires n <= |s.snapshot|
  {
    ChangedRow(s, k) && exists i :: 0 <= i < n && s.snapshot[i].key == k
  }

  /** The overrides once the first `n` rows of the old snapshot have been looked at. */
  ghost predicate Carried(s: State, n: nat, out: map<string, Access>)
    requires n <= |s.snapshot|
  {
    forall k ::
      && (k in out <==> k in Keys(s.live) && (k in s.access || Changed(s, n, k)))
      && (k in out ==> out[k] == if k in s.access then s.access[k] else RowOf(s.snapshot, k).defaultAccess)
  }

  lemma CarriedStart(s: State, out: map<string, Access>)
    requires out == map k | k in s.access && k in Keys(s.live) :: s.access[k]
    ensures Carried(s, 0, out)
  {
  }

  lemma CarriedStep(s: State, i: nat, out: map<string, Access>)
    requires i < |s.snapshot| && Inv(s) && Carried(s, i, out)
    ensures var row := s.snapshot[i];
            var add := row.key in Keys(s.live) && row.key !in out
                       && RowOf(s.live, row.key).defaultAccess != row.defaultAccess;
            Carried(s, i + 1, if add then out[row.key := row.defaultAccess] else out)
  {
    hide ValidList, Effective, ChangedRow;
    var row := s.snapshot[i];
    assert row in s.snapshot;
    OneRowPerKey(s.snapshot, row);
    assert ChangedRow(s, row.key) <==>
           row.key in Keys(s.live) && RowOf(s.live, row.key).defaultAccess != row.defaultAccess by {
      ChangedMeans(s, row);
    }
    forall k ensures Changed(s, i + 1, k) <==> Changed(s, i, k) || (k == row.key && ChangedRow(s, k)) {
    }
  }

  lemma ChangedMeans(s: State, row: Candidate)
    requires row.key in Keys(s.snapshot) && RowOf(s.snapshot, row.key) == row
    ensures ChangedRow(s, row.key) <==>
            row.key in Keys(s.live) && RowOf(s.live, row.key).defaultAccess != row.defaultAccess
  {
  }

  lemma CarriedEnd(s: State, out: map<string, Access>)
    requires Carried(s, |s.snapshot|, out)
    ensures out == RefreshedAccess(s)
  {
    forall k | ChangedRow(s, k) ensures Changed(s, |s.snapshot|, k) {
      var c := RowOf(s.snapshot, k);
      var i :| 0 <= i < |s.snapshot| && s.snapshot[i] == c;
    }
  }

  // ---- Submissions over whole runs ----

  /** Over every run: whatever was sent, was sent by a click on the button, and consists
      of exactly the entries consented to at that moment. */
  lemma {:induction false} EverySubmissionIsConsent(live: seq<Candidate>, es: seq<Event>, i: nat) returns (j: nat)
    requires ValidList(live) && forall m :: 0 <= m < |es| && es[m].Poll? ==> ValidList(es[m].live)
    requires i < |Run(Initial(live), es).submitted|
    ensures j < |es| && es[j].Submit?
    ensures Run(Initial(live), es[..j]).submitted == Run(Initial(live), es).submitted[..i]
    ensures forall entry :: entry in Run(Initial(live), es).submitted[i] <==>
                            Consented(Run(Initial(live), es[..j]), entry)
  {
    assert Run(Initial(live), []).submitted == [];
    hide Run, Initial, ValidList, Consented, Inv;
    var init, e := es[..|es| - 1], es[|es| - 1];
    assert es == init + [e];
    RunSnoc(Initial(live), init, e);
    var s, s' := Run(Initial(live), init), Run(Initial(live), es);
    SubmittedGrows(s, e);
    if i < |s.submitted| {
      j := EverySubmissionIsConsent(live, init, i);
      assert es[..j] == init[..j] && s'.submitted[..i] == s.submitted[..i];
    } else {
      j := |init|;
      assert es[..j] == init && s'.submitted[..i] == s.submitted;
      InitialHolds(live);
      RunKeeps(Initial(live), init);
      forall entry ensures entry in s'.submitted[i] <==> Consented(s, entry) {
        SubmissionIsConsent(s, entry);
      }
    }
  }

  lemma RunSnoc(s: State, es: seq<Event>, e: Event)
    ensures Run(s, es + [e]) == Next(Run(s, es), e)
  {
    assert (es + [e])[..|es|] == es;
  }

  lemma SubmittedGrows(s: State, e: Event)
    ensures var s' := Next(s, e);
            || s'.submitted == s.submitted
            || (e.Submit? && s'.submitted == s.submitted + [Entries(s.snapshot, s.checked, s.access)])
  {
    hide Entries, RowOf;
  }

  /** The entries are sent in the order of the rows. */
  lemma {:induction false} EntriesInOrder(cs: seq<Candidate>, checked: set<string>, access: map<string, Access>)
    returns (idx: seq<nat>)
    ensures PickedImages(cs, idx, Entries(cs, checked, access), (c: Candidate) => !c.disabled && c.key in checked,
                         (c: Candidate) => EntryOf(c, if c.key in access then access[c.key] else c.defaultAccess))
  {
    idx := [];
    if cs != [] {
      hide PickedImages, EntryOf;
      var init := cs[..|cs| - 1];
      idx := EntriesInOrder(init, checked, access);
      idx := PickedImagesSnoc(cs, idx, Entries(init, checked, access),
                              (c: Candidate) => !c.disabled && c.key in checked,
                              (c: Candidate) => EntryOf(c, if c.key in access then access[c.key] else c.defaultAccess));
    }
  }
}
