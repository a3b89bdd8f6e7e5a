/** The load dialog (`app/src/components/LoadArchive.tsx`): path edits, reads that answer
    out of order, folder dialogs that answer late, and what is finally submitted. */
module LoadArchive {
  import opened Basics

  /** The names an archive lists; `archive` is the path that was inspected. */
  datatype Listing = Listing(archive: string, names: seq<string>)

  /** A text with, for the record, when it was entered (counting toggles and path
      changes) and the sandbox it was entered for. */
  datatype Entry = Entry(text: string, at: nat, owner: string)

  const BLANK: Entry := Entry("", 0, "")

  /** The single-sandbox fields, and the parent folder for several. */
  datatype Placement = Placement(rename: Entry, workspace: Entry, root: string)

  const NOWHERE: Placement := Placement(BLANK, BLANK, "")

  /** What a submission sends. For the record: the listing it acted on, the number of
      changes so far, and the entries the options came from. */
  datatype Request = Request(
    archive: string,
    select: seq<string>,
    rename: Option<string>,
    workspace: Option<string>,
    workspaceRoot: Option<string>,
    listing: Listing,
    changes: nat,
    renameEntry: Entry,
    workspaceEntry: Entry)

  /** What happened so far: toggles and path changes, and the submissions. */
  datatype Record = Record(changes: nat, sent: seq<Request>)

  /** `asked` are the inspections in flight with the path each was asked for, `browses`
      the workspace folder dialogs with the sandbox each was opened for. */
  datatype State = State(
    path: string,
    info: Option<Listing>,
    picked: set<string>,
    placement: Placement,
    reading: bool,
    readSeq: nat,
    busy: bool,
    done: bool,
    asked: map<nat, string>,
    browses: map<nat, string>,
    record: Record)

  datatype Event =
    | ChangePath(text: string)
    | Read
    | ArchiveChosen(text: string)
    | ReadAnswered(id: nat, names: seq<string>)
    | ReadFailed(id: nat)
    | Toggle(name: string, on: bool)
    | TypeRename(text: string)
    | TypeWorkspace(text: string)
    | BrowseWorkspace(id: nat)
    | WorkspaceChosen(id: nat, text: string)
    | EnterRoot(text: string)
    | Submit(existing: set<string>)
    | Submitted(ok: bool)

  const INITIAL: State :=
    State("", None, {}, NOWHERE, false, 0, false, false, map[], map[], Record(0, []))

  // ---- What the dialog derives on every render ----

  function Filter(names: seq<string>, picked: set<string>): (r: seq<string>)
    ensures forall n :: n in r <==> n in names && n in picked
  {
    if names == [] then []
    else
      var rest := Filter(names[..|names| - 1], picked);
      var last := names[|names| - 1];
      if last in picked then rest + [last] else rest
  }

  function Selected(s: State): (r: seq<string>) {
    if s.info.None? then [] else Filter(s.info.value.names, s.picked)
  }

  predicate Single(s: State) {
    |Selected(s)| == 1
  }

  function NonBlank(v: string): Option<string> {
    if JsTrim(v) == "" then None else Some(JsTrim(v))
  }

  /** The names the load would create. */
  function Targets(s: State): seq<string> {
    if Single(s) && JsTrim(s.placement.rename.text) != "" then [JsTrim(s.placement.rename.text)] else Selected(s)
  }

  predicate CanLoad(s: State, existing: set<string>) {
    s.info.Some? && Selected(s) != [] && !s.busy && !s.done
    && forall n :: n in Targets(s) ==> n !in existing
  }

  // ---- The steps ----

  function Change(r: Record): Record {
    r.(changes := r.changes + 1)
  }

  function OnChangePath(s: State, text: string): State {
    s.(readSeq := s.readSeq + 1, path := text, info := None, picked := {}, placement := NOWHERE, reading := false,
       record := Change(s.record))
  }

  function StartRead(s: State, target: string): State {
    s.(readSeq := s.readSeq + 1, reading := true, asked := s.asked[s.readSeq + 1 := target])
  }

  /** The button is disabled on a blank path and while a read is under way. */
  function OnRead(s: State): State {
    if JsTrim(s.path) == "" || s.reading || s.done then s else StartRead(s, s.path)
  }

  function OnArchiveChosen(s: State, text: string): State {
    StartRead(OnChangePath(s, text), text)
  }

  function OnReadAnswered(s: State, id: nat, names: seq<string>): State {
    if id !in s.asked then s
    else
      var s' := s.(asked := s.asked - {id});
      if id != s.readSeq then s'
      else s'.(info := Some(Listing(JsTrim(s.asked[id]), names)), picked := (set n | n in names), reading := false)
  }

  function OnReadFailed(s: State, id: nat): State {
    if id !in s.asked then s
    else
      var s' := s.(asked := s.asked - {id});
      if id != s.readSeq then s' else s'.(reading := false)
  }

  /** A checkbox is there for each listed sandbox. */
  function OnToggle(s: State, name: string, on: bool): State {
    if s.info.None? || name !in s.info.value.names || s.done then s
    else s.(placement := s.placement.(rename := BLANK, workspace := BLANK), record := Change(s.record),
            picked := if on then s.picked + {name} else s.picked - {name})
  }

  /** The single-sandbox fields are there only for a single selection. */
  function OnTypeRename(s: State, text: string): State {
    if Single(s) && !s.done then s.(placement := s.placement.(rename := Entry(text, s.record.changes, Selected(s)[0])))
    else s
  }

  function OnTypeWorkspace(s: State, text: string): State {
    if Single(s) && !s.done
    then s.(placement := s.placement.(workspace := Entry(text, s.record.changes, Selected(s)[0])))
    else s
  }

  function OnBrowseWorkspace(s: State, id: nat): State {
    if Single(s) && !s.done && id !in s.browses then s.(browses := s.browses[id := Selected(s)[0]]) else s
  }

  /** A folder dialog may answer at any time after it was opened. */
  function OnWorkspaceChosen(s: State, id: nat, text: string): State {
    if id !in s.browses then s
    else s.(browses := s.browses - {id},
            placement := s.placement.(workspace := Entry(text, s.record.changes, s.browses[id])))
  }

  function OnEnterRoot(s: State, text: string): State {
    s.(placement := s.placement.(root := text))
  }

  function RequestOf(s: State): Request
    requires s.info.Some?
  {
    Request(JsTrim(s.path), Selected(s),
            if Single(s) then NonBlank(s.placement.rename.text) else None,
            if Single(s) then NonBlank(s.placement.workspace.text) else None,
            if Single(s) then None else NonBlank(s.placement.root),
            s.info.value, s.record.changes, s.placement.rename, s.placement.workspace)
  }

  function OnSubmit(s: State, existing: set<string>): State {
    if CanLoad(s, existing) then s.(busy := true, record := s.record.(sent := s.record.sent + [RequestOf(s)])) else s
  }

  function OnSubmitted(s: State, ok: bool): State {
    if s.busy then s.(busy := false, done := ok) else s
  }

  function Next(s: State, e: Event): State {
    match e
    case ChangePath(text) => OnChangePath(s, text)
    case Read => OnRead(s)
    case ArchiveChosen(text) => OnArchiveChosen(s, text)
    case ReadAnswered(id, names) => OnReadAnswered(s, id, names)
    case ReadFailed(id) => OnReadFailed(s, id)
    case Toggle(name, on) => OnToggle(s, name, on)
    case TypeRename(text) => OnTypeRename(s, text)
    case TypeWorkspace(text) => OnTypeWorkspace(s, text)
    case BrowseWorkspace(id) => OnBrowseWorkspace(s, id)
    case WorkspaceChosen(id, text) => OnWorkspaceChosen(s, id, text)
    case EnterRoot(text) => OnEnterRoot(s, text)
    case Submit(existing) => OnSubmit(s, existing)
    case Submitted(ok) => OnSubmitted(s, ok)
  }

  function Run(s: State, es: seq<Event>): State {
    if es == [] then s else Next(Run(s, es[..|es| - 1]), es[|es| - 1])
  }

  // ---- What every run keeps ----

  /** A shown listing is the manifest of the current path and the picks stay within it;
      only the latest read can answer, and it was asked for the current path. */
  ghost predicate Current(s: State) {
    && (s.info.Some? ==> s.info.value.archive == JsTrim(s.path))
    && (s.info.None? ==> s.picked == {})
    && (forall n :: n in s.picked ==> s.info.Some? && n in s.info.value.names)
    && (forall id :: id in s.asked ==> id <= s.readSeq)
    && (s.readSeq in s.asked ==> JsTrim(s.asked[s.readSeq]) == JsTrim(s.path))
    && (s.reading <==> s.readSeq in s.asked)
  }

  /** What stands in the single-sandbox fields was entered after the last toggle and
      the last path change. */
  ghost predicate Recent(s: State) {
    && (s.placement.rename.text != "" ==> s.placement.rename.at == s.record.changes)
    && (s.placement.workspace.text != "" ==> s.placement.workspace.at == s.record.changes)
  }

  /** What a submission may be. */
  ghost predicate Sound(r: Request) {
    && r.listing.archive == r.archive
    && r.select != [] && (forall n :: n in r.select ==> n in r.listing.names)
    && (r.rename.Some? ==> |r.select| == 1 && r.rename == NonBlank(r.renameEntry.text) && r.renameEntry.at == r.changes)
    && (r.workspace.Some? ==>
          |r.select| == 1 && r.workspace == NonBlank(r.workspaceEntry.text) && r.workspaceEntry.at == r.changes)
    && (r.workspaceRoot.Some? ==> |r.select| > 1)
  }

  ghost predicate Inv(s: State) {
    Current(s) && Recent(s) && forall i :: 0 <= i < |s.record.sent| ==> Sound(s.record.sent[i])
  }

  lemma KeepsCurrent(s: State, e: Event)
    requires Current(s)
    ensures Current(Next(s, e))
  {
    hide JsTrim, Filter;
  }

  lemma KeepsRecent(s: State, e: Event)
    requires Recent(s)
    ensures Recent(Next(s, e))
  {
    hide JsTrim, Filter;
  }

  lemma RequestIsSound(s: State, existing: set<string>)
    requires Current(s) && Recent(s) && CanLoad(s, existing)
    ensures Sound(RequestOf(s))
  {
    assert JsTrim("") == "";
  }

  lemma NextKeeps(s: State, e: Event)
    requires Inv(s)
    ensures Inv(Next(s, e))
  {
    hide Current, Recent, Sound;
    KeepsCurrent(s, e);
    KeepsRecent(s, e);
    if e.Submit? && CanLoad(s, e.existing) {
      RequestIsSound(s, e.existing);
    }
  }

  lemma {:induction false} RunKeeps(es: seq<Event>)
    ensures Inv(Run(INITIAL, es))
  {
    hide Current, Recent, Sound, Next;
    if es == [] {
      InitialHolds();
    } else {
      RunKeeps(es[..|es| - 1]);
      NextKeeps(Run(INITIAL, es[..|es| - 1]), es[|es| - 1]);
    }
  }

  lemma InitialHolds()
    ensures Inv(INITIAL)
  {
  }

  /** In every interleaving, whatever is submitted is sound. */
  lemma SubmissionsAreSound(es: seq<Event>, i: nat)
    requires i < |Run(INITIAL, es).record.sent|
    ensures Sound(Run(INITIAL, es).record.sent[i])
  {
    hide Next, Sound;
    RunKeeps(es);
  }

  /** A submission takes no name that exists already. */
  lemma NoClash(s: State, existing: set<string>)
    requires OnSubmit(s, existing).record.sent != s.record.sent
    ensures var r := RequestOf(s);
            OnSubmit(s, existing).record.sent == s.record.sent + [r]
            && if r.rename.Some? then r.rename.value !in existing else forall n :: n in r.select ==> n !in existing
  {
    if Single(s) && JsTrim(s.placement.rename.text) != "" {
      assert Targets(s)[0] == JsTrim(s.placement.rename.text);
    }
  }

  /** Exactly when something is submitted, and what: a listing is shown, something in it is
      picked, nothing is under way or done, and no name the load would create is taken. Sent
      are the path that was read, the selection, a new name and a folder for a single
      sandbox only, and a parent folder for several only; what is blank is not sent. */
  lemma SubmittedExactlyWhen(s: State, existing: set<string>)
    ensures var s' := Next(s, Submit(existing));
            var select, name := Selected(s), JsTrim(s.placement.rename.text);
            if s.info.Some? && select != [] && !s.busy && !s.done
               && (if |select| == 1 && name != "" then name !in existing
                   else forall n :: n in select ==> n !in existing)
            then
              && s'.busy && !s'.done && |s'.record.sent| == |s.record.sent| + 1 && s.record.sent <= s'.record.sent
              && var r := s'.record.sent[|s.record.sent|];
                 && r.archive == JsTrim(s.path) && r.select == select && r.listing == s.info.value
                 && r.rename == (if |select| == 1 && name != "" then Some(name) else None)
                 && r.workspace == (if |select| == 1 && JsTrim(s.placement.workspace.text) != ""
                                    then Some(JsTrim(s.placement.workspace.text)) else None)
                 && r.workspaceRoot == (if |select| != 1 && JsTrim(s.placement.root) != ""
                                        then Some(JsTrim(s.placement.root)) else None)
            else s' == s
  {
    hide JsTrim, Filter;
    if Single(s) && JsTrim(s.placement.rename.text) != "" {
      assert Targets(s) == [JsTrim(s.placement.rename.text)];
      assert Targets(s)[0] in Targets(s);
    }
  }

  /** A tick changes the pick of one listed sandbox and clears what was entered for a single
      one, the parent folder excepted; a path change clears everything. */
  lemma WhatResets(s: State, name: string, on: bool, text: string)
    ensures var s' := Next(s, Toggle(name, on));
            if s.info.Some? && name in s.info.value.names && !s.done then
              && s'.info == s.info && s'.path == s.path
              && (forall n :: n in s'.picked <==> if n == name then on else n in s.picked)
              && s'.placement.rename.text == "" && s'.placement.workspace.text == ""
              && s'.placement.root == s.placement.root
            else s' == s
    ensures var s' := Next(s, ChangePath(text));
            && s'.path == text && s'.info.None? && s'.picked == {} && !s'.reading
            && s'.placement.rename.text == "" && s'.placement.workspace.text == "" && s'.placement.root == ""
  {
  }

  /** A text field holds what was entered in it last: the new name and the folder of a
      single sandbox, the parent folder whatever is selected. */
  lemma WhatIsTyped(s: State, text: string)
    ensures var s' := Next(s, EnterRoot(text));
            s'.placement == Placement(s.placement.rename, s.placement.workspace, text)
            && s' == s.(placement := s'.placement)
    ensures var s' := Next(s, TypeRename(text));
            && s' == s.(placement := s.placement.(rename := s'.placement.rename))
            && s'.placement.rename.text == if |Selected(s)| == 1 && !s.done then text else s.placement.rename.text
    ensures var s' := Next(s, TypeWorkspace(text));
            && s' == s.(placement := s.placement.(workspace := s'.placement.workspace))
            && s'.placement.workspace.text ==
               if |Selected(s)| == 1 && !s.done then text else s.placement.workspace.text
  {
    hide Filter;
  }

  /** After a load that failed the dialog is as it was before, and can be submitted again;
      after one that succeeded nothing more is submitted. */
  lemma AfterSubmission(s: State, existing: set<string>)
    requires CanLoad(s, existing)
    ensures var sent := Next(s, Submit(existing));
            && Next(sent, Submit(existing)) == sent
            && Next(sent, Submitted(false)).(record := s.record) == s
            && Next(sent, Submitted(true)).done
            && Next(Next(sent, Submitted(true)), Submit(existing)) == Next(sent, Submitted(true))
  {
    hide Filter, JsTrim, RequestOf, Targets;
  }

  // ---- For which sandbox ----

  /** The dialog means more: what stands in a single-sandbox field was entered for the
      sandbox that is selected. */
  ghost predicate Owned(s: State, f: Entry) {
    Single(s) && JsTrim(f.text) != "" ==> f.owner == Selected(s)[0]
  }

  /** A read that is not overtaken is answered with a single sandbox, and the field holds
      an entry made for another one: reading again resets the picks but not the fields. */
  ghost predicate RereadMisplaces(s: State, f: Entry, id: nat, names: seq<string>) {
    id in s.asked && id == s.readSeq && |names| == 1 && JsTrim(f.text) != "" && f.owner != names[0]
  }

  /** A folder dialog opened for one sandbox answers when another one is selected. */
  ghost predicate ChoiceMisplaces(s: State, id: nat, text: string) {
    id in s.browses && Single(s) && JsTrim(text) != "" && s.browses[id] != Selected(s)[0]
  }

  lemma SelectedAfterRead(s: State, id: nat, names: seq<string>)
    requires id in s.asked && id == s.readSeq
    ensures Selected(OnReadAnswered(s, id, names)) == names
  {
    FilterAll(names, set n | n in names);
  }

  lemma {:induction false} FilterAll(names: seq<string>, picked: set<string>)
    requires forall n :: n in names ==> n in picked
    ensures Filter(names, picked) == names
  {
    if names != [] {
      FilterAll(names[..|names| - 1], picked);
      assert names == names[..|names| - 1] + [names[|names| - 1]];
    }
  }

  /** The two single-sandbox fields. */
  datatype Field = LoadAs | Folder

  function EntryIn(s: State, f: Field): Entry {
    match f case LoadAs => s.placement.rename case Folder => s.placement.workspace
  }

  /** The event puts what stands in the field on a sandbox it was not entered for. */
  ghost predicate Misplaces(s: State, f: Field, e: Event) {
    || (e.ReadAnswered? && RereadMisplaces(s, EntryIn(s, f), e.id, e.names))
    || (f.Folder? && e.WorkspaceChosen? && ChoiceMisplaces(s, e.id, e.text))
  }

  /** The event enters the field anew, clears it or replaces the selection. */
  ghost predicate Settles(s: State, f: Field, e: Event) {
    match e
    case ChangePath(_) => true
    case ArchiveChosen(_) => true
    case Toggle(name, _) => s.info.Some? && name in s.info.value.names && !s.done
    case ReadAnswered(id, _) => id in s.asked && id == s.readSeq
    case TypeRename(_) => f.LoadAs? && Single(s) && !s.done
    case TypeWorkspace(_) => f.Folder? && Single(s) && !s.done
    case WorkspaceChosen(id, _) => f.Folder? && id in s.browses
    case _ => false
  }

  /** Exactly when, after an event, a field stands on a sandbox it was not entered for:
      if the event misplaces it, or it was misplaced and the event does not settle it. */
  lemma OwnedExactlyWhen(s: State, f: Field, e: Event)
    ensures !Owned(Next(s, e), EntryIn(Next(s, e), f))
       <==> Misplaces(s, f, e) || (!Owned(s, EntryIn(s, f)) && !Settles(s, f, e))
  {
    hide Owned, Misplaces, Settles, Next;
    if e.ReadAnswered? {
      OwnedAfterRead(s, f, e.id, e.names);
    } else {
      OwnedAfterOthers(s, f, e);
    }
  }

  lemma OwnedAfterRead(s: State, f: Field, id: nat, names: seq<string>)
    ensures var e, s' := ReadAnswered(id, names), Next(s, ReadAnswered(id, names));
            !Owned(s', EntryIn(s', f)) <==> Misplaces(s, f, e) || (!Owned(s, EntryIn(s, f)) && !Settles(s, f, e))
  {
    hide Filter, JsTrim;
    if id in s.asked && id == s.readSeq {
      SelectedAfterRead(s, id, names);
    }
  }

  lemma OwnedAfterOthers(s: State, f: Field, e: Event)
    requires !e.ReadAnswered?
    ensures var s' := Next(s, e);
            !Owned(s', EntryIn(s', f)) <==> Misplaces(s, f, e) || (!Owned(s, EntryIn(s, f)) && !Settles(s, f, e))
  {
    BlankIsOwned();
    hide Filter, JsTrim;
  }

  /** Before event `j` of the run the field was misplaced, and not settled since. */
  ghost predicate MisplacedIn(es: seq<Event>, j: nat, f: Field)
    requires j <= |es|
  {
    exists k: nat :: k < j && MisplacedAt(es, j, f, k)
  }

  ghost predicate MisplacedAt(es: seq<Event>, j: nat, f: Field, k: nat)
    requires k < j <= |es|
  {
    && Misplaces(Run(INITIAL, es[..k]), f, es[k])
    && forall m: nat :: k < m < j ==> !Settles(Run(INITIAL, es[..m]), f, es[m])
  }

  /** The same over whole runs. */
  lemma {:induction false} OwnedOverRuns(es: seq<Event>, f: Field)
    ensures var s := Run(INITIAL, es); !Owned(s, EntryIn(s, f)) <==> MisplacedIn(es, |es|, f)
  {
    if es == [] {
      BlankIsOwned();
    } else {
      hide Owned, Misplaces, Settles, Run, Next;
      var init, e := es[..|es| - 1], es[|es| - 1];
      assert es == init + [e];
      RunStep(INITIAL, init, e);
      OwnedOverRuns(init, f);
      OwnedExactlyWhen(Run(INITIAL, init), f, e);
      MisplacedSnoc(init, e, f);
    }
  }

  lemma MisplacedSnoc(init: seq<Event>, e: Event, f: Field)
    ensures MisplacedIn(init + [e], |init| + 1, f)
       <==> Misplaces(Run(INITIAL, init), f, e)
            || (MisplacedIn(init, |init|, f) && !Settles(Run(INITIAL, init), f, e))
  {
    hide Misplaces, Settles, Run, MisplacedAt;
    var es, n := init + [e], |init|;
    JustMisplaced(init, e, f);
    forall k: nat | k < n
      ensures MisplacedAt(es, n + 1, f, k) <==> MisplacedAt(init, n, f, k) && !Settles(Run(INITIAL, init), f, e)
    {
      StillMisplaced(init, e, f, k);
    }
    if MisplacedIn(es, n + 1, f) {
      var k: nat :| k < n + 1 && MisplacedAt(es, n + 1, f, k);
      if k < n {
        assert MisplacedAt(init, n, f, k);
      }
    }
    if Misplaces(Run(INITIAL, init), f, e) {
      assert MisplacedAt(es, n + 1, f, n);
    }
    if MisplacedIn(init, n, f) && !Settles(Run(INITIAL, init), f, e) {
      var k: nat :| k < n && MisplacedAt(init, n, f, k);
      assert MisplacedAt(es, n + 1, f, k);
    }
  }

  lemma JustMisplaced(init: seq<Event>, e: Event, f: Field)
    ensures MisplacedAt(init + [e], |init| + 1, f, |init|) <==> Misplaces(Run(INITIAL, init), f, e)
  {
    hide Misplaces, Settles, Run;
    assert (init + [e])[..|init|] == init;
  }

  lemma StillMisplaced(init: seq<Event>, e: Event, f: Field, k: nat)
    requires k < |init|
    ensures MisplacedAt(init + [e], |init| + 1, f, k)
       <==> MisplacedAt(init, |init|, f, k) && !Settles(Run(INITIAL, init), f, e)
  {
    hide Misplaces, Settles, Run;
    var es, n := init + [e], |init|;
    assert es[..n] == init && es[n] == e;
    assert es[..k] == init[..k] && es[k] == init[k];
    assert forall m: nat :: m < n ==> es[..m] == init[..m] && es[m] == init[m];
    if MisplacedAt(es, n + 1, f, k) {
      assert !Settles(Run(INITIAL, es[..n]), f, es[n]);
      forall m: nat | k < m < n ensures !Settles(Run(INITIAL, init[..m]), f, init[m]) {
        assert !Settles(Run(INITIAL, es[..m]), f, es[m]);
      }
    }
  }

  /** The request carries the field, for a sandbox it was not entered for. */
  predicate WrongOwner(r: Request, f: Field) {
    match f
    case LoadAs => r.rename.Some? && (r.select == [] || r.renameEntry.owner != r.select[0])
    case Folder => r.workspace.Some? && (r.select == [] || r.workspaceEntry.owner != r.select[0])
  }

  /** Over every run: exactly which submissions carry a field for a sandbox it was not
      entered for. */
  lemma {:induction false} WrongOwnerExactlyWhen(es: seq<Event>, i: nat, f: Field) returns (j: nat)
    requires i < |Run(INITIAL, es).record.sent|
    ensures j < |es| && es[j].Submit?
    ensures Run(INITIAL, es[..j]).record.sent == Run(INITIAL, es).record.sent[..i]
    ensures WrongOwner(Run(INITIAL, es).record.sent[i], f) <==> MisplacedIn(es, j, f)
  {
    assert Run(INITIAL, []).record.sent == [];
    hide Run, Next, WrongOwner, MisplacedIn;
    var init, e := es[..|es| - 1], es[|es| - 1];
    assert es == init + [e];
    RunStep(INITIAL, init, e);
    var s, s' := Run(INITIAL, init), Run(INITIAL, es);
    SentGrows(s, e, f);
    if i < |s.record.sent| {
      j := WrongOwnerExactlyWhen(init, i, f);
      assert es[..j] == init[..j] && s'.record.sent[..i] == s.record.sent[..i];
      MisplacedPrefix(init, e, j, f);
    } else {
      j := |init|;
      assert es[..j] == init && s'.record.sent[..i] == s.record.sent;
      OwnedOverRuns(init, f);
      MisplacedPrefix(init, e, j, f);
    }
  }

  lemma SentGrows(s: State, e: Event, f: Field)
    ensures var s' := Next(s, e);
            || s'.record.sent == s.record.sent
            || (e.Submit? && |s'.record.sent| == |s.record.sent| + 1 && s.record.sent <= s'.record.sent
                && (WrongOwner(s'.record.sent[|s.record.sent|], f) <==> !Owned(s, EntryIn(s, f))))
  {
    hide Filter, JsTrim;
  }

  lemma MisplacedPrefix(init: seq<Event>, e: Event, j: nat, f: Field)
    requires j <= |init|
    ensures MisplacedIn(init + [e], j, f) <==> MisplacedIn(init, j, f)
  {
    hide Misplaces, Settles, Run;
    var es := init + [e];
    assert forall m: nat :: m <= |init| ==> es[..m] == init[..m];
    forall k: nat | k < j ensures MisplacedAt(es, j, f, k) <==> MisplacedAt(init, j, f, k) {
    }
  }

  /** As long as no event misplaces the field, every submission carries it only for the
      sandbox it was entered for. */
  lemma GuardedRunsAreRight(es: seq<Event>, i: nat, f: Field)
    requires i < |Run(INITIAL, es).record.sent|
    requires forall k: nat :: k < |es| ==> !Misplaces(Run(INITIAL, es[..k]), f, es[k])
    ensures !WrongOwner(Run(INITIAL, es).record.sent[i], f)
  {
    hide Run, WrongOwner, Misplaces;
    var j := WrongOwnerExactlyWhen(es, i, f);
  }

  /** In particular for "Load as": read only when it is blank. */
  lemma ReadOnlyWhenBlank(es: seq<Event>, i: nat)
    requires i < |Run(INITIAL, es).record.sent|
    requires forall k: nat :: k < |es| && es[k].ReadAnswered? && es[k].id == Run(INITIAL, es[..k]).readSeq ==>
               JsTrim(Run(INITIAL, es[..k]).placement.rename.text) == ""
    ensures !WrongOwner(Run(INITIAL, es).record.sent[i], LoadAs)
  {
    hide Run, WrongOwner;
    GuardedRunsAreRight(es, i, LoadAs);
  }

  /** The event may replace the selection. */
  ghost predicate Reselects(s: State, e: Event) {
    match e
    case ChangePath(_) => true
    case ArchiveChosen(_) => true
    case Toggle(_, _) => true
    case ReadAnswered(id, _) => id == s.readSeq
    case _ => false
  }

  /** Every open folder dialog was opened for the sandbox that is selected. */
  ghost predicate FoldersFit(s: State) {
    forall id :: id in s.browses ==> Single(s) && Selected(s)[0] == s.browses[id]
  }

  lemma KeepsFoldersFit(s: State, e: Event)
    requires FoldersFit(s) && (Reselects(s, e) ==> s.browses == map[])
    ensures FoldersFit(Next(s, e))
  {
    hide Filter, JsTrim;
  }

  lemma {:induction false} FoldersFitOverRuns(es: seq<Event>)
    requires forall k: nat :: k < |es| && Reselects(Run(INITIAL, es[..k]), es[k]) ==>
               Run(INITIAL, es[..k]).browses == map[]
    ensures FoldersFit(Run(INITIAL, es))
  {
    if es != [] {
      hide FoldersFit, Next, Reselects;
      var init := es[..|es| - 1];
      assert forall k: nat :: k < |init| ==> init[..k] == es[..k];
      FoldersFitOverRuns(init);
      KeepsFoldersFit(Run(INITIAL, init), es[|es| - 1]);
    }
  }

  /** And for the workspace folder: read only when it is blank, and change neither path nor
      selection while a folder dialog is open. */
  lemma FolderDialogsAreModal(es: seq<Event>, i: nat)
    requires i < |Run(INITIAL, es).record.sent|
    requires forall k: nat :: k < |es| && es[k].ReadAnswered? && es[k].id == Run(INITIAL, es[..k]).readSeq ==>
               JsTrim(Run(INITIAL, es[..k]).placement.workspace.text) == ""
    requires forall k: nat :: k < |es| && Reselects(Run(INITIAL, es[..k]), es[k]) ==>
               Run(INITIAL, es[..k]).browses == map[]
    ensures !WrongOwner(Run(INITIAL, es).record.sent[i], Folder)
  {
    hide Run, WrongOwner, Reselects;
    forall k: nat | k < |es| ensures !Misplaces(Run(INITIAL, es[..k]), Folder, es[k]) {
      assert forall m: nat :: m < k ==> es[..k][..m] == es[..m];
      FoldersFitOverRuns(es[..k]);
    }
    GuardedRunsAreRight(es, i, Folder);
  }

  lemma BlankIsOwned()
    ensures JsTrim("") == ""
  {
  }

  lemma RunStep(s: State, es: seq<Event>, e: Event)
    ensures Run(s, es + [e]) == Next(Run(s, es), e)
  {
    assert (es + [e])[..|es|] == es;
  }

  lemma ReadAll(es: seq<Event>, names: seq<string>)
    requires var s := Run(INITIAL, es); JsTrim(s.path) != "" && !s.reading && !s.done
    ensures var s := Run(INITIAL, es);
            var s' := Run(INITIAL, es + [Read] + [ReadAnswered(s.readSeq + 1, names)]);
            && Selected(s') == names && !s'.reading && s'.readSeq == s.readSeq + 1
            && s'.info.Some? && s'.info.value.names == names && s'.picked == (set n | n in names)
            && s'.(info := None, picked := {}, readSeq := 0, asked := map[])
               == s.(info := None, picked := {}, readSeq := 0, asked := map[])
  {
    hide JsTrim, Filter;
    var s := Run(INITIAL, es);
    RunStep(INITIAL, es, Read);
    RunStep(INITIAL, es + [Read], ReadAnswered(s.readSeq + 1, names));
    SelectedAfterRead(OnRead(s), s.readSeq + 1, names);
  }

  lemma TrimmedX()
    ensures JsTrim("x") == "x"
  {
  }

  lemma SubmitOne(es: seq<Event>)
    requires var s := Run(INITIAL, es);
             && s.info.Some? && |Selected(s)| == 1 && !s.busy && !s.done && s.record.sent == []
             && s.placement.rename.text == "x"
    ensures var s, s' := Run(INITIAL, es), Run(INITIAL, es + [Submit({})]);
            |s'.record.sent| == 1 && s'.record.sent[0].select == Selected(s) && s'.record.sent[0].rename == Some("x")
            && s'.record.sent[0].renameEntry == s.placement.rename
  {
    hide JsTrim, Filter;
    TrimmedX();
    RunStep(INITIAL, es, Submit({}));
  }

  lemma TypeOne(es: seq<Event>, name: string)
    requires var s := Run(INITIAL, es); Selected(s) == [name] && !s.done
    ensures var s, s' := Run(INITIAL, es), Run(INITIAL, es + [TypeRename("x")]);
            s' == s.(placement := s.placement.(rename := Entry("x", s.record.changes, name)))
  {
    hide Filter;
    RunStep(INITIAL, es, TypeRename("x"));
  }

  const START: seq<Event> := [ChangePath("/a.izba")]

  lemma Start()
    ensures Run(INITIAL, START) == INITIAL.(path := "/a.izba", readSeq := 1, record := Record(1, []))
    ensures JsTrim("/a.izba") != ""
  {
    assert START[..0] == [];
  }

  /** It does happen: a name typed for one sandbox is sent for another. */
  lemma RenameCanBeMisplaced()
    ensures exists es :: var s := Run(INITIAL, es);
                         && |s.record.sent| == 1 && s.record.sent[0].rename == Some("x")
                         && s.record.sent[0].renameEntry.owner == "one" && s.record.sent[0].select == ["two"]
  {
    hide JsTrim, Selected, Run;
    Start();
    ReadAll(START, ["one"]);
    var listed := START + [Read] + [ReadAnswered(2, ["one"])];
    TypeOne(listed, "one");
    var typed := listed + [TypeRename("x")];
    ReadAll(typed, ["two"]);
    var again := typed + [Read] + [ReadAnswered(3, ["two"])];
    SubmitOne(again);
    assert Run(INITIAL, again + [Submit({})]).record.sent[0].select == ["two"];
  }

  lemma FilterPair()
    ensures Filter(["one", "two"], {"one"}) == ["one"] && Filter(["one", "two"], {"two"}) == ["two"]
  {
    assert ["one", "two"][..1] == ["one"] && ["one"][..0] == [];
  }

  /** Open the folder dialog for one sandbox, select the other, and let it answer. */
  lemma LateFolder(s: State)
    requires s.info.Some? && s.info.value.names == ["one", "two"] && s.picked == {"one", "two"}
    requires !s.done && !s.busy && s.record.sent == [] && s.browses == map[]
    ensures var s1 := OnBrowseWorkspace(OnToggle(s, "two", false), 0);
            var s2 := OnToggle(OnToggle(s1, "two", true), "one", false);
            var s3 := OnWorkspaceChosen(s2, 0, "x");
            && s3.info.Some? && Selected(s3) == ["two"] && s3.placement.workspace.text == "x"
            && s3.placement.workspace.owner == "one" && s3.placement.rename == BLANK
            && !s3.done && !s3.busy && s3.record.sent == []
  {
    FilterPair();
    hide Filter;
    assert {"one", "two"} - {"two"} == {"one"} && {"one"} + {"two"} == {"one", "two"};
    assert {"one", "two"} - {"one"} == {"two"};
  }

  lemma SubmitFolder(s: State)
    requires s.info.Some? && |Selected(s)| == 1 && !s.busy && !s.done && s.record.sent == []
    requires s.placement.workspace.text == "x" && s.placement.rename == BLANK
    ensures var s' := OnSubmit(s, {});
            && |s'.record.sent| == 1 && s'.record.sent[0].select == Selected(s)
            && s'.record.sent[0].workspace == Some("x")
            && s'.record.sent[0].workspaceEntry == s.placement.workspace
  {
    TrimmedX();
    BlankIsOwned();
    hide Filter, JsTrim;
  }

  /** It does happen: a folder chosen for one sandbox is sent for another. */
  lemma WorkspaceCanBeMisplaced()
    ensures exists es :: var s := Run(INITIAL, es);
                         && |s.record.sent| == 1 && s.record.sent[0].workspace == Some("x")
                         && s.record.sent[0].workspaceEntry.owner == "one" && s.record.sent[0].select == ["two"]
  {
    hide JsTrim, Selected, Run, Filter, OnToggle, OnBrowseWorkspace, OnWorkspaceChosen, OnSubmit;
    Start();
    ReadAll(START, ["one", "two"]);
    var listed := START + [Read] + [ReadAnswered(2, ["one", "two"])];
    var s := Run(INITIAL, listed);
    assert s.picked == {"one", "two"};
    LateFolder(s);
    var es1 := listed + [Toggle("two", false)];
    RunStep(INITIAL, listed, Toggle("two", false));
    var es2 := es1 + [BrowseWorkspace(0)];
    RunStep(INITIAL, es1, BrowseWorkspace(0));
    var es3 := es2 + [Toggle("two", true)];
    RunStep(INITIAL, es2, Toggle("two", true));
    var es4 := es3 + [Toggle("one", false)];
    RunStep(INITIAL, es3, Toggle("one", false));
    var es5 := es4 + [WorkspaceChosen(0, "x")];
    RunStep(INITIAL, es4, WorkspaceChosen(0, "x"));
    RunStep(INITIAL, es5, Submit({}));
    SubmitFolder(Run(INITIAL, es5));
    assert Run(INITIAL, es5 + [Submit({})]).record.sent[0].select == ["two"];
  }

  /** The selected names are in the order of the listing. */
  lemma {:induction false} FilterInOrder(names: seq<string>, picked: set<string>) returns (idx: seq<nat>)
    ensures Picked(names, idx, Filter(names, picked), (n: string) => n in picked)
  {
    idx := [];
    if names != [] {
      hide Picked;
      idx := FilterInOrder(names[..|names| - 1], picked);
      idx := PickedSnoc(names, idx, Filter(names[..|names| - 1], picked), (n: string) => n in picked);
    }
  }

  /** The dialog. */
  class Dialog {
    var path: string
    var info: Option<Listing>
    var picked: set<string>
    var placement: Placement
    var reading: bool
    var readSeq: nat
    var busy: bool
    var done: bool
    var asked: map<nat, string>
    var browses: map<nat, string>
    var record: Record

    function View(): State
      reads this
    {
      State(path, info, picked, placement, reading, readSeq, busy, done, asked, browses, record)
    }

    constructor ()
      ensures View() == INITIAL
    {
      path, info, picked, placement := "", None, {}, NOWHERE;
      reading, readSeq, busy, done, asked, browses, record := false, 0, false, false, map[], map[], Record(0, []);
    }

    /** `changePath`. */
    method ChangePath(v: string)
      modifies `readSeq, `record, `path, `info, `picked, `placement, `reading
      ensures View() == OnChangePath(old(View()), v)
    {
      readSeq := readSeq + 1;
      path, info, picked := v, None, {};
      placement := NOWHERE;
      reading := false;
      record := Change(record);
    }

    /** `read`, up to its await. */
    method StartReading(target: string) returns (id: nat)
      modifies `readSeq, `reading, `asked
      ensures View() == StartRead(old(View()), target) && id == readSeq
    {
      readSeq := readSeq + 1;
      id := readSeq;
      reading := true;
      asked := asked[id := target];
    }

    /** `browseArchive`, once a file was chosen. */
    method BrowseArchive(chosen: string)
      modifies this
      ensures View() == OnArchiveChosen(old(View()), chosen)
    {
      ChangePath(chosen);
      var _ := StartReading(chosen);
    }

    /** `read`, after its await. */
    method Answered(id: nat, names: seq<string>)
      requires id in asked
      modifies this
      ensures View() == OnReadAnswered(old(View()), id, names)
    {
      var target := JsTrim(asked[id]);
      asked := asked - {id};
      if readSeq != id {
        return;
      }
      info := Some(Listing(target, names));
      picked := set n | n in names;
      reading := false;
    }

    /** `read`, when the inspection threw. */
    method AnswerFailed(id: nat)
      requires id in asked
      modifies `asked, `reading
      ensures View() == OnReadFailed(old(View()), id)
    {
      asked := asked - {id};
      if readSeq == id {
        reading := false;
      }
    }

    /** `toggle`, for the checkbox of a listed sandbox. */
    method ToggleSandbox(name: string, on: bool)
      requires info.Some? && name in info.value.names && !done
      modifies this
      ensures View() == OnToggle(old(View()), name, on)
    {
      placement := placement.(rename := BLANK, workspace := BLANK);
      record := Change(record);
      picked := if on then picked + {name} else picked - {name};
    }

    /** `submit`, up to its await. */
    method SubmitLoad(existing: set<string>)
      requires CanLoad(View(), existing)
      modifies `busy, `record
      ensures View() == OnSubmit(old(View()), existing)
    {
      var select := Selected(View());
      var single := |select| == 1;
      record := record.(sent := record.sent + [Request(JsTrim(path), select,
                              if single then NonBlank(placement.rename.text) else None,
                              if single then NonBlank(placement.workspace.text) else None,
                              if single then None else NonBlank(placement.root),
                              info.value, record.changes, placement.rename, placement.workspace)]);
      busy := true;
    }
  }
}
