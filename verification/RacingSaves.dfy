/** Saves of one process that race each other (`save_archive_core` in
    `app/src-tauri/src/commands.rs`): every system call, and the counter's atomic
    increment, is a step of its own, and the steps interleave in any order. */
module RacingSaves {
  import opened Basics
  import opened ArchiveSave

  /** How far a save has come. */
  datatype Stage =
    | Idle
    | Drawing                  // about to draw a number
    | Probing                  // about to look whether its sibling is free
    | Calling(path: string)    // about to hand the path to the daemon
    | Writing(path: string)    // the daemon has created the file
    | Failing(path: string)    // the daemon has failed
    | Swapping(path: string)   // complete, about to be renamed
    | Done(ok: bool)

  /** `number` is the last number drawn; `archive` what the daemon completes. */
  datatype Save = Save(out: string, overwrite: bool, archive: string, replacing: bool, number: nat, stage: Stage)

  /** The files and, for the record, which save put there what is at a path. */
  datatype Disk = Disk(fs: Files, maker: map<string, nat>)

  datatype State = State(disk: Disk, counter: nat, saves: seq<Save>)

  /** One step of save `i`; `ok` is how the system call or the daemon fares, `left`
      whether a daemon that gives up leaves its file behind. */
  datatype Event = Event(i: nat, ok: bool, left: bool)

  function Begin(d: Disk, p: Save): Save {
    var replacing := Exists(d.fs, p.out) && p.overwrite;
    p.(replacing := replacing,
       stage := if replacing then Drawing else if Exists(d.fs, p.out) then Done(false) else Calling(p.out))
  }

  function Probe(pid: nat, d: Disk, p: Save): Save {
    var path := Sibling(p.out, pid, p.number);
    p.(stage := if path in d.fs then Drawing else Calling(path))
  }

  predicate Mine(d: Disk, i: nat, path: string) {
    path in d.fs && path in d.maker && d.maker[path] == i
  }

  function Without(d: Disk, path: string): Disk {
    Disk(d.fs - {path}, d.maker - {path})
  }

  /** The daemon refuses a path that is taken. */
  function Call(d: Disk, i: nat, p: Save, path: string): (Save, Disk) {
    if path in d.fs then (p.(stage := Failing(path)), d)
    else (p.(stage := Writing(path)), Disk(d.fs[path := File("")], d.maker[path := i]))
  }

  /** The daemon completes the file it created, or gives up. */
  function Write(d: Disk, i: nat, p: Save, path: string, ok: bool, left: bool): (Save, Disk) {
    if ok then
      (p.(stage := if p.replacing then Swapping(path) else Done(true)),
       if Mine(d, i, path) then d.(fs := d.fs[path := File(p.archive)]) else d)
    else (p.(stage := Failing(path)), if Mine(d, i, path) && !left then Without(d, path) else d)
  }

  /** A failed replacement removes what is at its sibling. */
  function CleanUp(d: Disk, p: Save, path: string, ok: bool): (Save, Disk) {
    (p.(stage := Done(false)),
     if p.replacing && ok && path in d.fs && !d.fs[path].Directory? then Without(d, path) else d)
  }

  function Swap(d: Disk, i: nat, p: Save, path: string, ok: bool): (Save, Disk) {
    if ok && path in d.fs && CanRename(d.fs, p.out, true)
    then (p.(stage := Done(true)), Disk((d.fs - {path})[p.out := d.fs[path]], (d.maker - {path})[p.out := i]))
    else (p.(stage := Done(false)), d)
  }

  /** One step of a save: the save, the disk and the counter after it. */
  function Step(pid: nat, d: Disk, counter: nat, i: nat, p: Save, e: Event): (Save, Disk, nat) {
    match p.stage
    case Idle => (Begin(d, p), d, counter)
    case Drawing => (p.(number := counter, stage := Probing), d, counter + 1)
    case Probing => (Probe(pid, d, p), d, counter)
    case Calling(path) => var r := Call(d, i, p, path); (r.0, r.1, counter)
    case Writing(path) => var r := Write(d, i, p, path, e.ok, e.left); (r.0, r.1, counter)
    case Failing(path) => var r := CleanUp(d, p, path, e.ok); (r.0, r.1, counter)
    case Swapping(path) => var r := Swap(d, i, p, path, e.ok); (r.0, r.1, counter)
    case Done(_) => (p, d, counter)
  }

  function Next(pid: nat, s: State, e: Event): State {
    if e.i >= |s.saves| then s
    else
      var r := Step(pid, s.disk, s.counter, e.i, s.saves[e.i], e);
      State(r.1, r.2, s.saves[e.i := r.0])
  }

  function Run(pid: nat, s: State, es: seq<Event>): State {
    if es == [] then s else Next(pid, Run(pid, s, es[..|es| - 1]), es[|es| - 1])
  }

  ghost predicate IsStart(s: State) {
    s.disk.maker == map[] && forall i :: 0 <= i < |s.saves| ==> s.saves[i].stage == Idle
  }

  // ---- No two saves share a sibling ----

  predicate HasNumber(p: Save) {
    p.replacing && !p.stage.Idle? && !p.stage.Drawing?
  }

  function PathOf(stage: Stage): Option<string> {
    match stage
    case Calling(path) => Some(path)
    case Writing(path) => Some(path)
    case Failing(path) => Some(path)
    case Swapping(path) => Some(path)
    case _ => None
  }

  ghost predicate Numbered(pid: nat, s: State) {
    && (forall i :: 0 <= i < |s.saves| && HasNumber(s.saves[i]) ==> s.saves[i].number < s.counter)
    && (forall i, j :: 0 <= i < j < |s.saves| && HasNumber(s.saves[i]) && HasNumber(s.saves[j]) ==>
          s.saves[i].number != s.saves[j].number)
    && (forall i :: 0 <= i < |s.saves| ==> PathIs(pid, s.saves[i]))
  }

  ghost predicate PathIs(pid: nat, p: Save) {
    && (p.stage.Drawing? || p.stage.Probing? || p.stage.Swapping? ==> p.replacing)
    && (PathOf(p.stage).Some? ==>
          PathOf(p.stage).value == if p.replacing then Sibling(p.out, pid, p.number) else p.out)
  }

  /** What a step does to its save: it keeps what the save was asked for, and draws at
      most the next number. */
  lemma StepOfOne(pid: nat, d: Disk, counter: nat, i: nat, p: Save, e: Event)
    requires PathIs(pid, p)
    ensures var (p', d', counter') := Step(pid, d, counter, i, p, e);
            && PathIs(pid, p') && counter <= counter'
            && p'.out == p.out && p'.overwrite == p.overwrite && p'.archive == p.archive
            && (HasNumber(p') ==> (HasNumber(p) && p'.number == p.number)
                                  || (p'.number == counter && counter' == counter + 1))
            && (Consented(p) ==> Consented(p'))
  {
    hide Sibling;
  }

  /** Only what the user agreed to replace is replaced. */
  predicate Consented(p: Save) {
    p.replacing && !p.stage.Idle? ==> p.overwrite
  }

  lemma KeepsNumbered(pid: nat, s: State, e: Event)
    requires Numbered(pid, s)
    ensures Numbered(pid, Next(pid, s, e))
  {
    if e.i < |s.saves| {
      StepOfOne(pid, s.disk, s.counter, e.i, s.saves[e.i], e);
    }
    hide Step, PathIs, HasNumber;
  }

  /** In every interleaving, two replacements that hold a path hold different ones. */
  lemma SiblingsStayApart(pid: nat, s: State, i: nat, j: nat)
    requires Numbered(pid, s) && i < j < |s.saves| && s.saves[i].replacing && s.saves[j].replacing
    requires PathOf(s.saves[i].stage).Some? && PathOf(s.saves[j].stage).Some?
    ensures PathOf(s.saves[i].stage) != PathOf(s.saves[j].stage)
  {
    hide Sibling;
    var p, q := s.saves[i], s.saves[j];
    assert PathIs(pid, p) && PathIs(pid, q);
    if Sibling(p.out, pid, p.number) == Sibling(q.out, pid, q.number) {
      SiblingsDiffer(p.out, q.out, pid, p.number, q.number);
    }
  }

  // ---- What a save touches is its own ----

  /** No save was asked to write to a name that another one may yet use as its sibling,
      when the numbers from `first` on are still to be drawn. */
  ghost predicate NamesApart(pid: nat, first: nat, s: State) {
    forall i, j, n: nat :: 0 <= i < |s.saves| && 0 <= j < |s.saves| && first <= n ==>
      s.saves[j].out != Sibling(s.saves[i].out, pid, n)
  }

  ghost predicate NumbersFrom(first: nat, s: State) {
    first <= s.counter && forall i :: 0 <= i < |s.saves| && HasNumber(s.saves[i]) ==> first <= s.saves[i].number
  }

  /** A replacement's path is free when the daemon is called, and what is there later is
      its own doing, complete when it is about to be renamed. */
  ghost predicate Own(d: Disk, i: nat, p: Save) {
    PathOf(p.stage).Some? && p.replacing ==>
      var path := PathOf(p.stage).value;
      if p.stage.Calling? then path !in d.fs
      else
        && (p.stage.Failing? || path in d.fs)
        && (path in d.fs ==> path in d.maker && d.maker[path] == i)
        && (p.stage.Swapping? ==> d.fs[path] == File(p.archive))
  }

  /** A path that was taken at the start is as it was, or holds the complete archive of a
      save that was told to replace it. */
  ghost predicate Survives(before: Files, s: State, path: string) {
    path in before ==>
      && path in s.disk.fs
      && (path !in s.disk.maker ==> s.disk.fs[path] == before[path])
      && (path in s.disk.maker ==> ReplacedBy(s, path, s.disk.maker[path]))
  }

  ghost predicate ReplacedBy(s: State, path: string, i: nat) {
    && i < |s.saves| && path in s.disk.fs
    && var p := s.saves[i];
       p.out == path && p.overwrite && p.replacing && p.stage == Done(true) && s.disk.fs[path] == File(p.archive)
  }

  ghost predicate Inv(pid: nat, first: nat, s: State) {
    && Numbered(pid, s) && NumbersFrom(first, s) && NamesApart(pid, first, s)
    && (forall i: nat :: i < |s.saves| ==> Own(s.disk, i, s.saves[i]))
    && (forall i: nat :: i < |s.saves| ==> Consented(s.saves[i]))
  }

  /** No step of one save touches the path another one holds. */
  lemma Apart(pid: nat, first: nat, s: State, i: nat, j: nat)
    requires Numbered(pid, s) && NumbersFrom(first, s) && NamesApart(pid, first, s)
    requires i < |s.saves| && j < |s.saves| && i != j
    requires PathOf(s.saves[j].stage).Some? && s.saves[j].replacing
    ensures PathOf(s.saves[j].stage) != PathOf(s.saves[i].stage)
    ensures PathOf(s.saves[j].stage).value != s.saves[i].out
  {
    hide Sibling;
    assert PathIs(pid, s.saves[i]) && PathIs(pid, s.saves[j]);
    if PathOf(s.saves[i].stage).Some? && s.saves[i].replacing {
      if i < j {
        SiblingsStayApart(pid, s, i, j);
      } else {
        SiblingsStayApart(pid, s, j, i);
      }
    }
  }

  ghost predicate SameAt(d: Disk, d': Disk, path: string) {
    && (path in d'.fs <==> path in d.fs) && (path in d.fs ==> d'.fs[path] == d.fs[path])
    && (path in d'.maker <==> path in d.maker) && (path in d.maker ==> d'.maker[path] == d.maker[path])
  }

  /** A step touches no path but the one its save holds and its output. */
  lemma OthersUntouched(pid: nat, d: Disk, counter: nat, i: nat, p: Save, e: Event, path: string)
    requires PathOf(p.stage) != Some(path) && p.out != path
    ensures SameAt(d, Step(pid, d, counter, i, p, e).1, path)
  {
    hide Sibling;
  }

  lemma OwnAfter(pid: nat, d: Disk, counter: nat, i: nat, p: Save, e: Event)
    requires PathIs(pid, p) && Own(d, i, p)
    ensures var (p', d', _) := Step(pid, d, counter, i, p, e); Own(d', i, p')
  {
    LongerThanOut(p.out, pid, p.number);
    hide Sibling;
  }

  lemma OwnStays(pid: nat, first: nat, s: State, e: Event, j: nat)
    requires Numbered(pid, s) && NumbersFrom(first, s) && NamesApart(pid, first, s)
    requires e.i < |s.saves| && j < |s.saves| && j != e.i
    requires Own(s.disk, j, s.saves[j])
    ensures Own(Step(pid, s.disk, s.counter, e.i, s.saves[e.i], e).1, j, s.saves[j])
  {
    hide Sibling, Step, Numbered, NumbersFrom, NamesApart;
    if PathOf(s.saves[j].stage).Some? && s.saves[j].replacing {
      Apart(pid, first, s, e.i, j);
      OthersUntouched(pid, s.disk, s.counter, e.i, s.saves[e.i], e, PathOf(s.saves[j].stage).value);
    }
  }

  lemma OfOne(pid: nat, first: nat, s: State, i: nat)
    requires Inv(pid, first, s) && i < |s.saves|
    ensures PathIs(pid, s.saves[i]) && Own(s.disk, i, s.saves[i]) && Consented(s.saves[i])
    ensures HasNumber(s.saves[i]) ==>
              forall j: nat :: j < |s.saves| ==> s.saves[j].out != Sibling(s.saves[i].out, pid, s.saves[i].number)
  {
  }

  lemma KeepsInv(pid: nat, first: nat, s: State, e: Event)
    requires Inv(pid, first, s)
    ensures Inv(pid, first, Next(pid, s, e))
  {
    KeepsNumbered(pid, s, e);
    if e.i < |s.saves| {
      OfOne(pid, first, s, e.i);
      StepOfOne(pid, s.disk, s.counter, e.i, s.saves[e.i], e);
      OwnAfter(pid, s.disk, s.counter, e.i, s.saves[e.i], e);
      hide Sibling, Numbered, Step, PathIs, HasNumber, Own, Consented;
      forall j: nat | j < |s.saves| && j != e.i
        ensures Own(Step(pid, s.disk, s.counter, e.i, s.saves[e.i], e).1, j, s.saves[j])
      {
        OwnStays(pid, first, s, e, j);
      }
    }
  }

  /** A step of a save that holds none of the user's files leaves them alone, and so does
      one that swaps a complete archive in. */
  lemma KeepsSurvival(pid: nat, first: nat, before: Files, s: State, e: Event, path: string)
    requires Inv(pid, first, s) && Survives(before, s, path)
    ensures Survives(before, Next(pid, s, e), path)
  {
    if path in before && e.i < |s.saves| {
      OfOne(pid, first, s, e.i);
      hide Sibling, Numbered, NumbersFrom, NamesApart, Inv;
      var p := s.saves[e.i];
      if PathOf(p.stage) != Some(path) && p.out != path {
        OthersUntouched(pid, s.disk, s.counter, e.i, p, e, path);
        DoneStays(pid, s, e);
      }
    }
  }

  lemma DoneStays(pid: nat, s: State, e: Event)
    requires e.i < |s.saves|
    ensures s.saves[e.i].stage.Done? ==> Next(pid, s, e) == s
  {
  }

  /** Over every interleaving of any number of saves: no two replacements ever hold the
      same sibling, the daemon never finds one taken, each replacement removes or renames
      only what its own daemon call created, and nothing the user had is lost but to a
      complete archive, by name and with consent. */
  lemma {:induction false} RacesAreSafe(pid: nat, start: State, es: seq<Event>, path: string)
    requires IsStart(start) && NamesApart(pid, start.counter, start)
    ensures Inv(pid, start.counter, Run(pid, start, es)) && Survives(start.disk.fs, Run(pid, start, es), path)
  {
    if es == [] {
      hide Sibling;
    } else {
      hide Inv, Survives, Next;
      RacesAreSafe(pid, start, es[..|es| - 1], path);
      KeepsInv(pid, start.counter, Run(pid, start, es[..|es| - 1]), es[|es| - 1]);
      KeepsSurvival(pid, start.counter, start.disk.fs, Run(pid, start, es[..|es| - 1]), es[|es| - 1], path);
    }
  }

  // ---- What was reported as saved ----

  /** Some save to the path was reported as done. */
  ghost predicate Claimed(s: State, path: string) {
    exists i: nat :: i < |s.saves| && s.saves[i].stage == Done(true) && s.saves[i].out == path
  }

  /** What is at the path was put there by a save that was asked to write to it. */
  ghost predicate Placed(s: State, path: string) {
    && path in s.disk.fs && path in s.disk.maker && s.disk.maker[path] < |s.saves|
    && s.saves[s.disk.maker[path]].out == path
  }

  /** And that save was reported as done. */
  ghost predicate Reported(s: State, path: string) {
    Placed(s, path) && s.saves[s.disk.maker[path]].stage == Done(true)
  }

  /** The step is the clean-up or the rename, by a replacement, of a path that it holds as
      its sibling and that another save was asked to write to and did. */
  ghost predicate Takes(s: State, e: Event, path: string) {
    && e.i < |s.saves| && Placed(s, path) && e.ok && s.saves[e.i].replacing
    && var p := s.saves[e.i];
       || (p.stage == Failing(path) && !s.disk.fs[path].Directory?)
       || (p.stage == Swapping(path) && CanRename(s.disk.fs, p.out, true))
  }

  /** Exactly when a step makes a reported archive vanish from its path; any other step
      leaves one there. */
  lemma VanishesExactlyWhen(pid: nat, s: State, e: Event, path: string)
    requires Numbered(pid, s) && Reported(s, path)
    ensures path !in Next(pid, s, e).disk.fs <==> Takes(s, e, path)
    ensures !Takes(s, e, path) ==> Reported(Next(pid, s, e), path)
  {
    if e.i < |s.saves| {
      var p := s.saves[e.i];
      assert PathIs(pid, p);
      LongerThanOut(p.out, pid, p.number);
      hide Sibling, Numbered;
      if PathOf(p.stage) != Some(path) && p.out != path {
        OthersUntouched(pid, s.disk, s.counter, e.i, p, e, path);
        StepOfOne(pid, s.disk, s.counter, e.i, p, e);
      }
    }
  }

  /** A path to which a save was reported holds one; and while a file is being written
      there, it is the writer's or such an archive. */
  ghost predicate Secure(s: State, path: string) {
    && (Claimed(s, path) ==> Reported(s, path))
    && forall i: nat :: i < |s.saves| ==> WritesOwn(s, i, path)
  }

  ghost predicate WritesOwn(s: State, i: nat, path: string)
    requires i < |s.saves|
  {
    s.saves[i].stage == Writing(path) && !s.saves[i].replacing ==> Mine(s.disk, i, path) || Reported(s, path)
  }

  /** A save gets done by completing its file or by its rename; either way what is at its
      output is its own, unless its file had been taken from it. */
  lemma GetsDone(pid: nat, d: Disk, counter: nat, i: nat, p: Save, e: Event)
    requires PathIs(pid, p) && p.stage != Done(true) && Step(pid, d, counter, i, p, e).0.stage == Done(true)
    ensures var d' := Step(pid, d, counter, i, p, e).1;
            || Mine(d', i, p.out)
            || (p.stage == Writing(p.out) && !p.replacing && !Mine(d, i, p.out) && d' == d)
  {
    hide Sibling;
  }

  /** What a step leads to at a path nobody has reported yet. */
  lemma FirstClaim(pid: nat, s: State, e: Event, path: string)
    requires Numbered(pid, s) && Secure(s, path) && !Claimed(s, path)
    ensures Claimed(Next(pid, s, e), path) ==> Reported(Next(pid, s, e), path)
  {
    var s' := Next(pid, s, e);
    if Claimed(s', path) {
      var i: nat :| i < |s'.saves| && s'.saves[i].stage == Done(true) && s'.saves[i].out == path;
      assert i == e.i;
      var p := s.saves[i];
      assert PathIs(pid, p) && WritesOwn(s, i, path);
      StepOfOne(pid, s.disk, s.counter, i, p, e);
      GetsDone(pid, s.disk, s.counter, i, p, e);
      hide Step, Numbered, Secure, PathIs, HasNumber, Consented;
    }
  }

  lemma StillWritesOwn(pid: nat, s: State, e: Event, path: string, i: nat)
    requires Numbered(pid, s) && Secure(s, path) && !Takes(s, e, path) && i < |s.saves| && !Reported(s, path)
    ensures i < |Next(pid, s, e).saves| && WritesOwn(Next(pid, s, e), i, path)
  {
    assert WritesOwn(s, i, path) && PathIs(pid, s.saves[i]);
    if e.i < |s.saves| {
      var p := s.saves[e.i];
      assert PathIs(pid, p);
      LongerThanOut(p.out, pid, p.number);
      hide Sibling, Numbered, Secure;
      if e.i != i && PathOf(p.stage) != Some(path) && p.out != path {
        OthersUntouched(pid, s.disk, s.counter, e.i, p, e, path);
      }
    }
  }

  lemma KeepsSecure(pid: nat, s: State, e: Event, path: string)
    requires Numbered(pid, s) && Secure(s, path) && !Takes(s, e, path)
    ensures Secure(Next(pid, s, e), path)
  {
    hide Numbered, Next, Claimed, Reported, Takes;
    if Reported(s, path) {
      VanishesExactlyWhen(pid, s, e, path);
    } else {
      FirstClaim(pid, s, e, path);
      SameNumber(pid, s, e);
      forall i: nat | i < |s.saves| ensures WritesOwn(Next(pid, s, e), i, path) {
        StillWritesOwn(pid, s, e, path, i);
      }
    }
  }

  lemma SameNumber(pid: nat, s: State, e: Event)
    ensures |Next(pid, s, e).saves| == |s.saves|
  {
  }

  /** Over every interleaving, whatever the names: an archive reported as saved is missing
      from its path only if some step took it from there. */
  lemma {:induction false} LostOnlyByTaking(pid: nat, start: State, es: seq<Event>, path: string)
    requires IsStart(start)
    requires forall k: nat :: k < |es| ==> !Takes(Run(pid, start, es[..k]), es[k], path)
    ensures Numbered(pid, Run(pid, start, es)) && Secure(Run(pid, start, es), path)
  {
    if es == [] {
      hide Sibling;
    } else {
      hide Numbered, Secure, Next, Takes;
      var init := es[..|es| - 1];
      forall k: nat | k < |init| ensures !Takes(Run(pid, start, init[..k]), init[k], path) {
        assert init[..k] == es[..k];
      }
      LostOnlyByTaking(pid, start, init, path);
      KeepsNumbered(pid, Run(pid, start, init), es[|es| - 1]);
      KeepsSecure(pid, Run(pid, start, init), es[|es| - 1], path);
    }
  }

  /** Where the names are apart, no step takes anything. */
  lemma ApartNeverTakes(pid: nat, first: nat, s: State, e: Event, path: string)
    requires Inv(pid, first, s)
    ensures !Takes(s, e, path)
  {
    if e.i < |s.saves| {
      OfOne(pid, first, s, e.i);
      hide Sibling, Inv;
    }
  }

  /** A reported archive is complete. */
  ghost predicate Complete(s: State, path: string) {
    Reported(s, path) ==> s.disk.fs[path] == File(s.saves[s.disk.maker[path]].archive)
  }

  lemma KeepsComplete(pid: nat, first: nat, s: State, e: Event, path: string)
    requires Inv(pid, first, s) && Complete(s, path)
    ensures Complete(Next(pid, s, e), path)
  {
    if e.i < |s.saves| {
      var p := s.saves[e.i];
      OfOne(pid, first, s, e.i);
      if PathOf(p.stage) != Some(path) && p.out != path {
        OthersUntouched(pid, s.disk, s.counter, e.i, p, e, path);
        StepOfOne(pid, s.disk, s.counter, e.i, p, e);
        hide Sibling, Inv, PathIs, Own, Consented, HasNumber, PathOf;
      } else {
        CompletesOwn(pid, s, e, path);
      }
    }
  }

  lemma CompletesOwn(pid: nat, s: State, e: Event, path: string)
    requires e.i < |s.saves| && PathIs(pid, s.saves[e.i]) && Own(s.disk, e.i, s.saves[e.i]) && Complete(s, path)
    requires PathOf(s.saves[e.i].stage) == Some(path) || s.saves[e.i].out == path
    ensures Complete(Next(pid, s, e), path)
  {
    var p := s.saves[e.i];
    StepOfOne(pid, s.disk, s.counter, e.i, p, e);
    AtItsPath(pid, s.disk, s.counter, e.i, p, e, path);
    hide Step, PathIs, Own, HasNumber, Consented, PathOf;
  }

  /** After a step what is at the save's path or output is what was there, or belongs to the save that made
      the step, which has written its archive if it is done. */
  lemma AtItsPath(pid: nat, d: Disk, counter: nat, i: nat, p: Save, e: Event, path: string)
    requires PathIs(pid, p) && Own(d, i, p) && (PathOf(p.stage) == Some(path) || p.out == path)
    ensures var (p', d', _) := Step(pid, d, counter, i, p, e);
            path in d'.fs && path in d'.maker ==>
              || (SameAt(d, d', path) && (d'.maker[path] == i && p'.stage == Done(true) ==> p.stage == Done(true)))
              || (d'.maker[path] == i && (p'.stage == Done(true) ==> d'.fs[path] == File(p.archive)))
  {
    LongerThanOut(p.out, pid, p.number);
    hide Sibling;
  }

  /** Over every interleaving of saves whose names are apart: once a save was reported as
      done, its output holds the complete archive of a save to that output that was
      reported as done. */
  lemma SavedArchivesStay(pid: nat, start: State, es: seq<Event>, i: nat) returns (j: nat)
    requires IsStart(start) && NamesApart(pid, start.counter, start)
    requires var s := Run(pid, start, es); i < |s.saves| && s.saves[i].stage == Done(true)
    ensures var s := Run(pid, start, es);
            var out := s.saves[i].out;
            && j < |s.saves| && s.saves[j].stage == Done(true) && s.saves[j].out == out
            && out in s.disk.fs && s.disk.fs[out] == File(s.saves[j].archive)
  {
    var s := Run(pid, start, es);
    var out := s.saves[i].out;
    hide Run, Numbered, NamesApart, Takes, Inv;
    forall k: nat | k < |es| ensures !Takes(Run(pid, start, es[..k]), es[k], out) {
      RacesAreSafe(pid, start, es[..k], out);
      ApartNeverTakes(pid, start.counter, Run(pid, start, es[..k]), es[k], out);
    }
    LostOnlyByTaking(pid, start, es, out);
    AllComplete(pid, start, es, out);
    assert Claimed(s, out);
    j := s.disk.maker[out];
  }

  lemma {:induction false} AllComplete(pid: nat, start: State, es: seq<Event>, path: string)
    requires IsStart(start) && NamesApart(pid, start.counter, start)
    ensures Complete(Run(pid, start, es), path)
  {
    if es != [] {
      hide Inv, Complete, Next, NamesApart;
      AllComplete(pid, start, es[..|es| - 1], path);
      RacesAreSafe(pid, start, es[..|es| - 1], path);
      KeepsComplete(pid, start.counter, Run(pid, start, es[..|es| - 1]), es[|es| - 1], path);
    }
  }

  // ---- Why the names must be apart ----

  lemma RunSnoc(pid: nat, s: State, es: seq<Event>, e: Event)
    ensures Run(pid, s, es + [e]) == Next(pid, Run(pid, s, es), e)
  {
    assert (es + [e])[..|es|] == es;
  }

  lemma LongerThanOut(out: string, pid: nat, n: nat)
    ensures Sibling(out, pid, n) != out
  {
    assert |Sibling(out, pid, n)| > |out|;
  }

  /** One replacement of `out`, and one save to the very name of its first sibling. */
  function Clash(pid: nat, out: string): State {
    State(Disk(map[out := File("old")], map[]), 0,
          [Save(out, true, "new", false, 0, Idle), Save(Sibling(out, pid, 0), false, "other", false, 0, Idle)])
  }

  lemma SecondSteps(pid: nat, s: State, path: string)
    requires |s.saves| == 2 && s.saves[1] == Save(path, false, "other", false, 0, Idle) && path !in s.disk.fs
    ensures var e := Event(1, true, true);
            var s' := Next(pid, Next(pid, Next(pid, s, e), e), e);
            && |s'.saves| == 2 && s'.saves[0] == s.saves[0] && s'.saves[1].stage == Done(true)
            && path in s'.disk.fs && s'.disk.fs[path] == File("other")
  {
    var e, p := Event(1, true, true), s.saves[1];
    var s1 := Next(pid, s, e);
    assert s1 == s.(saves := s.saves[1 := p.(stage := Calling(path))]);
    var s2 := Next(pid, s1, e);
    assert s2.saves == s.saves[1 := p.(stage := Writing(path))] && Mine(s2.disk, 1, path);
  }

  lemma SecondWrites(pid: nat, s: State, es: seq<Event>, path: string)
    requires var s' := Run(pid, s, es);
             && |s'.saves| == 2 && s'.saves[1] == Save(path, false, "other", false, 0, Idle)
             && path !in s'.disk.fs
    ensures var e := Event(1, true, true);
            var s', s'' := Run(pid, s, es), Run(pid, s, es + [e] + [e] + [e]);
            && |s''.saves| == 2 && s''.saves[0] == s'.saves[0] && s''.saves[1].stage == Done(true)
            && path in s''.disk.fs && s''.disk.fs[path] == File("other")
  {
    hide Run, Next;
    var e := Event(1, true, true);
    RunSnoc(pid, s, es, e);
    RunSnoc(pid, s, es + [e], e);
    RunSnoc(pid, s, es + [e] + [e], e);
    SecondSteps(pid, Run(pid, s, es), path);
  }

  lemma FirstRemoves(pid: nat, s: State, es: seq<Event>, path: string)
    requires var s' := Run(pid, s, es);
             && |s'.saves| == 2 && s'.saves[0].stage == Calling(path) && s'.saves[0].replacing
             && s'.saves[1].stage == Done(true) && path in s'.disk.fs && s'.disk.fs[path] == File("other")
    ensures var e := Event(0, true, true);
            var s'' := Run(pid, s, es + [e] + [e]);
            |s''.saves| == 2 && s''.saves[1].stage == Done(true) && path !in s''.disk.fs
  {
    hide Sibling;
    var e := Event(0, true, true);
    RunSnoc(pid, s, es, e);
    RunSnoc(pid, s, es + [e], e);
  }

  /** If they are not apart, an archive that was reported as saved can be lost: the first
      save looks, the second writes its archive, the first finds its sibling taken and
      removes it. */
  lemma ClashLosesAnArchive(pid: nat, out: string)
    ensures IsStart(Clash(pid, out)) && !NamesApart(pid, 0, Clash(pid, out))
    ensures exists es :: var s := Run(pid, Clash(pid, out), es);
                         && |s.saves| == 2 && s.saves[1].stage == Done(true)
                         && Sibling(out, pid, 0) !in s.disk.fs
  {
    LongerThanOut(out, pid, 0);
    var s, path := Clash(pid, out), Sibling(out, pid, 0);
    assert s.saves[1].out == Sibling(s.saves[0].out, pid, 0);
    var a, b := Event(0, true, true), Event(1, true, true);
    Looks(pid, s, 0);
    hide Sibling, Run;
    var es := [] + [a] + [a] + [a];
    SecondWrites(pid, s, es, path);
    FirstRemoves(pid, s, es + [b] + [b] + [b], path);
    assert path !in Run(pid, s, es + [b] + [b] + [b] + [a] + [a]).disk.fs;
  }

  // ---- The second way to lose one ----

  lemma {:induction false} RunConcat(pid: nat, s: State, a: seq<Event>, b: seq<Event>)
    ensures Run(pid, s, a + b) == Run(pid, Run(pid, s, a), b)
  {
    hide Next;
    if b == [] {
      assert a + b == a;
    } else {
      RunConcat(pid, s, a, b[..|b| - 1]);
      assert (a + b)[..|a + b| - 1] == a + b[..|b| - 1];
    }
  }

  function Five(i: nat): seq<Event> {
    var e := Event(i, true, true);
    [] + [e] + [e] + [e] + [e] + [e]
  }

  /** A replacement that finds its sibling free, up to its rename. */
  lemma UpToTheRename(pid: nat, s: State, i: nat)
    requires i < |s.saves| && s.saves[i].stage == Idle && s.saves[i].overwrite && Exists(s.disk.fs, s.saves[i].out)
    requires Sibling(s.saves[i].out, pid, s.counter) !in s.disk.fs
    ensures var path := Sibling(s.saves[i].out, pid, s.counter);
            Run(pid, s, Five(i)) ==
            State(Disk(s.disk.fs[path := File(s.saves[i].archive)], s.disk.maker[path := i]), s.counter + 1,
                  s.saves[i := s.saves[i].(replacing := true, number := s.counter, stage := Swapping(path))])
  {
    hide Sibling, Run;
    var e, p, path := Event(i, true, true), s.saves[i], Sibling(s.saves[i].out, pid, s.counter);
    var s3 := State(s.disk, s.counter + 1,
                    s.saves[i := p.(replacing := true, number := s.counter, stage := Calling(path))]);
    Looks(pid, s, i);
    RunSnoc(pid, s, [] + [e] + [e] + [e], e);
    RunSnoc(pid, s, [] + [e] + [e] + [e] + [e], e);
    var d := Disk(s.disk.fs[path := File("")], s.disk.maker[path := i]);
    assert Next(pid, s3, e) == State(d, s.counter + 1, s.saves[i := s3.saves[i].(stage := Writing(path))]);
    assert d.fs[path := File(p.archive)] == s.disk.fs[path := File(p.archive)];
  }

  lemma Looks(pid: nat, s: State, i: nat)
    requires i < |s.saves| && s.saves[i].stage == Idle && s.saves[i].overwrite && Exists(s.disk.fs, s.saves[i].out)
    requires Sibling(s.saves[i].out, pid, s.counter) !in s.disk.fs
    ensures var e, path := Event(i, true, true), Sibling(s.saves[i].out, pid, s.counter);
            Run(pid, s, [] + [e] + [e] + [e]) ==
            State(s.disk, s.counter + 1,
                  s.saves[i := s.saves[i].(replacing := true, number := s.counter, stage := Calling(path))])
  {
    hide Sibling;
    var e, p := Event(i, true, true), s.saves[i];
    RunSnoc(pid, s, [], e);
    RunSnoc(pid, s, [] + [e], e);
    RunSnoc(pid, s, [] + [e] + [e], e);
    assert Next(pid, s, e) == s.(saves := s.saves[i := p.(replacing := true, stage := Drawing)]);
  }

  /** One replacement, and one that replaces the first one's sibling. */
  function Chase(pid: nat, out: string): State {
    State(Disk(map[out := File("old")], map[]), 0,
          [Save(out, true, "new", false, 0, Idle), Save(Sibling(out, pid, 0), true, "other", false, 0, Idle)])
  }

  /** Both are reported as saved, and yet the second archive is not at its path: the first
      save's rename has moved it away, and its own archive is lost. */
  lemma RenameMovesAnArchive(pid: nat, out: string)
    ensures IsStart(Chase(pid, out))
    ensures exists es :: var s := Run(pid, Chase(pid, out), es);
                         && |s.saves| == 2 && s.saves[0].stage == Done(true) && s.saves[1].stage == Done(true)
                         && Sibling(out, pid, 0) !in s.disk.fs
                         && out in s.disk.fs && s.disk.fs[out] == File("other")
  {
    var s, path := Chase(pid, out), Sibling(out, pid, 0);
    var next := BothReady(pid, out);
    hide Sibling, Run, Chase;
    var a, b := Event(0, true, true), Event(1, true, true);
    var es := Five(0) + Five(1);
    RunSnoc(pid, s, es, b);
    RunSnoc(pid, s, es + [b], a);
    BothRename(pid, Run(pid, s, es), out, path, next);
    assert path !in Run(pid, s, es + [b] + [a]).disk.fs;
  }

  lemma BothReady(pid: nat, out: string) returns (next: string)
    ensures ReadyToRename(Run(pid, Chase(pid, out), Five(0) + Five(1)), out, Sibling(out, pid, 0), next)
  {
    var s, path := Chase(pid, out), Sibling(out, pid, 0);
    next := Sibling(path, pid, 1);
    assert next != out && path != out && next != path by { assert |next| > |path| > |out|; }
    hide Sibling, Run;
    UpToTheRename(pid, s, 0);
    UpToTheRename(pid, Run(pid, s, Five(0)), 1);
    RunConcat(pid, s, Five(0), Five(1));
  }

  ghost predicate ReadyToRename(s: State, out: string, path: string, next: string) {
    && out != path && out != next && path != next && |s.saves| == 2
    && s.saves[0].stage == Swapping(path) && s.saves[0].out == out
    && s.saves[1].stage == Swapping(next) && s.saves[1].out == path
    && out in s.disk.fs && path in s.disk.fs && next in s.disk.fs
    && s.disk.fs[out].File? && s.disk.fs[path].File? && s.disk.fs[next] == File("other")
  }

  lemma BothRename(pid: nat, s: State, out: string, path: string, next: string)
    requires ReadyToRename(s, out, path, next)
    ensures var s' := Next(pid, Next(pid, s, Event(1, true, true)), Event(0, true, true));
            && |s'.saves| == 2 && s'.saves[0].stage == Done(true) && s'.saves[1].stage == Done(true)
            && path !in s'.disk.fs && out in s'.disk.fs && s'.disk.fs[out] == File("other")
  {
    hide Sibling;
  }
}
