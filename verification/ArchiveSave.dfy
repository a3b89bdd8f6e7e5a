/** Saving an archive, in place of an existing one when the user agreed to it
    (`save_archive_core` in `app/src-tauri/src/commands.rs`). */
module ArchiveSave {
  import opened Basics

  /** What a path leads to. A dangling link is there, although nothing exists behind it. */
  datatype Node = File(content: string) | Directory | DanglingLink

  type Files = map<string, Node>

  predicate Exists(fs: Files, path: string) {
    path in fs && !fs[path].DanglingLink?
  }

  /** The process id, the platform's path syntax and its white space. */
  datatype Host = Host(pid: nat, absolute: string -> bool, trim: string -> string)

  datatype Opts = Opts(names: seq<string>, out: string, overwrite: bool)

  /** What the daemon does with a free target: a complete archive, or a failure that may
      leave something behind. */
  datatype Daemon = Saves(archive: string) | Fails(left: Option<string>)

  /** How the calls out of the program fare: the daemon, the removal, the rename. */
  datatype World = World(daemon: Daemon, removes: bool, renames: bool)

  datatype Problem = NoNames | NoPath | RelativePath | AlreadyExists | NotSaved | NotReplaced

  datatype Outcome = Saved(path: string) | Failed(why: Problem)

  // ---- The calls out ----

  /** The daemon refuses a path that is taken and touches nothing but its target. */
  function DaemonFiles(fs: Files, target: string, d: Daemon): Files {
    if target in fs then fs
    else match d
      case Saves(archive) => fs[target := File(archive)]
      case Fails(left) => if left.Some? then fs[target := File(left.value)] else fs
  }

  predicate DaemonSaves(fs: Files, target: string, d: Daemon) {
    target !in fs && d.Saves?
  }

  function Removed(fs: Files, path: string, ok: bool): Files {
    if ok && path in fs && !fs[path].Directory? then fs - {path} else fs
  }

  /** A file cannot be renamed over a directory. */
  predicate CanRename(fs: Files, to: string, ok: bool) {
    ok && !(to in fs && fs[to].Directory?)
  }

  // ---- The sibling ----

  function Sibling(out: string, pid: nat, seqNo: nat): string {
    Numbered(Numbered(out, '.', pid), '.', seqNo) + ".replacing"
  }

  /** The sibling is in the directory of the archive it is to replace, and is not it. */
  lemma SiblingIsBeside(out: string, pid: nat, seqNo: nat)
    ensures var s := Sibling(out, pid, seqNo);
            out < s && forall i :: |out| <= i < |s| ==> s[i] != '/' && s[i] != '\\'
  {
    var a := Numbered(out, '.', pid);
    var b := Numbered(a, '.', seqNo);
    assert a == out + ("." + Decimal(pid)) && b == a + ("." + Decimal(seqNo));
    var s := Sibling(out, pid, seqNo);
    assert s == out + ("." + Decimal(pid) + "." + Decimal(seqNo) + ".replacing");
  }

  /** Two attempts of one process never share a sibling, whatever they save. */
  lemma SiblingsDiffer(out: string, out': string, pid: nat, m: nat, n: nat)
    requires Sibling(out, pid, m) == Sibling(out', pid, n)
    ensures out == out' && m == n
  {
    var s, s' := Sibling(out, pid, m), Sibling(out', pid, n);
    assert Numbered(Numbered(out, '.', pid), '.', m) == s[..|s| - 10];
    assert Numbered(Numbered(out', '.', pid), '.', n) == s'[..|s'| - 10];
    NumberedInjective(Numbered(out, '.', pid), m, Numbered(out', '.', pid), n, '.');
    NumberedInjective(out, pid, out', pid, '.');
  }

  /** The taken siblings the search may still meet. */
  ghost function Ahead(fs: Files, out: string, pid: nat, seqNo: nat): set<string> {
    set p | p in fs && exists k: nat :: k >= seqNo && p == Sibling(out, pid, k)
  }

  lemma SearchAdvances(fs: Files, out: string, pid: nat, seqNo: nat)
    requires Sibling(out, pid, seqNo) in fs
    ensures Ahead(fs, out, pid, seqNo + 1) < Ahead(fs, out, pid, seqNo)
  {
    var p := Sibling(out, pid, seqNo);
    assert p in Ahead(fs, out, pid, seqNo);
    forall k: nat | p == Sibling(out, pid, k) ensures k == seqNo {
      SiblingsDiffer(out, out, pid, k, seqNo);
    }
  }

  /** The first number whose sibling is free; the search ends on every finite directory. */
  ghost function FirstUnused(fs: Files, out: string, pid: nat, seqNo: nat): (k: nat)
    ensures seqNo <= k && Sibling(out, pid, k) !in fs
    ensures forall j :: seqNo <= j < k ==> Sibling(out, pid, j) in fs
    decreases Ahead(fs, out, pid, seqNo)
  {
    if Sibling(out, pid, seqNo) in fs then
      SearchAdvances(fs, out, pid, seqNo);
      FirstUnused(fs, out, pid, seqNo + 1)
    else seqNo
  }

  // ---- The save ----

  predicate Accepted(h: Host, fs: Files, o: Opts) {
    && o.names != [] && h.trim(o.out) != "" && h.absolute(h.trim(o.out))
    && (Exists(fs, h.trim(o.out)) ==> o.overwrite)
  }

  /** Where the daemon writes. */
  ghost function Target(h: Host, fs: Files, seqNo: nat, o: Opts): string {
    var out := h.trim(o.out);
    if Exists(fs, out) then Sibling(out, h.pid, FirstUnused(fs, out, h.pid, seqNo)) else out
  }

  /** An existing file is to be replaced. */
  predicate Replaces(h: Host, fs: Files, o: Opts) {
    Accepted(h, fs, o) && Exists(fs, h.trim(o.out))
  }

  ghost function NextCounter(h: Host, fs: Files, seqNo: nat, o: Opts): nat {
    if Replaces(h, fs, o) then FirstUnused(fs, h.trim(o.out), h.pid, seqNo) + 1 else seqNo
  }

  /** A save comes through exactly when its input is accepted, the daemon completes the
      archive and, if a file is replaced, the rename succeeds. */
  ghost predicate Succeeds(h: Host, fs: Files, seqNo: nat, o: Opts, w: World) {
    var out := h.trim(o.out);
    && Accepted(h, fs, o)
    && DaemonSaves(fs, Target(h, fs, seqNo, o), w.daemon)
    && (Exists(fs, out) ==> CanRename(fs, out, w.renames))
  }

  /** What a save may do to the files: all or nothing. On success the output is the
      complete archive and nothing else changed. On failure every path that was taken is
      as it was; at most the daemon's target, which was free, is new, and a failed
      replacement leaves there the complete archive or what could not be removed. */
  ghost predicate AllOrNothing(h: Host, fs: Files, seqNo: nat, o: Opts, w: World, fs': Files) {
    var out, target := h.trim(o.out), Target(h, fs, seqNo, o);
    if Succeeds(h, fs, seqNo, o, w) then fs' == fs[out := File(w.daemon.archive)]
    else if !Accepted(h, fs, o) then fs' == fs
    else
      && (forall p :: p in fs ==> p in fs' && fs'[p] == fs[p])
      && (forall p :: p in fs' && p !in fs ==> p == target)
      && (Exists(fs, out) && w.daemon.Fails? && w.removes ==> fs' == fs)
      && (Exists(fs, out) && w.daemon.Saves? ==> fs' == fs[target := File(w.daemon.archive)])
  }

  /** The app's process: its counter and the files it works on. */
  class Saver {
    var seqNo: nat
    var fs: Files

    constructor (files: Files)
      ensures seqNo == 0 && fs == files
    {
      seqNo, fs := 0, files;
    }

    /** `replacement_path` with `unused_sibling`. */
    method ReplacementPath(h: Host, out: string) returns (path: string)
      modifies `seqNo
      ensures seqNo == FirstUnused(fs, out, h.pid, old(seqNo)) + 1
      ensures path == Sibling(out, h.pid, seqNo - 1) && path !in fs
    {
      path := Sibling(out, h.pid, seqNo);
      seqNo := seqNo + 1;
      while path in fs
        invariant seqNo > 0 && path == Sibling(out, h.pid, seqNo - 1)
        invariant FirstUnused(fs, out, h.pid, old(seqNo)) == FirstUnused(fs, out, h.pid, seqNo - 1)
        decreases Ahead(fs, out, h.pid, seqNo - 1)
      {
        SearchAdvances(fs, out, h.pid, seqNo - 1);
        path := Sibling(out, h.pid, seqNo);
        seqNo := seqNo + 1;
      }
    }

    /** `save_archive_core`. */
    method Save(h: Host, o: Opts, w: World) returns (r: Outcome)
      modifies this
      ensures seqNo == NextCounter(h, old(fs), old(seqNo), o)
      ensures r == Saved(h.trim(o.out)) <==> Succeeds(h, old(fs), old(seqNo), o, w)
      ensures r.Saved? ==> r.path == h.trim(o.out)
      ensures AllOrNothing(h, old(fs), old(seqNo), o, w, fs)
      ensures Accepted(h, old(fs), o) <==> r.Saved? || r.why.NotSaved? || r.why.NotReplaced?
      // Refused before anything is touched, for the first of these reasons that applies.
      ensures r == Failed(NoNames) <==> o.names == []
      ensures r == Failed(NoPath) <==> o.names != [] && h.trim(o.out) == ""
      ensures r == Failed(RelativePath) <==> o.names != [] && h.trim(o.out) != "" && !h.absolute(h.trim(o.out))
      ensures r == Failed(AlreadyExists) <==>
              && o.names != [] && h.trim(o.out) != "" && h.absolute(h.trim(o.out))
              && Exists(old(fs), h.trim(o.out)) && !o.overwrite
      ensures Exists(old(fs), h.trim(o.out)) && !o.overwrite ==> r.Failed? && fs == old(fs) && seqNo == old(seqNo)
      ensures r.Failed? && !r.why.NotSaved? && !r.why.NotReplaced? ==> fs == old(fs) && seqNo == old(seqNo)
      // What is behind a dangling link does not exist, yet its place is taken.
      ensures h.trim(o.out) in old(fs) && old(fs)[h.trim(o.out)].DanglingLink? ==> r.Failed? && fs == old(fs)
      ensures r == Failed(NotReplaced) ==> Exists(old(fs), h.trim(o.out)) && o.overwrite && w.daemon.Saves?
    {
      if o.names == [] {
        return Failed(NoNames);
      }
      var out := h.trim(o.out);
      if out == "" {
        return Failed(NoPath);
      }
      if !h.absolute(out) {
        return Failed(RelativePath);
      }
      var replacing := Exists(fs, out);
      if replacing && !o.overwrite {
        return Failed(AlreadyExists);
      }
      var target := out;
      if replacing {
        target := ReplacementPath(h, out);
      }
      var saved := DaemonSaves(fs, target, w.daemon);
      fs := DaemonFiles(fs, target, w.daemon);
      if !saved {
        if replacing {
          fs := Removed(fs, target, w.removes);
        }
        return Failed(NotSaved);
      }
      if replacing {
        if !CanRename(fs, out, w.renames) {
          return Failed(NotReplaced);
        }
        fs := (fs - {target})[out := fs[target]];
      }
      return Saved(out);
    }
  }

  // ---- Many saves ----

  datatype Attempt = Attempt(opts: Opts, world: World)

  /** The files and the counter before and after each save of a run. */
  ghost predicate IsRun(h: Host, attempts: seq<Attempt>, files: seq<Files>, counters: seq<nat>) {
    && |files| == |counters| == |attempts| + 1
    && forall i :: 0 <= i < |attempts| ==>
         && AllOrNothing(h, files[i], counters[i], attempts[i].opts, attempts[i].world, files[i + 1])
         && counters[i + 1] == NextCounter(h, files[i], counters[i], attempts[i].opts)
  }

  /** Over any run of saves, a path the user had is lost only to a save that replaced it,
      by its name and with consent, with a complete archive. */
  lemma {:induction false} BackupsSurvive(h: Host, attempts: seq<Attempt>, files: seq<Files>, counters: seq<nat>,
                                          n: nat, path: string)
    requires IsRun(h, attempts, files, counters) && n <= |attempts| && path in files[0]
    ensures path in files[n]
    ensures files[n][path] == files[0][path]
         || exists i :: 0 <= i < n && h.trim(attempts[i].opts.out) == path && attempts[i].opts.overwrite
                        && Succeeds(h, files[i], counters[i], attempts[i].opts, attempts[i].world)
                        && files[n][path] == File(attempts[i].world.daemon.archive)
  {
    if n > 0 {
      BackupsSurvive(h, attempts, files, counters, n - 1, path);
      var i := n - 1;
      assert AllOrNothing(h, files[i], counters[i], attempts[i].opts, attempts[i].world, files[i + 1]);
    }
  }

  lemma {:induction false} CounterGrows(h: Host, attempts: seq<Attempt>, files: seq<Files>, counters: seq<nat>,
                                        i: nat, j: nat)
    requires IsRun(h, attempts, files, counters) && i <= j <= |attempts|
    ensures counters[i] <= counters[j]
    decreases j
  {
    if i < j {
      CounterGrows(h, attempts, files, counters, i, j - 1);
      var k := j - 1;
      assert counters[k + 1] == NextCounter(h, files[k], counters[k], attempts[k].opts);
    }
  }

  /** No two replacements of a run ever write to the same sibling. */
  lemma AttemptsNeverCollide(h: Host, attempts: seq<Attempt>, files: seq<Files>, counters: seq<nat>, i: nat, j: nat)
    requires IsRun(h, attempts, files, counters) && i < j < |attempts|
    requires Replaces(h, files[i], attempts[i].opts) && Replaces(h, files[j], attempts[j].opts)
    ensures Target(h, files[i], counters[i], attempts[i].opts) != Target(h, files[j], counters[j], attempts[j].opts)
  {
    CounterGrows(h, attempts, files, counters, i + 1, j);
    var out, out' := h.trim(attempts[i].opts.out), h.trim(attempts[j].opts.out);
    var m, n := FirstUnused(files[i], out, h.pid, counters[i]), FirstUnused(files[j], out', h.pid, counters[j]);
    assert counters[i + 1] == m + 1;
    if Sibling(out, h.pid, m) == Sibling(out', h.pid, n) {
      SiblingsDiffer(out, out', h.pid, m, n);
    }
  }
}
