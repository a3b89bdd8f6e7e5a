/** What the seed dialog offers for review: the netlog rows the policy does not
    cover, folded by target (`app/src/components/SeedDialog.tsx`, with
    `app/src/lib/git.ts` and `app/src/lib/policy.ts`). */
module SeedCandidates {
  import opened Basics
  import opened PolicyRows

  datatype EndpointRow = EndpointRow(
    host: Option<string>,
    destIp: string,
    port: nat,
    allowCount: nat,
    denyCount: nat,
    lastMethod: Option<string>,
    lastPath: Option<string>)

  datatype Kind = Git | Http | RawIp

  datatype Candidate = Candidate(
    key: string,
    kind: Kind,
    caption: string,
    allowCount: nat,
    denyCount: nat,
    defaultAccess: Access,
    gitTarget: Option<string>,
    host: Option<string>,
    port: Option<nat>,
    disabled: bool)

  // ---- Git rows ----

  predicate EndsWith(s: string, suffix: string) {
    |suffix| <= |s| && s[|s| - |suffix|..] == suffix
  }

  function UpTo(s: string, c: char): string {
    if s == "" || s[0] == c then "" else [s[0]] + UpTo(s[1..], c)
  }

  datatype GitOp = Push | Clone

  function GitOpFromPath(path: Option<string>): Option<GitOp> {
    if path.None? || path.value == "" then None
    else
      var bare := UpTo(path.value, '?');
      if EndsWith(bare, "/git-receive-pack") then Some(Push)
      else if EndsWith(bare, "/git-upload-pack") || EndsWith(bare, "/info/refs") then Some(Clone)
      else None
  }

  function DropSuffix(s: string, suffix: string): string {
    if EndsWith(s, suffix) then s[..|s| - |suffix|] else s
  }

  function DropSlashes(s: string): string {
    if s != "" && s[0] == '/' then DropSlashes(s[1..]) else s
  }

  function GitRepoFromRow(host: Option<string>, path: Option<string>): Option<string> {
    if host.None? || host.value == "" || path.None? || path.value == "" then None
    else
      var bare := UpTo(path.value, '?');
      if EndsWith(bare, "/info/refs") then Some(RepoName(host.value, DropSuffix(bare, "/info/refs")))
      else if EndsWith(bare, "/git-upload-pack") then Some(RepoName(host.value, DropSuffix(bare, "/git-upload-pack")))
      else if EndsWith(bare, "/git-receive-pack") then Some(RepoName(host.value, DropSuffix(bare, "/git-receive-pack")))
      else None
  }

  function RepoName(host: string, path: string): string {
    host + "/" + DropSlashes(DropSuffix(path, ".git"))
  }

  function Segments(s: string): (r: seq<string>)
    ensures r != []
  {
    var head := UpTo(s, '/');
    if |head| >= |s| then [head] else [head] + Segments(s[|head| + 1..])
  }

  predicate GlobMatch(pattern: string, value: string) {
    var p, v := Segments(pattern), Segments(value);
    |p| == |v| && forall i :: 0 <= i < |p| ==> p[i] == "*" || p[i] == v[i]
  }

  /** `git_access_for(repo, git) !== null`. */
  predicate GitCovered(repo: string, git: seq<GitRule>) {
    exists g :: g in git && (if g.Repo? then GlobMatch(g.repo, repo) else g.host == Segments(repo)[0])
  }

  // ---- Host rows ----

  function HostPort(host: string, port: nat): string {
    Numbered(host, ':', port)
  }

  /** How a port of the policy ends up in an allow key: a port that carries a
      declaration is an object, and prints as one. */
  function PortText(p: PortSpec): string {
    match p case Bare(n) => Decimal(n) case Declared(_, _) => "[object Object]"
  }

  function EntryKeys(e: AllowEntry): set<string> {
    if e.Scoped? && e.ports.Some? then set p | p in e.ports.value :: e.host + ":" + PortText(p)
    else {HostPort(e.host, 80), HostPort(e.host, 443)}
  }

  function AllowKeys(allow: seq<AllowEntry>): set<string> {
    set e, k | e in allow && k in EntryKeys(e) :: k
  }

  /** A host, a colon and a number can be told apart again. */
  lemma HostPortInjective(h1: string, p1: nat, h2: string, p2: nat)
    requires HostPort(h1, p1) == HostPort(h2, p2)
    ensures h1 == h2 && p1 == p2
  {
    NumberedInjective(h1, p1, h2, p2, ':');
  }

  /** Exactly which host rows count as covered. A port that the policy allows with a
      declared protocol is not among them: such a row is offered again although the
      policy lets it through. */
  lemma HostCovered(allow: seq<AllowEntry>, host: string, port: nat)
    ensures HostPort(host, port) in AllowKeys(allow) <==>
            exists e :: e in allow && e.host == host &&
              (if e.Scoped? && e.ports.Some? then Bare(port) in e.ports.value else port == 80 || port == 443)
  {
    var key := HostPort(host, port);
    forall e ensures key in EntryKeys(e) <==>
        e.host == host
        && (if e.Scoped? && e.ports.Some? then Bare(port) in e.ports.value else port == 80 || port == 443)
    {
      EntryCovers(e, host, port);
    }
  }

  /** For instance: the only entry allows the port, with a declaration, and the row
      is still offered. */
  lemma DeclaredPortIsOffered(row: EndpointRow, policy: Policy, protocol: Protocol)
    requires row.host.Some? && GitOpFromPath(row.lastPath).None?
    requires policy.allow == [Scoped(row.host.value, Some([Declared(row.port, protocol)]), None)]
    ensures TargetOf(row, policy) == Some(HttpTarget(row.host.value, row.port))
  {
    HostCovered(policy.allow, row.host.value, row.port);
  }

  lemma EntryCovers(e: AllowEntry, host: string, port: nat)
    ensures HostPort(host, port) in EntryKeys(e) <==>
            e.host == host
            && (if e.Scoped? && e.ports.Some? then Bare(port) in e.ports.value else port == 80 || port == 443)
  {
    hide HostPort, Decimal;
    if e.Scoped? && e.ports.Some? {
      forall p | p in e.ports.value
        ensures HostPort(host, port) == e.host + ":" + PortText(p) <==> e.host == host && p == Bare(port)
      {
        PortKey(host, port, e.host, p);
      }
      assert Bare(port) in e.ports.value && e.host == host ==> HostPort(host, port) in EntryKeys(e) by {
        PortKey(host, port, e.host, Bare(port));
      }
    } else {
      PortKey(host, port, e.host, Bare(80));
      PortKey(host, port, e.host, Bare(443));
      HostPortText(e.host, 80);
      HostPortText(e.host, 443);
    }
  }

  lemma HostPortText(host: string, port: nat)
    ensures HostPort(host, port) == host + ":" + PortText(Bare(port))
  {
  }

  /** A policy port prints like a row's port only when it is that bare number. */
  lemma PortKey(host: string, port: nat, h: string, p: PortSpec)
    ensures HostPort(host, port) == h + ":" + PortText(p) <==> h == host && p == Bare(port)
  {
    var key, other := HostPort(host, port), h + ":" + PortText(p);
    if p.Declared? {
      assert other[|other| - 1] == ']';
      assert key[|key| - 1] == Decimal(port)[|Decimal(port)| - 1];
    } else if key == other {
      HostPortInjective(host, port, h, p.port);
    }
  }

  // ---- One row ----

  /** What a row is about; two rows with one target fold into one candidate. */
  datatype Target = GitTarget(repo: string) | HttpTarget(host: string, port: nat) | RawTarget(ip: string, port: nat)

  function KeyOf(t: Target): string {
    match t
    case GitTarget(repo) => "git:" + repo
    case HttpTarget(host, port) => "http:" + HostPort(host, port)
    case RawTarget(ip, port) => "raw-ip:" + HostPort(ip, port)
  }

  /** The candidate for a target, given what the rows add up to. */
  function Make(t: Target, allowCount: nat, denyCount: nat, access: Access): Candidate {
    match t
    case GitTarget(repo) =>
      Candidate(KeyOf(t), Git, "git " + (if access.ReadWrite? then "push" else "clone") + " \U{2192} " + repo,
                allowCount, denyCount, access, Some(repo), None, None, false)
    case HttpTarget(host, port) =>
      Candidate(KeyOf(t), Http, HostPort(host, port), allowCount, denyCount, access, None, Some(host), Some(port),
                false)
    case RawTarget(ip, port) =>
      Candidate(KeyOf(t), RawIp, HostPort(ip, port), allowCount, denyCount, access, None, None, None, true)
  }

  lemma KeyInjective(t: Target, u: Target)
    requires KeyOf(t) == KeyOf(u)
    ensures t == u
  {
    assert KeyOf(t)[0] == KeyOf(u)[0];
    match t
    case GitTarget(repo) =>
      assert KeyOf(t)[4..] == repo && KeyOf(u)[4..] == u.repo;
    case HttpTarget(host, port) =>
      assert KeyOf(t)[5..] == HostPort(host, port) && KeyOf(u)[5..] == HostPort(u.host, u.port);
      HostPortInjective(host, port, u.host, u.port);
    case RawTarget(ip, port) =>
      assert KeyOf(t)[7..] == HostPort(ip, port) && KeyOf(u)[7..] == HostPort(u.ip, u.port);
      HostPortInjective(ip, port, u.ip, u.port);
  }

  /** The target of a row, or nothing when the policy already covers it. */
  function TargetOf(row: EndpointRow, policy: Policy): Option<Target> {
    var op := GitOpFromPath(row.lastPath);
    var repo := if op.Some? then GitRepoFromRow(row.host, row.lastPath) else None;
    if repo.Some? then (if GitCovered(repo.value, policy.git) then None else Some(GitTarget(repo.value)))
    else if row.host.None? then Some(RawTarget(row.destIp, row.port))
    else if HostPort(row.host.value, row.port) in AllowKeys(policy.allow) then None
    else Some(HttpTarget(row.host.value, row.port))
  }

  /** The access a row suggests for its target. */
  function AccessOf(row: EndpointRow, t: Target): Access {
    match t
    case GitTarget(_) => if GitOpFromPath(row.lastPath) == Some(Push) then ReadWrite else Read
    case HttpTarget(_, _) =>
      if row.lastMethod in {None, Some("GET"), Some("HEAD")} then Read else ReadWrite
    case RawTarget(_, _) => Read
  }

  function RowCandidate(row: EndpointRow, t: Target): Candidate {
    Make(t, row.allowCount, row.denyCount, AccessOf(row, t))
  }

  // ---- What the list must be, row order aside ----

  function Count(row: EndpointRow, denied: bool): nat {
    if denied then row.denyCount else row.allowCount
  }

  /** The counts of all rows about the target. */
  ghost function RowsSum(rows: seq<EndpointRow>, policy: Policy, t: Target, denied: bool): nat {
    if rows == [] then 0
    else
      RowsSum(rows[..|rows| - 1], policy, t, denied)
      + (if TargetOf(rows[|rows| - 1], policy) == Some(t) then Count(rows[|rows| - 1], denied) else 0)
  }

  /** The counts of all uncovered rows. */
  ghost function RowsTotal(rows: seq<EndpointRow>, policy: Policy, denied: bool): nat {
    if rows == [] then 0
    else
      RowsTotal(rows[..|rows| - 1], policy, denied)
      + (if TargetOf(rows[|rows| - 1], policy).Some? then Count(rows[|rows| - 1], denied) else 0)
  }

  ghost predicate Seen(rows: seq<EndpointRow>, policy: Policy, t: Target) {
    exists r :: r in rows && TargetOf(r, policy) == Some(t)
  }

  ghost predicate SeenWriting(rows: seq<EndpointRow>, policy: Policy, t: Target) {
    exists r :: r in rows && TargetOf(r, policy) == Some(t) && AccessOf(r, t).ReadWrite?
  }

  /** The one candidate for a target. */
  ghost function Folded(rows: seq<EndpointRow>, policy: Policy, t: Target): Candidate {
    Make(t, RowsSum(rows, policy, t, false), RowsSum(rows, policy, t, true),
         if SeenWriting(rows, policy, t) then ReadWrite else Read)
  }

  /** Code-point order. */
  predicate Less(a: string, b: string) {
    if b == "" then false
    else if a == "" then true
    else a[0] < b[0] || (a[0] == b[0] && Less(a[1..], b[1..]))
  }

  ghost predicate StrictlySorted(cs: seq<Candidate>) {
    forall i, j :: 0 <= i < j < |cs| ==> Less(cs[i].key, cs[j].key)
  }

  /** Complete, faithful and strictly sorted. */
  ghost predicate IsSeedList(rows: seq<EndpointRow>, policy: Policy, cs: seq<Candidate>) {
    && StrictlySorted(cs)
    && (forall c :: c in cs ==> exists t :: Seen(rows, policy, t) && c == Folded(rows, policy, t))
    && (forall t :: Seen(rows, policy, t) ==> Folded(rows, policy, t) in cs)
  }

  ghost function CandidatesTotal(cs: seq<Candidate>, denied: bool): nat {
    if cs == [] then 0
    else CandidatesTotal(cs[..|cs| - 1], denied)
         + (if denied then cs[|cs| - 1].denyCount else cs[|cs| - 1].allowCount)
  }

  // ---- Building it ----

  /** The entries of the source's `Map`, in insertion order. */
  ghost predicate IsFold(rows: seq<EndpointRow>, policy: Policy, entries: seq<Candidate>) {
    && (forall i, j :: 0 <= i < j < |entries| ==> entries[i].key != entries[j].key)
    && (forall c :: c in entries ==> exists t :: Seen(rows, policy, t) && c == Folded(rows, policy, t))
    && (forall t :: Seen(rows, policy, t) ==> Folded(rows, policy, t) in entries)
    && (forall denied :: CandidatesTotal(entries, denied) == RowsTotal(rows, policy, denied))
  }

  function Lookup(entries: seq<Candidate>, key: string): (r: Option<nat>)
    ensures r.Some? ==> r.value < |entries| && entries[r.value].key == key
    ensures r.None? ==> forall i :: 0 <= i < |entries| ==> entries[i].key != key
  {
    if entries == [] then None
    else if entries[|entries| - 1].key == key then Some(|entries| - 1)
    else Lookup(entries[..|entries| - 1], key)
  }

  function Merge(prev: Candidate, c: Candidate): Candidate {
    var summed := prev.(allowCount := prev.allowCount + c.allowCount, denyCount := prev.denyCount + c.denyCount);
    if c.defaultAccess.ReadWrite? && !prev.defaultAccess.ReadWrite?
    then summed.(defaultAccess := ReadWrite, caption := c.caption) else summed
  }

  function InsertByKey(cs: seq<Candidate>, c: Candidate): (r: seq<Candidate>)
    ensures multiset(r) == multiset(cs) + multiset{c}
  {
    if cs == [] || !Less(c.key, cs[|cs| - 1].key) then cs + [c]
    else
      assert cs == cs[..|cs| - 1] + [cs[|cs| - 1]];
      InsertByKey(cs[..|cs| - 1], c) + [cs[|cs| - 1]]
  }

  /** `sort(byKey)`. */
  function SortByKey(cs: seq<Candidate>): (r: seq<Candidate>)
    ensures multiset(r) == multiset(cs)
  {
    if cs == [] then []
    else
      assert cs == cs[..|cs| - 1] + [cs[|cs| - 1]];
      InsertByKey(SortByKey(cs[..|cs| - 1]), cs[|cs| - 1])
  }

  /** `buildCandidates`: the list is complete, faithful and sorted, and no count is
      lost or invented. */
  method BuildCandidates(rows: seq<EndpointRow>, policy: Policy) returns (cs: seq<Candidate>)
    ensures IsSeedList(rows, policy, cs)
    ensures forall denied :: CandidatesTotal(cs, denied) == RowsTotal(rows, policy, denied)
  {
    hide IsFold, TargetOf, RowCandidate, Merge;
    var entries: seq<Candidate> := [];
    EmptyFold(policy);
    for n := 0 to |rows|
      invariant IsFold(rows[..n], policy, entries)
    {
      assert rows[..n + 1] == rows[..n] + [rows[n]];
      var t := TargetOf(rows[n], policy);
      if t.None? {
        SkipRow(rows[..n], policy, rows[n], entries);
        continue;
      }
      var c := RowCandidate(rows[n], t.value);
      match Lookup(entries, c.key) {
        case None =>
          NewEntry(rows[..n], policy, rows[n], entries);
          entries := entries + [c];
        case Some(i) =>
          MergeEntry(rows[..n], policy, rows[n], entries, i);
          entries := entries[i := Merge(entries[i], c)];
      }
    }
    assert rows[..|rows|] == rows;
    SortedFold(rows, policy, entries);
    cs := SortByKey(entries);
  }

  // ---- One more row ----

  lemma EmptyFold(policy: Policy)
    ensures IsFold([], policy, [])
  {
  }

  /** Folding two candidates for a target adds their counts and keeps the wider access. */
  lemma MergeMake(t: Target, a: nat, d: nat, access: Access, a': nat, d': nat, access': Access)
    ensures Merge(Make(t, a, d, access), Make(t, a', d', access'))
            == Make(t, a + a', d + d', if access.ReadWrite? || access'.ReadWrite? then ReadWrite else Read)
  {
    hide HostPort, KeyOf;
  }

  lemma SeenMore(rows: seq<EndpointRow>, policy: Policy, r: EndpointRow, t: Target)
    ensures Seen(rows + [r], policy, t) <==> Seen(rows, policy, t) || TargetOf(r, policy) == Some(t)
    ensures SeenWriting(rows + [r], policy, t) <==>
            SeenWriting(rows, policy, t) || (TargetOf(r, policy) == Some(t) && AccessOf(r, t).ReadWrite?)
    ensures SeenWriting(rows, policy, t) ==> Seen(rows, policy, t)
  {
    hide TargetOf, AccessOf;
    assert r in rows + [r];
    assert forall x :: x in rows + [r] <==> x in rows || x == r;
  }

  lemma SumMore(rows: seq<EndpointRow>, policy: Policy, r: EndpointRow, t: Target, denied: bool)
    ensures RowsSum(rows + [r], policy, t, denied)
            == RowsSum(rows, policy, t, denied) + (if TargetOf(r, policy) == Some(t) then Count(r, denied) else 0)
  {
    hide TargetOf;
    assert (rows + [r])[..|rows|] == rows;
  }

  /** What a row changes about a target. */
  lemma OneMore(rows: seq<EndpointRow>, policy: Policy, r: EndpointRow, t: Target)
    ensures Seen(rows + [r], policy, t) <==> Seen(rows, policy, t) || TargetOf(r, policy) == Some(t)
    ensures TargetOf(r, policy) != Some(t) ==> Folded(rows + [r], policy, t) == Folded(rows, policy, t)
    ensures TargetOf(r, policy) == Some(t) && Seen(rows, policy, t) ==>
              Folded(rows + [r], policy, t) == Merge(Folded(rows, policy, t), RowCandidate(r, t))
    ensures TargetOf(r, policy) == Some(t) && !Seen(rows, policy, t) ==>
              Folded(rows + [r], policy, t) == RowCandidate(r, t)
  {
    hide TargetOf, AccessOf, Make, Merge, RowsSum, Seen, SeenWriting;
    SeenMore(rows, policy, r, t);
    SumMore(rows, policy, r, t, false);
    SumMore(rows, policy, r, t, true);
    UnseenIsZero(rows, policy, t, false);
    UnseenIsZero(rows, policy, t, true);
    MergeMake(t, RowsSum(rows, policy, t, false), RowsSum(rows, policy, t, true),
              if SeenWriting(rows, policy, t) then ReadWrite else Read,
              r.allowCount, r.denyCount, AccessOf(r, t));
  }

  lemma {:induction false} UnseenIsZero(rows: seq<EndpointRow>, policy: Policy, t: Target, denied: bool)
    ensures !Seen(rows, policy, t) ==> RowsSum(rows, policy, t, denied) == 0
  {
    hide TargetOf;
    if rows != [] {
      var init, last := rows[..|rows| - 1], rows[|rows| - 1];
      assert last in rows && forall x :: x in init ==> x in rows;
      UnseenIsZero(init, policy, t, denied);
    }
  }

  lemma TotalMore(rows: seq<EndpointRow>, policy: Policy, r: EndpointRow, denied: bool)
    ensures RowsTotal(rows + [r], policy, denied)
            == RowsTotal(rows, policy, denied) + (if TargetOf(r, policy).Some? then Count(r, denied) else 0)
  {
    assert (rows + [r])[..|rows|] == rows;
  }

  lemma SkipRow(rows: seq<EndpointRow>, policy: Policy, r: EndpointRow, entries: seq<Candidate>)
    requires IsFold(rows, policy, entries) && TargetOf(r, policy).None?
    ensures IsFold(rows + [r], policy, entries)
  {
    hide TargetOf, Folded, Seen, CandidatesTotal, RowsTotal;
    forall t ensures Seen(rows + [r], policy, t) == Seen(rows, policy, t)
                     && Folded(rows + [r], policy, t) == Folded(rows, policy, t)
    {
      OneMore(rows, policy, r, t);
    }
    TotalMore(rows, policy, r, false);
    TotalMore(rows, policy, r, true);
  }

  lemma FoldedKey(rows: seq<EndpointRow>, policy: Policy, t: Target)
    ensures Folded(rows, policy, t).key == KeyOf(t)
  {
  }

  lemma NewEntry(rows: seq<EndpointRow>, policy: Policy, r: EndpointRow, entries: seq<Candidate>)
    requires IsFold(rows, policy, entries) && TargetOf(r, policy).Some?
    requires forall i :: 0 <= i < |entries| ==> entries[i].key != RowCandidate(r, TargetOf(r, policy).value).key
    ensures IsFold(rows + [r], policy, entries + [RowCandidate(r, TargetOf(r, policy).value)])
  {
    hide TargetOf, Folded, Seen, RowsTotal, Merge;
    var t := TargetOf(r, policy).value;
    var c := RowCandidate(r, t);
    var after := entries + [c];
    FoldedKey(rows, policy, t);
    assert Folded(rows, policy, t) !in entries;
    OneMore(rows, policy, r, t);
    forall u | u != t ensures Seen(rows + [r], policy, u) == Seen(rows, policy, u)
                              && Folded(rows + [r], policy, u) == Folded(rows, policy, u)
    {
      OneMore(rows, policy, r, u);
    }
    forall x | x in after ensures exists u :: Seen(rows + [r], policy, u) && x == Folded(rows + [r], policy, u) {
      if x in entries {
        var u :| Seen(rows, policy, u) && x == Folded(rows, policy, u);
        assert u != t;
        assert Seen(rows + [r], policy, u) && x == Folded(rows + [r], policy, u);
      }
    }
    assert after[..|entries|] == entries;
    TotalMore(rows, policy, r, false);
    TotalMore(rows, policy, r, true);
  }

  lemma {:induction false} TotalUpdate(cs: seq<Candidate>, i: nat, c: Candidate, denied: bool)
    requires i < |cs|
    ensures CandidatesTotal(cs[i := c], denied) + (if denied then cs[i].denyCount else cs[i].allowCount)
            == CandidatesTotal(cs, denied) + (if denied then c.denyCount else c.allowCount)
  {
    var n := |cs| - 1;
    if i == n {
      assert cs[i := c][..n] == cs[..n];
    } else {
      TotalUpdate(cs[..n], i, c, denied);
      assert cs[i := c][..n] == cs[..n][i := c];
    }
  }

  lemma MergeEntry(rows: seq<EndpointRow>, policy: Policy, r: EndpointRow, entries: seq<Candidate>, i: nat)
    requires IsFold(rows, policy, entries) && TargetOf(r, policy).Some? && i < |entries|
    requires entries[i].key == RowCandidate(r, TargetOf(r, policy).value).key
    ensures IsFold(rows + [r], policy, entries[i := Merge(entries[i], RowCandidate(r, TargetOf(r, policy).value))])
  {
    hide TargetOf, Folded, Seen, RowsTotal, CandidatesTotal, KeyOf;
    var t := TargetOf(r, policy).value;
    var c := RowCandidate(r, t);
    var merged := Merge(entries[i], c);
    var after := entries[i := merged];
    assert entries[i] in entries;
    var v :| Seen(rows, policy, v) && entries[i] == Folded(rows, policy, v);
    FoldedKey(rows, policy, v);
    KeyInjective(v, t);
    OneMore(rows, policy, r, t);
    assert merged == Folded(rows + [r], policy, t) && after[i] == merged;
    OthersKept(rows, policy, r, t, entries, i);
    forall u | Seen(rows + [r], policy, u) ensures Folded(rows + [r], policy, u) in after {
      OneMore(rows, policy, r, u);
      if u != t {
        var j :| 0 <= j < |entries| && entries[j] == Folded(rows, policy, u);
        FoldedKey(rows, policy, u);
        if j == i {
          KeyInjective(u, t);
        }
        assert after[j] == entries[j];
      }
    }
    forall denied ensures CandidatesTotal(after, denied) == RowsTotal(rows + [r], policy, denied) {
      TotalUpdate(entries, i, merged, denied);
      TotalMore(rows, policy, r, denied);
    }
  }

  /** The entries of other targets stay what they were. */
  lemma OthersKept(rows: seq<EndpointRow>, policy: Policy, r: EndpointRow, t: Target, entries: seq<Candidate>, i: nat)
    requires IsFold(rows, policy, entries) && TargetOf(r, policy) == Some(t) && i < |entries|
    requires Seen(rows, policy, t) && entries[i] == Folded(rows, policy, t)
    ensures var after := entries[i := Merge(entries[i], RowCandidate(r, t))];
            forall x :: x in after ==> exists u :: Seen(rows + [r], policy, u) && x == Folded(rows + [r], policy, u)
  {
    hide TargetOf, Folded, Seen, RowsTotal, CandidatesTotal, KeyOf, Merge, RowCandidate;
    var after := entries[i := Merge(entries[i], RowCandidate(r, t))];
    forall x | x in after ensures exists u :: Seen(rows + [r], policy, u) && x == Folded(rows + [r], policy, u) {
      var j :| 0 <= j < |after| && after[j] == x;
      if j == i {
        OneMore(rows, policy, r, t);
        assert Seen(rows + [r], policy, t);
      } else {
        assert entries[j] in entries && entries[j].key != entries[i].key;
        var u :| Seen(rows, policy, u) && x == Folded(rows, policy, u);
        assert u != t;
        OneMore(rows, policy, r, u);
        assert Seen(rows + [r], policy, u);
      }
    }
  }

  // ---- Order and sorting ----

  lemma {:induction false} LessTotal(a: string, b: string)
    ensures a == b || Less(a, b) || Less(b, a)
    decreases |a|
  {
    if a != "" && b != "" && a[0] == b[0] {
      LessTotal(a[1..], b[1..]);
      assert a == [a[0]] + a[1..] && b == [b[0]] + b[1..];
    }
  }

  lemma {:induction false} LessTransitive(a: string, b: string, c: string)
    requires Less(a, b) && Less(b, c)
    ensures Less(a, c)
    decreases |a|
  {
    if a != "" && a[0] == b[0] == c[0] {
      LessTransitive(a[1..], b[1..], c[1..]);
    }
  }

  lemma {:induction false} LessIrreflexive(a: string)
    ensures !Less(a, a)
    decreases |a|
  {
    if a != "" {
      LessIrreflexive(a[1..]);
    }
  }

  lemma {:induction false} InsertSorted(cs: seq<Candidate>, c: Candidate)
    requires StrictlySorted(cs) && forall x :: x in cs ==> x.key != c.key
    ensures StrictlySorted(InsertByKey(cs, c))
  {
    hide Less;
    if cs != [] {
      var init, last := cs[..|cs| - 1], cs[|cs| - 1];
      assert last in cs && forall x :: x in init ==> x in cs;
      LessTotal(last.key, c.key);
      if Less(c.key, last.key) {
        InsertSorted(init, c);
        InsertedBelow(init, c, last.key);
      } else {
        forall i | 0 <= i < |init| ensures Less(cs[i].key, c.key) {
          LessTransitive(cs[i].key, last.key, c.key);
        }
      }
    }
  }

  lemma InsertedBelow(cs: seq<Candidate>, c: Candidate, key: string)
    requires Less(c.key, key) && forall i :: 0 <= i < |cs| ==> Less(cs[i].key, key)
    ensures var r := InsertByKey(cs, c); forall i :: 0 <= i < |r| ==> Less(r[i].key, key)
  {
    hide Less;
    var r := InsertByKey(cs, c);
    forall i | 0 <= i < |r| ensures Less(r[i].key, key) {
      assert r[i] in multiset(r);
      assert r[i] in cs || r[i] == c;
    }
  }

  lemma {:induction false} InsertTotal(cs: seq<Candidate>, c: Candidate, denied: bool)
    ensures CandidatesTotal(InsertByKey(cs, c), denied)
            == CandidatesTotal(cs, denied) + (if denied then c.denyCount else c.allowCount)
  {
    hide Less;
    var r := InsertByKey(cs, c);
    if cs == [] || !Less(c.key, cs[|cs| - 1].key) {
      assert r[..|cs|] == cs;
    } else {
      InsertTotal(cs[..|cs| - 1], c, denied);
      assert r[..|r| - 1] == InsertByKey(cs[..|cs| - 1], c);
    }
  }

  lemma {:induction false} SortIsSorted(cs: seq<Candidate>)
    requires forall i, j :: 0 <= i < j < |cs| ==> cs[i].key != cs[j].key
    ensures StrictlySorted(SortByKey(cs))
    ensures forall denied :: CandidatesTotal(SortByKey(cs), denied) == CandidatesTotal(cs, denied)
  {
    hide Less;
    if cs != [] {
      var init, last := cs[..|cs| - 1], cs[|cs| - 1];
      SortIsSorted(init);
      forall x | x in SortByKey(init) ensures x.key != last.key {
        assert x in multiset(SortByKey(init));
        assert x in init;
      }
      InsertSorted(SortByKey(init), last);
      InsertTotal(SortByKey(init), last, false);
      InsertTotal(SortByKey(init), last, true);
    }
  }

  lemma SortedFold(rows: seq<EndpointRow>, policy: Policy, entries: seq<Candidate>)
    requires IsFold(rows, policy, entries)
    ensures IsSeedList(rows, policy, SortByKey(entries))
    ensures forall denied :: CandidatesTotal(SortByKey(entries), denied) == RowsTotal(rows, policy, denied)
  {
    hide Less, Folded, Seen, RowsTotal;
    SortIsSorted(entries);
    var cs := SortByKey(entries);
    forall x ensures x in cs <==> x in entries {
      assert x in multiset(cs) <==> x in multiset(entries);
    }
  }

  // ---- The order of the rows does not matter ----

  lemma {:induction false} SumWithout(rows: seq<EndpointRow>, policy: Policy, t: Target, denied: bool, j: nat)
    requires j < |rows|
    ensures RowsSum(rows, policy, t, denied)
            == RowsSum(rows[..j] + rows[j + 1..], policy, t, denied)
               + (if TargetOf(rows[j], policy) == Some(t) then Count(rows[j], denied) else 0)
  {
    hide TargetOf;
    var n := |rows| - 1;
    if j == n {
      assert rows[..j] + rows[j + 1..] == rows[..n];
    } else {
      SumWithout(rows[..n], policy, t, denied, j);
      assert (rows[..j] + rows[j + 1..])[..n - 1] == rows[..n][..j] + rows[..n][j + 1..];
    }
  }

  lemma RemoveOne(b: seq<EndpointRow>, j: nat)
    requires j < |b|
    ensures multiset(b[..j] + b[j + 1..]) == multiset(b) - multiset{b[j]}
  {
    assert b == b[..j] + [b[j]] + b[j + 1..];
  }

  lemma FindIn(a: seq<EndpointRow>, b: seq<EndpointRow>) returns (j: nat)
    requires multiset(a) == multiset(b) && a != []
    ensures j < |b| && b[j] == a[|a| - 1]
  {
    assert a[|a| - 1] in multiset(b);
    j :| 0 <= j < |b| && b[j] == a[|a| - 1];
  }

  lemma {:induction false} SumOfPermutation(a: seq<EndpointRow>, b: seq<EndpointRow>, policy: Policy, t: Target,
                                            denied: bool)
    requires multiset(a) == multiset(b)
    ensures RowsSum(a, policy, t, denied) == RowsSum(b, policy, t, denied)
    decreases |a|
  {
    hide TargetOf, Count;
    if a == [] {
      assert |multiset(b)| == 0;
    } else {
      var n := |a| - 1;
      var j := FindIn(a, b);
      RemoveOne(a, n);
      RemoveOne(b, j);
      assert a[..n] + a[n + 1..] == a[..n];
      SumOfPermutation(a[..n], b[..j] + b[j + 1..], policy, t, denied);
      SumWithout(b, policy, t, denied, j);
    }
  }

  lemma FoldedOfPermutation(a: seq<EndpointRow>, b: seq<EndpointRow>, policy: Policy, t: Target)
    requires multiset(a) == multiset(b)
    ensures Seen(a, policy, t) == Seen(b, policy, t) && Folded(a, policy, t) == Folded(b, policy, t)
  {
    hide TargetOf, AccessOf;
    forall r ensures r in a <==> r in b {
      assert r in multiset(a) <==> r in multiset(b);
    }
    SumOfPermutation(a, b, policy, t, false);
    SumOfPermutation(a, b, policy, t, true);
  }

  lemma SomeMember(cs: seq<Candidate>)
    ensures cs != [] <==> exists c :: c in cs
  {
    if cs != [] {
      assert cs[0] in cs;
    }
  }

  lemma {:induction false} SortedUnique(a: seq<Candidate>, b: seq<Candidate>)
    requires StrictlySorted(a) && StrictlySorted(b) && forall c :: c in a <==> c in b
    ensures a == b
    decreases |a|
  {
    hide Less;
    SomeMember(a);
    SomeMember(b);
    if a != [] {
      var x := a[|a| - 1];
      assert x in a;
      var i :| 0 <= i < |b| && b[i] == x;
      var y := b[|b| - 1];
      assert y in b;
      var j :| 0 <= j < |a| && a[j] == y;
      LessIrreflexive(x.key);
      if Less(x.key, y.key) && Less(y.key, x.key) {
        LessTransitive(x.key, y.key, x.key);
      }
      assert i == |b| - 1;
      var a', b' := a[..|a| - 1], b[..|b| - 1];
      forall c ensures c in a' <==> c in b' {
        if c in a' {
          var k :| 0 <= k < |a'| && a'[k] == c;
          assert Less(a[k].key, x.key);
          assert c in b && c != x;
        }
        if c in b' {
          var k :| 0 <= k < |b'| && b'[k] == c;
          assert Less(b[k].key, x.key);
          assert c in a && c != x;
        }
      }
      SortedUnique(a', b');
    }
  }

  /** Any two orders of the same rows give the same list: keys, captions, counts and
      suggested access. */
  lemma OrderIndependent(rows: seq<EndpointRow>, shuffled: seq<EndpointRow>, policy: Policy,
                         a: seq<Candidate>, b: seq<Candidate>)
    requires multiset(rows) == multiset(shuffled)
    requires IsSeedList(rows, policy, a) && IsSeedList(shuffled, policy, b)
    ensures a == b
  {
    hide Less, Folded, Seen;
    forall t ensures Seen(rows, policy, t) == Seen(shuffled, policy, t)
                     && Folded(rows, policy, t) == Folded(shuffled, policy, t)
    {
      FoldedOfPermutation(rows, shuffled, policy, t);
    }
    SortedUnique(a, b);
  }

  // ---- What is read off a row ----

  ghost predicate IsService(s: string) {
    s == "/info/refs" || s == "/git-upload-pack" || s == "/git-receive-pack"
  }

  /** The path of a git request, in its parts: slashes, the name of the repository with or
      without its extension, the service, and the query. */
  ghost predicate GitPath(path: string, lead: string, name: string, ext: string, service: string, query: string) {
    && path == lead + name + ext + service + query
    && (forall c :: c in lead ==> c == '/') && (name == "" || name[0] != '/')
    && ext in {"", ".git"} && (ext == "" ==> !EndsWith(lead + name, ".git"))
    && IsService(service) && '?' !in name && (query == "" || query[0] == '?')
  }

  /** A path with these parts is read as such, whatever they are. */
  lemma GitPathIsRead(host: string, path: string, lead: string, name: string, ext: string, service: string,
                      query: string)
    requires host != "" && GitPath(path, lead, name, ext, service, query)
    ensures GitRepoFromRow(Some(host), Some(path)) == Some(host + "/" + name)
    ensures GitOpFromPath(Some(path)) == Some(if service == "/git-receive-pack" then Push else Clone)
  {
    hide EndsWith, UpTo, DropSuffix, DropSlashes;
    var repo := lead + name + ext;
    BareIsRead(path, repo, service, query);
    ServicesAreApart(repo, service);
    Without(repo, service);
    if ext == ".git" {
      Without(lead + name, ".git");
    } else {
      assert repo == lead + name;
      StaysWithout(repo, ".git");
    }
    SlashesDropped(lead, name);
    assert RepoName(host, repo) == host + "/" + name;
  }

  lemma BareIsRead(path: string, repo: string, service: string, query: string)
    requires path == repo + service + query && IsService(service) && '?' !in repo && (query == "" || query[0] == '?')
    ensures path != "" && UpTo(path, '?') == repo + service
  {
    hide UpTo;
    assert '?' !in repo + service;
    UpToIs(repo + service, query, '?');
  }

  /** And every path that is taken for a git request has them. */
  lemma GitPathHasParts(path: string) returns (lead: string, name: string, ext: string, service: string, query: string)
    requires GitOpFromPath(Some(path)).Some?
    ensures GitPath(path, lead, name, ext, service, query)
  {
    hide EndsWith, UpTo, GitPath;
    var bare := UpTo(path, '?');
    service := if EndsWith(bare, "/info/refs") then "/info/refs"
               else if EndsWith(bare, "/git-upload-pack") then "/git-upload-pack"
               else "/git-receive-pack";
    lead, name, ext, query := PartsFor(path, service);
  }

  lemma PartsFor(path: string, service: string) returns (lead: string, name: string, ext: string, query: string)
    requires IsService(service) && EndsWith(UpTo(path, '?'), service)
    ensures GitPath(path, lead, name, ext, service, query)
  {
    hide UpTo, IsService;
    var bare := UpTo(path, '?');
    UpToParts(path, '?');
    query := path[|bare|..];
    var repo := bare[..|bare| - |service|];
    assert bare == repo + service && path == bare + query;
    lead, name, ext := RepoParts(repo);
    assert forall c :: c in name ==> c in bare;
  }

  lemma RepoParts(repo: string) returns (lead: string, name: string, ext: string)
    ensures repo == lead + name + ext && (forall c :: c in lead ==> c == '/') && (name == "" || name[0] != '/')
    ensures ext in {"", ".git"} && (ext == "" ==> !EndsWith(lead + name, ".git"))
  {
    ext := if EndsWith(repo, ".git") then ".git" else "";
    var stem := repo[..|repo| - |ext|];
    lead, name := SlashParts(stem);
    assert repo == stem + ext;
  }

  /** Two of the letters at the end tell the services apart. */
  lemma ServiceLetters(service: string)
    requires IsService(service)
    ensures |service| >= 6
    ensures service[|service| - 1] == 's' ==> service == "/info/refs"
    ensures service[|service| - 6] == 'd' ==> service == "/git-upload-pack"
    ensures service[|service| - 6] == 'e' ==> service == "/git-receive-pack"
    ensures service[|service| - 1] == 's' || service[|service| - 6] == 'd' || service[|service| - 6] == 'e'
  {
  }

  lemma SameLetters(before: string, service: string, other: string, k: nat)
    requires k < |service| && k < |other| && EndsWith(before + service, other)
    ensures other[|other| - 1 - k] == service[|service| - 1 - k]
  {
    var s := before + service;
    assert s[|s| - |other|..][|other| - 1 - k] == s[|s| - 1 - k];
  }

  lemma ServicesAreApart(before: string, service: string)
    requires IsService(service)
    ensures forall other :: IsService(other) ==> (EndsWith(before + service, other) <==> other == service)
  {
    hide EndsWith, IsService;
    Without(before, service);
    ServiceLetters(service);
    forall other | IsService(other) && EndsWith(before + service, other) ensures other == service {
      ServiceLetters(other);
      SameLetters(before, service, other, 0);
      SameLetters(before, service, other, 5);
    }
  }

  lemma Without(s: string, suffix: string)
    ensures EndsWith(s + suffix, suffix) && DropSuffix(s + suffix, suffix) == s
  {
  }

  lemma StaysWithout(s: string, suffix: string)
    requires !EndsWith(s, suffix)
    ensures DropSuffix(s, suffix) == s
  {
  }

  lemma {:induction false} UpToIs(s: string, rest: string, c: char)
    requires c !in s && (rest == "" || rest[0] == c)
    ensures UpTo(s + rest, c) == s
  {
    if s == "" {
      assert s + rest == rest;
    } else {
      assert s[0] in s && (s + rest)[1..] == s[1..] + rest;
      UpToIs(s[1..], rest, c);
    }
  }

  lemma {:induction false} UpToParts(s: string, c: char)
    ensures UpTo(s, c) <= s && c !in UpTo(s, c) && (UpTo(s, c) == s || s[|UpTo(s, c)|] == c)
  {
    if s != "" && s[0] != c {
      UpToParts(s[1..], c);
      assert s == [s[0]] + s[1..];
    }
  }

  lemma {:induction false} SlashesDropped(lead: string, name: string)
    requires (forall c :: c in lead ==> c == '/') && (name == "" || name[0] != '/')
    ensures DropSlashes(lead + name) == name
  {
    if lead == "" {
      assert lead + name == name;
    } else {
      assert lead[0] in lead && (lead + name)[1..] == lead[1..] + name;
      assert forall c :: c in lead[1..] ==> c in lead;
      SlashesDropped(lead[1..], name);
    }
  }

  lemma {:induction false} SlashParts(s: string) returns (lead: string, name: string)
    ensures s == lead + name && (forall c :: c in lead ==> c == '/') && (name == "" || name[0] != '/')
  {
    lead, name := "", s;
    if s != "" && s[0] == '/' {
      lead, name := SlashParts(s[1..]);
      lead := "/" + lead;
    }
  }

  /** The pieces with slashes between them. */
  function Slashed(pieces: seq<string>): string
    requires pieces != []
  {
    if |pieces| == 1 then pieces[0] else pieces[0] + "/" + Slashed(pieces[1..])
  }

  /** The segments are what stands between the slashes. */
  lemma {:induction false} SegmentsSlashed(s: string)
    ensures Slashed(Segments(s)) == s && forall p :: p in Segments(s) ==> '/' !in p
    decreases |s|
  {
    var head := UpTo(s, '/');
    UpToParts(s, '/');
    if |head| < |s| {
      SegmentsSlashed(s[|head| + 1..]);
      assert ([head] + Segments(s[|head| + 1..]))[1..] == Segments(s[|head| + 1..]);
      assert s == head + "/" + s[|head| + 1..];
    }
  }

  ghost predicate ArePieces(pieces: seq<string>) {
    pieces != [] && forall p :: p in pieces ==> '/' !in p
  }

  lemma {:induction false} SlashedSegments(pieces: seq<string>)
    requires ArePieces(pieces)
    ensures Segments(Slashed(pieces)) == pieces
  {
    assert pieces[0] in pieces;
    if |pieces| == 1 {
      UpToIs(pieces[0], "", '/');
      assert pieces[0] + "" == pieces[0];
    } else {
      var rest := pieces[1..];
      assert forall p :: p in rest ==> p in pieces;
      SlashedSegments(rest);
      assert Slashed(pieces) == pieces[0] + ("/" + Slashed(rest));
      UpToIs(pieces[0], "/" + Slashed(rest), '/');
    }
  }

  /** A pattern matches segment by segment: a star any one of them, anything else itself. */
  lemma GlobMatches(ps: seq<string>, vs: seq<string>)
    requires ArePieces(ps) && ArePieces(vs)
    ensures GlobMatch(Slashed(ps), Slashed(vs)) <==>
            |ps| == |vs| && forall i :: 0 <= i < |vs| ==> ps[i] in {"*", vs[i]}
  {
    hide Segments, Slashed;
    SlashedSegments(ps);
    SlashedSegments(vs);
  }

  /** A rule for a host covers its repositories, and a rule for repositories those that
      have its segments, a star standing for any one of them. */
  lemma GitCoveredExactlyWhen(host: string, name: string, git: seq<GitRule>)
    requires '/' !in host
    ensures GitCovered(host + "/" + name, git) <==>
            exists g :: g in git &&
              match g
              case GitHost(h, _) => h == host
              case Repo(repo, _) => GlobMatch(repo, host + "/" + name)
  {
    hide GlobMatch;
    assert host + "/" + name == host + ("/" + name);
    UpToIs(host, "/" + name, '/');
  }

  /** The row asks a git service of a named host. */
  ghost predicate IsGitRow(row: EndpointRow) {
    GitOpFromPath(row.lastPath).Some? && row.host.Some? && row.host.value != ""
  }

  /** Exactly which rows are offered, and as what: a git row unless a git rule covers its
      repository, a row without a host always, and any other unless some entry for its host
      allows its port as a bare number, or is for the web and names no ports. */
  lemma OfferedExactlyWhen(row: EndpointRow, policy: Policy)
    ensures var t := TargetOf(row, policy);
            if IsGitRow(row) then
              var repo := GitRepoFromRow(row.host, row.lastPath);
              && repo.Some?
              && t == if GitCovered(repo.value, policy.git) then None else Some(GitTarget(repo.value))
            else match row.host
              case None => t == Some(RawTarget(row.destIp, row.port))
              case Some(host) =>
                t == if exists e :: e in policy.allow && e.host == host &&
                          (if e.Scoped? && e.ports.Some? then Bare(row.port) in e.ports.value
                           else row.port == 80 || row.port == 443)
                     then None else Some(HttpTarget(host, row.port))
  {
    hide UpTo, EndsWith, RepoName, AllowKeys, GitCovered;
    if !IsGitRow(row) && row.host.Some? {
      HostCovered(policy.allow, row.host.value, row.port);
    }
  }

  /** The row was seen to change something: a push, or a request that is neither a GET nor
      a HEAD. */
  ghost predicate Changes(row: EndpointRow, t: Target) {
    match t
    case GitTarget(_) => GitOpFromPath(row.lastPath) == Some(Push)
    case HttpTarget(_, _) => row.lastMethod.Some? && row.lastMethod.value != "GET" && row.lastMethod.value != "HEAD"
    case RawTarget(_, _) => false
  }

  /** What the list says of a target: it can be ticked unless it is a bare address; the
      counts are those of its rows; and writing is suggested exactly when one of them was
      seen to change something. */
  lemma WhatIsOffered(rows: seq<EndpointRow>, policy: Policy, cs: seq<Candidate>, t: Target) returns (c: Candidate)
    requires IsSeedList(rows, policy, cs) && Seen(rows, policy, t)
    ensures c in cs && c.key == KeyOf(t) && (c.disabled <==> t.RawTarget?)
    ensures c.allowCount == RowsSum(rows, policy, t, false) && c.denyCount == RowsSum(rows, policy, t, true)
    ensures c.defaultAccess.ReadWrite? <==>
            exists r :: r in rows && TargetOf(r, policy) == Some(t) && Changes(r, t)
    ensures t.GitTarget? ==>
              c.caption == "git " + (if c.defaultAccess.Read? then "clone" else "push") + " \U{2192} " + t.repo
    ensures t.HttpTarget? ==> c.caption == t.host + ":" + Decimal(t.port)
  {
    hide TargetOf, Less, KeyOf, RowsSum;
    c := Folded(rows, policy, t);
    forall r | r in rows ensures AccessOf(r, t).ReadWrite? <==> Changes(r, t) {
      WritingRow(r, t);
    }
  }

  lemma WritingRow(r: EndpointRow, t: Target)
    ensures AccessOf(r, t).ReadWrite? <==> Changes(r, t)
  {
    hide GitOpFromPath;
  }

  /** Code-point order, said in one piece: a proper prefix comes first, and otherwise the
      first difference decides. */
  lemma {:induction false} LessMeans(a: string, b: string)
    ensures Less(a, b) <==> a < b || exists k: nat :: Differ(a, b, k) && a[k] < b[k]
    decreases |a|
  {
    if a != "" && b != "" && a[0] == b[0] {
      LessMeans(a[1..], b[1..]);
      assert a == [a[0]] + a[1..] && b == [b[0]] + b[1..];
      assert a < b <==> a[1..] < b[1..];
      if k: nat :| Differ(a, b, k) && a[k] < b[k] {
        assert Differ(a[1..], b[1..], k - 1);
      }
      if k: nat :| Differ(a[1..], b[1..], k) && a[1..][k] < b[1..][k] {
        assert forall i :: 0 < i < k + 1 ==> a[i] == a[1..][i - 1] && b[i] == b[1..][i - 1];
        assert Differ(a, b, k + 1);
      }
    } else if a != "" && b != "" {
      assert Differ(a, b, 0);
    }
  }

  /** The strings first differ at `k`. */
  ghost predicate Differ(a: string, b: string, k: nat) {
    k < |a| && k < |b| && a[k] != b[k] && forall i :: 0 <= i < k ==> a[i] == b[i]
  }

  /** The rows that cannot be ticked come last. */
  lemma SelectableFirst(rows: seq<EndpointRow>, policy: Policy, cs: seq<Candidate>, i: nat, j: nat)
    requires IsSeedList(rows, policy, cs) && i < j < |cs| && cs[i].disabled
    ensures cs[j].disabled
  {
    hide Seen, KeyOf, Less;
    assert cs[i] in cs && cs[j] in cs;
    var t :| Seen(rows, policy, t) && cs[i] == Folded(rows, policy, t);
    var u :| Seen(rows, policy, u) && cs[j] == Folded(rows, policy, u);
    if !u.RawTarget? {
      RawComesLast(t, u);
    }
  }

  lemma RawComesLast(t: Target, u: Target)
    requires t.RawTarget? && !u.RawTarget?
    ensures Less(KeyOf(u), KeyOf(t)) && !Less(KeyOf(t), KeyOf(u))
  {
    hide HostPort;
    assert KeyOf(t)[0] == 'r' && KeyOf(u)[0] == if u.GitTarget? then 'g' else 'h';
  }
}
