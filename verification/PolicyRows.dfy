/** The rows of the egress-policy editor (`app/src/components/PolicyEditor.tsx`): their
    wire form, the edits on them and what a save sends. */
module PolicyRows {
  import opened Basics

  // ---- Rows and their wire form ----

  datatype Access = Read | ReadWrite
  datatype Protocol = Undeclared | HttpProtocol | TcpProtocol

  datatype PortRow = PortRow(port: nat, protocol: Protocol)
  datatype Row = Row(host: string, ports: seq<PortRow>, access: Access)
  datatype GitRow = GitRow(target: string, access: Access)

  /** A bare number, or an object that may carry a protocol. */
  datatype PortSpec = Bare(port: nat) | Declared(port: nat, protocol: Protocol)
  datatype AllowEntry =
    | BareHost(host: string)
    | Scoped(host: string, ports: Option<seq<PortSpec>>, access: Option<Access>)
  datatype GitRule = Repo(repo: string, access: Option<Access>) | GitHost(host: string, access: Option<Access>)
  datatype Policy = Policy(allow: seq<AllowEntry>, git: seq<GitRule>)

  function ToPortRow(p: PortSpec): PortRow {
    match p case Bare(n) => PortRow(n, Undeclared) case Declared(n, proto) => PortRow(n, proto)
  }

  function ToPortSpec(p: PortRow): PortSpec {
    if p.protocol.Undeclared? then Bare(p.port) else Declared(p.port, p.protocol)
  }

  function WebDefaults(): seq<PortRow> {
    [PortRow(80, Undeclared), PortRow(443, Undeclared)]
  }

  function MapSeq<A, B>(f: A -> B, s: seq<A>): (r: seq<B>)
    ensures |r| == |s| && forall i :: 0 <= i < |s| ==> r[i] == f(s[i])
  {
    seq(|s|, i requires 0 <= i < |s| => f(s[i]))
  }

  function ToRow(e: AllowEntry): Row {
    match e
    case BareHost(h) => Row(h, WebDefaults(), ReadWrite)
    case Scoped(h, ports, access) =>
      Row(h,
          if ports.Some? then MapSeq(ToPortRow, ports.value) else WebDefaults(),
          if access.Some? then access.value else ReadWrite)
  }

  function ToGitRow(g: GitRule): GitRow {
    GitRow(if g.Repo? then g.repo else g.host, if g.access.Some? then g.access.value else Read)
  }

  function LoadedHosts(p: Policy): seq<Row> {
    MapSeq(ToRow, p.allow)
  }

  function LoadedGit(p: Policy): seq<GitRow> {
    MapSeq(ToGitRow, p.git)
  }

  // ---- The row reducers ----

  predicate IsPinned(p: PortRow) {
    p.protocol.TcpProtocol?
  }

  /** The row carries a TLS-pinning passthrough. */
  predicate HasPin(r: Row) {
    exists p :: p in r.ports && IsPinned(p)
  }

  ghost predicate PortsSorted(ps: seq<PortRow>) {
    forall i, j :: 0 <= i < j < |ps| ==> ps[i].port <= ps[j].port
  }

  function Insert(ps: seq<PortRow>, p: PortRow): (r: seq<PortRow>)
    requires PortsSorted(ps)
    ensures multiset(r) == multiset(ps) + multiset{p} && PortsSorted(r)
    ensures |r| == |ps| + 1 && (r[|ps|] == p || (ps != [] && r[|ps|] == ps[|ps| - 1]))
  {
    if ps == [] || ps[|ps| - 1].port <= p.port then ps + [p]
    else
      assert ps == ps[..|ps| - 1] + [ps[|ps| - 1]];
      Insert(ps[..|ps| - 1], p) + [ps[|ps| - 1]]
  }

  /** Stable, by port. */
  function SortByPort(ps: seq<PortRow>): (r: seq<PortRow>)
    ensures multiset(r) == multiset(ps) && PortsSorted(r)
  {
    if ps == [] then []
    else
      assert ps == ps[..|ps| - 1] + [ps[|ps| - 1]];
      Insert(SortByPort(ps[..|ps| - 1]), ps[|ps| - 1])
  }

  function WithoutPort(ps: seq<PortRow>, port: nat): (r: seq<PortRow>)
    ensures forall p :: p in r <==> p in ps && p.port != port
  {
    if ps == [] then []
    else
      var rest := WithoutPort(ps[..|ps| - 1], port);
      var last := ps[|ps| - 1];
      assert ps == ps[..|ps| - 1] + [last];
      if last.port == port then rest else rest + [last]
  }

  datatype HostEdit =
    | SetHost(i: int, host: string)
    | AddPort(i: int, port: nat)
    | RemovePort(i: int, port: nat)
    | AddRow
    | RemoveRow(i: int)
    | SetAccess(i: int, access: Access)

  /** What an edit does to the row it names: a row with a pin keeps its host and is not
      widened, and apart from that every edit changes what it is about and nothing else. */
  function EditRow(r: Row, e: HostEdit): (r': Row)
    ensures r'.host == if e.SetHost? && !HasPin(r) then e.host else r.host
    ensures r'.access == if e.SetAccess? && (e.access.Read? || !HasPin(r)) then e.access else r.access
    ensures !e.AddPort? && !e.RemovePort? ==> r'.ports == r.ports
    ensures e.RemovePort? ==> forall p :: p in r'.ports <==> p in r.ports && p.port != e.port
    ensures e.AddPort? && (exists p :: p in r.ports && p.port == e.port) ==> r'.ports == r.ports
    ensures e.AddPort? && (forall p :: p in r.ports ==> p.port != e.port) ==>
              && multiset(r'.ports) == multiset(r.ports) + multiset{PortRow(e.port, Undeclared)}
              && PortsSorted(r'.ports)
  {
    match e
    case SetHost(_, host) => if HasPin(r) then r else r.(host := host)
    case AddPort(_, port) =>
      if exists p :: p in r.ports && p.port == port then r
      else r.(ports := SortByPort(r.ports + [PortRow(port, Undeclared)]))
    case RemovePort(_, port) => r.(ports := WithoutPort(r.ports, port))
    case SetAccess(_, access) => if access.ReadWrite? && HasPin(r) then r else r.(access := access)
    case _ => r
  }

  function ApplyHost(rows: seq<Row>, e: HostEdit): seq<Row> {
    match e
    case AddRow => rows + [Row("", WebDefaults(), ReadWrite)]
    case RemoveRow(i) => if 0 <= i < |rows| then rows[..i] + rows[i + 1..] else rows
    case _ => if 0 <= e.i < |rows| then rows[e.i := EditRow(rows[e.i], e)] else rows
  }

  datatype GitEdit =
    | AddGit
    | RemoveGit(i: int)
    | SetTarget(i: int, target: string)
    | SetGitAccess(i: int, access: Access)

  function ApplyGit(rows: seq<GitRow>, e: GitEdit): seq<GitRow> {
    match e
    case AddGit => rows + [GitRow("", Read)]
    case RemoveGit(i) => if 0 <= i < |rows| then rows[..i] + rows[i + 1..] else rows
    case SetTarget(i, target) => if 0 <= i < |rows| then rows[i := rows[i].(target := target)] else rows
    case SetGitAccess(i, access) => if 0 <= i < |rows| then rows[i := rows[i].(access := access)] else rows
  }

  function ApplyHosts(rows: seq<Row>, es: seq<HostEdit>): seq<Row> {
    if es == [] then rows else ApplyHost(ApplyHosts(rows, es[..|es| - 1]), es[|es| - 1])
  }

  function ApplyGits(rows: seq<GitRow>, es: seq<GitEdit>): seq<GitRow> {
    if es == [] then rows else ApplyGit(ApplyGits(rows, es[..|es| - 1]), es[|es| - 1])
  }

  // ---- What a save sends ----

  predicate HostnameChar(c: char) {
    'a' <= c <= 'z' || 'A' <= c <= 'Z' || '0' <= c <= '9' || c in {'.', '_', '-'}
  }

  predicate BadHostPattern(host: string) {
    var wildcard := "**." <= host || "*." <= host;
    var rest := if "**." <= host then host[3..] else if "*." <= host then host[2..] else host;
    rest == "" || '*' in rest || (wildcard && exists c :: c in rest && !HostnameChar(c))
  }

  predicate AllPatternsOk(rows: seq<Row>) {
    forall r :: r in rows ==> JsTrim(r.host) == "" || !BadHostPattern(JsTrim(r.host))
  }

  /** The rows that have a host, as they go over the wire. */
  function AllowPayload(rows: seq<Row>): (sent: seq<AllowEntry>)
    ensures forall e :: e in sent <==> exists r :: r in rows && JsTrim(r.host) != "" && e == ToEntry(r)
  {
    if rows == [] then []
    else
      var before := AllowPayload(rows[..|rows| - 1]);
      var last := rows[|rows| - 1];
      assert rows == rows[..|rows| - 1] + [last];
      if JsTrim(last.host) == "" then before else before + [ToEntry(last)]
  }

  /** The row as it goes over the wire: its host without the space around it, its access,
      and every port, as a bare number if it declares no protocol. */
  function ToEntry(r: Row): (e: AllowEntry)
    ensures e.Scoped? && e.host == JsTrim(r.host) && e.access == Some(r.access)
    ensures e.ports.Some? && |e.ports.value| == |r.ports|
    ensures forall i :: 0 <= i < |r.ports| ==>
              && e.ports.value[i].port == r.ports[i].port
              && (r.ports[i].protocol.Undeclared? <==> e.ports.value[i].Bare?)
              && (e.ports.value[i].Declared? ==> e.ports.value[i].protocol == r.ports[i].protocol)
  {
    Scoped(JsTrim(r.host), Some(MapSeq(ToPortSpec, r.ports)), Some(r.access))
  }

  function GitPayload(rows: seq<GitRow>): seq<GitRule> {
    if rows == [] then []
    else
      var before := GitPayload(rows[..|rows| - 1]);
      var last := rows[|rows| - 1];
      var target := JsTrim(last.target);
      if target == "" then before
      else before + [if '/' in target then Repo(target, Some(last.access)) else GitHost(target, Some(last.access))]
  }

  // ---- Passthroughs never spread ----

  /** A current row that carries a pin stems from a loaded row of the same host, all
      of its pins included, and is no wider than that row was. */
  ghost predicate Traces(loaded: seq<Row>, r: Row) {
    HasPin(r) ==> exists o :: o in loaded && StemsFrom(o, r)
  }

  ghost predicate StemsFrom(o: Row, r: Row) {
    && o.host == r.host
    && (forall p :: p in r.ports && IsPinned(p) ==> p in o.ports)
    && (r.access.ReadWrite? ==> o.access.ReadWrite?)
  }

  lemma EditRowTraces(loaded: seq<Row>, r: Row, e: HostEdit)
    requires Traces(loaded, r)
    ensures Traces(loaded, EditRow(r, e))
  {
    var r' := EditRow(r, e);
    if e.AddPort? {
      var more := r.ports + [PortRow(e.port, Undeclared)];
      forall p | p in r'.ports ensures p in r.ports || !IsPinned(p) {
        if r' != r {
          assert p in multiset(SortByPort(more));
          assert p in multiset(more);
        }
      }
    }
    if HasPin(r') {
      assert HasPin(r);
      var o :| o in loaded && StemsFrom(o, r);
      assert StemsFrom(o, r');
    }
  }

  lemma EditTraces(loaded: seq<Row>, rows: seq<Row>, e: HostEdit)
    requires forall r :: r in rows ==> Traces(loaded, r)
    ensures forall r :: r in ApplyHost(rows, e) ==> Traces(loaded, r)
  {
    hide Traces, EditRow;
    if e.AddRow? {
      FreshRowTraces(loaded);
    } else if !e.RemoveRow? && 0 <= e.i < |rows| {
      assert rows[e.i] in rows;
      EditRowTraces(loaded, rows[e.i], e);
    }
  }

  lemma FreshRowTraces(loaded: seq<Row>)
    ensures Traces(loaded, Row("", WebDefaults(), ReadWrite))
  {
  }

  /** Over every sequence of edits. */
  lemma {:induction false} EditsTrace(loaded: seq<Row>, es: seq<HostEdit>)
    ensures forall r :: r in ApplyHosts(loaded, es) ==> Traces(loaded, r)
  {
    if es == [] {
      forall r | r in loaded ensures Traces(loaded, r) {
        assert StemsFrom(r, r);
      }
    } else {
      hide Traces;
      EditsTrace(loaded, es[..|es| - 1]);
      EditTraces(loaded, ApplyHosts(loaded, es[..|es| - 1]), es[|es| - 1]);
    }
  }

  function StripDots(h: string): string {
    if h != "" && h[|h| - 1] == '.' then StripDots(h[..|h| - 1]) else h
  }

  /** `normalize_policy_host`, by which the product tells hosts apart. */
  function Norm(h: string): string {
    LowerAll(StripDots(JsTrim(h)))
  }

  lemma NormTrimmed(h: string)
    ensures Norm(JsTrim(h)) == Norm(h)
  {
    TrimTwice(h);
  }

  /** The passthroughs some entry of an allow-list declares: a read-write entry's tcp
      ports. Which entry rules when several name one host is the matter of `Live`. */
  ghost predicate Opens(allow: seq<AllowEntry>, host: string, port: nat) {
    exists e :: e in allow && EntryOpens(e, host, port)
  }

  ghost predicate EntryOpens(e: AllowEntry, host: string, port: nat) {
    && e.Scoped? && JsTrim(e.host) != "" && Norm(e.host) == host
    && (e.access.None? || e.access.value.ReadWrite?)
    && e.ports.Some? && Declared(port, TcpProtocol) in e.ports.value
  }

  lemma {:induction false} TrimTwice(s: string)
    ensures JsTrim(JsTrim(s)) == JsTrim(s)
    decreases |s|
  {
    if s != "" && IsJsSpace(s[0]) {
      TrimTwice(s[1..]);
    } else if s != "" && IsJsSpace(s[|s| - 1]) {
      TrimTwice(s[..|s| - 1]);
    }
  }

  /** Whatever was edited, what is sent opens nothing that the loaded policy did not. */
  lemma PassthroughsNeverSpread(p: Policy, es: seq<HostEdit>, host: string, port: nat)
    requires Opens(AllowPayload(ApplyHosts(LoadedHosts(p), es)), host, port)
    ensures Opens(p.allow, host, port)
  {
    hide EntryOpens, AllowPayload, ApplyHosts, LoadedHosts;
    var e :| e in AllowPayload(ApplyHosts(LoadedHosts(p), es)) && EntryOpens(e, host, port);
    var k, r := PassthroughStems(p, es, e, host, port);
    assert p.allow[k] in p.allow;
  }

  /** A passthrough that is sent comes from a row whose host a loaded entry has, and that
      entry declares it. */
  lemma PassthroughStems(p: Policy, es: seq<HostEdit>, e: AllowEntry, host: string, port: nat) returns (k: nat, r: Row)
    requires e in AllowPayload(ApplyHosts(LoadedHosts(p), es)) && EntryOpens(e, host, port)
    ensures r in ApplyHosts(LoadedHosts(p), es) && JsTrim(r.host) != ""
    ensures k < |p.allow| && p.allow[k].host == r.host && EntryOpens(p.allow[k], host, port)
  {
    hide Traces, JsTrim, ApplyHosts, Norm;
    var loaded := LoadedHosts(p);
    var rows := ApplyHosts(loaded, es);
    EditsTrace(loaded, es);
    r :| r in rows && JsTrim(r.host) != "" && e == ToEntry(r);
    OpenRowStems(loaded, r, port, e.ports.value);
    var o :| o in loaded && StemsFrom(o, r);
    k :| 0 <= k < |loaded| && loaded[k] == o;
    NormTrimmed(r.host);
    PinWasLoaded(p.allow[k], port);
  }

  lemma OpenRowStems(loaded: seq<Row>, r: Row, port: nat, sent: seq<PortSpec>)
    requires Traces(loaded, r) && sent == MapSeq(ToPortSpec, r.ports) && Declared(port, TcpProtocol) in sent
    ensures PortRow(port, TcpProtocol) in r.ports && exists o :: o in loaded && StemsFrom(o, r)
  {
    var j :| 0 <= j < |sent| && sent[j] == Declared(port, TcpProtocol);
    assert r.ports[j] == PortRow(port, TcpProtocol);
    assert r.ports[j] in r.ports && IsPinned(r.ports[j]);
    assert HasPin(r);
  }

  lemma PinWasLoaded(e: AllowEntry, port: nat)
    requires PortRow(port, TcpProtocol) in ToRow(e).ports
    ensures e.Scoped? && e.ports.Some? && Declared(port, TcpProtocol) in e.ports.value
  {
    var p := PortRow(port, TcpProtocol);
    assert p !in WebDefaults();
    var ports := ToRow(e).ports;
    var j :| 0 <= j < |ports| && ports[j] == p;
    assert e.Scoped? && e.ports.Some?;
    assert ToPortRow(e.ports.value[j]) == p;
  }

  // ---- Loading and saving lose nothing ----

  /** What an entry of a policy lets through: a port, the protocol it declares, and how. */
  ghost predicate EntryGrants(e: AllowEntry, port: nat, protocol: Protocol, access: Access) {
    match e
    case BareHost(_) => port in {80, 443} && protocol.Undeclared? && access.ReadWrite?
    case Scoped(_, ports, declared) =>
      && access == (if declared.Some? then declared.value else ReadWrite)
      && (if ports.Some? then exists s :: s in ports.value && PortMeans(s, port, protocol)
          else port in {80, 443} && protocol.Undeclared?)
  }

  ghost predicate PortMeans(s: PortSpec, port: nat, protocol: Protocol) {
    s.port == port && protocol == if s.Bare? then Undeclared else s.protocol
  }

  ghost predicate RowGrants(r: Row, port: nat, protocol: Protocol, access: Access) {
    PortRow(port, protocol) in r.ports && access == r.access
  }

  /** Both directions of the translation keep the meaning. */
  lemma RowMeansEntry(e: AllowEntry, port: nat, protocol: Protocol, access: Access)
    ensures RowGrants(ToRow(e), port, protocol, access) <==> EntryGrants(e, port, protocol, access)
  {
    if e.Scoped? && e.ports.Some? {
      var ps, rows := e.ports.value, ToRow(e).ports;
      if PortRow(port, protocol) in rows {
        var i :| 0 <= i < |rows| && rows[i] == PortRow(port, protocol);
        assert ps[i] in ps && PortMeans(ps[i], port, protocol);
      }
      if s :| s in ps && PortMeans(s, port, protocol) {
        var i :| 0 <= i < |ps| && ps[i] == s;
        assert rows[i] == PortRow(port, protocol);
      }
    }
  }

  lemma EntryMeansRow(r: Row, port: nat, protocol: Protocol, access: Access)
    ensures EntryGrants(ToEntry(r), port, protocol, access) <==> RowGrants(r, port, protocol, access)
  {
    hide JsTrim;
    var specs := ToEntry(r).ports.value;
    if PortRow(port, protocol) in r.ports {
      var i :| 0 <= i < |r.ports| && r.ports[i] == PortRow(port, protocol);
      assert specs[i] in specs && PortMeans(specs[i], port, protocol);
    }
    if s :| s in specs && PortMeans(s, port, protocol) {
      var i :| 0 <= i < |specs| && specs[i] == s;
      assert r.ports[i] == PortRow(port, protocol);
    }
  }

  /** Some entry with that host grants it. */
  ghost predicate Granted(allow: seq<AllowEntry>, host: string, port: nat, protocol: Protocol, access: Access) {
    host != "" && exists e :: e in allow && JsTrim(e.host) == host && EntryGrants(e, port, protocol, access)
  }

  /** Saving a policy as it was loaded changes nothing of what it lets through. */
  lemma UntouchedMeansTheSame(p: Policy, host: string, port: nat, protocol: Protocol, access: Access)
    ensures Granted(AllowPayload(LoadedHosts(p)), host, port, protocol, access)
       <==> Granted(p.allow, host, port, protocol, access)
  {
    hide Granted;
    if Granted(p.allow, host, port, protocol, access) {
      NothingLost(p, host, port, protocol, access);
    }
    if Granted(AllowPayload(LoadedHosts(p)), host, port, protocol, access) {
      NothingGained(p, host, port, protocol, access);
    }
  }

  lemma NothingLost(p: Policy, host: string, port: nat, protocol: Protocol, access: Access)
    requires Granted(p.allow, host, port, protocol, access)
    ensures Granted(AllowPayload(LoadedHosts(p)), host, port, protocol, access)
  {
    hide JsTrim, EntryGrants, AllowPayload, ToEntry, ToRow;
    var rows := LoadedHosts(p);
    var e :| e in p.allow && JsTrim(e.host) == host && EntryGrants(e, port, protocol, access);
    var i :| 0 <= i < |p.allow| && p.allow[i] == e;
    assert rows[i] == ToRow(e) && rows[i] in rows;
    SentMeans(e, port, protocol, access);
    assert ToEntry(rows[i]) in AllowPayload(rows);
  }

  lemma NothingGained(p: Policy, host: string, port: nat, protocol: Protocol, access: Access)
    requires Granted(AllowPayload(LoadedHosts(p)), host, port, protocol, access)
    ensures Granted(p.allow, host, port, protocol, access)
  {
    hide JsTrim, EntryGrants, AllowPayload, ToEntry, ToRow;
    var rows := LoadedHosts(p);
    var e :| e in AllowPayload(rows) && JsTrim(e.host) == host && EntryGrants(e, port, protocol, access);
    var r :| r in rows && JsTrim(r.host) != "" && e == ToEntry(r);
    var i :| 0 <= i < |rows| && rows[i] == r;
    assert r == ToRow(p.allow[i]) && p.allow[i] in p.allow;
    SentMeans(p.allow[i], port, protocol, access);
  }

  lemma SentMeans(e: AllowEntry, port: nat, protocol: Protocol, access: Access)
    ensures JsTrim(ToEntry(ToRow(e)).host) == JsTrim(e.host) == JsTrim(ToRow(e).host)
    ensures EntryGrants(ToEntry(ToRow(e)), port, protocol, access) <==> EntryGrants(e, port, protocol, access)
  {
    hide JsTrim, EntryGrants, RowGrants;
    TrimTwice(e.host);
    RowMeansEntry(e, port, protocol, access);
    EntryMeansRow(ToRow(e), port, protocol, access);
  }

  /** What was saved is what is loaded and saved again, to the letter. */
  lemma {:induction false} SavedIsStable(rows: seq<Row>)
    ensures AllowPayload(MapSeq(ToRow, AllowPayload(rows))) == AllowPayload(rows)
  {
    hide ToRow, ToEntry, JsTrim;
    if rows != [] {
      var init, last := rows[..|rows| - 1], rows[|rows| - 1];
      SavedIsStable(init);
      var before := AllowPayload(init);
      if JsTrim(last.host) != "" {
        var again := MapSeq(ToRow, before + [ToEntry(last)]);
        assert again[..|before|] == MapSeq(ToRow, before);
        EntryIsStable(last);
      }
    }
  }

  lemma EntryIsStable(r: Row)
    ensures ToEntry(ToRow(ToEntry(r))) == ToEntry(r) && ToRow(ToEntry(r)).host == JsTrim(r.host)
    ensures JsTrim(JsTrim(r.host)) == JsTrim(r.host)
  {
    hide JsTrim;
    TrimTwice(r.host);
    var specs := MapSeq(ToPortSpec, r.ports);
    assert MapSeq(ToPortSpec, MapSeq(ToPortRow, specs)) == specs;
  }

  /** Some git rule of that kind, for that target, grants the access; without a declared
      access it is read-only. */
  ghost predicate GitGranted(git: seq<GitRule>, isRepo: bool, target: string, access: Access) {
    target != "" && exists g :: g in git && GitMeans(g, isRepo, target, access)
  }

  ghost predicate GitMeans(g: GitRule, isRepo: bool, target: string, access: Access) {
    && access == (if g.access == Some(ReadWrite) then ReadWrite else Read)
    && match g
       case Repo(repo, _) => isRepo && JsTrim(repo) == target
       case GitHost(host, _) => !isRepo && JsTrim(host) == target
  }

  /** The kind of a rule can be told from its target. */
  ghost predicate Spelled(g: GitRule) {
    match g
    case Repo(repo, _) => JsTrim(repo) != "" ==> '/' in JsTrim(repo)
    case GitHost(host, _) => '/' !in JsTrim(host)
  }

  /** Saving git rules as they were loaded never changes what a target may do... */
  lemma UntouchedGitMeansTheSame(p: Policy, target: string, access: Access)
    ensures GitGranted(GitPayload(LoadedGit(p)), true, target, access)
            || GitGranted(GitPayload(LoadedGit(p)), false, target, access)
       <==> GitGranted(p.git, true, target, access) || GitGranted(p.git, false, target, access)
  {
    hide JsTrim, GitPayload, LoadedGit;
    var sent := GitPayload(LoadedGit(p));
    if target != "" {
      if g :| g in p.git && (GitMeans(g, true, target, access) || GitMeans(g, false, target, access)) {
        GitSent(p, g);
      }
      if g :| g in sent && (GitMeans(g, true, target, access) || GitMeans(g, false, target, access)) {
        var g' := GitCameFrom(p, g);
      }
    }
  }

  /** ... and the kind of every rule is kept as well exactly when it could be told from
      the target: a repository without a slash is sent as a host. */
  lemma UntouchedGitExactlyWhen(p: Policy)
    ensures (forall isRepo, target, access ::
               GitGranted(GitPayload(LoadedGit(p)), isRepo, target, access)
               <==> GitGranted(p.git, isRepo, target, access))
       <==> forall g :: g in p.git ==> Spelled(g)
  {
    hide JsTrim, GitPayload, LoadedGit, GitGranted;
    if forall g :: g in p.git ==> Spelled(g) {
      forall isRepo, target, access
        ensures GitGranted(GitPayload(LoadedGit(p)), isRepo, target, access)
                <==> GitGranted(p.git, isRepo, target, access)
      {
        SpelledGitMeansTheSame(p, isRepo, target, access);
      }
    } else {
      var g :| g in p.git && !Spelled(g);
      MisspelledIsLost(p, g);
    }
  }

  lemma SpelledGitMeansTheSame(p: Policy, isRepo: bool, target: string, access: Access)
    requires forall g :: g in p.git ==> Spelled(g)
    ensures GitGranted(GitPayload(LoadedGit(p)), isRepo, target, access) <==> GitGranted(p.git, isRepo, target, access)
  {
    hide JsTrim, GitPayload, LoadedGit;
    var sent := GitPayload(LoadedGit(p));
    if target != "" {
      if g :| g in p.git && GitMeans(g, isRepo, target, access) {
        GitSent(p, g);
      }
      if g :| g in sent && GitMeans(g, isRepo, target, access) {
        var g' := GitCameFrom(p, g);
      }
    }
  }

  lemma MisspelledIsLost(p: Policy, g: GitRule)
    requires g in p.git && !Spelled(g)
    ensures var target := JsTrim(if g.Repo? then g.repo else g.host);
            var access := if g.access == Some(ReadWrite) then ReadWrite else Read;
            GitGranted(p.git, g.Repo?, target, access)
            && !GitGranted(GitPayload(LoadedGit(p)), g.Repo?, target, access)
  {
    hide JsTrim, GitPayload, LoadedGit;
    var target := JsTrim(if g.Repo? then g.repo else g.host);
    var access := if g.access == Some(ReadWrite) then ReadWrite else Read;
    assert GitMeans(g, g.Repo?, target, access);
    forall w | w in GitPayload(LoadedGit(p)) ensures !GitMeans(w, g.Repo?, target, access) {
      var g' := GitCameFrom(p, w);
    }
  }

  lemma GitPayloadHas(rows: seq<GitRow>)
    ensures forall g :: g in GitPayload(rows) <==>
              exists r :: r in rows && JsTrim(r.target) != "" && g == GitWritten(r)
  {
    hide GitPayload, JsTrim, GitWritten;
    var idx := GitPayloadInOrder(rows);
    var sent := GitPayload(rows);
    forall r | r in rows && JsTrim(r.target) != "" ensures GitWritten(r) in sent {
      var j :| 0 <= j < |rows| && rows[j] == r;
      var i :| 0 <= i < |idx| && idx[i] == j;
      assert sent[i] == GitWritten(r);
    }
    forall g | g in sent ensures exists r :: r in rows && JsTrim(r.target) != "" && g == GitWritten(r) {
      var i :| 0 <= i < |sent| && sent[i] == g;
      assert rows[idx[i]] in rows;
    }
  }

  /** The rule that a loaded rule is sent as. */
  lemma GitSent(p: Policy, g: GitRule)
    requires g in p.git
    ensures var target := JsTrim(if g.Repo? then g.repo else g.host);
            var access := Some(if g.access == Some(ReadWrite) then ReadWrite else Read);
            && (target != "" ==>
                  (if '/' in target then Repo(target, access) else GitHost(target, access)) in GitPayload(LoadedGit(p)))
            && JsTrim(target) == target
  {
    hide JsTrim, GitPayload;
    var rows := LoadedGit(p);
    GitPayloadHas(rows);
    var i :| 0 <= i < |p.git| && p.git[i] == g;
    assert rows[i] in rows && rows[i] == ToGitRow(g);
    TrimTwice(if g.Repo? then g.repo else g.host);
    GitRowReads(g);
    assert JsTrim(rows[i].target) != "" ==> GitWritten(rows[i]) in GitPayload(rows);
  }

  /** The loaded rule that a sent one came from. */
  lemma GitCameFrom(p: Policy, w: GitRule) returns (g: GitRule)
    requires w in GitPayload(LoadedGit(p))
    ensures g in p.git
    ensures var target := JsTrim(if g.Repo? then g.repo else g.host);
            var access := Some(if g.access == Some(ReadWrite) then ReadWrite else Read);
            && target != "" && JsTrim(target) == target
            && w == if '/' in target then Repo(target, access) else GitHost(target, access)
  {
    hide JsTrim, GitPayload;
    var rows := LoadedGit(p);
    GitPayloadHas(rows);
    var r :| r in rows && JsTrim(r.target) != "" && w == GitWritten(r);
    var i :| 0 <= i < |rows| && rows[i] == r;
    g := p.git[i];
    assert r == ToGitRow(g);
    TrimTwice(if g.Repo? then g.repo else g.host);
    GitRowReads(g);
  }

  lemma GitRowReads(g: GitRule)
    ensures ToGitRow(g).target == if g.Repo? then g.repo else g.host
    ensures ToGitRow(g).access == if g.access == Some(ReadWrite) then ReadWrite else Read
  {
    match g.access
    case None =>
    case Some(access) =>
      match access
      case Read =>
      case ReadWrite =>
  }

  lemma {:induction false} SavedGitIsStable(rows: seq<GitRow>)
    ensures GitPayload(MapSeq(ToGitRow, GitPayload(rows))) == GitPayload(rows)
  {
    hide JsTrim;
    if rows != [] {
      var init, last := rows[..|rows| - 1], rows[|rows| - 1];
      SavedGitIsStable(init);
      var before := GitPayload(init);
      TrimTwice(last.target);
      if JsTrim(last.target) != "" {
        var again := MapSeq(ToGitRow, GitPayload(rows));
        assert again[..|before|] == MapSeq(ToGitRow, before);
      }
    }
  }

  // ---- Duplicate hosts ----

  /** Of several entries that name one exact host the product heeds the last; the
      passthroughs it opens are that entry's. */
  ghost predicate Live(allow: seq<AllowEntry>, host: string, port: nat) {
    exists i: nat :: LiveAt(allow, host, port, i)
  }

  ghost predicate LiveAt(allow: seq<AllowEntry>, host: string, port: nat, i: nat) {
    && i < |allow| && EntryOpens(allow[i], host, port)
    && forall j :: i < j < |allow| ==> Norm(allow[j].host) != host
  }

  /** No edits that can be saved bring a passthrough to life that the loaded policy did
      not have live. */
  ghost predicate NothingWakes(p: Policy) {
    forall es: seq<HostEdit>, host: string, port: nat ::
      AllPatternsOk(ApplyHosts(LoadedHosts(p), es)) && Live(AllowPayload(ApplyHosts(LoadedHosts(p), es)), host, port)
      ==> Live(p.allow, host, port)
  }

  /** Every passthrough that the loaded policy declares for a valid host is live in it:
      none is shadowed by a later entry for the same host. */
  ghost predicate NothingSleeps(p: Policy) {
    forall e, host: string, port: nat ::
      e in p.allow && EntryOpens(e, host, port) && !BadHostPattern(JsTrim(e.host)) ==> Live(p.allow, host, port)
  }

  /** Exactly when no edits can wake a passthrough: when none sleeps. */
  lemma WakesExactlyWhen(p: Policy)
    ensures NothingWakes(p) <==> NothingSleeps(p)
  {
    hide EntryOpens, Live, AllowPayload, ApplyHosts, LoadedHosts, AllPatternsOk, BadHostPattern, JsTrim;
    if NothingSleeps(p) {
      forall es: seq<HostEdit>, host, port: nat
        | && AllPatternsOk(ApplyHosts(LoadedHosts(p), es))
          && Live(AllowPayload(ApplyHosts(LoadedHosts(p), es)), host, port)
        ensures Live(p.allow, host, port)
      {
        var e := LiveEntry(ApplyHosts(LoadedHosts(p), es), host, port);
        var k, r := PassthroughStems(p, es, e, host, port);
        assert p.allow[k] in p.allow;
        PatternOk(ApplyHosts(LoadedHosts(p), es), r);
      }
    }
    if NothingWakes(p) {
      forall e, host: string, port: nat
        | e in p.allow && EntryOpens(e, host, port) && !BadHostPattern(JsTrim(e.host))
        ensures Live(p.allow, host, port)
      {
        var es := Wake(p, e, host, port);
      }
    }
  }

  lemma PatternOk(rows: seq<Row>, r: Row)
    requires AllPatternsOk(rows) && r in rows && JsTrim(r.host) != ""
    ensures !BadHostPattern(JsTrim(r.host))
  {
  }

  lemma LiveEntry(rows: seq<Row>, host: string, port: nat) returns (e: AllowEntry)
    requires Live(AllowPayload(rows), host, port)
    ensures e in AllowPayload(rows) && EntryOpens(e, host, port)
  {
    hide AllowPayload, EntryOpens;
    var i: nat :| LiveAt(AllowPayload(rows), host, port, i);
    e := AllowPayload(rows)[i];
  }

  /** Removing all other rows brings a declared passthrough to life. */
  lemma Wake(p: Policy, e: AllowEntry, host: string, port: nat) returns (es: seq<HostEdit>)
    requires e in p.allow && EntryOpens(e, host, port) && !BadHostPattern(JsTrim(e.host))
    ensures AllPatternsOk(ApplyHosts(LoadedHosts(p), es))
    ensures Live(AllowPayload(ApplyHosts(LoadedHosts(p), es)), host, port)
  {
    hide JsTrim, Norm, ApplyHosts, EntryOpens, ToEntry, BadHostPattern;
    var i :| 0 <= i < |p.allow| && p.allow[i] == e;
    var rows := LoadedHosts(p);
    var below := CutBelow(rows, i, |rows| - i - 1);
    var above := CutAbove(rows[..i + 1], i);
    es := below + above;
    ApplyConcat(rows, below, above);
    var row := rows[..i + 1][i];
    assert ApplyHosts(rows, es) == [row] && row == ToRow(e);
    OpensStill(e, host, port);
    assert [row][..0] == [] && AllowPayload([row]) == [ToEntry(row)];
    assert LiveAt(AllowPayload([row]), host, port, 0);
  }

  lemma {:induction false} CutAbove(rows: seq<Row>, n: nat) returns (es: seq<HostEdit>)
    requires n <= |rows|
    ensures ApplyHosts(rows, es) == rows[n..]
  {
    if n == 0 {
      es := [];
    } else {
      var rest := CutAbove(rows[1..], n - 1);
      es := [RemoveRow(0)] + rest;
      ApplyFirst(rows, RemoveRow(0), rest);
      assert ApplyHost(rows, RemoveRow(0)) == rows[1..];
      assert rows[1..][n - 1..] == rows[n..];
    }
  }

  lemma {:induction false} ApplyConcat(rows: seq<Row>, a: seq<HostEdit>, b: seq<HostEdit>)
    ensures ApplyHosts(rows, a + b) == ApplyHosts(ApplyHosts(rows, a), b)
  {
    hide ApplyHost;
    if b == [] {
      assert a + b == a;
    } else {
      ApplyConcat(rows, a, b[..|b| - 1]);
      assert (a + b)[..|a + b| - 1] == a + b[..|b| - 1];
    }
  }

  lemma OpensStill(e: AllowEntry, host: string, port: nat)
    requires EntryOpens(e, host, port)
    ensures JsTrim(ToRow(e).host) != "" && EntryOpens(ToEntry(ToRow(e)), host, port)
  {
    hide JsTrim, Norm;
    TrimTwice(e.host);
    NormTrimmed(e.host);
    var specs := e.ports.value;
    var k :| 0 <= k < |specs| && specs[k] == Declared(port, TcpProtocol);
    var sent := ToEntry(ToRow(e)).ports.value;
    assert sent[k] == Declared(port, TcpProtocol) && sent[k] in sent;
  }

  lemma {:induction false} CutBelow(rows: seq<Row>, i: nat, n: nat) returns (es: seq<HostEdit>)
    requires i + 1 + n == |rows|
    ensures ApplyHosts(rows, es) == rows[..i + 1]
  {
    if n == 0 {
      es := [];
      assert rows[..i + 1] == rows;
    } else {
      var fewer := rows[..|rows| - 1];
      var rest := CutBelow(fewer, i, n - 1);
      es := [RemoveRow(|rows| - 1)] + rest;
      ApplyFirst(rows, RemoveRow(|rows| - 1), rest);
      assert ApplyHost(rows, RemoveRow(|rows| - 1)) == fewer;
      assert fewer[..i + 1] == rows[..i + 1];
    }
  }

  lemma ApplyFirst(rows: seq<Row>, e: HostEdit, es: seq<HostEdit>)
    ensures ApplyHosts(rows, [e] + es) == ApplyHosts(ApplyHost(rows, e), es)
  {
    hide ApplyHost;
    ApplyConcat(rows, [e], es);
    assert [e][..0] == [];
  }

  const SHADOWED: Policy :=
    Policy([Scoped("db", Some([Declared(5432, TcpProtocol)]), None), BareHost("DB.")], [])

  lemma ShadowedSleeps()
    ensures SHADOWED.allow[0] in SHADOWED.allow && EntryOpens(SHADOWED.allow[0], "db", 5432)
    ensures !Live(SHADOWED.allow, "db", 5432) && !BadHostPattern(JsTrim(SHADOWED.allow[0].host))
  {
    SameHost();
    hide JsTrim, Norm;
    var ports := [Declared(5432, TcpProtocol)];
    assert ports[0] in ports && SHADOWED.allow[0] == Scoped("db", Some(ports), None);
    forall i: nat ensures !LiveAt(SHADOWED.allow, "db", 5432, i) {
      assert i == 0 ==> Norm(SHADOWED.allow[1].host) == "db";
    }
    assert "db"[0] == 'd' && !BadHostPattern("db");
    assert !Live(SHADOWED.allow, "db", 5432);
  }

  /** It does happen: of two rows for a host, spelled differently, the second hides the
      first one's passthrough, until it is removed. */
  lemma SleepingPassthroughWakes()
    ensures !NothingWakes(SHADOWED)
  {
    ShadowedSleeps();
    hide JsTrim, Norm, EntryOpens, Live, BadHostPattern, NothingWakes;
    WakesExactlyWhen(SHADOWED);
  }

  lemma SameHost()
    ensures JsTrim("db") == "db" && Norm("db") == "db" && Norm("DB.") == "db"
  {
    assert JsTrim("DB.") == "DB." && "DB."[..2] == "DB";
    assert LowerAll("DB") == "db" && LowerAll("db") == "db";
  }

  // ---- Order ----

  /** The rule is the git row: its target without the space around it, as a repository
      exactly when there is a slash in it, and its own access. */
  ghost function GitWritten(r: GitRow): GitRule {
    if '/' in JsTrim(r.target) then Repo(JsTrim(r.target), Some(r.access))
    else GitHost(JsTrim(r.target), Some(r.access))
  }

  /** What is sent are the git rows with a target, in row order. */
  lemma {:induction false} GitPayloadInOrder(rows: seq<GitRow>) returns (idx: seq<nat>)
    ensures PickedImages(rows, idx, GitPayload(rows), (r: GitRow) => JsTrim(r.target) != "", GitWritten)
  {
    hide JsTrim;
    idx := [];
    if rows != [] {
      hide PickedImages;
      var before := GitPayload(rows[..|rows| - 1]);
      idx := GitPayloadInOrder(rows[..|rows| - 1]);
      idx := PickedImagesSnoc(rows, idx, before, (r: GitRow) => JsTrim(r.target) != "", GitWritten);
    }
  }

  /** What is sent are the rows with a host, in row order. */
  lemma {:induction false} PayloadInOrder(rows: seq<Row>) returns (idx: seq<nat>)
    ensures PickedImages(rows, idx, AllowPayload(rows), (r: Row) => JsTrim(r.host) != "", ToEntry)
  {
    hide JsTrim, ToEntry;
    idx := [];
    if rows != [] {
      hide PickedImages;
      idx := PayloadInOrder(rows[..|rows| - 1]);
      idx := PickedImagesSnoc(rows, idx, AllowPayload(rows[..|rows| - 1]), (r: Row) => JsTrim(r.host) != "", ToEntry);
    }
  }

  /** The ports that remain, in their order. */
  lemma {:induction false} WithoutPortInOrder(ps: seq<PortRow>, port: nat) returns (idx: seq<nat>)
    ensures Picked(ps, idx, WithoutPort(ps, port), (p: PortRow) => p.port != port)
  {
    idx := [];
    if ps != [] {
      hide Picked;
      idx := WithoutPortInOrder(ps[..|ps| - 1], port);
      idx := PickedSnoc(ps, idx, WithoutPort(ps[..|ps| - 1], port), (p: PortRow) => p.port != port);
    }
  }

  function OnPort(ps: seq<PortRow>, port: nat): seq<PortRow> {
    if ps == [] then []
    else OnPort(ps[..|ps| - 1], port) + if ps[|ps| - 1].port == port then [ps[|ps| - 1]] else []
  }

  /** Sorting keeps the order of rows with the same port. */
  lemma {:induction false} SortIsStable(ps: seq<PortRow>, port: nat)
    ensures OnPort(SortByPort(ps), port) == OnPort(ps, port)
  {
    if ps != [] {
      SortIsStable(ps[..|ps| - 1], port);
      InsertIsStable(SortByPort(ps[..|ps| - 1]), ps[|ps| - 1], port);
    }
  }

  lemma {:induction false} InsertIsStable(ps: seq<PortRow>, p: PortRow, port: nat)
    requires PortsSorted(ps)
    ensures OnPort(Insert(ps, p), port) == OnPort(ps, port) + if p.port == port then [p] else []
  {
    if ps == [] || ps[|ps| - 1].port <= p.port {
      OnPortSnoc(ps, p, port);
    } else {
      var init, last := ps[..|ps| - 1], ps[|ps| - 1];
      assert ps == init + [last];
      InsertIsStable(init, p, port);
      OnPortSnoc(Insert(init, p), last, port);
      OnPortSnoc(init, last, port);
      hide OnPort, Insert;
      assert OnPort(init, port) + [] == OnPort(init, port);
    }
  }

  lemma OnPortSnoc(ps: seq<PortRow>, p: PortRow, port: nat)
    ensures OnPort(ps + [p], port) == OnPort(ps, port) + if p.port == port then [p] else []
  {
    assert (ps + [p])[..|ps|] == ps;
  }

  // ---- Edits and patterns ----

  /** An edit of a row leaves all others where they are; a row that is removed is missing
      and nothing else; a new one has no host yet, both web ports and full access. */
  lemma OneRowEdited(rows: seq<Row>, e: HostEdit)
    ensures var after := ApplyHost(rows, e);
            match e
            case AddRow =>
              after == rows + [Row("", [PortRow(80, Undeclared), PortRow(443, Undeclared)], ReadWrite)]
            case RemoveRow(i) =>
              if 0 <= i < |rows| then
                && |after| == |rows| - 1
                && forall j :: 0 <= j < |after| ==> after[j] == rows[if j < i then j else j + 1]
              else after == rows
            case _ =>
              && |after| == |rows|
              && forall j :: 0 <= j < |rows| ==> after[j] == if j == e.i then EditRow(rows[j], e) else rows[j]
  {
    hide EditRow;
    match e
    case AddRow =>
    case RemoveRow(i) =>
      if 0 <= i < |rows| {
        TakenOut(rows, i);
      }
    case _ =>
  }

  lemma OneGitRowEdited(rows: seq<GitRow>, e: GitEdit)
    ensures var after := ApplyGit(rows, e);
            match e
            case AddGit => after == rows + [GitRow("", Read)]
            case RemoveGit(i) =>
              if 0 <= i < |rows| then
                && |after| == |rows| - 1
                && forall j :: 0 <= j < |after| ==> after[j] == rows[if j < i then j else j + 1]
              else after == rows
            case SetTarget(i, target) =>
              && |after| == |rows|
              && forall j :: 0 <= j < |rows| ==>
                   after[j].access == rows[j].access && after[j].target == if j == i then target else rows[j].target
            case SetGitAccess(i, access) =>
              && |after| == |rows|
              && forall j :: 0 <= j < |rows| ==>
                   after[j].target == rows[j].target && after[j].access == if j == i then access else rows[j].access
  {
    if e.RemoveGit? && 0 <= e.i < |rows| {
      TakenOut(rows, e.i);
    }
  }

  /** A pattern that may be saved is a host without a star, or one of the two wildcards in
      front of a name of letters, digits, dots, hyphens and underscores. */
  lemma GoodPatterns(host: string)
    ensures !BadHostPattern(host) <==>
            || (host != "" && '*' !in host)
            || exists name :: NamedHost(name) && (host == "*." + name || host == "**." + name)
  {
    if !BadHostPattern(host) && '*' in host {
      var rest := if "**." <= host then host[3..] else host[2..];
      assert forall c :: c in rest ==> HostnameChar(c);
      assert NamedHost(rest) && (host == "*." + rest || host == "**." + rest);
    }
    if host != "" && '*' !in host {
      assert host[0] != '*' && "**."[0] == "*."[0] == '*';
    }
    if name :| NamedHost(name) && (host == "*." + name || host == "**." + name) {
      Wildcards(name);
    }
  }

  ghost predicate NamedHost(name: string) {
    && name != ""
    && forall c :: c in name ==> 'a' <= c <= 'z' || 'A' <= c <= 'Z' || '0' <= c <= '9' || c in {'.', '_', '-'}
  }

  lemma Wildcards(name: string)
    requires NamedHost(name)
    ensures !BadHostPattern("*." + name) && !BadHostPattern("**." + name)
  {
    assert "**." <= "**." + name && ("**." + name)[3..] == name;
    var one := "*." + name;
    assert one[1] == '.' && "**."[1] == '*';
    assert !("**." <= one) && "*." <= one && one[2..] == name;
  }
}
