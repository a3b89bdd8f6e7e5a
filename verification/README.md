# izba: grading, proxying and consent, verified

A Dafny model of the parts of izba whose correctness is hard to see from any one
function, and proofs of what those parts are for.

* **The dogfood grading engine** (`Oracles`, `Grading`, `StateHooks`, `Journeys`,
  `Summary`, `Honesty`). An Actor model drives a journey step by step under step, turn
  and dollar caps; each step is graded on what it ran, with two kinds of rescue and with
  credit for decisive steps nobody entered. `Honesty.HonestPositive` is its purpose: a
  journey reads as positive exactly when it was honestly measured.
* **The VNC proxy's parsers** (`HeadReader`, `HeadRewriter`, `VncUrl`). Reading a request
  head off a socket in arbitrary chunks, rewriting it, and taking the daemon's URL apart.
* **The consent surfaces** (`PolicyRows`, `PolicyEditor`, `SeedCandidates`, `SeedDialog`,
  `LoadArchive`). Each is a state machine over user edits, polls and late answers; what
  is sent is shown to be what was read, reviewed or entered.
* **Small protocols** (`ProxyRegistry`, `ProxyChain`, `Bridge`, `ArchiveSave`,
  `RacingSaves`, `ShardPlan`). Proxy start and stop, the page's request bridge, replacing
  an archive by a sibling, alone and against other saves, and the size of the mutation
  gate's shard matrix.

`Basics` holds options, substring search, selections, trimming and decimal numbers.

Event-driven code appears twice. A `State` datatype with one `On…` function per event
gives the step; `Next` and `Run` give every interleaving, and the lemmas speak of every
run. A class with the source's fields and methods performs each step by updating its
fields, and every method is proved to take exactly the step of its `On…` function. State
fields described as "for the record" have no counterpart in the source; they remember
where a value came from so that its origin can be stated.

Regular expressions, the Actor, the shell, the daemon, the network and the file system's
answers are parameters: every statement holds for all of them.

## What does not hold

Some of the source's own promises are false. Each comes with an input or a run on which it
fails, and with the exact condition under which it holds: of an input, of a run, or, for
racing saves, of a step.

* An unusable `expect_exit` on a step whose prose announces a refusal lets a missing
  binary count as the refusal (`Oracles.MissingBinaryPasses`,
  `Oracles.MissingBinaryGapIsReal`).
* `expect_exit: 0` is satisfied by a success hidden behind `|| true`
  (`Oracles.MaskedSuccessPasses`, `Oracles.MaskedSuccessGapIsReal`).
* A port that the policy allows with a declared protocol is never covered, so its rows
  are offered again (`SeedCandidates.HostCovered`,
  `SeedCandidates.DeclaredPortIsOffered`). The documentation of `allowKeys` says that a
  scoped entry permits its exact ports; the model follows the code.
* "Load as" and the workspace folder can be sent for a sandbox they were not entered for:
  reading the archive again resets the picks but not the fields, and a folder dialog may
  answer late (`LoadArchive.WrongOwnerExactlyWhen`, `LoadArchive.RenameCanBeMisplaced`,
  `LoadArchive.WorkspaceCanBeMisplaced`).
* Removing a row can bring a passthrough to life that a later row for the same host had
  shadowed (`PolicyRows.WakesExactlyWhen`, `PolicyRows.SleepingPassthroughWakes`).
* A relay that ends lines at a bare LF can be shown an Authorization header that is not
  ours, or a head that ends before ours (`HeadRewriter.LfRelayExactlyWhen`,
  `HeadRewriter.BareLfSlipsThrough`, `HeadRewriter.BareLfEndsTheHead`).
* A git rule that the policy files as a repository, but whose target has no slash, is saved
  as a host, and the other way round, without anyone editing it
  (`PolicyRows.UntouchedGitExactlyWhen`, `PolicyRows.MisspelledIsLost`).
* An archive that was reported as saved can be lost to a save that runs beside it, if it
  was written to that save's sibling: the other save's clean-up removes it, or its rename
  moves it away (`RacingSaves.VanishesExactlyWhen`, `RacingSaves.LostOnlyByTaking`,
  `RacingSaves.ClashLosesAnArchive`, `RacingSaves.RenameMovesAnArchive`).

## Model

| member | source | states |
|---|---|---|
| `Oracles.FunctionalOracle` | hack/dogfood/oracles.py:747-893 | no finding exactly when the exit code is as expected and is evidence at all (not masked, not a command the shell never ran); at most one finding; masked exactly when a trailing echo owns the status or a success in prose hides behind a fallback, unverifiable exactly when a refusal is a command the shell never found, and a wrong code is reported as such only otherwise |
| `Oracles.StreamOracle` | hack/dogfood/run_journeys.py:337-407 | no finding exactly when the stream assertion holds; an infra finding exactly for a pattern that does not compile |
| `Oracles.GradeTarget` | hack/dogfood/run_journeys.py:533-548 | no candidate exactly when the action satisfies every declared assertion; every candidate points at that action and carries the step's weight |
| `Oracles.EveryVerdictIsReported` | hack/dogfood/run_journeys.py:533-548 | the kinds of the candidates are exactly the verdict on the exit code, infra for a pattern that does not compile and functional for one that does not match |
| `Oracles.MissingBinaryPasses` | hack/dogfood/oracles.py:734-893 | for a command the shell never ran, exactly which steps still pass, the gap included |
| `Oracles.MaskedSuccessPasses` | hack/dogfood/oracles.py:689-893 | for a success behind a trivial fallback, exactly which steps still pass, the gap included |
| `Oracles.MissingBinaryGapIsReal` | hack/dogfood/oracles.py:655-673 | an input on which a missing binary is credited as a refusal |
| `Oracles.MaskedSuccessGapIsReal` | hack/dogfood/oracles.py:689-697 | an input on which a masked success is credited |
| `Grading.Eligible` | hack/dogfood/run_journeys.py:410-446 | exactly the actions of the step that may bear its assertions, in order |
| `Grading.EligibleEmpty` | hack/dogfood/run_journeys.py:410-446 | the list is empty exactly when no action may bear them |
| `Grading.RescuePool` | hack/dogfood/run_journeys.py:491-530 | exactly the earlier actions that may rescue: any eligible one on a refusal step, else the same command, at least one action apart and after the watermark |
| `Grading.LastIsTarget` | hack/dogfood/run_journeys.py:491-530 | the target is the last eligible action and all others lie before it |
| `Grading.NewestSatisfying` | hack/dogfood/run_journeys.py:551-645 | the newest member of the pool that satisfies everything, or none does |
| `Grading.GradeStepSpec` | hack/dogfood/run_journeys.py:551-645 | a step with a target has no candidates exactly when the target or a legitimate rescuer satisfies every assertion; otherwise the candidates are those of the target; a rescued decisive step records exactly one credit that names the superseded candidates |
| `Grading.GradeStepWithoutTarget` | hack/dogfood/run_journeys.py:449-480 | a decisive step whose declared command never ran is unreached, any other step adds nothing, and this happens only for a declared command that matches no action |
| `Grading.DriftWatermark` | hack/dogfood/run_journeys.py:483-488 | the latest seed watermark established at or before the step |
| `Grading.ObservedAction` | hack/dogfood/run_journeys.py:889-977 | the newest action that may credit an unentered step, or there is none |
| `StateHooks.DecisiveHook` | hack/dogfood/state_hooks.py:261-295 | a hook is gradable exactly when it asserts something, every assertion in it is well formed and a sandbox is named where one is needed |
| `StateHooks.AssertionHeld` | hack/dogfood/gui/gui_oracles.py:687-835 | a well-formed assertion passes exactly when it holds of evidence that was observed, and fails exactly when it was seen not to |
| `StateHooks.MatchedMeansEveryAssertionHeld` | hack/dogfood/gui/gui_oracles.py:687-835 | behind the normalizer the oracle says matched exactly when every declared assertion holds, and mismatch exactly when one was seen to differ |
| `StateHooks.OracleAloneSkipsHalfFormed` | hack/dogfood/gui/gui_oracles.py:687-835 | without the normalizer a half-formed assertion would pass |
| `StateHooks.ApplyHookVerdict` | hack/dogfood/state_hooks.py:298-325 | only a match is free of candidates, and it is recorded as a credit; missing evidence is one infra candidate, a mismatch one decisive functional one |
| `StateHooks.HookReport` | hack/dogfood/run_journeys.py:991-1112 | one declared hook adds nothing and is credited exactly when it is gradable and holds; a hook that cannot be graded, or differs where nothing ran, is unreached, one that was seen to differ is functional, and one without evidence is infra |
| `Journeys.ActorLoop` | hack/dogfood/run_journeys.py:714-759 | a step takes exactly the turns it should and ends as it should: every turn was allowed by the caps, every turn but the last ran a command new to the step, and it stopped because the last did not or because a cap forbids the next; everything that ran is recorded, in turn order, every failed call is counted and every call paid for; commands are pairwise distinct |
| `Journeys.NextCommand` | hack/dogfood/run_journeys.py:648-671 | one model call: paid for, tallied if it failed, and a command only if one was typed |
| `Journeys.RunStep` | hack/dogfood/run_journeys.py:674-774 | the same for the whole step, with its watermark, the findings of its actions and one grade, on every way out but the dollar cap |
| `Journeys.StepsOf` | hack/dogfood/run_journeys.py:1115-1158 | given steps are kept as they are; a journey without any runs as one step that asserts nothing |
| `Journeys.StepReportsFrame` | hack/dogfood/run_journeys.py:1159-1195 | later steps do not disturb what earlier ones reported |
| `Journeys.MarksFrame` | hack/dogfood/run_journeys.py:483-488 | nor their watermarks |
| `Journeys.BetweenSteps` | hack/dogfood/run_journeys.py:1159-1195 | the invariant of the loop over the steps is kept by a step |
| `Journeys.RunSteps` | hack/dogfood/run_journeys.py:1159-1195 | the trace is that of the run: the steps one after the other, each with exactly its turns and all that ran in them, until one is stopped by a cap or none is left; failed calls and spend add up; the loop invariant and the caps hold; and the state was captured, for every decisive step with a hook that another one followed and for no other, when that one opened |
| `Journeys.IsDecisive` | hack/dogfood/run_journeys.py:313-322 | the core steps, or the last one if there is none |
| `Journeys.CaptureOnOpening` | hack/dogfood/run_journeys.py:1159-1180 | the capture as a step opens: for the step before it if that declares a hook, and what was captured earlier is kept |
| `Journeys.CreditUnentered` | hack/dogfood/run_journeys.py:889-977 | every decisive step nobody entered is credited from an observed action or unreached, and no other step is |
| `Journeys.HasStray` | hack/dogfood/run_journeys.py:991-1112 | some step declares a hook that will never be graded |
| `Journeys.GradeStateHooks` | hack/dogfood/run_journeys.py:991-1112 | one complaint about such steps, then the report of every reached decisive step that declares a hook, on the capture taken for it or else on the last one |
| `Journeys.GradeStateHook` | hack/dogfood/run_journeys.py:1078-1112 | the report of one step, on the capture taken for it or else on the last one |
| `Journeys.RunJourney` | hack/dogfood/run_journeys.py:1115-1247 | the trace is that of the run against this Actor from this spend, cut off exactly by the dollar cap or completed; a completed journey is the judgement of that trace; turns, actions and spend stay within the caps; an Actor that never answers measures nothing |
| `Journeys.WindowIsUnique` | hack/dogfood/run_journeys.py:714-759 | where a step starts determines its turns and how it ends |
| `Journeys.RunIsUnique` | hack/dogfood/run_journeys.py:1115-1195 | there is only one run of a journey against an Actor: two traces of it are equal and end the same way |
| `Summary.FlipCount` | hack/dogfood/summarize_bundle.py:39-39 | zero exactly when nothing flips |
| `Summary.VerdictOf` | hack/dogfood/summarize_bundle.py:36-56 | positive exactly when every candidate is about latency or is the failure of a step that is not decisive; infra exactly when one is infra, unreached exactly when one is and none is infra |
| `Summary.Summarize` | hack/dogfood/summarize_bundle.py:25-65 | every journey is counted under exactly one verdict, every candidate is soft or flipping, and the flipping column counts those of flipped journeys only |
| `Honesty.HonestPositive` | hack/dogfood/run_journeys.py:1159-1230 | a journey is positive exactly when every decisive step was entered with a passing or rescued target or credited from a passing observed action; every hook on a decisive step held, of the state captured when the next step opened or, for the last step opened and those after it, of the final state, and is credited; no model call failed; some snapshot worked; no hook is stray; no action and no console line has a finding that flips; and the target of every other step was measured or rescued; a positive journey is never degraded |
| `Honesty.EnteredClean` | hack/dogfood/run_journeys.py:551-645 | the report of an entered decisive step is clean exactly when the step held |
| `Honesty.UnenteredClean` | hack/dogfood/run_journeys.py:889-977 | the same for a decisive step nobody entered |
| `Honesty.OrdinaryClean` | hack/dogfood/run_journeys.py:551-645 | the report of a step that is not decisive is clean exactly when its target could be measured, or another action stands in for it |
| `Honesty.UnreachedOnce` | hack/dogfood/run_journeys.py:1190-1225 | a decisive step nobody entered and nothing credits is reported once, as unreached: its hook adds nothing |
| `Honesty.StateClean` | hack/dogfood/run_journeys.py:991-1112 | the report of a decisive hook is clean exactly when the hook held, of the capture at the boundary of a step that another one followed and of the final state otherwise |
| `Honesty.FinalDoesNotMatter` | hack/dogfood/run_journeys.py:991-1009 | the final state does not change the report of a step that another one followed |
| `Honesty.BoundaryDoesNotMatter` | hack/dogfood/run_journeys.py:991-1009 | the captures on the way do not change the report of the last step opened, nor of those after it |
| `Honesty.KeptThenUndone` | hack/dogfood/run_journeys.py:991-1009 | when every step with a hook was followed by another one, the whole report is the same for every state the journey ends in |
| `Honesty.CleanFindings` | hack/dogfood/run_journeys.py:1159-1180 | the findings of the steps are clean exactly when those of every action are |
| `Honesty.StepClean` | hack/dogfood/run_journeys.py:1159-1230 | all reports of a step together are clean exactly when the step held |
| `Honesty.CleanParts` | hack/dogfood/run_journeys.py:1159-1230 | a whole report is clean exactly when each of its parts is |
| `Honesty.NotDegraded` | hack/dogfood/run_journeys.py:95-101 | a clean report with a decisive step that held is not degraded |
| `Honesty.MarkAtStep` | hack/dogfood/run_journeys.py:483-488 | the watermark a step was graded with is the one the whole run gives it |
| `Honesty.MarkDominates` | hack/dogfood/run_journeys.py:483-488 | it lies at or after every seed injection up to the step |
| `Honesty.MarkAttained` | hack/dogfood/run_journeys.py:483-488 | and it is no later: the action count at one of them, or zero |
| `Honesty.CreditsAreSound` | hack/dogfood/run_journeys.py:483-530 | every credit of every run points at or after every seed injection up to its step; a re-observation comes from an earlier step, and a step that seeds files has none |
| `Honesty.RescueIsSound` | hack/dogfood/run_journeys.py:491-530 | this, for rescue credits |
| `Honesty.ObservedIsSound` | hack/dogfood/run_journeys.py:889-977 | this, for credits from observed actions |
| `Honesty.RunBundle` | hack/dogfood/run_journeys.py:1330-1402 | journey by journey each trace is the run from what the earlier ones spent; every result is the judgement of its run; every journey has a result or the dollar cap cut off the one after the last; the spend stays below the cap plus one call; exit 3 exactly when more than half of the results are degraded, and so whenever there are results but no model ever answered |
| `Honesty.RunShard` | hack/dogfood/run_journeys.py:1347-1377 | the loop over the journeys, with the same account of every run |
| `Honesty.TallyDegraded` | hack/dogfood/run_journeys.py:95-101 | counts the results without actions or with an infra candidate |
| `Honesty.PositiveResultIsHonest` | hack/dogfood/run_journeys.py:1330-1402 | a result is positive exactly when the one run that was made is honest, and then it is not degraded; no other run of that journey against that Actor exists |
| `Honesty.PositivesAndDegraded` | hack/dogfood/run_journeys.py:95-101 | positive and degraded results of a bundle never overlap |
| `HeadReader.FindHeadEnd` | app/src-tauri/src/vncproxy.rs:341-343 | the first end-of-head marker, or there is none |
| `HeadReader.Client.ReadRequestHead` | app/src-tauri/src/vncproxy.rs:318-338 | the loop computes its specification, on every script of reads, and ends |
| `HeadReader.ReadHeadSpec` | app/src-tauri/src/vncproxy.rs:318-338 | for every cutting of a stream: which result, with head, blank line, body and unread rest adding up to the stream, within the limit; a stream that breaks before a head is complete is told from one that ends |
| `HeadReader.AcceptedExactlyWhen` | app/src-tauri/src/vncproxy.rs:318-338 | accepted exactly when UTF-8 and within the limit; always when the marker ends by the maximum, never past the maximum plus 1023; the result ends at the stream's first marker |
| `HeadReader.ChunkingIsIrrelevant` | app/src-tauri/src/vncproxy.rs:318-338 | two accepted cuttings of one stream give the same head and the same bytes after it |
| `HeadReader.LimitCovers` | app/src-tauri/src/vncproxy.rs:318-338 | how far past the maximum the buffer can grow |
| `HeadReader.Utf8ExactlyWhen` | app/src-tauri/src/vncproxy.rs:318-338 | a byte string is taken for UTF-8 exactly when it is the encoding of some sequence of code points, surrogates excepted, by section 3 of RFC 3629 |
| `HeadRewriter.GlueSplit` | app/src-tauri/src/vncproxy.rs:120-122 | splitting at CRLF loses nothing |
| `HeadRewriter.NonEmptyInOrder` | app/src-tauri/src/vncproxy.rs:120-122 | the lines are the non-empty pieces, in their order |
| `HeadRewriter.SplitJoin` | app/src-tauri/src/vncproxy.rs:119-151 | splitting undoes joining |
| `HeadRewriter.LinesOfJoined` | app/src-tauri/src/vncproxy.rs:119-151 | a finished head has exactly the lines it was joined from |
| `HeadRewriter.KeptInOrder` | app/src-tauri/src/vncproxy.rs:134-144 | the kept headers are, each once and in their order: on an upgrade all that are not called authorization, otherwise all that are called neither that nor connection nor keep-alive |
| `HeadRewriter.NameIs` | app/src-tauri/src/vncproxy.rs:135-138 | a header is called what stands before its first colon, without the space around it and in any case |
| `HeadRewriter.SameNameMeans` | app/src-tauri/src/vncproxy.rs:124-138 | names are the same exactly when their characters are, capital and small ASCII letters alike |
| `HeadRewriter.UpgradeHeaderIs` | app/src-tauri/src/vncproxy.rs:124-128 | a header asks for an upgrade exactly when it is named upgrade, with no space before the colon, and its value holds websocket, in any case |
| `HeadRewriter.RewriteRequestHead` | app/src-tauri/src/vncproxy.rs:119-151 | the loops compute the specification, the empty head included |
| `HeadRewriter.RelayReceives` | app/src-tauri/src/vncproxy.rs:119-151 | what the relay is sent, line by line: the request line; on an upgrade all headers not called authorization, in order, then ours; otherwise all called neither authorization nor connection nor keep-alive, in order, then Connection: close and ours; and it is an upgrade exactly when some header asks for a websocket |
| `HeadRewriter.ParsesBack` | app/src-tauri/src/vncproxy.rs:119-151 | for a relay that ends lines at CRLF the result parses into the same request line, the kept headers in order and unchanged and our own; exactly one Authorization header, ours; the end-of-head marker only at the very end |
| `HeadRewriter.OneTerminator` | app/src-tauri/src/vncproxy.rs:341-343 | the end-of-head marker of a finished head is unique and last |
| `HeadRewriter.OneAuthorization` | app/src-tauri/src/vncproxy.rs:134-149 | exactly one Authorization header |
| `HeadRewriter.UpgradeIsKept` | app/src-tauri/src/vncproxy.rs:124-144 | an upgrade header is never dropped |
| `HeadRewriter.SameUpgrade` | app/src-tauri/src/vncproxy.rs:124-128 | the rewritten head has the same upgrade flag |
| `HeadRewriter.Idempotent` | app/src-tauri/src/vncproxy.rs:119-151 | rewriting twice equals rewriting once, flag included |
| `HeadRewriter.LfRelayExactlyWhen` | app/src-tauri/src/vncproxy.rs:105-151 | for a relay that ends lines at a bare LF (section 2.2 of RFC 9112) and its head at the first empty line: it sees exactly one Authorization header, the one we add, if and only if no line that is passed on is cut at bare LFs into an empty line or an Authorization header |
| `HeadRewriter.PlainHeadsAreSafe` | app/src-tauri/src/vncproxy.rs:105-151 | in particular when no line of the head holds a bare LF |
| `HeadRewriter.BareLfSlipsThrough` | app/src-tauri/src/vncproxy.rs:105-151 | a head from which that relay is shown a second Authorization header |
| `HeadRewriter.BareLfEndsTheHead` | app/src-tauri/src/vncproxy.rs:105-151 | a head that for that relay ends before ours |
| `VncUrl.Base64RoundTrip` | app/src-tauri/src/vncproxy.rs:96-99 | decoding undoes encoding |
| `VncUrl.LetterIs` | app/src-tauri/src/vncproxy.rs:96-99 | the letters are those of the standard alphabet |
| `VncUrl.SameNumber` | app/src-tauri/src/vncproxy.rs:96-99 | three bytes and the four letters for them are the same 24-bit number |
| `VncUrl.ParseInvertsPrint` | app/src-tauri/src/vncproxy.rs:70-104 | the printed URL yields its port and credentials that decode to user:password, colons and at-signs in the password included |
| `VncUrl.ParseAcceptsOnlyPrinted` | app/src-tauri/src/vncproxy.rs:70-104 | whatever parses is a printed URL, loopback host included |
| `VncUrl.AuthorityShape` | app/src-tauri/src/vncproxy.rs:76-95 | the same for the authority |
| `VncUrl.DaemonPort` | app/src-tauri/src/vncproxy.rs:95-95 | every 16-bit port is read back from its decimal text |
| `VncUrl.PortIsRead` | app/src-tauri/src/vncproxy.rs:95-95 | a port is read exactly when it is digits that come to 65535 at most, with or without a plus sign |
| `PolicyRows.PayloadInOrder` | app/src/components/PolicyEditor.tsx:584-595 | what is sent are exactly the rows with a host, in row order |
| `PolicyRows.ToEntry` | app/src/components/PolicyEditor.tsx:81-83 | an entry has the trimmed host, the access and every port of its row, a port as a bare number exactly when it declares no protocol |
| `PolicyRows.GitPayloadInOrder` | app/src/components/PolicyEditor.tsx:596-598 | the git rules sent are exactly the git rows with a target, in row order, each with the trimmed target, as a repository exactly when there is a slash in it, and with the access of its own row |
| `PolicyRows.GoodPatterns` | app/src/components/PolicyEditor.tsx:208-226 | a host may be saved exactly when it has no star, or is one of the two wildcards before a name of host name characters |
| `PolicyRows.EditRow` | app/src/components/PolicyEditor.tsx:491-539 | every edit changes what it is about and nothing else of a row: a row with a pin keeps its host and is not widened, any other gets the host and the access it is given; a new port joins the others, sorted and undeclared, unless it is there; a removed one is gone |
| `PolicyRows.OneRowEdited` | app/src/components/PolicyEditor.tsx:491-539 | an edit leaves all other rows as they are and where they are; a new row has both web ports and full access |
| `PolicyRows.OneGitRowEdited` | app/src/components/PolicyEditor.tsx:542-557 | the same for git rows, a new one being read-only |
| `PolicyRows.SortByPort` | app/src/components/PolicyEditor.tsx:503-513 | a sorted permutation |
| `PolicyRows.SortIsStable` | app/src/components/PolicyEditor.tsx:503-513 | rows with the same port keep their order |
| `PolicyRows.WithoutPortInOrder` | app/src/components/PolicyEditor.tsx:514-518 | exactly the other ports remain, in their order |
| `PolicyRows.EditRowTraces` | app/src/components/PolicyEditor.tsx:491-539 | an edit of a row keeps its trace to a loaded row |
| `PolicyRows.EditsTrace` | app/src/components/PolicyEditor.tsx:491-539 | over every sequence of edits a row with a pinned port stems from one loaded row: same host, its pins among the loaded ones, read-write only if that row was |
| `PolicyRows.PassthroughsNeverSpread` | app/src/components/PolicyEditor.tsx:584-599 | whatever was edited, no sent entry declares a passthrough that no loaded entry declared |
| `PolicyRows.PassthroughStems` | app/src/components/PolicyEditor.tsx:491-599 | a passthrough that is sent comes from a row whose host a loaded entry has, and that entry declares it |
| `PolicyRows.WakesExactlyWhen` | app/src/components/PolicyEditor.tsx:519-539 | with hosts told apart as the product does and the last of duplicate entries ruling: no edits that can be saved bring a passthrough to life that was not live when loaded, if and only if no loaded passthrough of a valid host is shadowed by a later entry for its host |
| `PolicyRows.SleepingPassthroughWakes` | hack/dogfood/gui/gui_oracles.py:522-560 | a policy for which they can: two rows for a host, spelled differently, the later of which is removed |
| `PolicyRows.RowMeansEntry` | app/src/components/PolicyEditor.tsx:74-96 | a loaded row lets through exactly what its entry does |
| `PolicyRows.EntryMeansRow` | app/src/components/PolicyEditor.tsx:81-83 | an entry that is sent lets through exactly what its row does |
| `PolicyRows.UntouchedMeansTheSame` | app/src/components/PolicyEditor.tsx:584-595 | a policy saved as it was loaded lets through exactly what it did: hosts, ports, declared protocols and access |
| `PolicyRows.SavedIsStable` | app/src/components/PolicyEditor.tsx:584-595 | what was saved is what is loaded and saved again, to the letter |
| `PolicyRows.SavedGitIsStable` | app/src/components/PolicyEditor.tsx:596-598 | the same for the git rules |
| `PolicyRows.UntouchedGitMeansTheSame` | app/src/components/PolicyEditor.tsx:596-598 | git rules saved as they were loaded give every target exactly the access it had, read-only where none was declared |
| `PolicyRows.UntouchedGitExactlyWhen` | app/src/components/PolicyEditor.tsx:203-206 | they also stay rules of the same kind, repository or host, if and only if each had the kind its target spells |
| `PolicyRows.MisspelledIsLost` | app/src/components/PolicyEditor.tsx:203-206 | a rule whose kind its target does not spell is not among those sent |
| `PolicyEditor.EverySaveIsLegitimate` | app/src/components/PolicyEditor.tsx:425-606 | over every run each policy written is for the sandbox that the last painted answer was about, which has been on screen ever since; its rows are exactly those of that answer after the edit events since, in order; no passthrough spreads; and it was written by the save event that made it the i-th |
| `PolicyEditor.Provenance` | app/src/components/PolicyEditor.tsx:425-557 | over every run the rows on screen are those of the last painted answer after the edits since, and while they may be saved its sandbox has been shown all along |
| `PolicyEditor.StepFacts` | app/src/components/PolicyEditor.tsx:425-557 | rows change by edits and painted answers only |
| `PolicyEditor.SaveIsLegitimate` | app/src/components/PolicyEditor.tsx:371-378 | a save that is let through writes exactly those rows to that sandbox |
| `PolicyEditor.LoadedCanBeSaved` | app/src/components/PolicyEditor.tsx:433-606 | from every reachable state: once effects have run the answer to the last question is painted, and a save then writes that policy for the sandbox shown, unless a host in it is bad |
| `PolicyEditor.OnlyTheLastAnswerPaints` | app/src/components/PolicyEditor.tsx:433-470 | an answer is painted exactly when it is to the last question and that is about the sandbox shown |
| `PolicyEditor.WhatAnswersDo` | app/src/components/PolicyEditor.tsx:425-470 | such an answer replaces the rows, such a failure shows as one and leaves them, any other changes nothing; another sandbox is loading at once |
| `PolicyEditor.Editor.Render` | app/src/components/PolicyEditor.tsx:425-431 | a render with a new name moves the shown name and goes back to loading |
| `PolicyEditor.Editor.Flush` | app/src/components/PolicyEditor.tsx:433-470 | effects run: the old question is disowned, a new one asked |
| `PolicyEditor.Editor.Answered` | app/src/components/PolicyEditor.tsx:437-456 | an answer is painted only if its question is alive and about the shown sandbox |
| `PolicyEditor.Editor.AnswerFailed` | app/src/components/PolicyEditor.tsx:457-465 | the same for a failure |
| `PolicyEditor.Editor.EditHost` | app/src/components/PolicyEditor.tsx:491-539 | a host row edit, and nothing else |
| `PolicyEditor.Editor.EditGitRow` | app/src/components/PolicyEditor.tsx:542-557 | a git row edit, and nothing else |
| `PolicyEditor.Editor.SavePolicy` | app/src/components/PolicyEditor.tsx:559-606 | sends exactly when loaded and every row has no host or a valid one; then exactly the payload is written, for the sandbox shown; otherwise nothing is |
| `SeedCandidates.HostCovered` | app/src/lib/policy.ts:8-21 | exactly which host rows the policy covers |
| `SeedCandidates.DeclaredPortIsOffered` | app/src/lib/policy.ts:8-21 | an allowed port with a declared protocol is offered again |
| `SeedCandidates.OfferedExactlyWhen` | app/src/components/SeedDialog.tsx:84-133 | exactly which rows are offered and as what: a git row unless a git rule covers its repository, an address without a host always, any other unless an entry for its host allows its port |
| `SeedCandidates.GitPathIsRead` | app/src/lib/git.ts:15-52 | a path of slashes, a name, an optional extension, a service and a query is read as that repository of the host, and as a push exactly for git-receive-pack |
| `SeedCandidates.GitPathHasParts` | app/src/lib/git.ts:15-52 | and every path taken for a git request has those parts |
| `SeedCandidates.SegmentsSlashed` | app/src/lib/git.ts:54-60 | segments are what stands between slashes |
| `SeedCandidates.GlobMatches` | app/src/lib/git.ts:54-60 | a pattern matches segment by segment, a star any one of them |
| `SeedCandidates.GitCoveredExactlyWhen` | app/src/lib/git.ts:62-74 | a repository is covered exactly by a rule for its host or by a pattern that matches it |
| `SeedCandidates.WhatIsOffered` | app/src/components/SeedDialog.tsx:66-136 | the candidate of a target can be ticked unless that is a bare address, has the counts of its rows, suggests writing exactly when one of them was a push or neither GET nor HEAD, and is captioned so |
| `SeedCandidates.HostPortInjective` | app/src/components/SeedDialog.tsx:66-136 | host and port can be told apart in a key |
| `SeedCandidates.KeyInjective` | app/src/components/SeedDialog.tsx:66-136 | a key determines its target and kind |
| `SeedCandidates.BuildCandidates` | app/src/components/SeedDialog.tsx:66-136 | the loop yields a complete, faithful and strictly sorted list, and the counts of the candidates add up to those of the uncovered rows |
| `SeedCandidates.SortByKey` | app/src/components/SeedDialog.tsx:55-59 | a permutation |
| `SeedCandidates.SortIsSorted` | app/src/components/SeedDialog.tsx:55-59 | strictly sorted when keys are distinct |
| `SeedCandidates.LessMeans` | app/src/components/SeedDialog.tsx:55-59 | a proper prefix comes first, otherwise the first difference decides |
| `SeedCandidates.SelectableFirst` | app/src/components/SeedDialog.tsx:55-59 | rows that cannot be ticked come last |
| `SeedCandidates.OrderIndependent` | app/src/components/SeedDialog.tsx:66-136 | any two orders of the same rows give the same list, counts, captions and suggested access included |
| `SeedDialog.SeedListIsValid` | app/src/components/SeedDialog.tsx:66-136 | what is built has one row per key, each the candidate of a target, and a repository has a name |
| `SeedDialog.EntriesInOrder` | app/src/components/SeedDialog.tsx:212-223 | exactly the ticked selectable rows are sent, each once, in list order, with the chosen access or else the suggested one |
| `SeedDialog.EntryIsGrant` | app/src/components/SeedDialog.tsx:216-223 | a row for a repository is sent as that repository, one for a host and a port as these, with the access given |
| `SeedDialog.RunKeeps` | app/src/components/SeedDialog.tsx:149-213 | over every run the ticks are selectable rows of the snapshot, overrides belong to it, and every row would be sent with the access last reviewed |
| `SeedDialog.ConsentIsStable` | app/src/components/SeedDialog.tsx:152-210 | access changes only by a pick, a tick only by a control that ticks; a row that enters the review is unticked, without override |
| `SeedDialog.WhatControlsDo` | app/src/components/SeedDialog.tsx:149-210 | a tick flips one selectable row, a pick gives one row the access picked, the buttons tick every selectable row or none, a refresh shows the live list, a poll changes nothing under review |
| `SeedDialog.TickedIsSent` | app/src/components/SeedDialog.tsx:212-237 | the button sends something exactly when a row is ticked |
| `SeedDialog.AccessNeverWidensAlone` | app/src/components/SeedDialog.tsx:152-174 | over whole runs a surviving row nobody picks on keeps its access |
| `SeedDialog.SubmissionIsConsent` | app/src/components/SeedDialog.tsx:215-223 | an entry is sent exactly when it is about the repository, or the host and port, of a ticked row, with the access last reviewed for that row |
| `SeedDialog.EverySubmissionIsConsent` | app/src/components/SeedDialog.tsx:215-237 | over every run whatever was sent was sent by a click, and consists of exactly the entries consented to at that moment: target and reviewed access of the ticked rows |
| `SeedDialog.Dialog.ToggleChecked` | app/src/components/SeedDialog.tsx:191-198 | flips one tick |
| `SeedDialog.Dialog.SetEntryAccess` | app/src/components/SeedDialog.tsx:204-210 | sets one override |
| `SeedDialog.Dialog.RefreshSnapshot` | app/src/components/SeedDialog.tsx:152-174 | prunes ticks and overrides and carries reviewed access over |
| `SeedDialog.Dialog.HandleAdd` | app/src/components/SeedDialog.tsx:215-237 | sends exactly the entries consented to |
| `ProxyRegistry.UrlSpec` | app/src-tauri/src/lib.rs:496-510 | a port handed out is that of a registered live proxy for exactly this target; no other sandbox is touched; a proxy that serves is kept; refused exactly when none serves and none can be started |
| `ProxyRegistry.Registry.VncProxyUrl` | app/src-tauri/src/lib.rs:496-510 | computes that |
| `ProxyRegistry.Registry.VncProxyStop` | app/src-tauri/src/lib.rs:524-531 | removes that sandbox's proxy and no other |
| `ProxyChain.RunKeeps` | app/src/components/DisplayTab.tsx:121-158 | the invariant of the chain over every run |
| `ProxyChain.DrainedRegistry` | app/src/components/DisplayTab.tsx:121-158 | once the chain drains, every proxy left is the active effect's or one whose stop failed; none after unmount if no stop failed |
| `ProxyChain.StopNeverOvertakes` | app/src/components/DisplayTab.tsx:146-157 | a stop removes only what its own effect or an earlier one started |
| `ProxyChain.FrameIsCurrent` | app/src/components/DisplayTab.tsx:135-150 | a frame is shown only for the active sandbox, on the port registered for it |
| `ProxyChain.WhatStepsDo` | app/src/components/DisplayTab.tsx:121-158 | what each step does: an effect queues its start, its cleanup takes the frame down and queues its stop; a start whose effect is gone binds nothing; an answered one is framed, on the port registered, unless its effect is gone; a stop takes down its sandbox and no other |
| `ProxyChain.ChainDrains` | app/src/components/DisplayTab.tsx:121-158 | from every reachable state two steps at most finish the next operation, whatever the backend answers |
| `ProxyChain.DisplayTab.RunEffect` | app/src/components/DisplayTab.tsx:131-145 | queues a start |
| `ProxyChain.DisplayTab.CleanUp` | app/src/components/DisplayTab.tsx:146-157 | drops the effect and queues its stop |
| `ProxyChain.DisplayTab.BeginStart` | app/src/components/DisplayTab.tsx:135-139 | a dropped start does nothing |
| `ProxyChain.DisplayTab.FinishStart` | app/src/components/DisplayTab.tsx:139-145 | paints only if not dropped |
| `ProxyChain.DisplayTab.FinishStop` | app/src/components/DisplayTab.tsx:154-156 | a failed stop does not block the chain |
| `Bridge.RunKeeps` | app/dogfood/real-bridge.js:42-189 | over every run of invokes, replies, opens and closes: every id issued is answered, dropped on a disconnect or pending, exactly one of these, and the counts add up; pending and remembered commands agree; frames go out in order and at most once; a pending call is queued or was sent on this connection; the log names the answered commands in order |
| `Bridge.KeepsPartitioned` | app/dogfood/real-bridge.js:42-189 | every event keeps pending and settled apart |
| `Bridge.KeepsCounted` | app/dogfood/real-bridge.js:42-189 | every event keeps the counts |
| `Bridge.KeepsOrdered` | app/dogfood/real-bridge.js:111-189 | every event keeps the order of the frames |
| `Bridge.KeepsWaiting` | app/dogfood/real-bridge.js:111-189 | no event loses a pending call |
| `Bridge.KeepsLogged` | app/dogfood/real-bridge.js:58-75 | every event keeps the log faithful |
| `Bridge.SettledOnce` | app/dogfood/real-bridge.js:42-132 | a settled call keeps its outcome |
| `Bridge.AnsweredByItsOwnReply` | app/dogfood/real-bridge.js:58-75 | a call is answered only by a reply that carried its own id while it was pending, with that reply's value; any other settled call was pending when a close cut it off |
| `Bridge.ReplySettles` | app/dogfood/real-bridge.js:42-76 | on an open link a reply to a pending call settles it with its own outcome, is logged under its command, and touches no other call |
| `Bridge.ClosingIsDeaf` | app/dogfood/real-bridge.js:178-188 | once the link is closing nothing is heard and nothing is sent |
| `Bridge.CloseSettlesAll` | app/dogfood/real-bridge.js:121-131 | a close leaves no call hanging |
| `Bridge.Page.constructor` | app/dogfood/real-bridge.js:95-103 | the bridge before the first call |
| `Bridge.Page.Invoke` | app/dogfood/real-bridge.js:178-188 | issues the next id and sends or queues its frame |
| `Bridge.Page.HandleMessage` | app/dogfood/real-bridge.js:42-76 | settles the call the reply names, and nothing else |
| `Bridge.Page.HandleOpen` | app/dogfood/real-bridge.js:116-120 | empties the queue onto the wire in order |
| `Bridge.Page.HandleClose` | app/dogfood/real-bridge.js:121-131 | rejects every pending call and forgets the queue |
| `ArchiveSave.SiblingsDiffer` | app/src-tauri/src/commands.rs:610-623 | a sibling's name determines the output and the attempt |
| `ArchiveSave.SiblingIsBeside` | app/src-tauri/src/commands.rs:610-623 | a sibling lies in the directory of the archive it is to replace, and is not it |
| `ArchiveSave.SearchAdvances` | app/src-tauri/src/commands.rs:625-636 | each taken candidate leaves fewer to meet |
| `ArchiveSave.FirstUnused` | app/src-tauri/src/commands.rs:625-636 | the search ends on every finite directory, at the first free sibling |
| `ArchiveSave.Saver.ReplacementPath` | app/src-tauri/src/commands.rs:615-636 | the loop finds that sibling and moves the counter past it |
| `ArchiveSave.Saver.Save` | app/src-tauri/src/commands.rs:646-701 | succeeds exactly when accepted, completely written and, when replacing, renamed; refused, with nothing touched, for the first of these that applies: no names, no path, a relative path, an existing file without consent to replace it; all or nothing: on success the output is the new archive and nothing else changed, on failure everything that was there is as it was, at most the fresh target is new, and a removed leftover restores the files exactly |
| `ArchiveSave.BackupsSurvive` | app/src-tauri/src/commands.rs:638-701 | over any run of saves a path is lost only to a save that was told to overwrite, replaced it by its name, and wrote a complete archive |
| `ArchiveSave.CounterGrows` | app/src-tauri/src/commands.rs:615-623 | the counter never goes back |
| `ArchiveSave.AttemptsNeverCollide` | app/src-tauri/src/commands.rs:610-636 | no two replacements of a run of saves, one after the other, write to the same sibling |
| `RacingSaves.SiblingsStayApart` | app/src-tauri/src/commands.rs:610-623 | in every interleaving two replacements hold different siblings |
| `RacingSaves.KeepsNumbered` | app/src-tauri/src/commands.rs:615-623 | every step of every save keeps their numbers distinct |
| `RacingSaves.KeepsInv` | app/src-tauri/src/commands.rs:610-701 | every step keeps each replacement's path free or its own |
| `RacingSaves.RacesAreSafe` | app/src-tauri/src/commands.rs:610-701 | over every interleaving of any number of saves none of whose outputs another may yet use as its sibling: the daemon never finds a sibling taken, a replacement removes or renames only what its own daemon call created, and nothing the user had is lost but to a complete archive, by name and with consent |
| `RacingSaves.SavedArchivesStay` | app/src-tauri/src/commands.rs:638-701 | over the same interleavings: once a save was reported as done, its output holds the complete archive of a save to that output that was reported as done |
| `RacingSaves.VanishesExactlyWhen` | app/src-tauri/src/commands.rs:674-697 | whatever the names: a step makes a reported archive vanish from its path if and only if it is the successful clean-up or rename of a replacement that holds that path |
| `RacingSaves.LostOnlyByTaking` | app/src-tauri/src/commands.rs:638-701 | over every interleaving, whatever the names: a reported archive is missing only if some step took it so |
| `RacingSaves.ApartNeverTakes` | app/src-tauri/src/commands.rs:610-636 | where the names are apart no step does |
| `RacingSaves.ClashLosesAnArchive` | app/src-tauri/src/commands.rs:660-683 | a run in which a clean-up removes an archive reported as saved |
| `RacingSaves.RenameMovesAnArchive` | app/src-tauri/src/commands.rs:684-697 | a run in which a rename moves one away, with both saves reported as done |
| `LoadArchive.FilterInOrder` | app/src/components/LoadArchive.tsx:118-118 | exactly the listed names that are picked, in listing order |
| `LoadArchive.RunKeeps` | app/src/components/LoadArchive.tsx:41-146 | over every run: a shown listing is that of the current path, the picks lie within it, only the latest read can answer, the single-sandbox fields were entered after the last toggle and path change, every submission is sound |
| `LoadArchive.KeepsCurrent` | app/src/components/LoadArchive.tsx:65-116 | every event keeps listing, picks and reads current |
| `LoadArchive.KeepsRecent` | app/src/components/LoadArchive.tsx:65-116 | every event keeps the fields recent |
| `LoadArchive.SubmissionsAreSound` | app/src/components/LoadArchive.tsx:118-146 | what is submitted acts on a listing of that very archive, selects from it, and carries a rename or workspace only for exactly one sandbox, entered after the last toggle and path change |
| `LoadArchive.NoClash` | app/src/components/LoadArchive.tsx:119-157 | no name that exists already is taken |
| `LoadArchive.SubmittedExactlyWhen` | app/src/components/LoadArchive.tsx:118-157 | something is submitted exactly when a listing is shown, something is picked, nothing is under way or done and no name to be created is taken; sent are the path read, the selection, a new name and a folder for one sandbox only and a parent folder for several only, what is blank left out |
| `LoadArchive.WhatResets` | app/src/components/LoadArchive.tsx:65-116 | a tick changes one pick and clears the single-sandbox fields; a path change clears everything |
| `LoadArchive.WhatIsTyped` | app/src/components/LoadArchive.tsx:268-320 | a text field holds what was entered last, the single-sandbox ones only for a single selection |
| `LoadArchive.AfterSubmission` | app/src/components/LoadArchive.tsx:125-146 | nothing is submitted while a load is under way or after it succeeded; after a failure the dialog is as it was |
| `LoadArchive.SelectedAfterRead` | app/src/components/LoadArchive.tsx:78-92 | an accepted answer selects everything it lists |
| `LoadArchive.OwnedExactlyWhen` | app/src/components/LoadArchive.tsx:35-116 | exactly when, after an event, "Load as" or the workspace folder stands on a sandbox it was not entered for |
| `LoadArchive.OwnedOverRuns` | app/src/components/LoadArchive.tsx:35-116 | over runs: exactly when some event misplaced the field and none settled it since |
| `LoadArchive.WrongOwnerExactlyWhen` | app/src/components/LoadArchive.tsx:118-146 | exactly which submissions of a run carry a field for a sandbox it was not entered for |
| `LoadArchive.GuardedRunsAreRight` | app/src/components/LoadArchive.tsx:78-146 | none does as long as no event misplaces the field |
| `LoadArchive.ReadOnlyWhenBlank` | app/src/components/LoadArchive.tsx:78-92 | for "Load as" it is enough that no read is accepted while it holds something |
| `LoadArchive.FolderDialogsAreModal` | app/src/components/LoadArchive.tsx:35-116 | for the workspace folder it is enough that, besides, neither path nor selection changes while a folder dialog is open |
| `LoadArchive.RenameCanBeMisplaced` | app/src/components/LoadArchive.tsx:78-146 | a run in which a name typed for one sandbox is sent for another |
| `LoadArchive.WorkspaceCanBeMisplaced` | app/src/components/LoadArchive.tsx:35-38 | a run in which a folder chosen for one sandbox is sent for another |
| `LoadArchive.Dialog.ChangePath` | app/src/components/LoadArchive.tsx:65-76 | overtakes any read and forgets listing, picks and placement |
| `LoadArchive.Dialog.StartReading` | app/src/components/LoadArchive.tsx:78-83 | a new read overtakes the old |
| `LoadArchive.Dialog.BrowseArchive` | app/src/components/LoadArchive.tsx:94-103 | a chosen file becomes the path and is read |
| `LoadArchive.Dialog.Answered` | app/src/components/LoadArchive.tsx:83-91 | an overtaken answer changes nothing, else listing and picks are replaced |
| `LoadArchive.Dialog.AnswerFailed` | app/src/components/LoadArchive.tsx:87-91 | an overtaken failure changes nothing |
| `LoadArchive.Dialog.ToggleSandbox` | app/src/components/LoadArchive.tsx:105-116 | changes one pick and clears the single-sandbox fields |
| `LoadArchive.Dialog.SubmitLoad` | app/src/components/LoadArchive.tsx:125-146 | sends the request of the current state |
| `ShardPlan.CeilDiv` | hack/mutants-shard-plan.py:58-58 | the least number of budgets that covers the work |
| `ShardPlan.ShardCount` | hack/mutants-shard-plan.py:52-59 | an error exactly for a negative count, else the least number of shards in the platform's range whose budgets hold the work, or the largest there is |
| `ShardPlan.FitsExactlyWhen` | hack/mutants-shard-plan.py:41-59 | when a mutant's cost divides the budget, every shard fits its budget if and only if the mutants fit the largest matrix |
| `ShardPlan.FitsToOneMutant` | hack/mutants-shard-plan.py:52-59 | whatever a mutant costs, a shard overshoots by less than one mutant |
| `ShardPlan.PastTheMaximum` | hack/mutants-shard-plan.py:45-46 | past the largest matrix some shard is over budget |
| `ShardPlan.ShippedPlatforms` | hack/mutants-shard-plan.py:47-49 | on both platforms a mutant's cost divides the budget |
| `ShardPlan.DealtIs` | hack/mutants-shard-plan.py:20-21 | how many mutants round-robin dealing gives a shard |
| `ShardPlan.DealtOnce` | hack/mutants-shard-plan.py:20-21 | every mutant is dealt to exactly one shard |

## Left out

- Lists that the Python code shares by reference are values passed in and out; aliasing between them is not captured.
- The implicit, latency, reconcile and seed-survival oracles, the console scan and the flipping-violation filter are inputs (the findings of each action, and `env.console`).
- The volume, port and policy graders of the state oracle are inputs; how their answers combine is modelled. The `expect_text` hook of GUI journeys is not modelled.
- What each regular expression matches is a parameter, and command hashes are taken to be injective.
- `main` beyond the loop over the journeys: arguments, files, and the path on which a journey raises.
- The accept loop, the splice and the deadlines of the VNC proxy; a read is some bytes, end of stream or an error.
- The enforce toggle and the "unsaved changes" mark of the policy editor, and the enforce option of the seed dialog.
- A proxy chain across unmount and remount: each mount has its own chain, and the statements are about one mount.
- ProxyRegistry.UrlSpec: a poisoned lock is not modelled, and a daemon that cannot name a target counts as a failed start.
- Listeners and events of the page bridge, and the digests added to its log; a message is delivered only while the socket is open, as the WebSocket standard demands.
- ArchiveSave.Saver.Save: paths are compared as text and nothing else touches the files during a save (`RacingSaves` lets other saves of the same process do so, but no other process); white space and absolute paths are the platform's, given as parameters; the 64-bit counter does not wrap; what the daemon reports besides the path is not modelled.
- ShardPlan.CeilDiv: exact, where the script divides in floating point; the two agree as long as the work is far below 2^53.
- SeedCandidates.SortByKey: keys are compared by code point, where JavaScript compares UTF-16 code units.
- PolicyRows.WakesExactlyWhen: the union that the product forms of duplicate wildcard hosts, which can carry no passthrough, is not modelled, and white space around a host is what the editor trims.
- RacingSaves.SavedArchivesStay: that the names are apart is shown to be enough; which clashes of names can be driven to lose an archive is stated for steps (`RacingSaves.VanishesExactlyWhen`), not for names.
- LoadArchive: progress messages, the report and the error banner; the one-line setters of the text fields appear as events only, not as methods of the class.
- The remaining commands of the app, the CLI, coverage and mutation reports, and all rendering: they would only add easy members.
