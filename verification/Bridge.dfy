/** The request/response bridge of the dogfood page (`app/dogfood/real-bridge.js`):
    invokes, replies, and the socket opening and closing, in any order. */
module Bridge {

  datatype Outcome = Resolved(result: string) | Failed | Disconnected

  datatype LogEntry = LogEntry(cmd: string, ok: bool)

  /** `readyState`: connecting, open, or already closing but `onclose` has not run. */
  datatype Link = Connecting | Open | Closing

  /** For the record: `issued` is the command of every id, `settled` what became of its
      promise, `answered` the ids replied to in order, `sent` the ids of all frames ever
      sent in order, those from `since` on over the current connection. */
  datatype State = State(
    pending: map<int, string>,
    lastCmd: map<int, string>,
    queue: seq<int>,
    nextId: int,
    link: Link,
    invokeLog: seq<LogEntry>,
    issued: map<int, string>,
    settled: map<int, Outcome>,
    answered: seq<int>,
    sent: seq<int>,
    since: nat)

  /** A frame from the sidecar, decoded; `Reply` is any frame that carries an id. */
  datatype Message = Garbage | PageEvent | Reply(id: int, ok: bool, result: string)

  datatype Event = Invoke(cmd: string) | Receive(msg: Message) | Opened | Shutting | Closed

  const INITIAL: State := State(map[], map[], [], 1, Connecting, [], map[], map[], [], [], 0)

  function OnInvoke(s: State, cmd: string): State {
    var id := s.nextId;
    var s' := s.(nextId := id + 1, lastCmd := s.lastCmd[id := cmd], pending := s.pending[id := cmd],
                 issued := s.issued[id := cmd]);
    if s.link.Open? then s'.(sent := s.sent + [id]) else s'.(queue := s.queue + [id])
  }

  /** A socket delivers only while it is open. */
  function OnMessage(s: State, msg: Message): State {
    if !s.link.Open? || !msg.Reply? || msg.id !in s.pending then s
    else
      var cmd := if msg.id in s.lastCmd then s.lastCmd[msg.id] else "";
      s.(pending := s.pending - {msg.id},
         lastCmd := s.lastCmd - {msg.id},
         invokeLog := s.invokeLog + [LogEntry(cmd, msg.ok)],
         settled := s.settled[msg.id := if msg.ok then Resolved(msg.result) else Failed],
         answered := s.answered + [msg.id])
  }

  function OnOpened(s: State): State {
    if !s.link.Connecting? then s
    else s.(link := Open, sent := s.sent + s.queue, queue := [])
  }

  function OnShutting(s: State): State {
    if s.link.Open? then s.(link := Closing) else s
  }

  function CutOff(settled: map<int, Outcome>, pending: map<int, string>): (r: map<int, Outcome>)
    ensures r.Keys == settled.Keys + pending.Keys
    ensures forall id :: id in r ==> r[id] == if id in pending then Disconnected else settled[id]
  {
    settled + map id | id in pending :: Disconnected
  }

  /** `onclose`, and then the reconnect. */
  function OnClosed(s: State): State {
    s.(pending := map[], lastCmd := map[], queue := [], link := Connecting, since := |s.sent|,
       settled := CutOff(s.settled, s.pending))
  }

  function Next(s: State, e: Event): State {
    match e
    case Invoke(cmd) => OnInvoke(s, cmd)
    case Receive(msg) => OnMessage(s, msg)
    case Opened => OnOpened(s)
    case Shutting => OnShutting(s)
    case Closed => OnClosed(s)
  }

  function Run(s: State, es: seq<Event>): State {
    if es == [] then s else Next(Run(s, es[..|es| - 1]), es[|es| - 1])
  }

  // ---- What every run keeps ----

  /** Every id issued is either pending or settled, never both. */
  ghost predicate Partitioned(s: State) {
    && 1 <= s.nextId
    && (forall id :: id in s.issued <==> 1 <= id < s.nextId)
    && (forall id :: id in s.issued <==> id in s.pending || id in s.settled)
    && (forall id :: id in s.pending ==> id !in s.settled)
  }

  ghost function Dropped(settled: map<int, Outcome>): set<int> {
    set id | id in settled && settled[id].Disconnected?
  }

  ghost predicate Distinct(ids: seq<int>) {
    forall i, j :: 0 <= i < j < |ids| ==> ids[i] != ids[j]
  }

  /** Every call is counted once: answered, dropped on a disconnect, or still pending. */
  ghost predicate Counted(s: State) {
    && (forall id :: id in s.answered <==> id in s.settled && !s.settled[id].Disconnected?)
    && Distinct(s.answered)
    && s.nextId - 1 == |s.answered| + |Dropped(s.settled)| + |s.pending.Keys|
  }

  ghost predicate Increasing(ids: seq<int>) {
    forall i, j :: 0 <= i < j < |ids| ==> ids[i] < ids[j]
  }

  /** Frames go out in the order of the calls and each at most once, over all
      connections; nothing stays queued while the socket is open. */
  ghost predicate Ordered(s: State) {
    && Increasing(s.sent + s.queue)
    && (forall id :: id in s.sent + s.queue ==> id < s.nextId)
    && s.since <= |s.sent|
    && (s.link.Open? ==> s.queue == [])
    && (s.link.Connecting? ==> s.since == |s.sent|)
  }

  /** No pending call is lost: it is queued, or was sent on this connection. */
  ghost predicate Waiting(s: State) {
    && s.since <= |s.sent|
    && (forall id :: id in s.pending ==> id in s.sent[s.since..] + s.queue)
    && (forall id :: id in s.queue ==> id in s.pending)
  }

  /** The log names, in order, the commands that were answered, and how. */
  ghost predicate Logged(s: State) {
    && s.pending == s.lastCmd
    && (forall id :: id in s.pending ==> id in s.issued && s.pending[id] == s.issued[id])
    && |s.invokeLog| == |s.answered|
    && forall i :: 0 <= i < |s.answered| ==> LoggedAt(s, i)
  }

  ghost predicate LoggedAt(s: State, i: int)
    requires |s.invokeLog| == |s.answered| && 0 <= i < |s.answered|
  {
    var id := s.answered[i];
    id in s.issued && id in s.settled && s.invokeLog[i] == LogEntry(s.issued[id], s.settled[id].Resolved?)
  }

  ghost predicate Inv(s: State) {
    Partitioned(s) && Counted(s) && Ordered(s) && Waiting(s) && Logged(s)
  }

  /** Over every run, every call is answered, dropped on a disconnect or pending, and
      exactly one of these; the log and the frames account for exactly them. */
  lemma {:induction false} RunKeeps(es: seq<Event>)
    ensures Inv(Run(INITIAL, es))
  {
    hide Partitioned, Counted, Ordered, Waiting, Logged, Next;
    if es == [] {
      InitialHolds();
    } else {
      var s, e := Run(INITIAL, es[..|es| - 1]), es[|es| - 1];
      RunKeeps(es[..|es| - 1]);
      KeepsPartitioned(s, e);
      KeepsCounted(s, e);
      KeepsOrdered(s, e);
      KeepsWaiting(s, e);
      KeepsLogged(s, e);
    }
  }

  lemma InitialHolds()
    ensures Inv(INITIAL)
  {
    assert Dropped(map[]) == {};
  }

  lemma KeepsPartitioned(s: State, e: Event)
    requires Partitioned(s)
    ensures Partitioned(Next(s, e))
  {
  }

  lemma KeepsCounted(s: State, e: Event)
    requires Partitioned(s) && Counted(s)
    ensures Counted(Next(s, e))
  {
    hide Distinct, Partitioned, Dropped, OnInvoke, OnMessage, OnClosed;
    match e
    case Invoke(cmd) => InvokeCounted(s, cmd);
    case Receive(msg) => MessageCounted(s, msg);
    case Closed => ClosedCounted(s);
    case Opened =>
    case Shutting =>
  }

  lemma InvokeCounted(s: State, cmd: string)
    requires Partitioned(s) && Counted(s)
    ensures Counted(OnInvoke(s, cmd))
  {
    hide Distinct, Partitioned, Dropped;
    FreshId(s);
    OneMore(s.pending, s.nextId, cmd);
  }

  lemma OneMore(m: map<int, string>, id: int, cmd: string)
    requires id !in m
    ensures |m[id := cmd].Keys| == |m.Keys| + 1
  {
    assert m[id := cmd].Keys == m.Keys + {id};
  }

  lemma OneLess(m: map<int, string>, id: int)
    requires id in m
    ensures |(m - {id}).Keys| == |m.Keys| - 1
  {
    assert m.Keys == (m - {id}).Keys + {id};
  }

  lemma MessageCounted(s: State, msg: Message)
    requires Partitioned(s) && Counted(s)
    ensures Counted(OnMessage(s, msg))
  {
    hide Distinct, Partitioned, Dropped;
    if s.link.Open? && msg.Reply? && msg.id in s.pending {
      PendingIsNotSettled(s, msg.id);
      OneLess(s.pending, msg.id);
      NotDropped(s.settled, msg.id, if msg.ok then Resolved(msg.result) else Failed);
      AppendDistinct(s.answered, msg.id);
    }
  }

  lemma ClosedCounted(s: State)
    requires Partitioned(s) && Counted(s)
    ensures Counted(OnClosed(s))
  {
    hide Distinct, Partitioned, Dropped, CutOff;
    PendingDisjoint(s);
    DroppedWith(s.settled, s.pending);
    var after := CutOff(s.settled, s.pending);
    forall id ensures id in s.answered <==> id in after && !after[id].Disconnected? {
      assert id in s.pending ==> id in s.pending.Keys;
      assert id in after <==> id in after.Keys;
    }
  }

  lemma PendingDisjoint(s: State)
    requires Partitioned(s)
    ensures s.pending.Keys !! s.settled.Keys
  {
    forall id | id in s.pending.Keys ensures id !in s.settled.Keys {
      assert id in s.pending;
    }
  }

  lemma NotDropped(settled: map<int, Outcome>, id: int, o: Outcome)
    requires id !in settled && !o.Disconnected?
    ensures Dropped(settled[id := o]) == Dropped(settled)
  {
  }

  lemma DroppedWith(settled: map<int, Outcome>, pending: map<int, string>)
    requires pending.Keys !! settled.Keys
    ensures |Dropped(CutOff(settled, pending))| == |Dropped(settled)| + |pending.Keys|
  {
    hide Dropped, CutOff;
    DroppedUnion(settled, pending);
    DroppedIsSettled(settled);
  }

  lemma DroppedIsSettled(settled: map<int, Outcome>)
    ensures Dropped(settled) <= settled.Keys
  {
  }

  lemma DroppedUnion(settled: map<int, Outcome>, pending: map<int, string>)
    requires pending.Keys !! settled.Keys
    ensures Dropped(CutOff(settled, pending)) == Dropped(settled) + pending.Keys
  {
    hide CutOff;
    var after := CutOff(settled, pending);
    forall id ensures id in Dropped(after) <==> id in Dropped(settled) + pending.Keys {
      assert id in after.Keys <==> id in settled.Keys || id in pending.Keys;
    }
  }

  lemma FreshId(s: State)
    requires Partitioned(s)
    ensures s.nextId !in s.issued && s.nextId !in s.pending && s.nextId !in s.settled
  {
  }

  lemma PendingIsNotSettled(s: State, id: int)
    requires Partitioned(s) && id in s.pending
    ensures id !in s.settled
  {
  }

  lemma AppendDistinct(ids: seq<int>, id: int)
    requires Distinct(ids) && id !in ids
    ensures Distinct(ids + [id])
  {
  }

  lemma KeepsOrdered(s: State, e: Event)
    requires Ordered(s)
    ensures Ordered(Next(s, e))
  {
    hide Increasing;
    var s', all := Next(s, e), s.sent + s.queue;
    match e
    case Invoke(_) =>
      assert s'.sent + s'.queue == all + [s.nextId];
      AppendIncreasing(all, s.nextId);
    case Closed =>
      assert s'.sent + s'.queue == all[..|s.sent|];
      PrefixIncreasing(all, |s.sent|);
      forall id | id in s'.sent + s'.queue ensures id < s'.nextId { assert id in all; }
    case _ => assert s'.sent + s'.queue == all;
  }

  lemma AppendIncreasing(ids: seq<int>, id: int)
    requires Increasing(ids) && forall i :: i in ids ==> i < id
    ensures Increasing(ids + [id])
  {
    forall i | 0 <= i < |ids| ensures ids[i] < id { assert ids[i] in ids; }
  }

  lemma PrefixIncreasing(ids: seq<int>, n: nat)
    requires Increasing(ids) && n <= |ids|
    ensures Increasing(ids[..n])
  {
  }

  lemma KeepsWaiting(s: State, e: Event)
    requires Ordered(s) && Waiting(s) && Partitioned(s)
    ensures Waiting(Next(s, e))
  {
    hide Partitioned, Increasing, CutOff;
    match e
    case Invoke(cmd) => InvokeWaits(s, cmd);
    case Opened => OpenWaits(s);
    case Receive(msg) => MessageWaits(s, msg);
    case Shutting =>
    case Closed =>
  }

  lemma InvokeWaits(s: State, cmd: string)
    requires Ordered(s) && Waiting(s) && Partitioned(s)
    ensures Waiting(OnInvoke(s, cmd))
  {
    hide Partitioned, Increasing;
    FreshId(s);
    var s' := OnInvoke(s, cmd);
    assert s'.sent[s'.since..] + s'.queue == (s.sent[s.since..] + s.queue) + [s.nextId];
  }

  lemma OpenWaits(s: State)
    requires Waiting(s)
    ensures Waiting(OnOpened(s))
  {
    var s' := OnOpened(s);
    assert s.link.Connecting? ==> s'.sent[s'.since..] + s'.queue == s.sent[s.since..] + s.queue;
  }

  lemma MessageWaits(s: State, msg: Message)
    requires Ordered(s) && Waiting(s)
    ensures Waiting(OnMessage(s, msg))
  {
    hide Increasing;
  }

  lemma KeepsLogged(s: State, e: Event)
    requires Partitioned(s) && Logged(s)
    ensures Logged(Next(s, e))
  {
    hide Partitioned;
    FreshId(s);
    var s' := Next(s, e);
    forall id | id in s.pending ensures id !in s.settled { PendingIsNotSettled(s, id); }
    forall i | 0 <= i < |s'.answered|
      ensures LoggedAt(s', i)
    {
      assert i < |s.answered| ==> LoggedAt(s, i);
    }
  }

  /** A promise settles once: whatever happens next, its outcome stands. */
  lemma SettledOnce(s: State, e: Event, id: int)
    requires Partitioned(s) && id in s.settled
    ensures id in Next(s, e).settled && Next(s, e).settled[id] == s.settled[id]
  {
  }

  /** `m` is a reply that carries the id and the outcome `o`. */
  predicate Carries(m: Message, id: int, o: Outcome) {
    m.Reply? && m.id == id && o == if m.ok then Resolved(m.result) else Failed
  }

  predicate Settles(e: Event, id: int, o: Outcome) {
    if o.Disconnected? then e.Closed? else e.Receive? && Carries(e.msg, id, o)
  }

  lemma JustSettled(s: State, e: Event, id: int)
    requires id !in s.settled && id in Next(s, e).settled
    ensures id in s.pending && Settles(e, id, Next(s, e).settled[id])
  {
  }

  /** Whatever a call is answered with arrived in a reply carrying the call's own id,
      while the call was pending; any other settled call was pending when a close cut it
      off. */
  lemma {:induction false} AnsweredByItsOwnReply(es: seq<Event>, id: int)
    ensures var s := Run(INITIAL, es);
            id in s.settled ==>
              exists i :: 0 <= i < |es| && id in Run(INITIAL, es[..i]).pending && Settles(es[i], id, s.settled[id])
  {
    hide Partitioned, Counted, Ordered, Waiting, Logged, Next, Settles;
    if es != [] && id in Run(INITIAL, es).settled {
      var init, e := es[..|es| - 1], es[|es| - 1];
      var s := Run(INITIAL, init);
      RunKeeps(init);
      AnsweredByItsOwnReply(init, id);
      if id in s.settled {
        SettledOnce(s, e, id);
        var i :| 0 <= i < |init| && id in Run(INITIAL, init[..i]).pending && Settles(init[i], id, s.settled[id]);
        assert es[i] == init[i] && es[..i] == init[..i];
      } else {
        JustSettled(s, e, id);
        assert es[..|init|] == init;
      }
    }
  }

  lemma RunSnoc(es: seq<Event>, e: Event)
    ensures Run(INITIAL, es + [e]) == Next(Run(INITIAL, es), e)
  {
    assert (es + [e])[..|es|] == es;
  }

  /** On an open link a reply to a pending call settles it, with its own outcome, and is
      logged under the call's command; every other call stays as it was. */
  lemma ReplySettles(es: seq<Event>, id: int, ok: bool, result: string)
    requires Run(INITIAL, es).link.Open? && id in Run(INITIAL, es).pending
    ensures var s, s' := Run(INITIAL, es), Run(INITIAL, es + [Receive(Reply(id, ok, result))]);
            && id in s'.settled && s'.settled[id] == (if ok then Resolved(result) else Failed)
            && id in s.issued && s'.invokeLog == s.invokeLog + [LogEntry(s.issued[id], ok)]
            && id !in s'.pending
            && forall other :: other != id ==>
                 && (other in s'.pending <==> other in s.pending)
                 && (other in s'.settled <==> other in s.settled)
                 && (other in s.settled ==> s'.settled[other] == s.settled[other])
  {
    hide Run, Partitioned, Counted, Ordered, Waiting;
    RunKeeps(es);
    RunSnoc(es, Receive(Reply(id, ok, result)));
  }

  /** Once the link is closing nothing is heard, and nothing is sent any more. */
  lemma ClosingIsDeaf(es: seq<Event>, msg: Message, cmd: string)
    requires Run(INITIAL, es).link.Open?
    ensures var closing := es + [Shutting];
            && Run(INITIAL, closing + [Receive(msg)]) == Run(INITIAL, closing)
            && Run(INITIAL, closing + [Invoke(cmd)]).sent == Run(INITIAL, es).sent
  {
    hide Run;
    RunSnoc(es, Shutting);
    RunSnoc(es + [Shutting], Receive(msg));
    RunSnoc(es + [Shutting], Invoke(cmd));
  }

  /** No call hangs: a close settles every call issued before it. */
  lemma CloseSettlesAll(es: seq<Event>, id: int)
    requires id in Run(INITIAL, es).issued
    ensures id in Run(INITIAL, es + [Closed]).settled
  {
    hide Counted, Ordered, Waiting, Logged;
    RunKeeps(es);
    assert (es + [Closed])[..|es|] == es;
  }

  /** The page's side of the bridge. */
  class Page {
    var pending: map<int, string>
    var lastCmd: map<int, string>
    var queue: seq<int>
    var nextId: int
    var link: Link
    var invokeLog: seq<LogEntry>
    ghost var issued: map<int, string>
    ghost var settled: map<int, Outcome>
    ghost var answered: seq<int>
    ghost var sent: seq<int>
    ghost var since: nat

    ghost function View(): State
      reads this
    {
      State(pending, lastCmd, queue, nextId, link, invokeLog, issued, settled, answered, sent, since)
    }

    constructor ()
      ensures View() == INITIAL
    {
      pending, lastCmd, queue, nextId, link, invokeLog := map[], map[], [], 1, Connecting, [];
      issued, settled, answered, sent, since := map[], map[], [], [], 0;
    }

    /** `internals.invoke`, for a call the sidecar answers. */
    method Invoke(cmd: string) returns (id: int)
      modifies this
      ensures View() == OnInvoke(old(View()), cmd) && id == old(nextId)
    {
      id := nextId;
      nextId := nextId + 1;
      lastCmd := lastCmd[id := cmd];
      pending := pending[id := cmd];
      issued := issued[id := cmd];
      if link == Open {
        sent := sent + [id];
      } else {
        queue := queue + [id];
      }
    }

    /** `__dfHandleMessage`. */
    method HandleMessage(msg: Message)
      requires link == Open
      modifies this
      ensures View() == OnMessage(old(View()), msg)
    {
      if msg.Reply? && msg.id in pending {
        pending := pending - {msg.id};
        var cmd := if msg.id in lastCmd then lastCmd[msg.id] else "";
        lastCmd := lastCmd - {msg.id};
        invokeLog := invokeLog + [LogEntry(cmd, msg.ok)];
        settled := settled[msg.id := if msg.ok then Resolved(msg.result) else Failed];
        answered := answered + [msg.id];
      }
    }

    /** `ws.onopen`: the queue is emptied onto the wire, frame by frame. */
    method HandleOpen()
      requires link == Connecting
      modifies this
      ensures View() == OnOpened(old(View()))
    {
      link := Open;
      var frames := queue;
      queue := [];
      for i := 0 to |frames|
        modifies `sent
        invariant sent == old(sent) + frames[..i]
      {
        sent := sent + [frames[i]];
      }
    }

    /** `ws.onclose`. */
    method HandleClose()
      modifies this
      ensures View() == OnClosed(old(View()))
    {
      hide CutOff;
      settled := CutOff(settled, pending);
      pending, lastCmd := map[], map[];
      queue := [];
      link, since := Connecting, |sent|;
    }
  }
}
