/** The books of a session's retransmission list: what each event does to it, and over whole runs
    what became of every packet. */
module Ledger {
  import opened PacketPool
  import opened ArqModel
  import opened ArqTheorems
  import opened ArqLosses
  import opened FeedbackLaws
  import opened ArqSweep
  import opened TimerLaws
  import opened Encoder
  import Arq
  import N = NodePool
  import opened Folding

  /** What can happen to a session and the buffers it shares. */
  datatype Event =
    | Malloc(kind: nat)
    | Share(b: Buf)
    | Free(b: Buf)
    | Enter(p: Arq.Packet, firstSn: nat, ts: nat)
    | Report(fb: Feedback, env: nat -> Sent)
    | Timer(c: Clock, algorithms: bool, stream: bool, env: nat -> Sent)
    | AdjustLimit(times: nat)
    | AdjustBoost(on: bool, times: nat)
    | Encode(draws: seq<Draw>)
    | Cache(b: Buf, sn: nat, len: nat, needNew: bool)
    | Uncache(pos: nat)
    | UncachePack(b: Buf, pos: nat, same: bool)
    | ClearArc(start: nat, end: nat)
    | FlushCache
    | OtherTakes
    | OtherReturns(a: int)

  /** The list, what it is tuned to, and what is left of the pools: the free node blocks and the
      classes from which on no packet buffer is free. */
  datatype Moment = Moment(list: seq<Node>, lim: Limits, boosting: bool, boost: nat, free: int, spent: set<nat>)
  {
    /** The same with other pools. */
    function With(pools: Moment): Moment { this.(free := pools.free, spent := pools.spent) }
  }

  /** What an event does, given the clones it could allocate: a packet enters exactly if there is
      a block for it, and with a clone exactly while boosting with a second block and a buffer for
      it; reports and timers judge the list; limits change on their own events only. */
  ghost predicate Booked(e: Event, m: Moment, m': Moment, reserve: nat, r: N.Option<Buf>, got: seq<N.Option<Buf>>) {
    match e
    case Enter(p, firstSn, ts) =>
      if m.free == 0 then m'.With(m) == m
      else
        && m'.With(m) == m.(list := m.list + Arq.Entered(Arq.MakeNode(p, firstSn, ts, m.boost), ts, true, r))
        && (r.Some? <==> m.boosting && m.boost > 0 && m.free > 1 && MemSpec(p.len) !in m.spent)
    case Report(fb, env) =>
      && WellFormed(fb) && AllSmall(m.list) && m.lim.maxRetran < 256
      && m'.With(m) == m.(list := AfterFeedback(m.list, fb, m.lim, env, reserve))
    case Timer(c, algorithms, stream, env) =>
      if algorithms then
        var w := RunSweep(m.list, m.lim.maxRetran, stream, c, env, got);
        m'.With(m) == m.(list := w.done + w.todo) && SweepOver(w, c)
      else m'.With(m) == m.(list := [])
    case AdjustLimit(times) => m'.With(m) == m.(lim := m.lim.(maxRetran := times % 256))
    case AdjustBoost(on, times) => m'.With(m) == m.(boosting := on, boost := times % 256)
    case _ => m'.With(m) == m
  }

  /** Every other event leaves the list and its limits alone. */
  lemma Stutters(e: Event, m: Moment, m': Moment, reserve: nat, r: N.Option<Buf>, got: seq<N.Option<Buf>>)
    requires !(e.Enter? || e.Report? || e.Timer? || e.AdjustLimit? || e.AdjustBoost?) && m'.With(m) == m
    ensures Booked(e, m, m', reserve, r, got)
  {
  }

  ghost predicate Happens(e: Event, m: Moment, m': Moment, reserve: nat) {
    forall k: nat {:trigger Open(Fold.Record, k)} :: Open(Fold.Record, k) ==> exists r, got :: Booked(e, m, m', reserve, r, got)
  }

  /** The moments before and after each event of a run. */
  ghost predicate History(h: seq<Moment>, events: seq<Event>, reserve: nat) {
    |h| == |events| + 1 && forall i :: 0 <= i < |events| ==> Happens(events[i], h[i], h[i + 1], reserve)
  }

  lemma HistoryGrows(h: seq<Moment>, events: seq<Event>, reserve: nat, e: Event, m: Moment)
    requires History(h, events, reserve) && Happens(e, h[|events|], m, reserve)
    ensures History(h + [m], events + [e], reserve)
  {
  }

  // ----- how a packet can go

  /** A report acknowledges a node of the packet or, without reliable transport, gives it up; if
      new numbers are sheltered, it says so of a copy as it was listed. */
  ghost predicate Reported(fb: Feedback, env: nat -> Sent, m: Moment, x: nat)
    requires WellFormed(fb) && AllSmall(m.list) && m.lim.maxRetran < 256
  {
    exists n ::
      && n in RunWalk(Walk([], m.list, [], []), fb, m.lim, env).retired && n.firstSn == x && Retirable(fb, m.lim, n)
      && (Straight(fb) ==> Arrived(fb, n.packSn) || (!m.lim.reliable && Wanted(fb, m.lim.window, n.packSn) && !HasResends(n, m.lim)))
      && (Sheltered(fb, m.lim.window, env) ==> Caused(n, m.list, fb, m.lim, env))
  }

  /** The timer's sweep, with whatever clones it got, dropped copy k: it was marked as failed or
      had used up its sends for a whole timeout, and was not due for a second round. */
  ghost predicate TimedOut(c: Clock, stream: bool, env: nat -> Sent, m: Moment, m': Moment, got: seq<N.Option<Buf>>, n: Node, k: Key) {
    var w := RunSweep(m.list, m.lim.maxRetran, stream, c, env, got);
    && m'.list == w.done + w.todo && SweepOver(w, c)
    && n in w.dropped && KeyOf(n) == k && (!stream || n.boost || n.tryAgain)
    && (c.rtoTimeout <= c.now < 0x1_0000_0000_0000_0000 ==>
          n.failedAck || ((if n.boost then n.threshold else m.lim.maxRetran) <= n.retran && c.now - n.lastSend >= c.rtoTimeout))
  }

  /** The event takes copies of packet k off the list: a report acknowledged or gave up a copy,
      the timer gave one up after its transmissions failed, or the list was cleared. */
  ghost predicate Takes(e: Event, m: Moment, m': Moment, k: Key) {
    match e
    case Report(fb, env) =>
      WellFormed(fb) && AllSmall(m.list) && m.lim.maxRetran < 256 && Reported(fb, env, m, k.0)
    case Timer(c, algorithms, stream, env) =>
      if algorithms then exists got, n :: TimedOut(c, stream, env, m, m', got, n, k) else m'.list == []
    case _ => false
  }

  lemma ReportTakes(fb: Feedback, env: nat -> Sent, m: Moment, reserve: nat, k: Key)
    requires WellFormed(fb) && AllSmall(m.list) && m.lim.maxRetran < 256
    requires Bag(AfterFeedback(m.list, fb, m.lim, env, reserve))[k] < Bag(m.list)[k]
    ensures Reported(fb, env, m, k.0)
  {
    var s := RunWalk(Walk([], m.list, [], []), fb, m.lim, env).retired;
    AckSafety(m.list, fb, m.lim, env, reserve, k);
    var i :| 0 <= i < |s| && Firsts(s)[i] == k.0;
    assert s[i] in s && Retirable(fb, m.lim, s[i]);
    if Straight(fb) { JudgesAsSaid(fb, m.lim.window, s[i].packSn); }
  }

  lemma TimerTakes(c: Clock, stream: bool, env: nat -> Sent, m: Moment, m': Moment, got: seq<N.Option<Buf>>, k: Key) returns (n: Node)
    requires Bag(m'.list)[k] < Bag(m.list)[k]
    requires var w := RunSweep(m.list, m.lim.maxRetran, stream, c, env, got); m'.list == w.done + w.todo && SweepOver(w, c)
    ensures TimedOut(c, stream, env, m, m', got, n, k)
  {
    var w := RunSweep(m.list, m.lim.maxRetran, stream, c, env, got);
    SweepRunIsSound(m.list, m.lim.maxRetran, stream, c, env, got, k);
    KeysConcat(w.done, w.todo);
    var i :| 0 <= i < |w.dropped| && Keys(w.dropped)[i] == k;
    n := w.dropped[i];
    if c.rtoTimeout <= c.now < 0x1_0000_0000_0000_0000 {
      DroppedHasFailed(m.list, m.lim.maxRetran, stream, c, env, got, n);
    }
  }

  lemma EventTakes(e: Event, m: Moment, m': Moment, reserve: nat, k: Key)
    requires Happens(e, m, m', reserve) && Bag(m'.list)[k] < Bag(m.list)[k]
    ensures Takes(e, m, m', k)
  {
    assert Open(Fold.Record, 0);
    var r, got :| Booked(e, m, m', reserve, r, got);
    match e
    case Enter(p, firstSn, ts) => KeysConcat(m.list, Arq.Entered(Arq.MakeNode(p, firstSn, ts, m.boost), ts, true, r));
    case Report(fb, env) => ReportTakes(fb, env, m, reserve, k);
    case Timer(c, algorithms, stream, env) =>
      if algorithms { var _ := TimerTakes(c, stream, env, m, m', got, k); }
    case _ =>
  }

  lemma {:induction false} WhenItWent(h: seq<Moment>, i: nat, j: nat, k: Key) returns (t: nat)
    requires i <= j < |h| && Bag(h[j].list)[k] < Bag(h[i].list)[k]
    ensures i <= t < j && Bag(h[t + 1].list)[k] < Bag(h[t].list)[k]
    decreases j - i
  {
    t := j - 1;
    if Bag(h[j].list)[k] >= Bag(h[j - 1].list)[k] { t := WhenItWent(h, i, j - 1, k); }
  }

  /** The ledger: over any run, whatever copies of a packet are gone were taken by events between,
      each of them a report that acknowledged or gave up a copy, a timer that gave one up, or a
      clearing of the list. */
  lemma GoneWasTaken(h: seq<Moment>, events: seq<Event>, reserve: nat, i: nat, j: nat, k: Key) returns (t: nat)
    requires History(h, events, reserve) && i <= j <= |events|
    requires Bag(h[j].list)[k] < Bag(h[i].list)[k]
    ensures i <= t < j && Bag(h[t + 1].list)[k] < Bag(h[t].list)[k] && Takes(events[t], h[t], h[t + 1], k)
  {
    t := WhenItWent(h, i, j, k);
    EventTakes(events[t], h[t], h[t + 1], reserve, k);
  }

  lemma EnterAdds(e: Event, m: Moment, m': Moment, reserve: nat)
    requires e.Enter? && Happens(e, m, m', reserve) && m.free != 0
    ensures (e.firstSn, e.p.buf) in Bag(m'.list)
  {
    assert Open(Fold.Record, 0);
    var r, got :| Booked(e, m, m', reserve, r, got);
    EnteredKey(e.p, e.firstSn, e.ts, m.boost, r);
    KeysConcat(m.list, Arq.Entered(Arq.MakeNode(e.p, e.firstSn, e.ts, m.boost), e.ts, true, r));
  }

  /** In particular: every packet ever entered is still listed or was taken since. */
  lemma EnteredIsListedOrTaken(h: seq<Moment>, events: seq<Event>, reserve: nat, i: nat, k: Key) returns (t: nat)
    requires History(h, events, reserve) && i < |events| && events[i].Enter? && h[i].free != 0
    requires k == (events[i].firstSn, events[i].p.buf)
    ensures k in Bag(h[|events|].list) || (i < t < |events| && Takes(events[t], h[t], h[t + 1], k))
  {
    EnterAdds(events[i], h[i], h[i + 1], reserve);
    t := i;
    if k !in Bag(h[|events|].list) { t := GoneWasTaken(h, events, reserve, i + 1, |events|, k); }
  }

  lemma EnteredKey(p: Arq.Packet, firstSn: nat, ts: nat, boost: nat, r: N.Option<Buf>)
    ensures var s := Arq.Entered(Arq.MakeNode(p, firstSn, ts, boost), ts, true, r);
      (firstSn, p.buf) in Bag(s) && forall x :: x in Firsts(s) ==> x == firstSn
  {
    var s := Arq.Entered(Arq.MakeNode(p, firstSn, ts, boost), ts, true, r);
    assert Keys(s)[0] == (firstSn, p.buf);
  }

  // ----- where a packet can come from

  lemma ListedKey(s: seq<Node>, x: nat) returns (k: Key)
    requires x in Firsts(s)
    ensures k in Bag(s) && k.0 == x
  {
    var i :| 0 <= i < |s| && Firsts(s)[i] == x;
    k := Keys(s)[i];
  }

  lemma EnterBrings(p: Arq.Packet, firstSn: nat, ts: nat, boost: nat, r: N.Option<Buf>, list: seq<Node>, x: nat)
    requires x in Firsts(list + Arq.Entered(Arq.MakeNode(p, firstSn, ts, boost), ts, true, r)) && x !in Firsts(list)
    ensures firstSn == x
  {
    var s := Arq.Entered(Arq.MakeNode(p, firstSn, ts, boost), ts, true, r);
    EnteredKey(p, firstSn, ts, boost, r);
    assert Firsts(list + s) == Firsts(list) + Firsts(s);
  }

  lemma ReportBringsNone(fb: Feedback, env: nat -> Sent, m: Moment, reserve: nat, x: nat)
    requires WellFormed(fb) && AllSmall(m.list) && m.lim.maxRetran < 256
    requires x in Firsts(AfterFeedback(m.list, fb, m.lim, env, reserve))
    ensures x in Firsts(m.list)
  {
    var k := ListedKey(AfterFeedback(m.list, fb, m.lim, env, reserve), x);
    FeedbackExactly(m.list, fb, m.lim, env, reserve, k);
    SourceOf(m.list, k);
  }

  lemma TimerBringsNone(c: Clock, stream: bool, env: nat -> Sent, m: Moment, got: seq<N.Option<Buf>>, x: nat)
    requires var w := RunSweep(m.list, m.lim.maxRetran, stream, c, env, got); x in Firsts(w.done + w.todo)
    ensures x in Firsts(m.list)
  {
    var w := RunSweep(m.list, m.lim.maxRetran, stream, c, env, got);
    var k := ListedKey(w.done + w.todo, x);
    SweepRunIsSound(m.list, m.lim.maxRetran, stream, c, env, got, k);
    KeysConcat(w.done, w.todo);
  }

  lemma EventBrings(e: Event, m: Moment, m': Moment, reserve: nat, x: nat)
    requires Happens(e, m, m', reserve) && x in Firsts(m'.list) && x !in Firsts(m.list)
    ensures e.Enter? && e.firstSn == x && m.free != 0
  {
    assert Open(Fold.Record, 0);
    var r, got :| Booked(e, m, m', reserve, r, got);
    match e
    case Enter(p, firstSn, ts) => EnterBrings(p, firstSn, ts, m.boost, r, m.list, x);
    case Report(fb, env) => ReportBringsNone(fb, env, m, reserve, x);
    case Timer(c, algorithms, stream, env) =>
      if algorithms { TimerBringsNone(c, stream, env, m, got, x); }
    case _ =>
  }

  lemma {:induction false} WhenItCame(h: seq<Moment>, i: nat, j: nat, x: nat) returns (t: nat)
    requires i <= j < |h| && x in Firsts(h[j].list) && x !in Firsts(h[i].list)
    ensures i <= t < j && x in Firsts(h[t + 1].list) && x !in Firsts(h[t].list)
    decreases j - i
  {
    t := j - 1;
    if x in Firsts(h[j - 1].list) { t := WhenItCame(h, i, j - 1, x); }
  }

  /** Nothing appears by itself: a packet listed later and not before was entered between. */
  lemma ListedWasEntered(h: seq<Moment>, events: seq<Event>, reserve: nat, i: nat, j: nat, x: nat) returns (t: nat)
    requires History(h, events, reserve) && i <= j <= |events|
    requires x in Firsts(h[j].list) && x !in Firsts(h[i].list)
    ensures i <= t < j && events[t].Enter? && events[t].firstSn == x && h[t].free != 0
  {
    t := WhenItCame(h, i, j, x);
    EventBrings(events[t], h[t], h[t + 1], reserve, x);
  }
}
