/** The retransmission timer's sweep, CheckRtoRetran with TranFailedPostHandler and
    CloneBoostNode (src/arq/goodtp_arq.cpp), on plain sequences of nodes. */
module ArqSweep {
  import opened PacketPool
  import opened ArqModel
  import opened ArqTheorems
  import NodePool

  /** The time of the sweep and what it compares send times with: u64 subtractions wrap. */
  datatype Clock = Clock(now: nat, rtoTimeout: nat, boostPeriod: nat) {
    function RtoTs(): nat { (now - rtoTimeout) % U64 }
    function BoostTs(): nat { (now - boostPeriod) % U64 }
  }

  /** JudgeIsTranFailed */
  predicate TranFailed(n: Node, maxRetran: nat, c: Clock) {
    n.failedAck || (Exhausted(n, maxRetran) && c.RtoTs() >= n.lastSend)
  }

  /** JudgeCanRtoReSend, for a node that has not failed */
  predicate Due(n: Node, maxRetran: nat, c: Clock) {
    if n.boost then n.threshold > n.retran && c.BoostTs() >= n.lastSend
    else maxRetran > n.retran && c.RtoTs() >= n.lastSend
  }

  /** TranFailedPostHandler gives an original of a reliable stream one more round. */
  predicate Retries(n: Node, stream: bool) { stream && !n.boost && !n.tryAgain }

  /** The node of a second round, before it is known whether it gets a clone. */
  function Retry(n: Node, s: Sent): Node {
    var m := Resent(n.(retran := 0, failedAck := false, boost := false, tryAgain := true), s);
    if m.hasBoost && MAX_BOOST_TIMES_PER_ONCE > m.threshold then m.(threshold := m.threshold + 1) else m
  }

  /** CloneBoostNode: the copy gets its own buffer and a send time a second in the past. */
  function Clone(n: Node, b: Buf, ts: nat): Node {
    Node(b, n.packLen, n.packSn, n.firstSn, (ts - 1000000) % U64, 0, n.threshold, true, true, false, true, 0)
  }

  /** The nodes a second round appends: the clone, if its memory could be had, and the node. */
  function SecondRound(n: Node, s: Sent, got: Option<Buf>): seq<Node> {
    var m := Retry(n, s);
    if got.None? then [m] else [Clone(m, got.value, s.ts), m.(hasBoost := true)]
  }

  /** The sweep's state: the list is done + todo, with the cursor at the head of todo. */
  datatype Sweep = Sweep(done: seq<Node>, todo: seq<Node>, dropped: seq<Node>, sent: nat)

  predicate SweepOver(w: Sweep, c: Clock) {
    w.todo == [] || c.now <= w.todo[0].lastSend
  }

  /** Re-append nodes behind the rest; with no rest the cursor is already null. */
  function Requeue(w: Sweep, add: seq<Node>): Sweep
    requires w.todo != []
  {
    if |w.todo| == 1 then w.(done := w.done + add, todo := [], sent := w.sent + 1)
    else w.(todo := w.todo[1..] + add, sent := w.sent + 1)
  }

  /** One visit; `got` is the buffer a clone obtained, if the visit makes one. */
  function SweepVisit(w: Sweep, maxRetran: nat, stream: bool, c: Clock, s: Sent, got: Option<Buf>): Sweep
    requires w.todo != []
  {
    var n, t := w.todo[0], s.(ts := c.now);
    if TranFailed(n, maxRetran, c) then
      if Retries(n, stream) then Requeue(w, SecondRound(n, t, got))
      else w.(todo := w.todo[1..], dropped := w.dropped + [n])
    else if Due(n, maxRetran, c) then Requeue(w, [Resent(n, t)])
    else w.(done := w.done + [n], todo := w.todo[1..])
  }

  // ----- termination

  /** A node the sweep may still process counts once, or twice if failing would put its clone
      in the way of the cursor; a node stamped with the current time stops the sweep. */
  function Weight(n: Node, stream: bool, now: nat): nat {
    if now <= n.lastSend then 0 else if Retries(n, stream) then 2 else 1
  }

  function Load(todo: seq<Node>, stream: bool, now: nat): nat {
    if todo == [] then 0 else Load(todo[..|todo| - 1], stream, now) + Weight(todo[|todo| - 1], stream, now)
  }

  lemma {:induction false} LoadHead(todo: seq<Node>, stream: bool, now: nat)
    requires todo != []
    ensures Load(todo, stream, now) == Weight(todo[0], stream, now) + Load(todo[1..], stream, now)
  {
    var n := |todo| - 1;
    if n > 0 {
      LoadHead(todo[..n], stream, now);
      assert todo[..n][1..] == todo[1..][..n - 1];
    }
  }

  lemma LoadSnoc(todo: seq<Node>, n: Node, stream: bool, now: nat)
    ensures Load(todo + [n], stream, now) == Load(todo, stream, now) + Weight(n, stream, now)
  {
    assert (todo + [n])[..|todo|] == todo;
  }

  /** Every visit lightens the load ahead, so the sweep ends although it re-appends nodes and
      clones to the list it is walking. */
  lemma SweepProgress(w: Sweep, maxRetran: nat, stream: bool, c: Clock, s: Sent, got: Option<Buf>)
    requires !SweepOver(w, c)
    ensures Load(SweepVisit(w, maxRetran, stream, c, s, got).todo, stream, c.now) < Load(w.todo, stream, c.now)
  {
    var n, rest, t := w.todo[0], w.todo[1..], s.(ts := c.now);
    LoadHead(w.todo, stream, c.now);
    if TranFailed(n, maxRetran, c) {
      if Retries(n, stream) {
        var m := Retry(n, t);
        LoadSnoc(rest, m, stream, c.now);
        if got.Some? {
          var b := Clone(m, got.value, c.now);
          LoadSnoc(rest, b, stream, c.now);
          LoadSnoc(rest + [b], m.(hasBoost := true), stream, c.now);
          assert rest + SecondRound(n, t, got) == rest + [b] + [m.(hasBoost := true)];
        }
      }
    } else if Due(n, maxRetran, c) {
      LoadSnoc(rest, Resent(n, t), stream, c.now);
    }
  }

  // ----- bounds on retransmission

  function Max(a: nat, b: nat): nat { if a < b then b else a }

  /** How often a node has been resent, given the largest limit ever in force. */
  predicate Bounded(n: Node, peak: nat) {
    && SmallCounters(n)
    && if n.boost then n.sends <= n.retran <= n.threshold
       else if n.tryAgain then n.sends <= peak + n.retran && n.retran <= Max(peak, 1)
       else n.sends <= n.retran && (n.sends > 0 ==> n.retran <= peak)
  }

  /** In its whole life an original is resent at most twice the limit, if that is at least 1,
      and a boost clone at most boost_threshold_ times. */
  lemma LifetimeBound(n: Node, peak: nat)
    requires Bounded(n, peak)
    ensures !n.boost ==> n.sends <= peak + Max(peak, 1)
    ensures !n.boost && peak >= 1 ==> n.sends <= 2 * peak
    ensures n.boost ==> n.sends <= n.threshold
  {
  }

  /** With the limit at 0 the bound of twice the limit fails: a sweep that finds an original of a
      reliable stream timed out gives it a second round, which sends once. */
  lemma ZeroLimitExceedsTwice(n: Node, c: Clock, env: nat -> Sent)
    requires Bounded(n, 0) && n.sends == 0 && Retries(n, true) && n.lastSend < c.now && n.lastSend <= c.RtoTs()
    ensures var w := RunSweep([n], 0, true, c, env, [NodePool.None]);
      && w.todo == [] && |w.done| == 1
      && w.done[0].firstSn == n.firstSn && w.done[0].sends == 1 > 2 * 0
  {
    var got: seq<Option<Buf>> := [NodePool.None];
    assert got[..0] == [];
  }

  ghost predicate AllBounded(s: seq<Node>, peak: nat) {
    forall i :: 0 <= i < |s| ==> Bounded(s[i], peak)
  }

  lemma ResentBounded(n: Node, s: Sent, maxRetran: nat, peak: nat)
    requires Bounded(n, peak) && !Exhausted(n, maxRetran) && maxRetran <= peak <= 255
    ensures Bounded(Resent(n, s), peak)
  {
  }

  lemma SecondRoundBounded(n: Node, s: Sent, got: Option<Buf>, peak: nat)
    requires Bounded(n, peak) && !n.boost && !n.tryAgain && peak <= 255
    ensures AllBounded(SecondRound(n, s, got), peak)
  {
  }

  lemma RetryBounded(n: Node, s: Sent, peak: nat)
    requires Bounded(n, peak) && !n.boost && !n.tryAgain && peak <= 255
    ensures Bounded(Retry(n, s), peak) && Bounded(Retry(n, s).(hasBoost := true), peak)
    ensures Retry(n, s).buf == n.buf && SmallCounters(Retry(n, s))
  {
  }

  lemma SweepKeepsBounds(w: Sweep, maxRetran: nat, stream: bool, c: Clock, s: Sent, got: Option<Buf>, peak: nat)
    requires w.todo != [] && AllBounded(w.done, peak) && AllBounded(w.todo, peak) && maxRetran <= peak <= 255
    ensures var v := SweepVisit(w, maxRetran, stream, c, s, got);
      AllBounded(v.done, peak) && AllBounded(v.todo, peak)
  {
    var n, t := w.todo[0], s.(ts := c.now);
    if TranFailed(n, maxRetran, c) {
      if Retries(n, stream) { SecondRoundBounded(n, t, got, peak); }
    } else if Due(n, maxRetran, c) {
      ResentBounded(n, t, maxRetran, peak);
    }
  }

  // ----- runs

  /** The sweep after one visit per entry of `got`. */
  function RunSweep(list: seq<Node>, maxRetran: nat, stream: bool, c: Clock, env: nat -> Sent,
                    got: seq<Option<Buf>>): Sweep
  {
    if got == [] then Sweep([], list, [], 0)
    else
      var w := RunSweep(list, maxRetran, stream, c, env, got[..|got| - 1]);
      if SweepOver(w, c) then w else SweepVisit(w, maxRetran, stream, c, env(w.sent), got[|got| - 1])
  }

  lemma RunSweepSnoc(list: seq<Node>, maxRetran: nat, stream: bool, c: Clock, env: nat -> Sent,
                     got: seq<Option<Buf>>, g: Option<Buf>)
    ensures var w := RunSweep(list, maxRetran, stream, c, env, got);
      RunSweep(list, maxRetran, stream, c, env, got + [g]) ==
        if SweepOver(w, c) then w else SweepVisit(w, maxRetran, stream, c, env(w.sent), g)
  {
    assert (got + [g])[..|got|] == got;
  }

  ghost function SweepInHand(w: Sweep): multiset<Key> { Bag(w.done) + Bag(w.todo) + Bag(w.dropped) }

  /** A packet is given up only when its transmission failed and no second round is due. */
  ghost predicate GivenUp(s: seq<Node>, maxRetran: nat, stream: bool, c: Clock) {
    forall i :: 0 <= i < |s| ==> TranFailed(s[i], maxRetran, c) && !Retries(s[i], stream)
  }

  /** The originals the cursor has passed need nothing now. */
  ghost predicate Settled(s: seq<Node>, maxRetran: nat, c: Clock) {
    forall i :: 0 <= i < |s| && !s[i].boost ==>
      c.now <= s[i].lastSend || (!TranFailed(s[i], maxRetran, c) && !Due(s[i], maxRetran, c))
  }

  lemma RequeueInHand(w: Sweep, add: seq<Node>)
    requires w.todo != []
    ensures SweepInHand(Requeue(w, add)) == Bag(w.done) + Bag(w.todo[1..]) + Bag(add) + Bag(w.dropped)
  {
    KeysConcat(w.done, add);
    KeysConcat(w.todo[1..], add);
  }

  lemma SecondRoundKeys(n: Node, s: Sent, got: Option<Buf>)
    ensures multiset{KeyOf(n)} <= Bag(SecondRound(n, s, got))
    ensures forall k :: k in Bag(SecondRound(n, s, got)) ==> k.0 == n.firstSn
    ensures forall k: Key :: got != NodePool.Some(k.1) ==> Bag(SecondRound(n, s, got))[k] == multiset{KeyOf(n)}[k]
  {
    var m := Retry(n, s);
    if got.None? {
      assert Keys([m]) == [KeyOf(n)];
    } else {
      assert Keys(SecondRound(n, s, got)) == [(n.firstSn, got.value), KeyOf(n)];
    }
  }

  /** A visit loses no packet and invents none: what it adds copies a packet it had. */
  lemma SweepVisitConserves(w: Sweep, maxRetran: nat, stream: bool, c: Clock, s: Sent, got: Option<Buf>, k: Key)
    requires w.todo != []
    ensures var v := SweepVisit(w, maxRetran, stream, c, s, got);
      && SweepInHand(w)[k] <= SweepInHand(v)[k] && (k in SweepInHand(v) && k !in SweepInHand(w) ==> k.0 == w.todo[0].firstSn)
      && (got != NodePool.Some(k.1) ==> SweepInHand(w)[k] == SweepInHand(v)[k])
  {
    var n, t := w.todo[0], s.(ts := c.now);
    BagHead(w.todo);
    if TranFailed(n, maxRetran, c) {
      if Retries(n, stream) {
        RequeueInHand(w, SecondRound(n, t, got));
        SecondRoundKeys(n, t, got);
      } else {
        BagSnoc(w.dropped, n);
      }
    } else if Due(n, maxRetran, c) {
      RequeueInHand(w, [Resent(n, t)]);
      assert Keys([Resent(n, t)]) == [KeyOf(n)];
    } else {
      BagSnoc(w.done, n);
    }
  }

  lemma SweepVisitSettles(w: Sweep, maxRetran: nat, stream: bool, c: Clock, s: Sent, got: Option<Buf>)
    requires w.todo != [] && Settled(w.done, maxRetran, c) && GivenUp(w.dropped, maxRetran, stream, c)
    ensures var v := SweepVisit(w, maxRetran, stream, c, s, got);
      Settled(v.done, maxRetran, c) && GivenUp(v.dropped, maxRetran, stream, c)
  {
    var n, t := w.todo[0], s.(ts := c.now);
    if TranFailed(n, maxRetran, c) && Retries(n, stream) {
      assert Settled(SecondRound(n, t, got), maxRetran, c);
    }
  }

  /** Whatever clones were obtained: every packet of the list is still listed or was given up, as
      many nodes of it as before unless its buffer is a clone's,
      all packets in hand come from the list, and the originals passed by need nothing now. */
  lemma {:induction false} SweepRunIsSound(list: seq<Node>, maxRetran: nat, stream: bool, c: Clock,
                                          env: nat -> Sent, got: seq<Option<Buf>>, k: Key)
    ensures var w := RunSweep(list, maxRetran, stream, c, env, got);
      && Bag(list)[k] <= SweepInHand(w)[k]
      && (NodePool.Some(k.1) !in got ==> SweepInHand(w)[k] == Bag(list)[k])
      && (k in SweepInHand(w) ==> k.0 in Firsts(list))
      && Settled(w.done, maxRetran, c) && GivenUp(w.dropped, maxRetran, stream, c)
    decreases |got|
  {
    if got == [] {
      SourceOf(list, k);
    } else {
      var g := got[..|got| - 1];
      var w := RunSweep(list, maxRetran, stream, c, env, g);
      SweepRunIsSound(list, maxRetran, stream, c, env, g, k);
      if !SweepOver(w, c) {
        SweepVisitConserves(w, maxRetran, stream, c, env(w.sent), got[|got| - 1], k);
        SweepVisitSettles(w, maxRetran, stream, c, env(w.sent), got[|got| - 1]);
        var h := KeyOf(w.todo[0]);
        SweepRunIsSound(list, maxRetran, stream, c, env, g, h);
        BagHead(w.todo);
        assert h in SweepInHand(w);
      }
    }
  }

  lemma SourceOf(list: seq<Node>, k: Key)
    ensures k in Bag(list) ==> k.0 in Firsts(list)
  {
    if k in Keys(list) {
      var i :| 0 <= i < |list| && Keys(list)[i] == k;
      assert Firsts(list)[i] == k.0;
    }
  }
}
