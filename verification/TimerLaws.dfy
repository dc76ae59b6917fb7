/** What the retransmission timer does to the list, said in elapsed times and numbers of sends:
    which nodes it gives up, which it sends again and which it leaves alone. */
module TimerLaws {
  import opened PacketPool
  import opened ArqModel
  import opened ArqTheorems
  import opened ArqSweep

  /** Node m is where the sweep will not touch it again. */
  ghost predicate Placed(w: Sweep, m: Node, now: nat) { m in w.done || (m in w.todo && now <= m.lastSend) }

  lemma {:induction false} PlacedStays(list: seq<Node>, maxRetran: nat, stream: bool, c: Clock, env: nat -> Sent,
                                      got: seq<Option<Buf>>, v: nat, m: Node)
    requires v <= |got| && Placed(RunSweep(list, maxRetran, stream, c, env, got[..v]), m, c.now)
    ensures Placed(RunSweep(list, maxRetran, stream, c, env, got), m, c.now)
    decreases |got|
  {
    if v == |got| {
      assert got[..v] == got;
    } else {
      var g := got[..|got| - 1];
      assert got[..v] == g[..v];
      PlacedStays(list, maxRetran, stream, c, env, g, v, m);
      var w := RunSweep(list, maxRetran, stream, c, env, g);
      if !SweepOver(w, c) { VisitLeavesPlaced(w, maxRetran, stream, c, env(w.sent), got[|got| - 1], m); }
    }
  }

  lemma VisitLeavesPlaced(w: Sweep, maxRetran: nat, stream: bool, c: Clock, s: Sent, got: Option<Buf>, m: Node)
    requires !SweepOver(w, c) && Placed(w, m, c.now)
    ensures Placed(SweepVisit(w, maxRetran, stream, c, s, got), m, c.now)
  {
    if m !in w.done {
      assert m != w.todo[0];
      var i :| 0 <= i < |w.todo| && w.todo[i] == m;
      assert w.todo[1..][i - 1] == m;
    }
  }

  lemma {:induction false} DroppedStays(list: seq<Node>, maxRetran: nat, stream: bool, c: Clock, env: nat -> Sent,
                                       got: seq<Option<Buf>>, v: nat, m: Node)
    requires v <= |got| && m in RunSweep(list, maxRetran, stream, c, env, got[..v]).dropped
    ensures m in RunSweep(list, maxRetran, stream, c, env, got).dropped
    decreases |got|
  {
    if v == |got| {
      assert got[..v] == got;
    } else {
      assert got[..v] == got[..|got| - 1][..v];
      DroppedStays(list, maxRetran, stream, c, env, got[..|got| - 1], v, m);
    }
  }

  /** After i visits the cursor is on node i of the list, with the rest of the list ahead. */
  lemma {:induction false} CursorAt(list: seq<Node>, maxRetran: nat, stream: bool, c: Clock, env: nat -> Sent,
                                   got: seq<Option<Buf>>, i: nat)
    requires i <= |list| && i <= |got| && forall j :: 0 <= j < i ==> list[j].lastSend < c.now
    ensures list[i..] <= RunSweep(list, maxRetran, stream, c, env, got[..i]).todo
  {
    if i == 0 {
      assert got[..0] == [];
    } else {
      CursorAt(list, maxRetran, stream, c, env, got, i - 1);
      assert got[..i][..i - 1] == got[..i - 1];
      var w := RunSweep(list, maxRetran, stream, c, env, got[..i - 1]);
      assert w.todo[0] == list[i - 1..][0] == list[i - 1];
      VisitMovesOn(w, list[i - 1..], maxRetran, stream, c, env(w.sent), got[i - 1]);
      assert list[i - 1..][1..] == list[i..];
    }
  }

  lemma VisitMovesOn(w: Sweep, rest: seq<Node>, maxRetran: nat, stream: bool, c: Clock, s: Sent, got: Option<Buf>)
    requires rest != [] && rest <= w.todo
    ensures rest[1..] <= SweepVisit(w, maxRetran, stream, c, s, got).todo
  {
    assert rest[1..] <= w.todo[1..];
  }

  /** A sweep that is over has made its visits. */
  lemma OverMeansVisited(list: seq<Node>, maxRetran: nat, stream: bool, c: Clock, env: nat -> Sent,
                         got: seq<Option<Buf>>, i: nat)
    requires i < |list| && forall j :: 0 <= j <= i ==> list[j].lastSend < c.now
    requires SweepOver(RunSweep(list, maxRetran, stream, c, env, got), c)
    ensures i < |got|
  {
    if |got| <= i {
      assert got[..|got|] == got && list[|got|..][0] == list[|got|];
      CursorAt(list, maxRetran, stream, c, env, got, |got|);
    }
  }

  /** What one visit does with the node under the cursor. */
  ghost predicate Handled(w: Sweep, n: Node, maxRetran: nat, stream: bool, c: Clock, env: nat -> Sent) {
    var left := n.retran < if n.boost then n.threshold else maxRetran;
    var age := c.now - n.lastSend;
    var failed := n.failedAck || (!left && age >= c.rtoTimeout);
    if failed && stream && !n.boost && !n.tryAgain then
      exists t: nat, cloned: bool :: Placed(w, SecondTime(n, env(t), c.now, cloned), c.now)
    else if failed then n in w.dropped
    else if left && age >= (if n.boost then c.boostPeriod else c.rtoTimeout) then
      exists t: nat :: Placed(w, SentAt(n, env(t), c.now), c.now)
    else Placed(w, n, c.now)
  }

  /** Node n after one more send at a time. */
  function SentAt(n: Node, s: Sent, now: nat): Node {
    n.(lastSend := now, packSn := s.sn, packLen := s.len, retran := n.retran + 1, sends := n.sends + 1)
  }

  /** Node n in its second round: sent once, neither failed nor entitled to a third, and with one
      more boost resend, up to seven, if it had a clone before. */
  function SecondTime(n: Node, s: Sent, now: nat, cloned: bool): Node {
    n.(lastSend := now, packSn := s.sn, packLen := s.len, retran := 1, sends := n.sends + 1,
       failedAck := false, tryAgain := true, hasBoost := n.hasBoost || cloned,
       threshold := if n.hasBoost && n.threshold < 7 then n.threshold + 1 else n.threshold)
  }

  lemma VisitHandles(w: Sweep, maxRetran: nat, stream: bool, c: Clock, env: nat -> Sent, got: Option<Buf>)
    requires !SweepOver(w, c) && c.rtoTimeout <= c.now < 0x1_0000_0000_0000_0000 && c.boostPeriod <= c.now
    requires SmallCounters(w.todo[0]) && maxRetran < 256
    ensures Handled(SweepVisit(w, maxRetran, stream, c, env(w.sent), got), w.todo[0], maxRetran, stream, c, env)
  {
    var n, s := w.todo[0], env(w.sent).(ts := c.now);
    if TranFailed(n, maxRetran, c) {
      if Retries(n, stream) {
        var m := SecondTime(n, env(w.sent), c.now, got.Some?);
        assert SecondRound(n, s, got)[|SecondRound(n, s, got)| - 1] == m;
        RequeuePlaces(w, SecondRound(n, s, got), m, c.now);
      }
    } else if ArqSweep.Due(n, maxRetran, c) {
      assert Resent(n, s) == SentAt(n, env(w.sent), c.now);
      RequeuePlaces(w, [Resent(n, s)], Resent(n, s), c.now);
    }
  }

  lemma RequeuePlaces(w: Sweep, add: seq<Node>, m: Node, now: nat)
    requires w.todo != [] && m in add && now <= m.lastSend
    ensures Placed(Requeue(w, add), m, now)
  {
  }

  // ----- the laws

  /** Every node of the list that the sweep gets to, with timeouts no longer than the clock has
      run.  A node whose sends are used up for a whole timeout, or that is marked as failed, is
      given up or, once and for originals of reliable streams only, gets a second round; one with
      sends left is sent again when its own period has passed; any other stays as it is. */
  lemma TimerHandles(list: seq<Node>, maxRetran: nat, stream: bool, c: Clock, env: nat -> Sent, got: seq<Option<Buf>>, i: nat)
    requires c.rtoTimeout <= c.now < 0x1_0000_0000_0000_0000 && c.boostPeriod <= c.now && AllSmall(list) && maxRetran < 256
    requires i < |list| && forall j :: 0 <= j <= i ==> list[j].lastSend < c.now
    requires SweepOver(RunSweep(list, maxRetran, stream, c, env, got), c)
    ensures Handled(RunSweep(list, maxRetran, stream, c, env, got), list[i], maxRetran, stream, c, env)
  {
    OverMeansVisited(list, maxRetran, stream, c, env, got, i);
    CursorAt(list, maxRetran, stream, c, env, got, i);
    var w := RunSweep(list, maxRetran, stream, c, env, got[..i]);
    assert w.todo[0] == list[i..][0] == list[i];
    VisitHandles(w, maxRetran, stream, c, env, got[i]);
    assert got[..i + 1][..i] == got[..i];
    HandledStays(list, maxRetran, stream, c, env, got, i + 1, list[i]);
  }

  lemma HandledStays(list: seq<Node>, maxRetran: nat, stream: bool, c: Clock, env: nat -> Sent, got: seq<Option<Buf>>, v: nat, n: Node)
    requires v <= |got| && Handled(RunSweep(list, maxRetran, stream, c, env, got[..v]), n, maxRetran, stream, c, env)
    ensures Handled(RunSweep(list, maxRetran, stream, c, env, got), n, maxRetran, stream, c, env)
  {
    var w := RunSweep(list, maxRetran, stream, c, env, got[..v]);
    if n in w.dropped { DroppedStays(list, maxRetran, stream, c, env, got, v, n); }
    if Placed(w, n, c.now) { PlacedStays(list, maxRetran, stream, c, env, got, v, n); }
    forall t: nat, cloned: bool | Placed(w, SecondTime(n, env(t), c.now, cloned), c.now)
      ensures Placed(RunSweep(list, maxRetran, stream, c, env, got), SecondTime(n, env(t), c.now, cloned), c.now)
    {
      PlacedStays(list, maxRetran, stream, c, env, got, v, SecondTime(n, env(t), c.now, cloned));
    }
    forall t: nat | Placed(w, SentAt(n, env(t), c.now), c.now)
      ensures Placed(RunSweep(list, maxRetran, stream, c, env, got), SentAt(n, env(t), c.now), c.now)
    {
      PlacedStays(list, maxRetran, stream, c, env, got, v, SentAt(n, env(t), c.now));
    }
  }

  /** A node sent at the sweep's time or later ends the sweep: it and all behind it stay. */
  lemma RecentEndsSweep(list: seq<Node>, maxRetran: nat, stream: bool, c: Clock, env: nat -> Sent, got: seq<Option<Buf>>, h: nat, i: nat)
    requires h <= i < |list| && c.now <= list[h].lastSend && forall j :: 0 <= j < h ==> list[j].lastSend < c.now
    requires SweepOver(RunSweep(list, maxRetran, stream, c, env, got), c)
    ensures list[i] in RunSweep(list, maxRetran, stream, c, env, got).todo
  {
    if h > 0 { OverMeansVisited(list, maxRetran, stream, c, env, got, h - 1); }
    CursorAt(list, maxRetran, stream, c, env, got, h);
    var w := RunSweep(list, maxRetran, stream, c, env, got[..h]);
    assert w.todo[0] == list[h..][0] == list[h];
    OverStays(list, maxRetran, stream, c, env, got, h);
    assert w.todo[i - h] == list[h..][i - h] == list[i];
  }

  lemma {:induction false} OverStays(list: seq<Node>, maxRetran: nat, stream: bool, c: Clock, env: nat -> Sent, got: seq<Option<Buf>>, v: nat)
    requires v <= |got| && SweepOver(RunSweep(list, maxRetran, stream, c, env, got[..v]), c)
    ensures RunSweep(list, maxRetran, stream, c, env, got) == RunSweep(list, maxRetran, stream, c, env, got[..v])
    decreases |got|
  {
    if v == |got| {
      assert got[..v] == got;
    } else {
      assert got[..v] == got[..|got| - 1][..v];
      OverStays(list, maxRetran, stream, c, env, got[..|got| - 1], v);
    }
  }

  /** Nothing else is given up, clones made on the way included: a dropped node was marked as
      failed or had used up its sends for a whole timeout, and was not due for a second round. */
  lemma DroppedHasFailed(list: seq<Node>, maxRetran: nat, stream: bool, c: Clock, env: nat -> Sent, got: seq<Option<Buf>>, n: Node)
    requires c.rtoTimeout <= c.now < 0x1_0000_0000_0000_0000
    requires n in RunSweep(list, maxRetran, stream, c, env, got).dropped
    ensures n.failedAck || ((if n.boost then n.threshold else maxRetran) <= n.retran && c.now - n.lastSend >= c.rtoTimeout)
    ensures !stream || n.boost || n.tryAgain
  {
    var w := RunSweep(list, maxRetran, stream, c, env, got);
    SweepRunIsSound(list, maxRetran, stream, c, env, got, KeyOf(n));
    var i :| 0 <= i < |w.dropped| && w.dropped[i] == n;
    assert TranFailed(w.dropped[i], maxRetran, c) && !Retries(w.dropped[i], stream);
  }

  /** A clone carries its packet's number and first number in a buffer of its own, has every send
      before it and is sent by the first sweep that gets to it with a boost period of at most a
      second. */
  lemma CloneIsSentNext(n: Node, b: Buf, ts: nat, list: seq<Node>, maxRetran: nat, stream: bool, c: Clock, env: nat -> Sent,
                        got: seq<Option<Buf>>, i: nat) returns (t: nat)
    requires 1_000_000 <= ts <= c.now < 0x1_0000_0000_0000_0000 && c.boostPeriod <= 1_000_000 && c.rtoTimeout <= c.now
    requires AllSmall(list) && maxRetran < 256 && n.threshold > 0
    requires i < |list| && list[i] == Clone(n, b, ts) && forall j :: 0 <= j < i ==> list[j].lastSend < c.now
    requires SweepOver(RunSweep(list, maxRetran, stream, c, env, got), c)
    ensures Clone(n, b, ts).packSn == n.packSn && Clone(n, b, ts).firstSn == n.firstSn
    ensures
      var m := n.(buf := b, boost := true, tryAgain := true, hasBoost := true, failedAck := false,
                  lastSend := c.now, packSn := env(t).sn, packLen := env(t).len, retran := 1, sends := 1);
      Placed(RunSweep(list, maxRetran, stream, c, env, got), m, c.now)
  {
    var m := Clone(n, b, ts);
    assert m.lastSend == ts - 1_000_000;
    TimerHandles(list, maxRetran, stream, c, env, got, i);
    t :| Placed(RunSweep(list, maxRetran, stream, c, env, got), SentAt(m, env(t), c.now), c.now);
  }
}
