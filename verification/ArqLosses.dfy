/** Which packets feedback removes, exactly, and inputs on which it removes too many or too
    few. */
module ArqLosses {
  import opened Bits
  import opened PacketPool
  import opened ArqModel
  import opened ArqTheorems

  // ----- what the walk reaches

  lemma OneStep(w: Walk, v: Walk, fb: Feedback, lim: Limits, env: nat -> Sent)
    requires WellFormed(fb) && lim.maxRetran < 256 && AllSmall(w.todo) && !Finished(w, fb, lim)
    requires v == Visit(w, ActOn(fb, lim, w.todo[0]), env(|w.sent|))
    ensures AllSmall(v.todo) && RunWalk(w, fb, lim, env) == RunWalk(v, fb, lim, env)
  {
    ActIsLawful(fb, lim, w.todo[0]);
    VisitProgress(w, ActOn(fb, lim, w.todo[0]), lim.maxRetran, env(|w.sent|));
  }

  lemma {:induction false} RetiredStays(w: Walk, fb: Feedback, lim: Limits, env: nat -> Sent)
    requires WellFormed(fb) && lim.maxRetran < 256 && AllSmall(w.todo)
    ensures w.retired <= RunWalk(w, fb, lim, env).retired
    decreases Budget(w.todo, lim.maxRetran)
  {
    if !Finished(w, fb, lim) {
      var act := ActOn(fb, lim, w.todo[0]);
      ActIsLawful(fb, lim, w.todo[0]);
      VisitProgress(w, act, lim.maxRetran, env(|w.sent|));
      RetiredStays(Visit(w, act, env(|w.sent|)), fb, lim, env);
    }
  }

  /** The walk reaches the nodes ahead in order: one it would drop is dropped, unless a node
      before it stops the walk. */
  lemma {:induction false} ReachedIsRetired(w: Walk, fb: Feedback, lim: Limits, env: nat -> Sent, i: nat)
    requires WellFormed(fb) && lim.maxRetran < 256 && AllSmall(w.todo)
    requires i < |w.todo| && ActOn(fb, lim, w.todo[i]).Drop?
    requires forall j :: 0 <= j < i ==> !ActOn(fb, lim, w.todo[j]).Halt?
    ensures ActOn(fb, lim, w.todo[i]).n in RunWalk(w, fb, lim, env).retired
    decreases i
  {
    var act := ActOn(fb, lim, w.todo[0]);
    ActIsLawful(fb, lim, w.todo[0]);
    VisitProgress(w, act, lim.maxRetran, env(|w.sent|));
    var v := Visit(w, act, env(|w.sent|));
    if i == 0 {
      RetiredStays(v, fb, lim, env);
      assert RunWalk(v, fb, lim, env).retired[|w.retired|] == act.n;
    } else {
      assert forall j :: 0 <= j < i ==> v.todo[j] == w.todo[j + 1];
      ReachedIsRetired(v, fb, lim, env, i - 1);
    }
  }

  lemma FirstIsListed(s: seq<Node>, m: Node)
    requires m in s
    ensures m.firstSn in Firsts(s)
  {
    var i :| 0 <= i < |s| && s[i] == m;
    assert Firsts(s)[i] == m.firstSn;
  }

  /** The converse: an acknowledged node that no earlier node stops the walk from reaching
      takes every copy of its packet with it, if the list fits the reserve but for one. */
  lemma AcknowledgedIsRemoved(list: seq<Node>, fb: Feedback, lim: Limits, env: nat -> Sent, reserve: nat, i: nat, k: Key)
    requires WellFormed(fb) && lim.maxRetran < 256 && AllSmall(list) && |list| <= reserve + 1
    requires i < |list| && Judge(fb, lim.window, list[i].packSn).Retire? && k.0 == list[i].firstSn
    requires forall j :: 0 <= j < i ==> !Judge(fb, lim.window, list[j].packSn).Stop?
    ensures Bag(AfterFeedback(list, fb, lim, env, reserve))[k] == 0
  {
    ReachedIsRetired(Walk([], list, [], []), fb, lim, env, i);
    FirstIsListed(RunWalk(Walk([], list, [], []), fb, lim, env).retired, list[i]);
    AckCompleteness(list, fb, lim, env, reserve, k);
  }

  /** A list of one packet, exactly: it is emptied if and only if the packet was acknowledged
      or, without reliable transport, is due for a resend and has none left. */
  lemma SingleExactly(n: Node, fb: Feedback, lim: Limits, env: nat -> Sent, reserve: nat)
    requires WellFormed(fb) && lim.maxRetran < 256 && SmallCounters(n)
    ensures AfterFeedback([n], fb, lim, env, reserve) == [] <==>
      Judge(fb, lim.window, n.packSn).Retire? || (!lim.reliable && Due(fb, lim, n) && Exhausted(n, lim.maxRetran))
  {
    var w, act := Walk([], [n], [], []), ActOn(fb, lim, n);
    assert [n][1..] == [] && [] + [n] == [n];
    if !act.Halt? {
      var v := Visit(w, act, env(0));
      OneStep(w, v, fb, lim, env);
      assert v.done + [] == v.done;
    }
  }

  /** The list after a feedback packet, packet by packet: copies survive exactly when they were
      not retired themselves and share no first number with the first `reserve` retired nodes. */
  lemma FeedbackExactly(list: seq<Node>, fb: Feedback, lim: Limits, env: nat -> Sent, reserve: nat, k: Key)
    requires WellFormed(fb) && lim.maxRetran < 256 && AllSmall(list)
    ensures var r := RunWalk(Walk([], list, [], []), fb, lim, env);
      var after := Bag(AfterFeedback(list, fb, lim, env, reserve));
      if k.0 in Leading(Firsts(r.retired), reserve) then after[k] == 0 else after[k] + Bag(r.retired)[k] == Bag(list)[k]
  {
    var r := RunWalk(Walk([], list, [], []), fb, lim, env);
    WalkPartition(list, fb, lim, env);
    UnlistedKeeps(r.done + r.todo, Leading(Firsts(r.retired), reserve), k);
    assert Bag(list)[k] == Bag(r.done + r.todo)[k] + Bag(r.retired)[k];
  }

  // ----- a closed form, when no new number is acted on

  /** Whatever number a retransmission gets, the walk stops at it or leaves it alone. */
  ghost predicate Inert(fb: Feedback, window: nat, env: nat -> Sent)
    requires WellFormed(fb)
  {
    forall j: nat :: Judge(fb, window, env(j).sn).Stop? || Judge(fb, window, env(j).sn).Keep?
  }

  /** The nodes of a list a feedback retires: the retirable ones ahead of the first that stops
      the walk. */
  function Gone(list: seq<Node>, fb: Feedback, lim: Limits): seq<Node>
    requires WellFormed(fb)
  {
    if list == [] then []
    else
      var act := ActOn(fb, lim, list[0]);
      if act.Halt? then [] else (if act.Drop? then [act.n] else []) + Gone(list[1..], fb, lim)
  }

  /** Nodes at which the walk stops or which it passes. */
  ghost predicate Passive(s: seq<Node>, fb: Feedback, lim: Limits)
    requires WellFormed(fb)
  {
    forall i :: 0 <= i < |s| ==> ActOn(fb, lim, s[i]).Halt? || ActOn(fb, lim, s[i]).Pass?
  }

  lemma {:induction false} PassiveStay(w: Walk, fb: Feedback, lim: Limits, env: nat -> Sent)
    requires WellFormed(fb) && lim.maxRetran < 256 && AllSmall(w.todo) && Passive(w.todo, fb, lim)
    ensures RunWalk(w, fb, lim, env).retired == w.retired
    decreases |w.todo|
  {
    if !Finished(w, fb, lim) {
      var v := Visit(w, ActOn(fb, lim, w.todo[0]), env(|w.sent|));
      OneStep(w, v, fb, lim, env);
      PassiveStay(v, fb, lim, env);
    }
  }

  lemma ResentIsPassive(again: seq<Node>, m: Node, fb: Feedback, lim: Limits, env: nat -> Sent, j: nat)
    requires WellFormed(fb) && Inert(fb, lim.window, env) && Passive(again, fb, lim) && m.packSn == env(j).sn
    ensures Passive(again + [m], fb, lim)
  {
  }

  /** The walk with `rest` of the list ahead and, behind it, nodes it resent. */
  lemma {:induction false} GoneIsRetired(w: Walk, rest: seq<Node>, again: seq<Node>, fb: Feedback, lim: Limits, env: nat -> Sent)
    requires WellFormed(fb) && lim.maxRetran < 256 && AllSmall(w.todo) && Inert(fb, lim.window, env)
    requires w.todo == rest + again && Passive(again, fb, lim)
    ensures RunWalk(w, fb, lim, env).retired == w.retired + Gone(rest, fb, lim)
    decreases |rest|
  {
    if rest == [] {
      assert w.todo == again;
      PassiveStay(w, fb, lim, env);
    } else if !Finished(w, fb, lim) {
      var act, s := ActOn(fb, lim, rest[0]), env(|w.sent|);
      var v := Visit(w, act, s);
      assert w.todo[0] == rest[0] && w.todo[1..] == rest[1..] + again;
      OneStep(w, v, fb, lim, env);
      var again' := again;
      if act.Send? && w.todo[1..] != [] {
        again' := again + [Resent(rest[0], s)];
        ResentIsPassive(again, Resent(rest[0], s), fb, lim, env, |w.sent|);
        assert rest[1..] + again + [Resent(rest[0], s)] == rest[1..] + again';
      }
      GoneIsRetired(v, rest[1..], again', fb, lim, env);
      Associates(w.retired, if act.Drop? then [act.n] else [], Gone(rest[1..], fb, lim));
    }
  }

  /** The retired nodes are exactly those, in the order of the list. */
  lemma RetiredExactly(list: seq<Node>, fb: Feedback, lim: Limits, env: nat -> Sent)
    requires WellFormed(fb) && lim.maxRetran < 256 && AllSmall(list) && Inert(fb, lim.window, env)
    ensures RunWalk(Walk([], list, [], []), fb, lim, env).retired == Gone(list, fb, lim)
  {
    assert list + [] == list;
    GoneIsRetired(Walk([], list, [], []), list, [], fb, lim, env);
  }

  /** Node i is acknowledged or given up, and no node before it stops the walk. */
  ghost predicate Falls(i: nat, list: seq<Node>, fb: Feedback, lim: Limits)
    requires WellFormed(fb)
  {
    i < |list| && Retirable(fb, lim, list[i]) && forall j :: 0 <= j < i ==> !Judge(fb, lim.window, list[j].packSn).Stop?
  }

  /** Which packets those nodes belong to. */
  lemma {:induction false} GoneMeans(list: seq<Node>, fb: Feedback, lim: Limits, x: nat)
    requires WellFormed(fb)
    ensures x in Firsts(Gone(list, fb, lim)) <==> exists i: nat :: Falls(i, list, fb, lim) && list[i].firstSn == x
  {
    if list != [] {
      var act, later := ActOn(fb, lim, list[0]), Gone(list[1..], fb, lim);
      GoneMeans(list[1..], fb, lim, x);
      if act.Halt? {
        assert forall i: nat :: !Falls(i, list, fb, lim);
      } else {
        FirstsCons(if act.Drop? then [act.n] else [], later, x);
        FallsCons(list, fb, lim, x);
      }
    }
  }

  lemma FirstsCons(s: seq<Node>, t: seq<Node>, x: nat)
    requires |s| <= 1
    ensures x in Firsts(s + t) <==> (s != [] && s[0].firstSn == x) || x in Firsts(t)
  {
    if s == [] {
      assert s + t == t;
    } else {
      assert Firsts(s + t) == [s[0].firstSn] + Firsts(t);
    }
  }

  lemma FallsCons(list: seq<Node>, fb: Feedback, lim: Limits, x: nat)
    requires WellFormed(fb) && list != [] && !ActOn(fb, lim, list[0]).Halt?
    ensures (exists i: nat :: Falls(i, list, fb, lim) && list[i].firstSn == x) <==>
      (ActOn(fb, lim, list[0]).Drop? && list[0].firstSn == x)
      || exists i: nat :: Falls(i, list[1..], fb, lim) && list[1..][i].firstSn == x
  {
    if i: nat :| Falls(i, list[1..], fb, lim) && list[1..][i].firstSn == x {
      assert Falls(i + 1, list, fb, lim);
    }
    if i: nat :| Falls(i, list, fb, lim) && list[i].firstSn == x {
      if i == 0 {
        assert ActOn(fb, lim, list[0]).Drop?;
      } else {
        assert forall j :: 0 <= j < i - 1 ==> list[1..][j] == list[j + 1];
        assert Falls(i - 1, list[1..], fb, lim);
      }
    }
    if ActOn(fb, lim, list[0]).Drop? { assert Falls(0, list, fb, lim); }
  }

  /** Which copies are left, whatever the list and the reserve: none of a packet among the first
      `reserve` retired ones, and of any other those that were not retired themselves. */
  lemma CopiesLeftExactly(list: seq<Node>, fb: Feedback, lim: Limits, env: nat -> Sent, reserve: nat, k: Key)
    requires WellFormed(fb) && lim.maxRetran < 256 && AllSmall(list) && Inert(fb, lim.window, env)
    ensures var gone := Gone(list, fb, lim);
      var after := Bag(AfterFeedback(list, fb, lim, env, reserve));
      if k.0 in Leading(Firsts(gone), reserve) then after[k] == 0 else after[k] + Bag(gone)[k] == Bag(list)[k]
  {
    RetiredExactly(list, fb, lim, env);
    FeedbackExactly(list, fb, lim, env, reserve, k);
  }

  /** Exactly which packets a feedback removes: a packet loses all its copies if and only if the
      walk gets to a copy of it that is acknowledged or, without reliable transport, due for a
      resend with none left; otherwise it keeps them all. */
  lemma RemovedExactly(list: seq<Node>, fb: Feedback, lim: Limits, env: nat -> Sent, reserve: nat, k: Key)
    requires WellFormed(fb) && lim.maxRetran < 256 && AllSmall(list) && |list| <= reserve + 1
    requires Inert(fb, lim.window, env)
    ensures Bag(AfterFeedback(list, fb, lim, env, reserve))[k] ==
      if exists i: nat :: Falls(i, list, fb, lim) && list[i].firstSn == k.0 then 0 else Bag(list)[k]
  {
    var r := RunWalk(Walk([], list, [], []), fb, lim, env);
    RetiredExactly(list, fb, lim, env);
    GoneMeans(list, fb, lim, k.0);
    if k.0 in Firsts(r.retired) {
      AckCompleteness(list, fb, lim, env, reserve, k);
    } else {
      AckSafety(list, fb, lim, env, reserve, k);
    }
  }

  /** Node i is acknowledged or, without reliable transport, due for a resend with none left,
      and no node before it stops the walk. */
  ghost predicate Settled(i: nat, list: seq<Node>, fb: Feedback, lim: Limits)
    requires WellFormed(fb) && fb.AckMap? && fb.head <= fb.tail
  {
    && i < |list|
    && (Acknowledged(fb, list[i]) || (!lim.reliable && Due(fb, lim, list[i]) && Exhausted(list[i], lim.maxRetran)))
    && forall j :: 0 <= j < i ==> !Judge(fb, lim.window, list[j].packSn).Stop?
  }

  /** For a bitmap whose range does not wrap and new numbers beyond it but inside the window:
      with reliable transport a packet goes if and only if the peer acknowledged a copy of it
      that the walk gets to, without it also if such a copy is due and exhausted. */
  lemma AcknowledgedExactly(list: seq<Node>, fb: Feedback, lim: Limits, env: nat -> Sent, reserve: nat, k: Key)
    requires WellFormed(fb) && lim.maxRetran < 256 && AllSmall(list) && |list| <= reserve + 1
    requires fb.AckMap? && fb.head <= fb.tail && (fb.tail < 0xFFFF_FFFF || fb.head == 0)
    requires forall j: nat :: fb.tail < env(j).sn <= fb.head + lim.window
    ensures Bag(AfterFeedback(list, fb, lim, env, reserve))[k] < Bag(list)[k] <==>
      k in Bag(list) && exists i: nat :: Settled(i, list, fb, lim) && list[i].firstSn == k.0
  {
    InsideWindowStops(fb, lim.window, env);
    RemovedExactly(list, fb, lim, env, reserve, k);
    forall i: nat ensures Settled(i, list, fb, lim) <==> Falls(i, list, fb, lim) {
      if i < |list| { RetireIsAcknowledged(fb, lim.window, list[i]); }
    }
  }

  // ----- retransmissions that get an acknowledged number

  /** A retired node that is acknowledged although no copy of its packet was, as listed. */
  ghost predicate Mistaken(m: Node, list: seq<Node>, fb: Feedback, window: nat)
    requires WellFormed(fb)
  {
    && Judge(fb, window, m.packSn).Retire?
    && forall i :: 0 <= i < |list| && list[i].firstSn == m.firstSn ==> !Judge(fb, window, list[i].packSn).Retire?
  }

  ghost predicate LosesByNumber(list: seq<Node>, fb: Feedback, lim: Limits, env: nat -> Sent)
    requires WellFormed(fb) && lim.maxRetran < 256
  {
    && AllSmall(list)
    && exists m :: m in RunWalk(Walk([], list, [], []), fb, lim, env).retired && Mistaken(m, list, fb, lim.window)
  }

  lemma MistakeMeansUnsheltered(list: seq<Node>, fb: Feedback, lim: Limits, env: nat -> Sent)
    requires WellFormed(fb) && lim.maxRetran < 256 && LosesByNumber(list, fb, lim, env)
    ensures !Sheltered(fb, lim.window, env) && exists d: nat :: Judge(fb, lim.window, d).Quick?
  {
    var r := RunWalk(Walk([], list, [], []), fb, lim, env).retired;
    RetiredIsSourced(list, fb, lim, env);
    var m :| m in r && Mistaken(m, list, fb, lim.window);
    var x :| 0 <= x < |r| && r[x] == m;
    assert Sourced(r[x], list, fb, lim, env);
    var i :| 0 <= i < |list| && Descends(m, list[i], fb, lim, env);
    RenewedMistake(m, list[i], fb, lim, env);
  }

  lemma RenewedMistake(m: Node, o: Node, fb: Feedback, lim: Limits, env: nat -> Sent)
    requires WellFormed(fb) && Descends(m, o, fb, lim, env)
    requires Judge(fb, lim.window, m.packSn).Retire? && !Judge(fb, lim.window, o.packSn).Retire?
    ensures !Sheltered(fb, lim.window, env) && Judge(fb, lim.window, o.packSn).Quick?
  {
    assert Met(m.packSn, fb, lim.window, env);
  }

  /** Nodes with a number the feedback wants resent, one packet each. */
  function Asked(d: nat, n: nat): (s: seq<Node>)
    ensures |s| == n
  {
    seq(n, i requires 0 <= i < n => Plain(d, i, Buf(0, i)).(boost := true))
  }

  lemma AskedAreSent(d: nat, n: nat, fb: Feedback, lim: Limits)
    requires WellFormed(fb) && Judge(fb, lim.window, d).Quick?
    ensures AllSmall(Asked(d, n)) && forall i :: 0 <= i < n ==> ActOn(fb, lim, Asked(d, n)[i]).Send?
  {
  }

  /** The nodes of s, resent in order from retransmission `from` on. */
  function AllResent(s: seq<Node>, env: nat -> Sent, from: nat): (r: seq<Node>)
    ensures |r| == |s|
  {
    if s == [] then [] else [Resent(s[0], env(from))] + AllResent(s[1..], env, from + 1)
  }

  lemma {:induction false} AllResentAt(s: seq<Node>, env: nat -> Sent, from: nat, i: nat)
    requires i < |s|
    ensures AllResent(s, env, from)[i] == Resent(s[i], env(from + i))
  {
    if i > 0 { AllResentAt(s[1..], env, from + 1, i - 1); }
  }

  /** The walk resends a row of such nodes one after the other. */
  lemma {:induction false} RowIsResent(w: Walk, row: seq<Node>, again: seq<Node>, fb: Feedback, lim: Limits, env: nat -> Sent)
      returns (v: Walk)
    requires WellFormed(fb) && lim.maxRetran < 256 && AllSmall(w.todo)
    requires w.todo == row + again && |row| + |again| >= 2
    requires forall i :: 0 <= i < |row| ==> ActOn(fb, lim, row[i]).Send?
    ensures AllSmall(v.todo) && v.todo == again + AllResent(row, env, |w.sent|)
    ensures RunWalk(v, fb, lim, env) == RunWalk(w, fb, lim, env)
    decreases |row|
  {
    v := w;
    if row == [] {
      assert w.todo == again + AllResent(row, env, |w.sent|);
    } else {
      var m := Resent(row[0], env(|w.sent|));
      var u := Visit(w, Send, env(|w.sent|));
      assert w.todo[0] == row[0] && w.todo[1..] == row[1..] + again;
      OneStep(w, u, fb, lim, env);
      assert u.todo == row[1..] + (again + [m]);
      v := RowIsResent(u, row[1..], again + [m], fb, lim, env);
      Associates(again, [m], AllResent(row[1..], env, |w.sent| + 1));
    }
  }

  /** If retransmission t gets an acknowledged number and none before it stops the walk, a list
      of t + 2 packets the feedback asks for loses one of them. */
  lemma UnshelteredLoses(fb: Feedback, lim: Limits, env: nat -> Sent, d: nat, t: nat)
    requires WellFormed(fb) && lim.maxRetran < 256 && Judge(fb, lim.window, d).Quick?
    requires Judge(fb, lim.window, env(t).sn).Retire? && Unstopped(fb, lim.window, env, t)
    ensures LosesByNumber(Asked(d, t + 2), fb, lim, env)
  {
    var list := Asked(d, t + 2);
    AskedAreSent(d, t + 2, fb, lim);
    assert list + [] == list;
    var v := RowIsResent(Walk([], list, [], []), list, [], fb, lim, env);
    assert [] + AllResent(list, env, 0) == AllResent(list, env, 0);
    LineIsRetired(v, list, fb, lim, env, t);
    assert Mistaken(v.todo[t], list, fb, lim.window);
  }

  /** The walk comes to the node resent as number t and retires it. */
  lemma LineIsRetired(v: Walk, list: seq<Node>, fb: Feedback, lim: Limits, env: nat -> Sent, t: nat)
    requires WellFormed(fb) && lim.maxRetran < 256 && AllSmall(v.todo) && t < |list|
    requires v.todo == AllResent(list, env, 0)
    requires Judge(fb, lim.window, env(t).sn).Retire? && Unstopped(fb, lim.window, env, t)
    ensures Judge(fb, lim.window, v.todo[t].packSn).Retire? && v.todo[t].firstSn == list[t].firstSn
    ensures v.todo[t] in RunWalk(v, fb, lim, env).retired
  {
    AllResentAt(list, env, 0, t);
    forall j | 0 <= j < t ensures !ActOn(fb, lim, v.todo[j]).Halt? {
      AllResentAt(list, env, 0, j);
    }
    ReachedIsRetired(v, fb, lim, env, t);
  }

  /** Exactly: some list loses a packet that was not acknowledged, because a retransmission of
      it got an acknowledged number, if and only if such a number is given out before one that
      stops the walk and the feedback asks for any number at all. */
  lemma RenumberingExactly(fb: Feedback, lim: Limits, env: nat -> Sent)
    requires WellFormed(fb) && lim.maxRetran < 256
    ensures (exists list :: LosesByNumber(list, fb, lim, env)) <==>
      !Sheltered(fb, lim.window, env) && exists d: nat :: Judge(fb, lim.window, d).Quick?
  {
    if list :| LosesByNumber(list, fb, lim, env) {
      MistakeMeansUnsheltered(list, fb, lim, env);
    }
    if !Sheltered(fb, lim.window, env) && exists d: nat :: Judge(fb, lim.window, d).Quick? {
      var t: nat :| Judge(fb, lim.window, env(t).sn).Retire? && Unstopped(fb, lim.window, env, t);
      var d: nat :| Judge(fb, lim.window, d).Quick?;
      UnshelteredLoses(fb, lim, env, d, t);
    }
  }

  /** With numbers from the session's counter, which stands at `next`: retransmissions are
      sheltered if and only if the peer acknowledges no number from `next` on, that is, none
      that was not sent yet. */
  lemma CounterIsSheltered(fb: Feedback, window: nat, env: nat -> Sent, next: nat)
    requires WellFormed(fb) && fb.head <= next && fb.head <= Newest(fb) && forall j: nat :: env(j).sn == next + j
    ensures Sheltered(fb, window, env) <==>
      forall sn :: next <= sn <= Newest(fb) ==> !Judge(fb, window, sn).Retire?
  {
    if sn :| next <= sn <= Newest(fb) && Judge(fb, window, sn).Retire? {
      assert env(sn - next).sn == sn;
      forall j: nat | j < sn - next ensures !Judge(fb, window, env(j).sn).Stop? {
        assert Span(fb.head, env(j).sn) <= Span(fb.head, Newest(fb));
      }
      assert Unstopped(fb, window, env, sn - next);
    }
  }

  // ----- inputs on which the list keeps too much or too little

  function Plain(sn: nat, first: nat, b: Buf): Node {
    Node(b, 100, sn, first, 0, 0, 3, false, false, false, false, 0)
  }

  lemma {:induction false} DropsRow(w: Walk, row: seq<Node>, c: Node, fb: Feedback, lim: Limits, env: nat -> Sent)
    requires WellFormed(fb) && lim.maxRetran < 256 && AllSmall(w.todo) && w.todo == row + [c]
    requires ActOn(fb, lim, c).Halt? && forall i :: 0 <= i < |row| ==> ActOn(fb, lim, row[i]) == Drop(row[i])
    ensures RunWalk(w, fb, lim, env) == w.(todo := [c], retired := w.retired + row)
    decreases |row|
  {
    if row == [] {
      assert w.todo == [c] && w.retired + row == w.retired;
    } else {
      assert w.todo[0] == row[0] && w.todo[1..] == row[1..] + [c];
      var v := Visit(w, Drop(row[0]), env(|w.sent|));
      DropsRow(v, row[1..], c, fb, lim, env);
      assert w.retired + [row[0]] + row[1..] == w.retired + row;
    }
  }

  /** Packets numbered from 0 on. */
  function Row(n: nat): (s: seq<Node>)
    ensures |s| == n
  {
    seq(n, i requires 0 <= i < n => Plain(i, i, Buf(0, i)))
  }

  /** One node more than AckCompleteness allows: whatever the reserve, a feedback that retires
      the first reserve + 1 packets leaves a clone of the last. */
  lemma ReserveOverflows(reserve: nat, lim: Limits, env: nat -> Sent)
    requires lim.maxRetran < 256 && reserve < lim.window && reserve + 1 < U32
    ensures
      var clone := Plain(reserve + 1, reserve, Buf(0, reserve + 1));
      var list, fb := Row(reserve + 1) + [clone], NackNone(0, reserve);
      && |list| == reserve + 2 && AllSmall(list)
      && clone.firstSn in Firsts(RunWalk(Walk([], list, [], []), fb, lim, env).retired)
      && AfterFeedback(list, fb, lim, env, reserve) == [clone]
  {
    var row, clone := Row(reserve + 1), Plain(reserve + 1, reserve, Buf(0, reserve + 1));
    var list, fb := row + [clone], NackNone(0, reserve);
    DropsRow(Walk([], list, [], []), row, clone, fb, lim, env);
    assert [] + row == row && [] + [clone] == [clone];
    CloneSurvives(reserve, clone);
  }

  lemma CloneSurvives(reserve: nat, clone: Node)
    requires clone.firstSn == reserve
    ensures reserve in Firsts(Row(reserve + 1))
    ensures Unlisted([clone], Leading(Firsts(Row(reserve + 1)), reserve)) == [clone]
  {
    var firsts := Firsts(Row(reserve + 1));
    assert firsts[reserve] == reserve;
    var kept := Leading(firsts, reserve);
    assert forall i :: 0 <= i < |kept| ==> kept[i] == i;
    assert Unlisted([clone], kept) == [clone] + Unlisted([clone][1..], kept);
  }

  /** A resent node that is given an acknowledged number is retired under it. */
  lemma RenumberedIsLost(a: Node, b: Node, fb: Feedback, lim: Limits, env: nat -> Sent, reserve: nat)
    requires WellFormed(fb) && lim.maxRetran < 256 && SmallCounters(a) && SmallCounters(b) && a.firstSn != b.firstSn
    requires Due(fb, lim, a) && !Exhausted(a, lim.maxRetran) && Judge(fb, lim.window, b.packSn).Keep?
    requires Judge(fb, lim.window, env(0).sn).Retire?
    ensures AfterFeedback([a, b], fb, lim, env, reserve) == [b]
  {
    var m := Resent(a, env(0));
    assert [a, b][1..] == [b] && [b] + [m] == [b, m];
    OneStep(Walk([], [a, b], [], []), Walk([], [b, m], [], [m]), fb, lim, env);
    KeptThenRetired(b, m, fb, lim, env);
    UnlistedOne(b, m, reserve);
  }

  lemma KeptThenRetired(b: Node, m: Node, fb: Feedback, lim: Limits, env: nat -> Sent)
    requires WellFormed(fb) && lim.maxRetran < 256 && SmallCounters(b) && SmallCounters(m)
    requires Judge(fb, lim.window, b.packSn).Keep? && Judge(fb, lim.window, m.packSn).Retire?
    ensures RunWalk(Walk([], [b, m], [], [m]), fb, lim, env) == Walk([b], [], [m], [m])
  {
    var w1, w2, w3 := Walk([], [b, m], [], [m]), Walk([b], [m], [], [m]), Walk([b], [], [m], [m]);
    assert [b, m][1..] == [m] && [] + [b] == [b];
    OneStep(w1, w2, fb, lim, env);
    assert [m][1..] == [] && [] + [m] == [m];
    OneStep(w2, w3, fb, lim, env);
  }

  lemma UnlistedOne(b: Node, m: Node, reserve: nat)
    requires b.firstSn != m.firstSn
    ensures Unlisted([b], Leading(Firsts([m]), reserve)) == [b]
  {
    assert Firsts([m]) == [m.firstSn] && [m.firstSn][..0] == [];
    assert [b][1..] == [];
  }

  /** Asks for 5 and acknowledges 7. */
  const EARLY_ACK := AckMap([128, 0, 0, 0, 0, 0, 0, 0], true, 0, 7, 5)

  /** Such an input: 5 and 6 are listed, the counter stands at 7, and a peer that asks for 5
      acknowledges 7, which was not sent yet.  Nobody acknowledged 5 or 6, yet the packet sent as
      5 is gone, because its retransmission is the one numbered 7. */
  lemma RenumberingLosesPacket(a: Node, b: Node, lim: Limits, env: nat -> Sent, reserve: nat)
    requires a.packSn == 5 && b.packSn == 6 && a.firstSn != b.firstSn && SmallCounters(a) && SmallCounters(b)
    requires lim.maxRetran < 256 && !Exhausted(a, lim.maxRetran) && env(0).sn == 7
    ensures WellFormed(EARLY_ACK) && !Acknowledged(EARLY_ACK, a) && !Acknowledged(EARLY_ACK, b)
    ensures AfterFeedback([a, b], EARLY_ACK, lim, env, reserve) == [b]
  {
    SeventhBit(EARLY_ACK, lim.window, a);
    SeventhBit(EARLY_ACK, lim.window, b);
    RenumberedIsLost(a, b, EARLY_ACK, lim, env, reserve);
  }

  lemma SeventhBit(fb: Feedback, window: nat, n: Node)
    requires fb == AckMap([128, 0, 0, 0, 0, 0, 0, 0], true, 0, 7, 5)
    ensures WellFormed(fb)
    ensures Judge(fb, window, 5).Quick? && Judge(fb, window, 6).Keep? && Judge(fb, window, 7).Retire?
    ensures n.packSn == 5 || n.packSn == 6 ==> !Acknowledged(fb, n)
  {
    BitsOf128();
    AckedIsByteBit(fb, 5);
    AckedIsByteBit(fb, 6);
    AckedIsByteBit(fb, 7);
  }

  lemma BitsOf128()
    ensures Bit(128, 7) && !Bit(128, 6) && !Bit(128, 5)
  {
    assert Bit(128, 7) == Bit(64, 6) == Bit(32, 5) == Bit(16, 4) == Bit(8, 3) == Bit(4, 2) == Bit(2, 1) == Bit(1, 0);
    assert Bit(128, 6) == Bit(64, 5) == Bit(32, 4) == Bit(16, 3) == Bit(8, 2) == Bit(4, 1) == Bit(2, 0);
    assert Bit(128, 5) == Bit(64, 4) == Bit(32, 3) == Bit(16, 2) == Bit(8, 1) == Bit(4, 0);
  }

  /** Without reliable transport, as configured: a packet nobody acknowledged is gone once it
      has no retransmission left. */
  lemma UnreliableLosesPacket(lim: Limits, env: nat -> Sent, reserve: nat)
    requires lim.maxRetran < 256 && !lim.reliable
    ensures
      var n := Plain(3, 1, Buf(0, 0)).(retran := lim.maxRetran);
      var fb := AckMap([0, 0, 0, 0, 0, 0, 0, 0], true, 0, 7, 7);
      && WellFormed(fb) && SmallCounters(n) && !Acknowledged(fb, n)
      && AfterFeedback([n], fb, lim, env, reserve) == []
  {
    var n := Plain(3, 1, Buf(0, 0)).(retran := lim.maxRetran);
    var fb := AckMap([0, 0, 0, 0, 0, 0, 0, 0], true, 0, 7, 7);
    BitOfZero(3);
    AckedIsByteBit(fb, 3);
    SingleExactly(n, fb, lim, env, reserve);
  }
}
