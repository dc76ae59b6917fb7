/** What feedback does to the retransmission list, said in the numbers, offsets and bits of the
    packet itself: which nodes go, which are sent again and which stay as they are. */
module FeedbackLaws {
  import opened Bits
  import opened PacketPool
  import opened ArqModel
  import opened ArqTheorems
  import opened ArqLosses

  // ----- the list a walk leaves, when no new number is acted on

  /** The nodes that keep their places. */
  function Stay(list: seq<Node>, fb: Feedback, lim: Limits): seq<Node>
    requires WellFormed(fb)
  {
    if list == [] then []
    else
      match ActOn(fb, lim, list[0])
      case Halt => list
      case Pass(m) => [m] + Stay(list[1..], fb, lim)
      case Drop(_) => Stay(list[1..], fb, lim)
      case Send => Stay(list[1..], fb, lim)
  }

  /** The nodes sent again, from retransmission t on. */
  function Again(list: seq<Node>, fb: Feedback, lim: Limits, env: nat -> Sent, t: nat): seq<Node>
    requires WellFormed(fb)
  {
    if list == [] then []
    else
      var act := ActOn(fb, lim, list[0]);
      if act.Halt? then []
      else if act.Send? then [Resent(list[0], env(t))] + Again(list[1..], fb, lim, env, t + 1)
      else Again(list[1..], fb, lim, env, t)
  }

  /** Nodes the walk stops at or leaves alone. */
  ghost predicate Quiet(s: seq<Node>, fb: Feedback, window: nat)
    requires WellFormed(fb)
  {
    forall i :: 0 <= i < |s| ==> Judge(fb, window, s[i].packSn).Stop? || Judge(fb, window, s[i].packSn).Keep?
  }

  lemma {:induction false} QuietStay(w: Walk, fb: Feedback, lim: Limits, env: nat -> Sent)
    requires WellFormed(fb) && lim.maxRetran < 256 && AllSmall(w.todo) && Quiet(w.todo, fb, lim.window)
    ensures var r := RunWalk(w, fb, lim, env); r.done + r.todo == w.done + w.todo
    decreases |w.todo|
  {
    if !Finished(w, fb, lim) {
      var n, tl := w.todo[0], w.todo[1..];
      QuietIsKept(fb, lim, n);
      var v := w.(done := w.done + [n], todo := tl);
      OneStep(w, v, fb, lim, env);
      QuietStay(v, fb, lim, env);
      Associates(w.done, [n], tl);
      assert [n] + tl == w.todo;
    }
  }

  lemma QuietIsKept(fb: Feedback, lim: Limits, n: Node)
    requires WellFormed(fb) && !ActOn(fb, lim, n).Halt?
    requires Judge(fb, lim.window, n.packSn).Stop? || Judge(fb, lim.window, n.packSn).Keep?
    ensures ActOn(fb, lim, n) == Pass(n)
  {
  }

  lemma QuietGrows(again: seq<Node>, m: Node, fb: Feedback, window: nat, env: nat -> Sent, j: nat)
    requires WellFormed(fb) && Inert(fb, window, env) && Quiet(again, fb, window) && m.packSn == env(j).sn
    ensures Quiet(again + [m], fb, window)
  {
  }

  /** What is left of a walk that starts with `done`, then `rest` of the list and `again`. */
  function Left(done: seq<Node>, rest: seq<Node>, again: seq<Node>, fb: Feedback, lim: Limits, env: nat -> Sent, t: nat): seq<Node>
    requires WellFormed(fb)
  {
    done + Stay(rest, fb, lim) + again + Again(rest, fb, lim, env, t)
  }

  lemma LeftOfNone(done: seq<Node>, again: seq<Node>, fb: Feedback, lim: Limits, env: nat -> Sent, t: nat)
    requires WellFormed(fb)
    ensures Left(done, [], again, fb, lim, env, t) == done + again
  {
    assert done + [] + again + [] == done + again;
  }

  lemma LeftOfHalt(done: seq<Node>, rest: seq<Node>, again: seq<Node>, fb: Feedback, lim: Limits, env: nat -> Sent, t: nat)
    requires WellFormed(fb) && rest != [] && ActOn(fb, lim, rest[0]).Halt?
    ensures Left(done, rest, again, fb, lim, env, t) == done + (rest + again)
  {
    assert done + rest + again + [] == done + (rest + again);
  }

  lemma LeftOfPass(done: seq<Node>, rest: seq<Node>, again: seq<Node>, fb: Feedback, lim: Limits, env: nat -> Sent, t: nat)
    requires WellFormed(fb) && rest != [] && ActOn(fb, lim, rest[0]).Pass?
    ensures Left(done, rest, again, fb, lim, env, t) == Left(done + [ActOn(fb, lim, rest[0]).n], rest[1..], again, fb, lim, env, t)
  {
    Associates(done, [ActOn(fb, lim, rest[0]).n], Stay(rest[1..], fb, lim));
  }

  lemma LeftOfSend(done: seq<Node>, rest: seq<Node>, again: seq<Node>, fb: Feedback, lim: Limits, env: nat -> Sent, t: nat)
    requires WellFormed(fb) && rest != [] && ActOn(fb, lim, rest[0]).Send?
    ensures Left(done, rest, again, fb, lim, env, t) == Left(done, rest[1..], again + [Resent(rest[0], env(t))], fb, lim, env, t + 1)
  {
    var stay, m, more := Stay(rest[1..], fb, lim), Resent(rest[0], env(t)), Again(rest[1..], fb, lim, env, t + 1);
    assert done + stay + (again + [m]) + more == done + stay + again + ([m] + more);
  }

  /** The walk with `rest` of the list ahead and, behind it, nodes it resent. */
  lemma {:induction false} LeftIs(w: Walk, rest: seq<Node>, again: seq<Node>, fb: Feedback, lim: Limits, env: nat -> Sent)
    requires WellFormed(fb) && lim.maxRetran < 256 && AllSmall(w.todo) && Inert(fb, lim.window, env)
    requires w.todo == rest + again && Quiet(again, fb, lim.window)
    ensures var r := RunWalk(w, fb, lim, env); r.done + r.todo == Left(w.done, rest, again, fb, lim, env, |w.sent|)
    decreases |rest|
  {
    if rest == [] {
      assert w.todo == again;
      QuietStay(w, fb, lim, env);
      LeftOfNone(w.done, again, fb, lim, env, |w.sent|);
    } else if Finished(w, fb, lim) {
      assert w.todo[0] == rest[0];
      LeftOfHalt(w.done, rest, again, fb, lim, env, |w.sent|);
    } else {
      var act, s := ActOn(fb, lim, rest[0]), env(|w.sent|);
      var v := Visit(w, act, s);
      assert w.todo[0] == rest[0] && w.todo[1..] == rest[1..] + again;
      OneStep(w, v, fb, lim, env);
      if act.Send? {
        LeftOfSend(w.done, rest, again, fb, lim, env, |w.sent|);
        SendLeaves(w, v, rest, again, fb, lim, env);
        if rest[1..] + again != [] { LeftIs(v, rest[1..], again + [Resent(rest[0], s)], fb, lim, env); }
      } else {
        if act.Pass? { LeftOfPass(w.done, rest, again, fb, lim, env, |w.sent|); }
        LeftIs(v, rest[1..], again, fb, lim, env);
      }
    }
  }

  lemma SendLeaves(w: Walk, v: Walk, rest: seq<Node>, again: seq<Node>, fb: Feedback, lim: Limits, env: nat -> Sent)
    requires WellFormed(fb) && lim.maxRetran < 256 && AllSmall(v.todo) && Inert(fb, lim.window, env)
    requires rest != [] && w.todo == rest + again && Quiet(again, fb, lim.window) && v == Visit(w, Send, env(|w.sent|))
    ensures var m := Resent(rest[0], env(|w.sent|));
      if rest[1..] + again == []
      then RunWalk(v, fb, lim, env) == v && v.done + v.todo == Left(w.done, [], again + [m], fb, lim, env, |v.sent|)
      else Quiet(again + [m], fb, lim.window) && v.todo == rest[1..] + (again + [m]) && v.done == w.done
    ensures rest[1..] + again == [] ==> rest[1..] == []
    ensures |v.sent| == |w.sent| + 1
  {
    var m := Resent(rest[0], env(|w.sent|));
    assert w.todo[0] == rest[0] && w.todo[1..] == rest[1..] + again;
    if rest[1..] + again == [] {
      assert |again| == 0;
      LeftOfNone(w.done, again + [m], fb, lim, env, |v.sent|);
      assert w.done + (again + [m]) == w.done + [m] + [];
    } else {
      QuietGrows(again, m, fb, lim.window, env, |w.sent|);
      Associates(rest[1..], again, [m]);
    }
  }

  /** The list after a feedback packet. */
  lemma AfterIs(list: seq<Node>, fb: Feedback, lim: Limits, env: nat -> Sent, reserve: nat)
    requires WellFormed(fb) && lim.maxRetran < 256 && AllSmall(list) && Inert(fb, lim.window, env)
    ensures AfterFeedback(list, fb, lim, env, reserve) ==
      Unlisted(Stay(list, fb, lim) + Again(list, fb, lim, env, 0), Leading(Firsts(Gone(list, fb, lim)), reserve))
  {
    assert list + [] == list;
    LeftIs(Walk([], list, [], []), list, [], fb, lim, env);
    RetiredExactly(list, fb, lim, env);
    NothingBefore(Stay(list, fb, lim), Again(list, fb, lim, env, 0));
  }

  lemma NothingBefore(s: seq<Node>, t: seq<Node>)
    ensures [] + s + [] + t == s + t
  {
  }

  // ----- where a node of the list is afterwards

  lemma {:induction false} PassedStays(list: seq<Node>, i: nat, fb: Feedback, lim: Limits)
    requires WellFormed(fb) && i < |list| && ActOn(fb, lim, list[i]).Pass?
    requires forall j :: 0 <= j < i ==> !ActOn(fb, lim, list[j]).Halt?
    ensures ActOn(fb, lim, list[i]).n in Stay(list, fb, lim)
  {
    if i > 0 {
      assert forall j :: 0 <= j < i - 1 ==> list[1..][j] == list[j + 1];
      PassedStays(list[1..], i - 1, fb, lim);
    }
  }

  lemma {:induction false} BehindStays(list: seq<Node>, h: nat, i: nat, fb: Feedback, lim: Limits)
    requires WellFormed(fb) && h <= i < |list| && ActOn(fb, lim, list[h]).Halt?
    requires forall j :: 0 <= j < h ==> !ActOn(fb, lim, list[j]).Halt?
    ensures list[i] in Stay(list, fb, lim)
  {
    if h > 0 {
      assert forall j :: 0 <= j < h - 1 ==> list[1..][j] == list[j + 1];
      BehindStays(list[1..], h - 1, i - 1, fb, lim);
    }
  }

  lemma {:induction false} SentIsAgain(list: seq<Node>, i: nat, fb: Feedback, lim: Limits, env: nat -> Sent, t: nat) returns (u: nat)
    requires WellFormed(fb) && i < |list| && ActOn(fb, lim, list[i]).Send?
    requires forall j :: 0 <= j < i ==> !ActOn(fb, lim, list[j]).Halt?
    ensures Resent(list[i], env(u)) in Again(list, fb, lim, env, t)
  {
    u := t;
    if i > 0 {
      assert forall j :: 0 <= j < i - 1 ==> list[1..][j] == list[j + 1];
      u := SentIsAgain(list[1..], i - 1, fb, lim, env, if ActOn(fb, lim, list[0]).Send? then t + 1 else t);
    }
  }

  lemma {:induction false} UnlistedHas(s: seq<Node>, firsts: seq<nat>, m: Node)
    ensures m in Unlisted(s, firsts) <==> m in s && m.firstSn !in firsts
  {
    if s != [] { UnlistedHas(s[1..], firsts, m); }
  }

  lemma FirstsHas(s: seq<Node>, x: nat)
    ensures x in Firsts(s) <==> exists m :: m in s && m.firstSn == x
  {
    forall m | m in s ensures m.firstSn in Firsts(s) { FirstIsListed(s, m); }
    if x in Firsts(s) {
      var i :| 0 <= i < |s| && Firsts(s)[i] == x;
      assert s[i] in s;
    }
  }

  /** A node that stays or is sent again is on the list afterwards, if its packet is. */
  lemma Remains(list: seq<Node>, fb: Feedback, lim: Limits, env: nat -> Sent, reserve: nat, m: Node)
    requires WellFormed(fb) && lim.maxRetran < 256 && AllSmall(list) && Inert(fb, lim.window, env)
    requires m in Stay(list, fb, lim) || m in Again(list, fb, lim, env, 0)
    requires m.firstSn in Firsts(AfterFeedback(list, fb, lim, env, reserve))
    ensures m in AfterFeedback(list, fb, lim, env, reserve)
  {
    AfterIs(list, fb, lim, env, reserve);
    var s, firsts := Stay(list, fb, lim) + Again(list, fb, lim, env, 0), Leading(Firsts(Gone(list, fb, lim)), reserve);
    FirstsHas(Unlisted(s, firsts), m.firstSn);
    var o :| o in Unlisted(s, firsts) && o.firstSn == m.firstSn;
    UnlistedHas(s, firsts, o);
    UnlistedHas(s, firsts, m);
  }

  /** What becomes of node i when the walk gets to it. */
  lemma Answered(list: seq<Node>, fb: Feedback, lim: Limits, env: nat -> Sent, reserve: nat, i: nat) returns (t: nat)
    requires WellFormed(fb) && lim.maxRetran < 256 && AllSmall(list) && Inert(fb, lim.window, env) && i < |list|
    requires forall j :: 0 <= j < i ==> !ActOn(fb, lim, list[j]).Halt?
    requires list[i].firstSn in Firsts(AfterFeedback(list, fb, lim, env, reserve))
    ensures ActOn(fb, lim, list[i]).Pass? ==> ActOn(fb, lim, list[i]).n in AfterFeedback(list, fb, lim, env, reserve)
    ensures ActOn(fb, lim, list[i]).Send? ==> Resent(list[i], env(t)) in AfterFeedback(list, fb, lim, env, reserve)
  {
    t := 0;
    ActIsLawful(fb, lim, list[i]);
    var act := ActOn(fb, lim, list[i]);
    if act.Pass? {
      PassedStays(list, i, fb, lim);
      Remains(list, fb, lim, env, reserve, act.n);
    } else if act.Send? {
      t := SentIsAgain(list, i, fb, lim, env, 0);
      Remains(list, fb, lim, env, reserve, Resent(list[i], env(t)));
    }
  }

  /** A retired node takes its packet along. */
  lemma Vanishes(list: seq<Node>, fb: Feedback, lim: Limits, env: nat -> Sent, reserve: nat, i: nat)
    requires WellFormed(fb) && lim.maxRetran < 256 && AllSmall(list) && |list| <= reserve + 1
    requires i < |list| && ActOn(fb, lim, list[i]).Drop?
    requires forall j :: 0 <= j < i ==> !ActOn(fb, lim, list[j]).Halt?
    ensures forall m :: m in AfterFeedback(list, fb, lim, env, reserve) ==> m.firstSn != list[i].firstSn
  {
    var after := AfterFeedback(list, fb, lim, env, reserve);
    ReachedIsRetired(Walk([], list, [], []), fb, lim, env, i);
    FirstIsListed(RunWalk(Walk([], list, [], []), fb, lim, env).retired, ActOn(fb, lim, list[i]).n);
    forall m | m in after ensures m.firstSn != list[i].firstSn {
      AckCompleteness(list, fb, lim, env, reserve, KeyOf(m));
      KeyInBag(after, m);
    }
  }

  lemma KeyInBag(s: seq<Node>, m: Node)
    requires m in s
    ensures KeyOf(m) in Bag(s)
  {
    var i :| 0 <= i < |s| && s[i] == m;
    assert Keys(s)[i] == KeyOf(m);
  }

  /** The three outcomes of an act on node i, spelled out. */
  lemma Outcome(list: seq<Node>, fb: Feedback, lim: Limits, env: nat -> Sent, reserve: nat, i: nat)
    requires WellFormed(fb) && lim.maxRetran < 256 && AllSmall(list) && Inert(fb, lim.window, env) && i < |list|
    requires forall j :: 0 <= j < i ==> !ActOn(fb, lim, list[j]).Halt?
    ensures var n, after, act := list[i], AfterFeedback(list, fb, lim, env, reserve), ActOn(fb, lim, list[i]);
      && (act.Drop? && |list| <= reserve + 1 ==> forall m :: m in after ==> m.firstSn != n.firstSn)
      && (act.Send? && n.firstSn in Firsts(after) ==> exists t: nat ::
            n.(lastSend := env(t).ts, packSn := env(t).sn, packLen := env(t).len, retran := n.retran + 1, sends := n.sends + 1) in after)
      && (act.Pass? && n.firstSn in Firsts(after) ==> act.n in after)
  {
    var n, after, act := list[i], AfterFeedback(list, fb, lim, env, reserve), ActOn(fb, lim, list[i]);
    if act.Drop? && |list| <= reserve + 1 { Vanishes(list, fb, lim, env, reserve, i); }
    if n.firstSn in Firsts(after) {
      var t := Answered(list, fb, lim, env, reserve, i);
      if act.Send? {
        assert Resent(n, env(t)) ==
          n.(lastSend := env(t).ts, packSn := env(t).sn, packLen := env(t).len, retran := n.retran + 1, sends := n.sends + 1);
      }
    }
  }

  // ----- what the peer says

  /** Its range does not wrap. */
  predicate Straight(fb: Feedback) {
    fb.head <= Newest(fb) && (Newest(fb) < 0xFFFF_FFFF || fb.head == 0) && fb.head <= fb.rto
  }

  /** The peer has number sn: its bit is set, or no offset of a NACK gives it. */
  predicate Arrived(fb: Feedback, sn: nat) {
    fb.head <= sn <= Newest(fb) &&
    match fb
    case AckMap(bytes, _, head, _, _) => (sn - head) / 8 < |bytes| && Bit(bytes[(sn - head) / 8], (sn - head) % 8)
    case NackNone(_, _) => true
    case NackSome(offsets, head, _) => forall x :: 0 <= x < |offsets| ==> sn != (head + offsets[x]) % 0x1_0000_0000
  }

  /** The peer cannot have it yet: beyond the range but inside the window. */
  predicate Awaited(fb: Feedback, window: nat, sn: nat) {
    if sn < fb.head then sn + 0xFFFF_FFFF <= fb.head + window else Newest(fb) < sn <= fb.head + window
  }

  /** It should be sent again: missing in the range and due by time, or outside range and window. */
  predicate Wanted(fb: Feedback, window: nat, sn: nat) {
    if fb.head <= sn <= Newest(fb) then !Arrived(fb, sn) && sn <= fb.rto else !Awaited(fb, window, sn)
  }

  predicate HasResends(n: Node, lim: Limits) { n.retran < if n.boost then n.threshold else lim.maxRetran }

  /** The walk gets to node i: no node before it is awaited. */
  ghost predicate GetsTo(fb: Feedback, window: nat, list: seq<Node>, i: nat) {
    i < |list| && forall j :: 0 <= j < i ==> !Awaited(fb, window, list[j].packSn)
  }

  lemma BitmapJudges(fb: Feedback, window: nat, sn: nat)
    requires WellFormed(fb) && Straight(fb) && fb.AckMap? && fb.head <= sn <= fb.tail
    ensures (sn - fb.head) / 8 < |fb.bytes|
    ensures Judge(fb, window, sn) ==
      if Bit(fb.bytes[(sn - fb.head) / 8], (sn - fb.head) % 8) then Retire else if sn <= fb.rto then Quick else Keep
  {
    RangeIsCovered(fb, sn - fb.head);
    AckedIsByteBit(fb, sn - fb.head);
  }

  lemma NackJudges(fb: Feedback, window: nat, sn: nat)
    requires WellFormed(fb) && Straight(fb) && !fb.AckMap? && fb.head <= sn <= fb.rto
    ensures Judge(fb, window, sn) == if fb.NackSome? && Discarded(fb.head, fb.offsets, sn) then Quick else Retire
  {
  }

  lemma OutsideJudges(fb: Feedback, window: nat, sn: nat)
    requires WellFormed(fb) && Straight(fb) && !(fb.head <= sn <= Newest(fb))
    ensures Judge(fb, window, sn) ==
      if (if sn < fb.head then sn + 0xFFFF_FFFF else sn) <= fb.head + window then Stop else Quick
  {
  }

  /** The code's verdicts are these, for every number. */
  lemma JudgesAsSaid(fb: Feedback, window: nat, sn: nat)
    requires WellFormed(fb) && Straight(fb)
    ensures Judge(fb, window, sn).Retire? <==> Arrived(fb, sn)
    ensures Judge(fb, window, sn).Stop? <==> Awaited(fb, window, sn)
    ensures Judge(fb, window, sn).Quick? <==> Wanted(fb, window, sn)
  {
    if !(fb.head <= sn <= Newest(fb)) {
      OutsideJudges(fb, window, sn);
    } else if fb.AckMap? {
      BitmapJudges(fb, window, sn);
    } else {
      NackJudges(fb, window, sn);
    }
  }

  // ----- the laws

  /** Whatever numbers retransmissions get: a packet that has arrived goes with every copy, once
      the walk gets to a node of it under the number that arrived. */
  lemma ArrivedGoes(list: seq<Node>, fb: Feedback, lim: Limits, env: nat -> Sent, reserve: nat, i: nat)
    requires WellFormed(fb) && Straight(fb) && lim.maxRetran < 256 && AllSmall(list) && |list| <= reserve + 1
    requires GetsTo(fb, lim.window, list, i) && Arrived(fb, list[i].packSn)
    ensures forall m :: m in AfterFeedback(list, fb, lim, env, reserve) ==> m.firstSn != list[i].firstSn
  {
    WalkGetsTo(fb, lim, list, i);
    JudgesAsSaid(fb, lim.window, list[i].packSn);
    Vanishes(list, fb, lim, env, reserve, i);
  }

  lemma WalkGetsTo(fb: Feedback, lim: Limits, list: seq<Node>, i: nat)
    requires WellFormed(fb) && Straight(fb) && GetsTo(fb, lim.window, list, i)
    ensures forall j :: 0 <= j < i ==> !ActOn(fb, lim, list[j]).Halt?
  {
    forall j | 0 <= j < i ensures !ActOn(fb, lim, list[j]).Halt? { JudgesAsSaid(fb, lim.window, list[j].packSn); }
  }

  lemma AwaitedIsInert(fb: Feedback, window: nat, env: nat -> Sent)
    requires WellFormed(fb) && Straight(fb) && forall j: nat :: Awaited(fb, window, env(j).sn)
    ensures Inert(fb, window, env)
  {
    forall j: nat ensures Judge(fb, window, env(j).sn).Stop? { JudgesAsSaid(fb, window, env(j).sn); }
  }

  /** Node i is why its packet goes: it has arrived or, without reliable transport, is wanted
      and has no resend left. */
  ghost predicate Dooms(fb: Feedback, lim: Limits, list: seq<Node>, i: nat) {
    && GetsTo(fb, lim.window, list, i)
    && (Arrived(fb, list[i].packSn) || (!lim.reliable && Wanted(fb, lim.window, list[i].packSn) && !HasResends(list[i], lim)))
  }

  /** Exactly which packets go, when new numbers lie beyond the report and inside the window:
      those with a node that dooms them.  All others keep every copy. */
  lemma GoesExactly(list: seq<Node>, fb: Feedback, lim: Limits, env: nat -> Sent, reserve: nat, k: Key)
    requires WellFormed(fb) && Straight(fb) && lim.maxRetran < 256 && AllSmall(list) && |list| <= reserve + 1
    requires forall j: nat :: Awaited(fb, lim.window, env(j).sn)
    ensures Bag(AfterFeedback(list, fb, lim, env, reserve))[k] ==
      if exists i: nat :: Dooms(fb, lim, list, i) && list[i].firstSn == k.0 then 0 else Bag(list)[k]
  {
    AwaitedIsInert(fb, lim.window, env);
    RemovedExactly(list, fb, lim, env, reserve, k);
    forall i: nat ensures Dooms(fb, lim, list, i) <==> Falls(i, list, fb, lim) { DoomsIsFalls(fb, lim, list, i); }
  }

  lemma DoomsIsFalls(fb: Feedback, lim: Limits, list: seq<Node>, i: nat)
    requires WellFormed(fb) && Straight(fb)
    ensures Dooms(fb, lim, list, i) <==> Falls(i, list, fb, lim)
  {
    if i < |list| {
      forall j | 0 <= j <= i ensures Judge(fb, lim.window, list[j].packSn).Stop? <==> Awaited(fb, lim.window, list[j].packSn) {
        JudgesAsSaid(fb, lim.window, list[j].packSn);
      }
      JudgesAsSaid(fb, lim.window, list[i].packSn);
    }
  }

  /** A wanted node the walk gets to, if its packet does not go: it is sent again, under a new
      number and counted, while it has resends left, and marked as failed otherwise.  A node that
      is neither wanted nor has arrived stays as it is. */
  lemma WantedIsSent(list: seq<Node>, fb: Feedback, lim: Limits, env: nat -> Sent, reserve: nat, i: nat)
    requires WellFormed(fb) && Straight(fb) && lim.maxRetran < 256 && AllSmall(list)
    requires forall j: nat :: Awaited(fb, lim.window, env(j).sn)
    requires GetsTo(fb, lim.window, list, i) && list[i].firstSn in Firsts(AfterFeedback(list, fb, lim, env, reserve))
    ensures
      var n, after := list[i], AfterFeedback(list, fb, lim, env, reserve);
      if !Wanted(fb, lim.window, n.packSn) then !Arrived(fb, n.packSn) ==> n in after
      else if HasResends(n, lim) then exists t: nat ::
        n.(lastSend := env(t).ts, packSn := env(t).sn, packLen := env(t).len, retran := n.retran + 1, sends := n.sends + 1) in after
      else lim.reliable ==> n.(failedAck := true) in after
  {
    AwaitedIsInert(fb, lim.window, env);
    WalkGetsTo(fb, lim, list, i);
    JudgesAsSaid(fb, lim.window, list[i].packSn);
    if Awaited(fb, lim.window, list[i].packSn) {
      BehindStays(list, i, i, fb, lim);
      Remains(list, fb, lim, env, reserve, list[i]);
    } else {
      Outcome(list, fb, lim, env, reserve, i);
    }
  }

  /** The first awaited node ends the walk: it and every node behind it stay as they are, if
      their packets do not go. */
  lemma AwaitedEndsWalk(list: seq<Node>, fb: Feedback, lim: Limits, env: nat -> Sent, reserve: nat, h: nat, i: nat)
    requires WellFormed(fb) && Straight(fb) && lim.maxRetran < 256 && AllSmall(list)
    requires forall j: nat :: Awaited(fb, lim.window, env(j).sn)
    requires GetsTo(fb, lim.window, list, h) && Awaited(fb, lim.window, list[h].packSn) && h <= i < |list|
    requires list[i].firstSn in Firsts(AfterFeedback(list, fb, lim, env, reserve))
    ensures list[i] in AfterFeedback(list, fb, lim, env, reserve)
  {
    AwaitedIsInert(fb, lim.window, env);
    WalkGetsTo(fb, lim, list, h);
    JudgesAsSaid(fb, lim.window, list[h].packSn);
    BehindStays(list, h, i, fb, lim);
    Remains(list, fb, lim, env, reserve, list[i]);
  }

  /** A packet with one node stays exactly if that does not doom it. */
  lemma AloneExactly(list: seq<Node>, fb: Feedback, lim: Limits, env: nat -> Sent, reserve: nat, i: nat)
    requires WellFormed(fb) && Straight(fb) && lim.maxRetran < 256 && AllSmall(list) && |list| <= reserve + 1
    requires forall j: nat :: Awaited(fb, lim.window, env(j).sn)
    requires i < |list| && forall j :: 0 <= j < |list| && j != i ==> list[j].firstSn != list[i].firstSn
    ensures (exists m :: m in AfterFeedback(list, fb, lim, env, reserve) && m.firstSn == list[i].firstSn) <==> !Dooms(fb, lim, list, i)
  {
    var after, k := AfterFeedback(list, fb, lim, env, reserve), KeyOf(list[i]);
    GoesExactly(list, fb, lim, env, reserve, k);
    if Dooms(fb, lim, list, i) {
      forall m | m in after ensures m.firstSn != list[i].firstSn {
        GoesExactly(list, fb, lim, env, reserve, KeyOf(m));
        KeyInBag(after, m);
      }
    } else {
      KeyInBag(list, list[i]);
      KeyHasNode(after, k);
    }
  }

  lemma KeyHasNode(s: seq<Node>, k: Key)
    requires k in Bag(s)
    ensures exists m :: m in s && m.firstSn == k.0
  {
    var x :| 0 <= x < |s| && Keys(s)[x] == k;
    assert s[x] in s;
  }

  /** A NACK with losses, in its own numbers: of the packets in its range exactly those stay that
      an offset gives and that have a resend left or reliable transport. */
  lemma NackKeepsMissing(list: seq<Node>, offsets: seq<nat>, head: nat, rto: nat, lim: Limits, env: nat -> Sent, reserve: nat, i: nat)
    requires lim.maxRetran < 256 && AllSmall(list) && |list| <= reserve + 1 && head <= rto < 0xFFFF_FFFF
    requires i < |list| && forall j :: 0 <= j < |list| ==> head <= list[j].packSn <= rto
    requires forall j :: 0 <= j < |list| && j != i ==> list[j].firstSn != list[i].firstSn
    requires forall j: nat :: rto < env(j).sn <= head + lim.window
    ensures
      var n, after := list[i], AfterFeedback(list, NackSome(offsets, head, rto), lim, env, reserve);
      var missing := exists x :: 0 <= x < |offsets| && n.packSn == (head + offsets[x]) % 0x1_0000_0000;
      (exists m :: m in after && m.firstSn == n.firstSn) <==>
        missing && (lim.reliable || n.retran < if n.boost then n.threshold else lim.maxRetran)
  {
    var fb, sn := NackSome(offsets, head, rto), list[i].packSn;
    AloneExactly(list, fb, lim, env, reserve, i);
    assert GetsTo(fb, lim.window, list, i);
    assert Arrived(fb, sn) <==> forall x :: 0 <= x < |offsets| ==> sn != (head + offsets[x]) % 0x1_0000_0000;
  }
}
