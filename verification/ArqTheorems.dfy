/** What the feedback walks promise: acknowledgement safety and completeness, and the
    equivalence of the 32-bit and the 64-bit walk. */
module ArqTheorems {
  import opened Bits
  import opened PacketPool
  import opened ArqModel
  import Bags

  // ----- what identifies a packet through its retransmissions

  type Key = (nat, Buf)

  function KeyOf(n: Node): Key { (n.firstSn, n.buf) }

  function Keys(s: seq<Node>): (k: seq<Key>)
    ensures |k| == |s|
  {
    seq(|s|, i requires 0 <= i < |s| => KeyOf(s[i]))
  }

  lemma KeysConcat(s: seq<Node>, t: seq<Node>)
    ensures Keys(s + t) == Keys(s) + Keys(t)
    ensures multiset(Keys(s + t)) == multiset(Keys(s)) + multiset(Keys(t))
  {
    assert Keys(s + t) == Keys(s) + Keys(t);
  }

  ghost function Bag(s: seq<Node>): multiset<Key> { multiset(Keys(s)) }

  /** Everything the walk has in hand: the list and what it has retired. */
  ghost function InHand(w: Walk): multiset<Key> { Bag(w.done) + Bag(w.todo) + Bag(w.retired) }

  lemma BagSnoc(s: seq<Node>, n: Node)
    ensures Bag(s + [n]) == Bag(s) + multiset{KeyOf(n)}
  {
    KeysConcat(s, [n]);
    assert Keys([n]) == [KeyOf(n)];
  }

  lemma BagHead(s: seq<Node>)
    requires s != []
    ensures Bag(s) == multiset{KeyOf(s[0])} + Bag(s[1..])
  {
    KeysConcat([s[0]], s[1..]);
    assert [s[0]] + s[1..] == s;
    assert Keys([s[0]]) == [KeyOf(s[0])];
  }

  /** A visit neither loses nor invents a packet. */
  lemma VisitConserves(w: Walk, act: Act, maxRetran: nat, s: Sent)
    requires w.todo != [] && Lawful(act, w.todo[0], maxRetran)
    ensures InHand(Visit(w, act, s)) == InHand(w)
  {
    var x, rest, key := w.todo[0], Bag(w.todo[1..]), multiset{KeyOf(w.todo[0])};
    BagHead(w.todo);
    Bags.Moves(Bag(w.done), key, rest, Bag(w.retired));
    match act
    case Halt =>
    case Pass(m) => BagSnoc(w.done, m);
    case Drop(m) => BagSnoc(w.retired, m);
    case Send =>
      BagSnoc(w.todo[1..], Resent(x, s));
      BagSnoc(w.done, Resent(x, s));
  }

  lemma {:induction false} WalkConserves(w: Walk, fb: Feedback, lim: Limits, env: nat -> Sent)
    requires WellFormed(fb) && lim.maxRetran < 256 && AllSmall(w.todo)
    ensures InHand(RunWalk(w, fb, lim, env)) == InHand(w)
    decreases Budget(w.todo, lim.maxRetran)
  {
    if !Finished(w, fb, lim) {
      var act := ActOn(fb, lim, w.todo[0]);
      ActIsLawful(fb, lim, w.todo[0]);
      VisitProgress(w, act, lim.maxRetran, env(|w.sent|));
      VisitConserves(w, act, lim.maxRetran, env(|w.sent|));
      WalkConserves(Visit(w, act, env(|w.sent|)), fb, lim, env);
    }
  }

  // ----- why a node is retired

  /** The peer acknowledged the node or, without reliable transport, it is missing at the peer
      and has no retransmission left. */
  predicate Retirable(fb: Feedback, lim: Limits, n: Node)
    requires WellFormed(fb)
  {
    || Judge(fb, lim.window, n.packSn).Retire?
    || (!lim.reliable && Exhausted(n, lim.maxRetran) && Judge(fb, lim.window, n.packSn).Quick?)
  }

  ghost predicate AllRetirable(fb: Feedback, lim: Limits, s: seq<Node>)
    requires WellFormed(fb)
  {
    forall i :: 0 <= i < |s| ==> Retirable(fb, lim, s[i])
  }

  lemma DropIsRetirable(fb: Feedback, lim: Limits, n: Node)
    requires WellFormed(fb) && ActOn(fb, lim, n).Drop?
    ensures Retirable(fb, lim, ActOn(fb, lim, n).n)
  {
  }

  lemma {:induction false} WalkRetiresOnlyRetirable(w: Walk, fb: Feedback, lim: Limits, env: nat -> Sent)
    requires WellFormed(fb) && lim.maxRetran < 256 && AllSmall(w.todo) && AllRetirable(fb, lim, w.retired)
    ensures AllRetirable(fb, lim, RunWalk(w, fb, lim, env).retired)
    decreases Budget(w.todo, lim.maxRetran)
  {
    if !Finished(w, fb, lim) {
      var act := ActOn(fb, lim, w.todo[0]);
      ActIsLawful(fb, lim, w.todo[0]);
      VisitProgress(w, act, lim.maxRetran, env(|w.sent|));
      if act.Drop? { DropIsRetirable(fb, lim, w.todo[0]); }
      WalkRetiresOnlyRetirable(Visit(w, act, env(|w.sent|)), fb, lim, env);
    }
  }

  /** For a range that does not wrap, a node is acknowledged by a bitmap exactly when its
      number lies in the range and has its bit set. */
  lemma AcknowledgedMeans(fb: Feedback, window: nat, sn: nat)
    requires WellFormed(fb) && fb.AckMap? && fb.head <= fb.tail && (fb.tail < 0xFFFF_FFFF || fb.head == 0)
    ensures Judge(fb, window, sn).Retire? <==>
      fb.head <= sn <= fb.tail && Bit(fb.bytes[(sn - fb.head) / 8], (sn - fb.head) % 8)
  {
    var span := Span(fb.head, sn);
    if span <= Span(fb.head, fb.tail) {
      assert span == sn - fb.head;
      AckedIsByteBit(fb, span);
    }
  }

  /** The wrap-around adds 2^32 - 1: the distance is right exactly when it does not wrap, and one
      too small when it does. */
  lemma SpanIsDistance(head: nat, sn: nat)
    requires head < U32 && sn < U32
    ensures Span(head, sn) == (sn - head) % U32 <==> head <= sn
    ensures sn < head ==> Span(head, sn) == (sn - head) % U32 - 1
  {
    if sn < head { assert (sn - head) % U32 == sn - head + U32; }
  }

  /** Hence ranges that reach 2^32 - 1 from a head above 0 misjudge: the numbers 0 and
      2^32 - 1 always get the same verdict from a bitmap. */
  lemma WrapConflates(fb: Feedback, window: nat)
    requires WellFormed(fb) && fb.AckMap? && fb.head > 0
    ensures Judge(fb, window, 0) == Judge(fb, window, 0xFFFF_FFFF)
  {
    assert Span(fb.head, 0) == Span(fb.head, 0xFFFF_FFFF);
  }

  lemma Acked64IsByteBit(bytes: seq<nat>, span: nat)
    requires Bytes(bytes) && 8 * (span / 64) + 8 <= |bytes|
    ensures AckedIn64(bytes, span) == Bit(bytes[span / 8], span % 8)
  {
    var w := bytes[8 * (span / 64)..8 * (span / 64) + 8];
    BitOfLittleEndian(w, span % 64);
    assert (span % 64) / 8 == span / 8 - 8 * (span / 64) && (span % 64) % 8 == span % 8;
  }

  lemma Acked32IsByteBit(bytes: seq<nat>, span: nat)
    requires Bytes(bytes) && 4 * (span / 32) + 4 <= |bytes|
    ensures AckedIn32(bytes, span) == Bit(bytes[span / 8], span % 8)
  {
    var w := bytes[4 * (span / 32)..4 * (span / 32) + 4];
    BitOfLittleEndian(w, span % 32);
    assert (span % 32) / 8 == span / 8 - 4 * (span / 32) && (span % 32) % 8 == span % 8;
  }

  /** Whatever the word width, the bit tested is the same bit of the same byte. */
  lemma AckedIsByteBit(fb: Feedback, span: nat)
    requires WellFormed(fb) && fb.AckMap? && span <= Span(fb.head, fb.tail)
    ensures span / 8 < |fb.bytes|
    ensures (if fb.wide then AckedIn64(fb.bytes, span) else AckedIn32(fb.bytes, span))
      == Bit(fb.bytes[span / 8], span % 8)
  {
    if fb.wide { Acked64IsByteBit(fb.bytes, span); } else { Acked32IsByteBit(fb.bytes, span); }
  }

  // ----- the two word widths

  lemma WidthIrrelevantToJudge(a: Feedback, b: Feedback, window: nat, sn: nat)
    requires WellFormed(a) && WellFormed(b) && a.AckMap? && b == a.(wide := !a.wide)
    ensures Judge(a, window, sn) == Judge(b, window, sn)
  {
    var span := Span(a.head, sn);
    if span <= Span(a.head, a.tail) {
      AckedIsByteBit(a, span);
      AckedIsByteBit(b, span);
    }
  }

  /** The 32-bit and the 64-bit walk leave the same list, resend the same nodes in the same
      order and retire the same nodes, whatever the bitmap and the list. */
  lemma {:induction false} WalksAgree(w: Walk, a: Feedback, b: Feedback, lim: Limits, env: nat -> Sent)
    requires WellFormed(a) && WellFormed(b) && a.AckMap? && b == a.(wide := !a.wide)
    requires lim.maxRetran < 256 && AllSmall(w.todo)
    ensures RunWalk(w, a, lim, env) == RunWalk(w, b, lim, env)
    decreases Budget(w.todo, lim.maxRetran)
  {
    if w.todo != [] {
      var n := w.todo[0];
      WidthIrrelevantToJudge(a, b, lim.window, n.packSn);
      var act := ActOn(a, lim, n);
      assert ActOn(b, lim, n) == act;
      if !act.Halt? {
        ActIsLawful(a, lim, n);
        VisitProgress(w, act, lim.maxRetran, env(|w.sent|));
        WalksAgree(Visit(w, act, env(|w.sent|)), a, b, lim, env);
      }
    }
  }

  // ----- DelNodeByFirstSn

  /** The nodes of s whose first sequence number is not listed. */
  function Unlisted(s: seq<Node>, firsts: seq<nat>): seq<Node> {
    if s == [] then []
    else (if s[0].firstSn in firsts then [] else [s[0]]) + Unlisted(s[1..], firsts)
  }

  lemma {:induction false} UnlistedConcat(s: seq<Node>, t: seq<Node>, firsts: seq<nat>)
    ensures Unlisted(s + t, firsts) == Unlisted(s, firsts) + Unlisted(t, firsts)
  {
    if s == [] {
      assert s + t == t;
    } else {
      var st := s + t;
      UnlistedConcat(s[1..], t, firsts);
      assert st[0] == s[0] && st[1..] == s[1..] + t;
      Associates(if s[0].firstSn in firsts then [] else [s[0]], Unlisted(s[1..], firsts), Unlisted(t, firsts));
    }
  }

  lemma Associates<A>(a: seq<A>, b: seq<A>, c: seq<A>)
    ensures a + (b + c) == a + b + c
  {
  }

  lemma {:induction false} UnlistedKeeps(s: seq<Node>, firsts: seq<nat>, k: Key)
    ensures Bag(Unlisted(s, firsts))[k] == if k.0 in firsts then 0 else Bag(s)[k]
  {
    if s != [] {
      UnlistedKeeps(s[1..], firsts, k);
      BagHead(s);
      KeysConcat(if s[0].firstSn in firsts then [] else [s[0]], Unlisted(s[1..], firsts));
      assert Keys([s[0]]) == [KeyOf(s[0])];
    }
  }

  function Firsts(s: seq<Node>): (f: seq<nat>)
    ensures |f| == |s|
  {
    seq(|s|, i requires 0 <= i < |s| => s[i].firstSn)
  }

  function Leading<T>(s: seq<T>, n: nat): seq<T> { if |s| <= n then s else s[..n] }

  /** The list after a feedback packet: the walk, then the removal of every node sharing its
      first number with one of the first `reserve` retired nodes (MAX_RSV_WIN_SIZE). */
  function AfterFeedback(list: seq<Node>, fb: Feedback, lim: Limits, env: nat -> Sent, reserve: nat): seq<Node>
    requires WellFormed(fb) && lim.maxRetran < 256 && AllSmall(list)
  {
    var r := RunWalk(Walk([], list, [], []), fb, lim, env);
    Unlisted(r.done + r.todo, Leading(Firsts(r.retired), reserve))
  }

  lemma NotRetired(s: seq<Node>, k: Key)
    requires k.0 !in Firsts(s)
    ensures Bag(s)[k] == 0
  {
    forall i | 0 <= i < |s| ensures Keys(s)[i] != k { assert Firsts(s)[i] in Firsts(s); }
  }

  /** The list and the retired nodes together hold what the list held. */
  lemma WalkPartition(list: seq<Node>, fb: Feedback, lim: Limits, env: nat -> Sent)
    requires WellFormed(fb) && lim.maxRetran < 256 && AllSmall(list)
    ensures var r := RunWalk(Walk([], list, [], []), fb, lim, env);
      Bag(r.done + r.todo) + Bag(r.retired) == Bag(list)
  {
    var w := Walk([], list, [], []);
    var r := RunWalk(w, fb, lim, env);
    WalkConserves(w, fb, lim, env);
    KeysConcat(r.done, r.todo);
    assert InHand(w) == Bag(list);
  }

  /** Acknowledgement safety.  Every retired node was in the list and was acknowledged (or,
      without reliable transport, given up) when the walk retired it; if no retransmission gets
      an acknowledged number before one that stops the walk, it was so under the number it was listed with; and a packet none
      of whose copies was retired keeps every copy it had. */
  lemma AckSafety(list: seq<Node>, fb: Feedback, lim: Limits, env: nat -> Sent, reserve: nat, k: Key)
    requires WellFormed(fb) && lim.maxRetran < 256 && AllSmall(list)
    ensures var r := RunWalk(Walk([], list, [], []), fb, lim, env);
      && AllRetirable(fb, lim, r.retired)
      && Bag(r.retired) <= Bag(list)
      && (Sheltered(fb, lim.window, env) ==> AllCaused(r.retired, list, fb, lim, env))
      && (k.0 !in Firsts(r.retired) ==> Bag(AfterFeedback(list, fb, lim, env, reserve))[k] == Bag(list)[k])
  {
    var r := RunWalk(Walk([], list, [], []), fb, lim, env);
    var left, firsts := r.done + r.todo, Leading(Firsts(r.retired), reserve);
    WalkPartition(list, fb, lim, env);
    WalkRetiresOnlyRetirable(Walk([], list, [], []), fb, lim, env);
    if Sheltered(fb, lim.window, env) { RetiredIsCaused(list, fb, lim, env); }
    if k.0 !in Firsts(r.retired) {
      NotRetired(r.retired, k);
      UnlistedKeeps(left, firsts, k);
      assert Bag(list)[k] == Bag(left)[k] + Bag(r.retired)[k];
    }
  }

  /** What is left and what is retired add up to the list. */
  lemma RetiredFits(list: seq<Node>, fb: Feedback, lim: Limits, env: nat -> Sent)
    requires WellFormed(fb) && lim.maxRetran < 256 && AllSmall(list)
    ensures var r := RunWalk(Walk([], list, [], []), fb, lim, env); |r.done + r.todo| + |r.retired| == |list|
  {
    var r := RunWalk(Walk([], list, [], []), fb, lim, env);
    WalkPartition(list, fb, lim, env);
    assert |Bag(r.done + r.todo)| + |Bag(r.retired)| == |Bag(list)|;
  }

  /** Acknowledgement completeness: if the retired nodes fit the reserve, or the list has at most
      one node more, no copy of a retired packet, original or boost clone, remains. */
  lemma AckCompleteness(list: seq<Node>, fb: Feedback, lim: Limits, env: nat -> Sent, reserve: nat, k: Key)
    requires WellFormed(fb) && lim.maxRetran < 256 && AllSmall(list)
    ensures var r := RunWalk(Walk([], list, [], []), fb, lim, env);
      (|r.retired| <= reserve || |list| <= reserve + 1) && k.0 in Firsts(r.retired) ==>
        Bag(AfterFeedback(list, fb, lim, env, reserve))[k] == 0
  {
    var r := RunWalk(Walk([], list, [], []), fb, lim, env);
    RetiredFits(list, fb, lim, env);
    UnlistedKeeps(r.done + r.todo, Leading(Firsts(r.retired), reserve), k);
    if |list| <= reserve + 1 && |r.retired| > reserve { assert r.done + r.todo == []; }
  }

  // ----- why a packet loses a copy

  /** The feedback asks for a quick resend of the node. */
  predicate Due(fb: Feedback, lim: Limits, n: Node)
    requires WellFormed(fb)
  {
    Judge(fb, lim.window, n.packSn).Quick?
  }

  predicate Untouched(m: Node, o: Node) { m.packSn == o.packSn && m.retran == o.retran }

  predicate SameNode(m: Node, o: Node) { KeyOf(m) == KeyOf(o) && m.boost == o.boost && m.threshold == o.threshold }

  /** Node m is the listed node o after at least one resend. */
  predicate Renewed(m: Node, o: Node, fb: Feedback, lim: Limits)
    requires WellFormed(fb)
  {
    SameNode(m, o) && Due(fb, lim, o) && !Exhausted(o, lim.maxRetran)
  }

  /** None of the first t retransmissions gets a number that stops the walk. */
  ghost predicate Unstopped(fb: Feedback, window: nat, env: nat -> Sent, t: nat)
    requires WellFormed(fb)
  {
    forall j: nat :: j < t ==> !Judge(fb, window, env(j).sn).Stop?
  }

  /** A number under which the walk can meet a resent node.  Resent nodes come up again in the
      order they were sent, so no number given out earlier may stop the walk. */
  ghost predicate Met(sn: nat, fb: Feedback, window: nat, env: nat -> Sent)
    requires WellFormed(fb)
  {
    exists t: nat :: sn == env(t).sn && Unstopped(fb, window, env, t)
  }

  /** Node m of a walk over a list that held o: untouched, or resent because o was due for it. */
  ghost predicate Descends(m: Node, o: Node, fb: Feedback, lim: Limits, env: nat -> Sent)
    requires WellFormed(fb)
  {
    SameNode(m, o) && (Untouched(m, o) || (Renewed(m, o, fb, lim) && Met(m.packSn, fb, lim.window, env)))
  }

  ghost predicate Sourced(m: Node, list: seq<Node>, fb: Feedback, lim: Limits, env: nat -> Sent)
    requires WellFormed(fb)
  {
    exists i :: 0 <= i < |list| && Descends(m, list[i], fb, lim, env)
  }

  ghost predicate AllSourced(s: seq<Node>, list: seq<Node>, fb: Feedback, lim: Limits, env: nat -> Sent)
    requires WellFormed(fb)
  {
    forall i :: 0 <= i < |s| ==> Sourced(s[i], list, fb, lim, env)
  }

  ghost predicate Resourced(m: Node, list: seq<Node>, fb: Feedback, lim: Limits)
    requires WellFormed(fb)
  {
    exists i :: 0 <= i < |list| && Renewed(m, list[i], fb, lim)
  }

  /** The nodes sent again wait in line: the i-th got the number of retransmission v + i. */
  ghost predicate InLine(again: seq<Node>, v: nat, list: seq<Node>, fb: Feedback, lim: Limits, env: nat -> Sent)
    requires WellFormed(fb)
  {
    forall i :: 0 <= i < |again| ==> again[i].packSn == env(v + i).sn && Resourced(again[i], list, fb, lim)
  }

  /** The walk has `rest` of the list ahead and behind it the nodes sent again. */
  ghost predicate Queue(w: Walk, rest: seq<Node>, again: seq<Node>, v: nat, list: seq<Node>, fb: Feedback, lim: Limits, env: nat -> Sent)
    requires WellFormed(fb)
  {
    && w.todo == rest + again && |w.sent| == v + |again|
    && (forall i :: 0 <= i < |rest| ==> rest[i] in list)
    && InLine(again, v, list, fb, lim, env) && Unstopped(fb, lim.window, env, v)
  }

  lemma LineGrows(again: seq<Node>, v: nat, m: Node, list: seq<Node>, fb: Feedback, lim: Limits, env: nat -> Sent)
    requires WellFormed(fb) && InLine(again, v, list, fb, lim, env)
    requires m.packSn == env(v + |again|).sn && Resourced(m, list, fb, lim)
    ensures InLine(again + [m], v, list, fb, lim, env)
  {
  }

  lemma LineAdvances(again: seq<Node>, v: nat, list: seq<Node>, fb: Feedback, lim: Limits, env: nat -> Sent)
    requires WellFormed(fb) && again != [] && InLine(again, v, list, fb, lim, env)
    ensures again[0].packSn == env(v).sn && Resourced(again[0], list, fb, lim)
    ensures InLine(again[1..], v + 1, list, fb, lim, env)
  {
    assert again[0].packSn == env(v + 0).sn;
    forall j | 0 <= j < |again| - 1 ensures again[1..][j].packSn == env(v + 1 + j).sn {
      assert v + (j + 1) == v + 1 + j;
    }
  }

  /** A node met under a number of this walk and not stopping it. */
  lemma MetAndPassed(n: Node, v: nat, s: Sent, list: seq<Node>, fb: Feedback, lim: Limits, env: nat -> Sent)
    requires WellFormed(fb) && Unstopped(fb, lim.window, env, v)
    requires n.packSn == env(v).sn && Resourced(n, list, fb, lim) && !ActOn(fb, lim, n).Halt?
    ensures Unstopped(fb, lim.window, env, v + 1)
    ensures ActOn(fb, lim, n).Drop? ==> Sourced(ActOn(fb, lim, n).n, list, fb, lim, env)
    ensures ActOn(fb, lim, n).Send? ==> Resourced(Resent(n, s), list, fb, lim)
  {
    var i :| 0 <= i < |list| && Renewed(n, list[i], fb, lim);
    assert Met(n.packSn, fb, lim.window, env);
    var act := ActOn(fb, lim, n);
    if act.Drop? { assert Descends(act.n, list[i], fb, lim, env); }
    if act.Send? { assert Renewed(Resent(n, s), list[i], fb, lim); }
  }

  lemma RetiredGrows(w: Walk, act: Act, s: Sent, list: seq<Node>, fb: Feedback, lim: Limits, env: nat -> Sent)
    requires WellFormed(fb) && w.todo != [] && AllSourced(w.retired, list, fb, lim, env)
    requires act.Drop? ==> Sourced(act.n, list, fb, lim, env)
    ensures AllSourced(Visit(w, act, s).retired, list, fb, lim, env)
  {
  }

  /** The cursor is on a node of the list. */
  lemma ListedVisit(w: Walk, rest: seq<Node>, again: seq<Node>, v: nat, list: seq<Node>, fb: Feedback, lim: Limits, env: nat -> Sent)
      returns (again': seq<Node>)
    requires WellFormed(fb) && !Finished(w, fb, lim) && rest != [] && Queue(w, rest, again, v, list, fb, lim, env)
    ensures var act := ActOn(fb, lim, w.todo[0]);
      && (act.Drop? ==> Sourced(act.n, list, fb, lim, env))
      && (w.todo[1..] == [] || Queue(Visit(w, act, env(|w.sent|)), rest[1..], again', v, list, fb, lim, env))
  {
    var n, act := w.todo[0], ActOn(fb, lim, w.todo[0]);
    assert n == rest[0] && w.todo[1..] == rest[1..] + again;
    var i :| 0 <= i < |list| && list[i] == n;
    again' := again;
    if act.Send? {
      var m := Resent(n, env(|w.sent|));
      assert Renewed(m, list[i], fb, lim);
      LineGrows(again, v, m, list, fb, lim, env);
      again' := again + [m];
      assert rest[1..] + again + [m] == rest[1..] + again';
    } else if act.Drop? {
      assert Descends(act.n, list[i], fb, lim, env);
    }
  }

  /** The cursor is on a node sent before in this walk. */
  lemma RenewedVisit(w: Walk, again: seq<Node>, v: nat, list: seq<Node>, fb: Feedback, lim: Limits, env: nat -> Sent)
      returns (again': seq<Node>)
    requires WellFormed(fb) && !Finished(w, fb, lim) && Queue(w, [], again, v, list, fb, lim, env)
    ensures var act := ActOn(fb, lim, w.todo[0]);
      && (act.Drop? ==> Sourced(act.n, list, fb, lim, env))
      && (w.todo[1..] == [] || Queue(Visit(w, act, env(|w.sent|)), [], again', v + 1, list, fb, lim, env))
  {
    var n, act, s := w.todo[0], ActOn(fb, lim, w.todo[0]), env(|w.sent|);
    assert w.todo == again;
    LineAdvances(again, v, list, fb, lim, env);
    MetAndPassed(n, v, s, list, fb, lim, env);
    again' := again[1..];
    if act.Send? {
      var m := Resent(n, s);
      LineGrows(again', v + 1, m, list, fb, lim, env);
      again' := again' + [m];
    }
    assert [] + again' == again';
  }

  lemma VisitKeepsQueue(w: Walk, rest: seq<Node>, again: seq<Node>, v: nat, list: seq<Node>, fb: Feedback, lim: Limits, env: nat -> Sent)
      returns (rest': seq<Node>, again': seq<Node>, v': nat)
    requires WellFormed(fb) && !Finished(w, fb, lim) && Queue(w, rest, again, v, list, fb, lim, env)
    ensures var act := ActOn(fb, lim, w.todo[0]);
      && (act.Drop? ==> Sourced(act.n, list, fb, lim, env))
      && (w.todo[1..] == [] || Queue(Visit(w, act, env(|w.sent|)), rest', again', v', list, fb, lim, env))
  {
    if rest == [] {
      rest', v' := [], v + 1;
      again' := RenewedVisit(w, again, v, list, fb, lim, env);
    } else {
      rest', v' := rest[1..], v;
      again' := ListedVisit(w, rest, again, v, list, fb, lim, env);
    }
  }

  /** Every node a walk retires descends from a node of the list. */
  lemma {:induction false} WalkKeepsSources(w: Walk, rest: seq<Node>, again: seq<Node>, v: nat, list: seq<Node>, fb: Feedback, lim: Limits, env: nat -> Sent)
    requires WellFormed(fb) && lim.maxRetran < 256 && AllSmall(w.todo)
    requires w.todo == [] || Queue(w, rest, again, v, list, fb, lim, env)
    requires AllSourced(w.retired, list, fb, lim, env)
    ensures AllSourced(RunWalk(w, fb, lim, env).retired, list, fb, lim, env)
    decreases Budget(w.todo, lim.maxRetran)
  {
    if !Finished(w, fb, lim) {
      var act, s := ActOn(fb, lim, w.todo[0]), env(|w.sent|);
      ActIsLawful(fb, lim, w.todo[0]);
      VisitProgress(w, act, lim.maxRetran, s);
      var rest', again', v' := VisitKeepsQueue(w, rest, again, v, list, fb, lim, env);
      RetiredGrows(w, act, s, list, fb, lim, env);
      WalkKeepsSources(Visit(w, act, s), rest', again', v', list, fb, lim, env);
    }
  }

  lemma RetiredIsSourced(list: seq<Node>, fb: Feedback, lim: Limits, env: nat -> Sent)
    requires WellFormed(fb) && lim.maxRetran < 256 && AllSmall(list)
    ensures AllSourced(RunWalk(Walk([], list, [], []), fb, lim, env).retired, list, fb, lim, env)
  {
    assert list + [] == list;
    WalkKeepsSources(Walk([], list, [], []), list, [], 0, list, fb, lim, env);
  }

  /** No retransmission gets an acknowledged number before one that stops the walk. */
  ghost predicate Sheltered(fb: Feedback, window: nat, env: nat -> Sent)
    requires WellFormed(fb)
  {
    forall t: nat :: Judge(fb, window, env(t).sn).Retire? ==> !Unstopped(fb, window, env, t)
  }

  /** The last number a feedback speaks of. */
  function Newest(fb: Feedback): nat { if fb.AckMap? then fb.tail else fb.rto }

  /** Why the listed node o, retired as m, went: it was acknowledged under the number it was
      listed with or, without reliable transport, due for a resend and m had none left. */
  predicate Cause(fb: Feedback, lim: Limits, o: Node, m: Node)
    requires WellFormed(fb)
  {
    || Judge(fb, lim.window, o.packSn).Retire?
    || (!lim.reliable && Due(fb, lim, o) && Exhausted(m, lim.maxRetran))
  }

  lemma RetiredHasCause(m: Node, o: Node, fb: Feedback, lim: Limits, env: nat -> Sent)
    requires WellFormed(fb) && Sheltered(fb, lim.window, env)
    requires Descends(m, o, fb, lim, env) && Retirable(fb, lim, m)
    ensures Cause(fb, lim, o, m)
    ensures (forall j: nat :: Judge(fb, lim.window, env(j).sn).Stop?) ==> Untouched(m, o)
  {
  }

  ghost predicate Caused(m: Node, list: seq<Node>, fb: Feedback, lim: Limits, env: nat -> Sent)
    requires WellFormed(fb)
  {
    exists i :: 0 <= i < |list| && Descends(m, list[i], fb, lim, env) && Cause(fb, lim, list[i], m)
  }

  ghost predicate AllCaused(s: seq<Node>, list: seq<Node>, fb: Feedback, lim: Limits, env: nat -> Sent)
    requires WellFormed(fb)
  {
    forall x :: 0 <= x < |s| ==> Caused(s[x], list, fb, lim, env)
  }

  lemma RetiredIsCaused(list: seq<Node>, fb: Feedback, lim: Limits, env: nat -> Sent)
    requires WellFormed(fb) && lim.maxRetran < 256 && AllSmall(list) && Sheltered(fb, lim.window, env)
    ensures AllCaused(RunWalk(Walk([], list, [], []), fb, lim, env).retired, list, fb, lim, env)
  {
    var s := RunWalk(Walk([], list, [], []), fb, lim, env).retired;
    RetiredIsSourced(list, fb, lim, env);
    WalkRetiresOnlyRetirable(Walk([], list, [], []), fb, lim, env);
    forall x | 0 <= x < |s| ensures Caused(s[x], list, fb, lim, env) {
      assert Sourced(s[x], list, fb, lim, env) && Retirable(fb, lim, s[x]);
      var i :| 0 <= i < |list| && Descends(s[x], list[i], fb, lim, env);
      RetiredHasCause(s[x], list[i], fb, lim, env);
    }
  }

  /** For every feedback and both kinds of transport: a packet loses a copy only if some copy
      of it in the list was acknowledged or, without reliable transport, given up; if new
      numbers stay inside the window, given up means exhausted as listed. */
  lemma RemovedHasCause(list: seq<Node>, fb: Feedback, lim: Limits, env: nat -> Sent, reserve: nat, k: Key)
      returns (i: nat, m: Node)
    requires WellFormed(fb) && lim.maxRetran < 256 && AllSmall(list) && Sheltered(fb, lim.window, env)
    requires Bag(AfterFeedback(list, fb, lim, env, reserve))[k] < Bag(list)[k]
    ensures m in RunWalk(Walk([], list, [], []), fb, lim, env).retired
    ensures i < |list| && list[i].firstSn == k.0 && Descends(m, list[i], fb, lim, env) && Cause(fb, lim, list[i], m)
    ensures (forall j: nat :: Judge(fb, lim.window, env(j).sn).Stop?) ==> Untouched(m, list[i])
  {
    var r := RunWalk(Walk([], list, [], []), fb, lim, env);
    AckSafety(list, fb, lim, env, reserve, k);
    var x :| 0 <= x < |r.retired| && Firsts(r.retired)[x] == k.0;
    m := r.retired[x];
    assert Caused(m, list, fb, lim, env) && Retirable(fb, lim, m);
    i :| 0 <= i < |list| && Descends(m, list[i], fb, lim, env) && Cause(fb, lim, list[i], m);
    RetiredHasCause(m, list[i], fb, lim, env);
  }

  /** Did the peer acknowledge the number a node was last sent with? */
  predicate Acknowledged(fb: Feedback, n: Node)
    requires WellFormed(fb) && fb.AckMap? && fb.head <= fb.tail
  {
    fb.head <= n.packSn <= fb.tail && (n.packSn - fb.head) / 8 < |fb.bytes|
    && Bit(fb.bytes[(n.packSn - fb.head) / 8], (n.packSn - fb.head) % 8)
  }

  lemma RetireIsAcknowledged(fb: Feedback, window: nat, n: Node)
    requires WellFormed(fb) && fb.AckMap? && fb.head <= fb.tail && (fb.tail < 0xFFFF_FFFF || fb.head == 0)
    ensures Judge(fb, window, n.packSn).Retire? <==> Acknowledged(fb, n)
  {
    AcknowledgedMeans(fb, window, n.packSn);
    if fb.head <= n.packSn <= fb.tail { RangeIsCovered(fb, n.packSn - fb.head); }
  }

  lemma RangeIsCovered(fb: Feedback, span: nat)
    requires WellFormed(fb) && fb.AckMap? && span <= Span(fb.head, fb.tail)
    ensures span / 8 < |fb.bytes|
  {
  }

  lemma InsideWindowStops(fb: Feedback, window: nat, env: nat -> Sent)
    requires WellFormed(fb) && fb.AckMap? && fb.head <= fb.tail
    requires forall j: nat :: fb.tail < env(j).sn <= fb.head + window
    ensures forall j: nat :: Judge(fb, window, env(j).sn).Stop?
  {
  }

  /** For a bitmap whose range does not wrap and retransmissions that get no acknowledged number
      before one that stops the walk: a packet loses a copy only if the list holds a copy whose
      number lies in the range with its bit set or, without reliable transport, one due for a
      resend that ran out of them; if the new numbers lie beyond the range and inside the
      window, it had none left to begin with. */
  lemma RemovedMeansAcknowledged(list: seq<Node>, fb: Feedback, lim: Limits, env: nat -> Sent, reserve: nat, k: Key)
      returns (i: nat, m: Node)
    requires WellFormed(fb) && lim.maxRetran < 256 && AllSmall(list) && Sheltered(fb, lim.window, env)
    requires fb.AckMap? && fb.head <= fb.tail && (fb.tail < 0xFFFF_FFFF || fb.head == 0)
    requires Bag(AfterFeedback(list, fb, lim, env, reserve))[k] < Bag(list)[k]
    ensures i < |list| && list[i].firstSn == k.0
    ensures m in RunWalk(Walk([], list, [], []), fb, lim, env).retired && KeyOf(m) == KeyOf(list[i])
    ensures Acknowledged(fb, list[i]) || (!lim.reliable && Due(fb, lim, list[i]) && Exhausted(m, lim.maxRetran))
    ensures (forall j: nat :: fb.tail < env(j).sn <= fb.head + lim.window) ==>
      Acknowledged(fb, list[i]) || (!lim.reliable && Due(fb, lim, list[i]) && Exhausted(list[i], lim.maxRetran))
  {
    i, m := RemovedHasCause(list, fb, lim, env, reserve, k);
    RetireIsAcknowledged(fb, lim.window, list[i]);
    if forall j: nat :: fb.tail < env(j).sn <= fb.head + lim.window { InsideWindowStops(fb, lim.window, env); }
  }
}
