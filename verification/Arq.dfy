/** GtpArq (src/arq/goodtp_arq.cpp): the retransmission list at work on a node pool and a
    packet pool, with the references it holds accounted for. */
module Arq {
  import opened SizeClasses
  import opened PacketPool
  import N = NodePool
  import opened Encoder
  import opened ArqModel
  import opened ArqSweep
  import L = ArqList
  import T = ArqTheorems
  import Bags
  import opened Folding

  /** A packet handed to the list. */
  datatype Packet = Packet(buf: Buf, len: nat, sn: nat, repeat: nat)

  ghost function BufBag(s: seq<Node>): multiset<Buf> { multiset(Bufs(s)) }

  lemma BufBagSnoc(s: seq<Node>, n: Node)
    ensures BufBag(s + [n]) == BufBag(s) + multiset{n.buf}
  {
    BufsConcat(s, [n]);
    assert Bufs([n]) == [n.buf];
  }

  lemma BufBagRemove(s: seq<Node>, k: nat)
    requires k < |s|
    ensures BufBag(s) == BufBag(L.RemoveAt(s, k)) + multiset{s[k].buf}
  {
    Bags.Remove(Bufs(s), k);
    assert Bufs(L.RemoveAt(s, k)) == Bufs(s)[..k] + Bufs(s)[k + 1..];
  }

  lemma BufBagUpdate(s: seq<Node>, k: nat, n: Node)
    requires k < |s| && n.buf == s[k].buf
    ensures BufBag(s[k := n]) == BufBag(s)
  {
    assert Bufs(s[k := n]) == Bufs(s);
  }

  /** Each listed node owns one block of the node pool; `others` are everybody else's. */
  ghost predicate Owns(live: map<int, nat>, addrs: seq<int>, others: map<int, nat>) {
    && (forall i :: 0 <= i < |addrs| ==> addrs[i] in live && live[addrs[i]] == 1 && addrs[i] !in others)
    && (forall a :: a in live ==> a in others || a in addrs)
    && (forall a :: a in others ==> a in live && live[a] == others[a])
  }

  lemma OwnsMore(live: map<int, nat>, addrs: seq<int>, others: map<int, nat>, a: int)
    requires Owns(live, addrs, others) && a !in live
    ensures Owns(live[a := 1], addrs + [a], others)
  {
  }

  lemma OwnsLess(live: map<int, nat>, addrs: seq<int>, others: map<int, nat>, k: nat)
    requires Owns(live, addrs, others) && k < |addrs| && L.Distinct(addrs)
    ensures Owns(live - {addrs[k]}, L.RemoveAt(addrs, k), others)
  {
    L.DistinctRemoved(addrs, k);
    var a, r := addrs[k], L.RemoveAt(addrs, k);
    forall b | b in live - {a} ensures b in others || b in r {
      if b !in others {
        var i :| 0 <= i < |addrs| && addrs[i] == b;
        assert r[if i < k then i else i - 1] == b;
      }
    }
  }

  lemma OwnsSame(live: map<int, nat>, addrs: seq<int>, others: map<int, nat>, k: nat)
    requires Owns(live, addrs, others) && k < |addrs|
    ensures Owns(live, L.RemoveAt(addrs, k) + [addrs[k]], others)
  {
    var r := L.RemoveAt(addrs, k) + [addrs[k]];
    forall b | b in live && b !in others ensures b in r {
      var i :| 0 <= i < |addrs| && addrs[i] == b;
      assert r[if i < k then i else if i == k then |addrs| - 1 else i - 1] == b;
    }
  }

  /** A node out of the list keeps its block: for the list it is somebody else's. */
  lemma OwnsLend(live: map<int, nat>, addrs: seq<int>, others: map<int, nat>, k: nat)
    requires Owns(live, addrs, others) && k < |addrs| && L.Distinct(addrs)
    ensures Owns(live, L.RemoveAt(addrs, k), others[addrs[k] := 1])
  {
    L.DistinctRemoved(addrs, k);
    var r := L.RemoveAt(addrs, k);
    forall b | b in live && b !in others && b != addrs[k] ensures b in r {
      var i :| 0 <= i < |addrs| && addrs[i] == b;
      assert r[if i < k then i else i - 1] == b;
    }
  }

  lemma OwnsBack(live: map<int, nat>, addrs: seq<int>, others: map<int, nat>, a: int)
    requires Owns(live, addrs, others[a := 1]) && a !in others
    ensures a !in addrs && Owns(live, addrs + [a], others)
  {
    assert (addrs + [a])[|addrs|] == a;
    forall b | b in others ensures live[b] == others[b] { assert b in others[a := 1]; }
  }

  /** A block taken or returned by somebody else. */
  lemma OwnsElsewhere(live: map<int, nat>, addrs: seq<int>, others: map<int, nat>, a: int)
    requires Owns(live, addrs, others) && a !in live
    ensures Owns(live[a := 1], addrs, others[a := 1]) && a !in others
  {
  }

  lemma OwnsNoMore(live: map<int, nat>, addrs: seq<int>, others: map<int, nat>, a: int)
    requires Owns(live, addrs, others) && a in others
    ensures a in live && live[a] == others[a] && Owns(live - {a}, addrs, others - {a})
  {
  }

  /** With an empty list the blocks in use are exactly everybody else's. */
  ghost predicate OnlyOthers(live: map<int, nat>, others: map<int, nat>) {
    forall a :: (a in live <==> a in others) && (a in others ==> live[a] == others[a])
  }

  lemma OwnsNone(live: map<int, nat>, others: map<int, nat>)
    requires Owns(live, [], others)
    ensures OnlyOthers(live, others)
  {
    forall a | a in live ensures a in others {
      assert a in others || a in [];
    }
  }

  lemma BoundedRemove(s: seq<Node>, k: nat, peak: nat)
    requires k < |s| && AllBounded(s, peak)
    ensures AllBounded(L.RemoveAt(s, k), peak)
  {
  }

  lemma BoundedSnoc(s: seq<Node>, n: Node, peak: nat)
    requires AllBounded(s, peak) && Bounded(n, peak)
    ensures AllBounded(s + [n], peak)
  {
  }

  /** The node PacketEntryList makes of a packet. */
  function MakeNode(p: Packet, firstSn: nat, ts: nat, maxBoost: nat): Node {
    Node(p.buf, p.len, p.sn, firstSn, ts, p.repeat, if maxBoost == 0 then DEFAULT_BOOST_TIMES else maxBoost,
         false, false, false, false, 0)
  }

  /** What entering a packet appends: nothing without a block, else its node, with a clone if
      one could be had. */
  function Entered(n: Node, ts: nat, ok: bool, got: Option<Buf>): seq<Node> {
    if !ok then [] else if got.None? then [n] else [n.(hasBoost := true), Clone(n, got.value, ts)]
  }

  class GtpArq {
    const nodes: N.GtpMemPool       // arq_packet_pool_
    const packs: TranMemPool      // pack_mem_pool_
    const arq: L.List             // arq_list_
    const encoder: FecEncoder     // the session's FEC encoder, run by every retransmission
    const reliable: bool          // SUPPORT_RELIABLE_TRAN
    const window: nat             // SLID_WIN_SIZE
    const reserve: nat            // MAX_RSV_WIN_SIZE
    const batch: nat              // FREE_C3BUF_NUM_PER
    var maxRetran: nat
    var maxBoost: nat
    var boostSwitch: bool
    var ackResends: nat           // ack_resend_counter_
    ghost var peak: nat           // the largest max_retran_times_ so far

    constructor (nodePool: N.GtpMemPool, packPool: TranMemPool, enc: FecEncoder, rel: bool, win: nat, rsv: nat,
                 per: nat, limit: nat, boost: nat)
      requires nodePool.Valid() && nodePool.Conserved() && packPool.Valid() && nodePool.Repr !! packPool.Repr
      requires enc.packs == packPool && enc !in nodePool.Repr + packPool.Repr
      requires per > 0 && limit <= 255 && boost <= 255
      ensures Valid() && arq.addrs == [] && Refs(packPool.refs) && Blocks(nodePool.live)
      ensures nodes == nodePool && packs == packPool && encoder == enc && fresh(arq)
      ensures Lim() == Limits(limit, rel, win) && reserve == rsv && boostSwitch && maxBoost == boost
    {
      nodes, packs, encoder := nodePool, packPool, enc;
      arq := new L.List();
      reliable, window, reserve, batch := rel, win, rsv, per;
      maxRetran, maxBoost, boostSwitch := limit, boost, true;
      ackResends := 0;
      peak := limit;
    }

    function Lim(): Limits
      reads this
    {
      Limits(maxRetran, reliable, window)
    }

    ghost predicate Shape()
      reads this
    {
      && nodes.Repr !! packs.Repr
      && arq !in nodes.Repr && arq !in packs.Repr && this !in nodes.Repr && this !in packs.Repr
      && nodes in nodes.Repr && packs in packs.Repr
      && encoder.packs == packs && encoder !in nodes.Repr && encoder !in packs.Repr
      && maxRetran <= peak <= 255 && maxBoost <= 255 && 0 < batch
    }

    ghost predicate PartsValid()
      reads this, arq, nodes, nodes.Repr, nodes.bitmap, nodes.usedFlag, nodes.quote, packs, packs.Repr
    {
      nodes.Valid() && nodes.Conserved() && packs.Valid() && arq.Valid()
    }

    /** The list is well linked, the pools are consistent, and no node has been resent more
        often than its limits allow. */
    ghost predicate Valid()
      reads this, arq, nodes, nodes.Repr, nodes.bitmap, nodes.usedFlag, nodes.quote, packs, packs.Repr
    {
      && Shape() && |arq.view| == |arq.addrs| && AllBounded(arq.view, peak)
      && forall k: nat {:trigger Open(Fold.Parts, k)} :: Open(Fold.Parts, k) ==> PartsValid()
    }

    /** Conservation: each reference in the packet pool belongs to exactly one listed node or
        is among `ext`, the references of everybody else. */
    ghost predicate Refs(ext: multiset<Buf>)
      reads this, arq, packs
    {
      packs.refs == BufBag(arq.view) + ext
    }

    /** Likewise, each block in use belongs to one listed node or is among `others`. */
    ghost predicate Blocks(others: map<int, nat>)
      reads this, arq, nodes
    {
      Owns(nodes.live, arq.addrs, others)
    }

    method PopNode(cur: int, ghost k: nat)
      requires Valid() && k < |arq.addrs| && arq.addrs[k] == cur
      modifies arq
      ensures Valid()
      ensures arq.view == L.RemoveAt(old(arq.view), k) && arq.addrs == L.RemoveAt(old(arq.addrs), k)
      ensures L.Distinct(old(arq.addrs))
    {
      assert Open(Fold.Parts, 0);
      BoundedRemove(arq.view, k, peak);
      arq.Pop(cur, k);
    }

    method ReturnNode(cur: int)
      requires Valid() && cur in nodes.live && nodes.live[cur] == 1
      modifies nodes.Repr
      ensures Valid() && nodes.live == old(nodes.live) - {cur}
    {
      assert Open(Fold.Parts, 0);
      nodes.Return(cur);
    }

    /** PopArqNode and FreeItem: the node at the cursor leaves, its packet reference stays. */
    method Unlink(cur: int, ghost k: nat, ghost others: map<int, nat>)
      requires Valid() && Blocks(others) && k < |arq.addrs| && arq.addrs[k] == cur
      modifies arq, nodes.Repr
      ensures Valid() && Blocks(others)
      ensures arq.view == L.RemoveAt(old(arq.view), k) && arq.addrs == L.RemoveAt(old(arq.addrs), k)
    {
      PopNode(cur, k);
      OwnsLess(nodes.live, old(arq.addrs), others, k);
      ReturnNode(cur);
    }

    method RequeueNode(cur: int, ghost k: nat, m: Node)
      requires Valid() && k < |arq.addrs| && arq.addrs[k] == cur && Bounded(m, peak)
      modifies arq
      ensures Valid()
      ensures arq.view == L.RemoveAt(old(arq.view), k) + [m] && arq.addrs == L.RemoveAt(old(arq.addrs), k) + [cur]
    {
      assert Open(Fold.Parts, 0);
      BoundedRemove(arq.view, k, peak);
      BoundedSnoc(L.RemoveAt(arq.view, k), m, peak);
      arq.Requeue(cur, k, m);
    }

    lemma NodeAt(cur: int, k: nat)
      requires Valid() && k < |arq.addrs| && arq.addrs[k] == cur
      ensures cur in arq.fields && arq.fields[cur] == arq.view[k]
    {
      assert Open(Fold.Parts, 0);
    }

    /** The FEC encoding a retransmission sets off: the encoder's references change, everybody
        else's do not. */
    method EncodeFrame(draws: seq<Draw>, ghost ext: multiset<Buf>)
      requires Valid() && Refs(encoder.held + ext)
      modifies encoder, packs.Repr
      ensures Valid() && Refs(encoder.held + ext)
      ensures encoder.Draws(draws, old(encoder.held), encoder.held, BufBag(arq.view) + ext)
    {
      assert Open(Fold.Parts, 0);
      ghost var bag := BufBag(arq.view);
      Bags.Rotate(bag, encoder.held, ext);
      encoder.Encode(draws, bag + ext);
      Bags.Rotate(bag, encoder.held, ext);
    }

    /** Take the node at the cursor out, retransmit it and append it. */
    method Resend(cur: int, ghost k: nat, s: Sent, ghost ext: multiset<Buf>, ghost others: map<int, nat>)
      requires Valid() && Refs(encoder.held + ext) && Blocks(others) && k < |arq.addrs| && arq.addrs[k] == cur
      requires !Exhausted(arq.view[k], maxRetran)
      modifies arq, encoder, packs.Repr
      ensures Valid() && Refs(encoder.held + ext) && Blocks(others)
      ensures arq.view == L.RemoveAt(old(arq.view), k) + [Resent(old(arq.view)[k], s)]
      ensures arq.addrs == L.RemoveAt(old(arq.addrs), k) + [cur]
      ensures encoder.Draws(s.fec, old(encoder.held), encoder.held, BufBag(old(arq.view)) + ext)
    {
      EncodeFrame(s.fec, ext);
      NodeAt(cur, k);
      var n := arq.fields[cur];
      var m := Resent(n, s);
      BufBagRemove(arq.view, k);
      BufBagSnoc(L.RemoveAt(arq.view, k), m);
      OwnsSame(nodes.live, arq.addrs, others, k);
      ResentBounded(n, s, maxRetran, peak);
      RequeueNode(cur, k, m);
    }

    /** Set the failed mark of the node at the cursor. */
    method MarkFailed(cur: int, ghost k: nat, ghost ext: multiset<Buf>)
      requires Valid() && Refs(ext) && k < |arq.addrs| && arq.addrs[k] == cur
      modifies arq`fields, arq`view
      ensures Valid() && Refs(ext)
      ensures arq.view == old(arq.view)[k := old(arq.view)[k].(failedAck := true)]
    {
      assert Open(Fold.Parts, 0);
      ghost var v := arq.view;
      var m := arq.fields[cur].(failedAck := true);
      BufBagUpdate(v, k, m);
      assert AllBounded(v[k := m], peak);
      arq.Update(cur, k, m);
    }

    /** Free a full vector of pending packet buffers. */
    method Flush(v: seq<Buf>, ghost ext: multiset<Buf>)
      requires Valid() && packs.refs == multiset(v) + ext
      modifies packs.Repr
      ensures Valid() && packs.refs == ext
    {
      assert Open(Fold.Parts, 0);
      forall i | 0 <= i < |v| ensures packs.InPool(v[i]) { packs.ReferencedIsInPool(v[i]); }
      packs.FreeBufs(v);
    }

    /** Retire the node at the cursor: its reference joins the pending vector, which is freed
        when full, and then the node goes. */
    method RetireNode(cur: int, ghost k: nat, pending: seq<Buf>, ghost ext: multiset<Buf>, ghost others: map<int, nat>)
        returns (v: seq<Buf>)
      requires Valid() && Refs(ext + multiset(pending)) && Blocks(others) && |pending| < batch
      requires k < |arq.addrs| && arq.addrs[k] == cur
      modifies arq, nodes.Repr, packs.Repr
      ensures Valid() && Refs(ext + multiset(v)) && Blocks(others) && |v| < batch
      ensures arq.view == L.RemoveAt(old(arq.view), k)
      ensures arq.addrs == L.RemoveAt(old(arq.addrs), k)
    {
      NodeAt(cur, k);
      var b := arq.fields[cur].buf;
      BufBagRemove(arq.view, k);
      ghost var rest := BufBag(L.RemoveAt(arq.view, k)) + ext;
      Bags.Snoc(pending, b);
      v := pending + [b];
      assert packs.refs == multiset(v) + rest;
      if batch <= |v| {
        Flush(v, rest);
        v := [];
      }
      Unlink(cur, k, others);
    }

    /** The cursor stands at the head of the walk's todo part, or is null at its end. */
    ghost predicate At(cur: int, done: seq<Node>, todo: seq<Node>)
      reads arq
    {
      arq.view == done + todo && |arq.addrs| == |arq.view| && cur == if todo == [] then L.NULL else arq.addrs[|done|]
    }

    lemma StartAt()
      requires Valid()
      ensures At(arq.head, [], arq.view)
    {
      assert Open(Fold.Parts, 0);
    }

    lemma EndAt(cur: int, done: seq<Node>, todo: seq<Node>)
      requires Valid() && At(cur, done, todo) && cur == L.NULL
      ensures todo == []
    {
      assert Open(Fold.Parts, 0);
    }

    lemma NextAt(cur: int, done: seq<Node>, todo: seq<Node>)
      requires Valid() && At(cur, done, todo) && todo != []
      ensures cur in arq.nxt && cur in arq.fields && arq.fields[cur] == todo[0]
      ensures arq.nxt[cur] == if |todo| == 1 then L.NULL else arq.addrs[|done| + 1]
    {
      assert Open(Fold.Parts, 0);
      assert (done + todo)[|done|] == todo[0];
    }

    method VisitPass(cur: int, act: Act, ghost w: Walk, ghost ext: multiset<Buf>, ghost others: map<int, nat>)
        returns (next: int)
      requires Valid() && Refs(ext) && Blocks(others) && At(cur, w.done, w.todo) && w.todo != []
      requires act.Pass? && Lawful(act, w.todo[0], maxRetran)
      modifies arq
      ensures Valid() && Refs(ext) && Blocks(others)
      ensures At(next, w.done + [act.n], w.todo[1..])
    {
      NextAt(cur, w.done, w.todo);
      Middle(w.done, w.todo, act.n);
      next := arq.nxt[cur];
      if act.n != arq.fields[cur] {
        MarkFailed(cur, |w.done|, ext);
      }
    }

    method VisitSend(cur: int, s: Sent, ghost w: Walk, ghost ext: multiset<Buf>, ghost others: map<int, nat>)
        returns (next: int)
      requires Valid() && Refs(encoder.held + ext) && Blocks(others) && At(cur, w.done, w.todo) && w.todo != []
      requires !Exhausted(w.todo[0], maxRetran)
      modifies arq, encoder, packs.Repr
      ensures Valid() && Refs(encoder.held + ext) && Blocks(others)
      ensures var m := Resent(w.todo[0], s);
        if |w.todo| == 1 then At(next, w.done + [m], []) else At(next, w.done, w.todo[1..] + [m])
    {
      NextAt(cur, w.done, w.todo);
      next := arq.nxt[cur];
      Resend(cur, |w.done|, s, ext, others);
      Middle(w.done, w.todo, Resent(w.todo[0], s));
    }

    method VisitDrop(cur: int, pending: seq<Buf>, ghost w: Walk, ghost ext: multiset<Buf>, ghost others: map<int, nat>)
        returns (next: int, v: seq<Buf>)
      requires Valid() && Refs(ext + multiset(pending)) && Blocks(others) && |pending| < batch
      requires At(cur, w.done, w.todo) && w.todo != []
      modifies arq, nodes.Repr, packs.Repr
      ensures Valid() && Refs(ext + multiset(v)) && Blocks(others) && |v| < batch
      ensures At(next, w.done, w.todo[1..])
    {
      NextAt(cur, w.done, w.todo);
      next := arq.nxt[cur];
      v := RetireNode(cur, |w.done|, pending, ext, others);
      Middle(w.done, w.todo, w.todo[0]);
    }

    method CountResend()
      requires Valid()
      modifies this`ackResends
      ensures Valid() && ackResends == old(ackResends) + 1
    {
      ackResends := ackResends + 1;
    }

    /** Everything that holds between two visits of a feedback walk: the list is the walk's,
        the cursor is in place, and the packet pool's references are those of the listed nodes,
        those still pending and those of everybody else. */
    ghost predicate Walking(cur: int, w: Walk, pending: seq<Buf>, ext: multiset<Buf>, others: map<int, nat>)
      reads this, arq, encoder, nodes, nodes.Repr, nodes.bitmap, nodes.usedFlag, nodes.quote, packs, packs.Repr
    {
      forall k: nat {:trigger Open(Fold.Walking, k)} :: Open(Fold.Walking, k) ==>
        && Valid() && Refs(encoder.held + (ext + multiset(pending))) && Blocks(others) && |pending| < batch
        && At(cur, w.done, w.todo)
    }

    method StartWalk(ghost ext: multiset<Buf>, ghost others: map<int, nat>) returns (cur: int, ghost w: Walk)
      requires Valid() && Refs(encoder.held + ext) && Blocks(others)
      ensures w == Walk([], arq.view, [], []) && AllSmall(w.todo)
      ensures Walking(cur, w, [], ext, others)
    {
      StartAt();
      cur, w := arq.head, Walk([], arq.view, [], []);
      BoundedIsSmall(w.todo, peak);
    }

    lemma CursorNode(cur: int, w: Walk, pending: seq<Buf>, ext: multiset<Buf>, others: map<int, nat>)
      requires Walking(cur, w, pending, ext, others) && cur != L.NULL
      ensures w.todo != [] && cur in arq.fields && arq.fields[cur] == w.todo[0]
    {
      assert Open(Fold.Walking, 0);
      NextAt(cur, w.done, w.todo);
    }

    method VisitRetire(cur: int, pending: seq<Buf>, ghost w: Walk, ghost ext: multiset<Buf>, ghost others: map<int, nat>)
        returns (next: int, v: seq<Buf>)
      requires Valid() && Refs(encoder.held + (ext + multiset(pending))) && Blocks(others) && |pending| < batch
      requires At(cur, w.done, w.todo) && w.todo != []
      modifies arq, nodes.Repr, packs.Repr
      ensures Valid() && Refs(encoder.held + (ext + multiset(v))) && Blocks(others) && |v| < batch
      ensures At(next, w.done, w.todo[1..])
    {
      Bags.Regroup(encoder.held, ext, multiset(pending));
      next, v := VisitDrop(cur, pending, w, encoder.held + ext, others);
      Bags.Regroup(encoder.held, ext, multiset(v));
    }

    /** One pass through the loop body of the feedback walks. */
    method VisitNode(cur: int, act: Act, s: Sent, pending: seq<Buf>,
                     ghost w: Walk, ghost w': Walk, ghost ext: multiset<Buf>, ghost others: map<int, nat>)
        returns (next: int, v: seq<Buf>)
      requires Walking(cur, w, pending, ext, others)
      requires w.todo != [] && !act.Halt? && Lawful(act, w.todo[0], maxRetran)
      requires w' == Visit(w, act, s)
      modifies this`ackResends, arq, encoder, nodes.Repr, packs.Repr
      ensures Walking(next, w', v, ext, others)
      ensures ackResends == old(ackResends) + if act.Send? then 1 else 0
    {
      assert Open(Fold.Walking, 0);
      v := pending;
      match act {
        case Pass(_) =>
          next := VisitPass(cur, act, w, encoder.held + (ext + multiset(pending)), others);
        case Send =>
          next := VisitSend(cur, s, w, ext + multiset(pending), others);
          CountResend();
        case Drop(m) =>
          next, v := VisitRetire(cur, pending, w, ext, others);
      }
    }

    /** Decide about the node at the cursor, and act. */
    method WalkStep(cur: int, fb: Feedback, lim: Limits, s: Sent, pending: seq<Buf>,
                    ghost w: Walk, ghost w': Walk, ghost ext: multiset<Buf>, ghost others: map<int, nat>)
        returns (next: int, v: seq<Buf>, act: Act)
      requires Walking(cur, w, pending, ext, others) && cur != L.NULL && w.todo != []
      requires WellFormed(fb) && lim.maxRetran == maxRetran && w' == Visit(w, ActOn(fb, lim, w.todo[0]), s)
      modifies this`ackResends, arq, encoder, nodes.Repr, packs.Repr
      ensures act == ActOn(fb, lim, w.todo[0])
      ensures Walking(next, if act.Halt? then w else w', v, ext, others)
      ensures ackResends == old(ackResends) + if act.Send? then 1 else 0
    {
      CursorNode(cur, w, pending, ext, others);
      act := Decide(fb, lim, arq.fields[cur]);
      if act.Halt? {
        next, v := cur, pending;
      } else {
        ActIsLawful(fb, lim, w.todo[0]);
        next, v := VisitNode(cur, act, s, pending, w, w', ext, others);
      }
    }

    /** The do-while loop of ProcArqIn32BitSys, ProcArqIn64BitSys, ProcNotLossNack and
        ProcHasLossNack: it computes the walk, leaving some packet buffers still to be freed,
        and returns the first numbers it recorded. */
    method WalkLoop(fb: Feedback, env: nat -> Sent, ghost ext: multiset<Buf>, ghost others: map<int, nat>)
        returns (firsts: seq<nat>, cur: int, pending: seq<Buf>, ghost w: Walk)
      requires Valid() && Refs(encoder.held + ext) && Blocks(others) && WellFormed(fb)
      modifies this`ackResends, arq, encoder, nodes.Repr, packs.Repr
      ensures Walking(cur, w, pending, ext, others)
      ensures maxRetran < 256 && AllSmall(old(arq.view))
      ensures w == RunWalk(Walk([], old(arq.view), [], []), fb, Lim(), env)
      ensures firsts == T.Leading(T.Firsts(w.retired), reserve)
      ensures ackResends == old(ackResends) + |w.sent|
    {
      var lim := Lim();
      cur, w := StartWalk(ext, others);
      ghost var target := RunWalk(w, fb, lim, env);
      var sent := 0;
      firsts, pending := [], [];
      while cur != L.NULL
        invariant Walking(cur, w, pending, ext, others) && maxRetran == lim.maxRetran < 256
        invariant AllSmall(w.todo) && RunWalk(w, fb, lim, env) == target
        invariant firsts == T.Leading(T.Firsts(w.retired), reserve)
        invariant sent == |w.sent| && ackResends == old(ackResends) + sent
        decreases Budget(w.todo, lim.maxRetran)
      {
        CursorNode(cur, w, pending, ext, others);
        ghost var w' := Visit(w, ActOn(fb, lim, w.todo[0]), env(sent));
        var act;
        cur, pending, act := WalkStep(cur, fb, lim, env(sent), pending, w, w', ext, others);
        if act.Halt? { return; }
        Onward(w, fb, lim, env);
        if act.Drop? { TakeSnoc(w.retired, act.n, reserve); }
        firsts := if act.Drop? && |firsts| < reserve then firsts + [act.n.firstSn] else firsts;
        sent := sent + if act.Send? then 1 else 0;
        w := w';
      }
      WalkEnds(cur, w, pending, ext, others);
    }

    lemma WalkEnds(cur: int, w: Walk, pending: seq<Buf>, ext: multiset<Buf>, others: map<int, nat>)
      requires Walking(cur, w, pending, ext, others) && cur == L.NULL
      ensures w.todo == []
    {
      assert Open(Fold.Walking, 0);
      EndAt(cur, w.done, w.todo);
    }

    /** The walk with its last batch of frees. */
    method FeedbackWalk(fb: Feedback, env: nat -> Sent, ghost ext: multiset<Buf>, ghost others: map<int, nat>)
        returns (firsts: seq<nat>)
      requires Valid() && Refs(encoder.held + ext) && Blocks(others) && WellFormed(fb)
      modifies this`ackResends, arq, encoder, nodes.Repr, packs.Repr
      ensures Valid() && Refs(encoder.held + ext) && Blocks(others)
      ensures AllSmall(old(arq.view))
      ensures var r := RunWalk(Walk([], old(arq.view), [], []), fb, Lim(), env);
        && arq.view == r.done + r.todo
        && firsts == T.Leading(T.Firsts(r.retired), reserve)
        && ackResends == old(ackResends) + |r.sent|
    {
      var cur, pending;
      ghost var w;
      firsts, cur, pending, w := WalkLoop(fb, env, ext, others);
      assert Open(Fold.Walking, 0);
      FlushRest(pending, ext);
    }

    method FlushRest(pending: seq<Buf>, ghost ext: multiset<Buf>)
      requires Valid() && Refs(encoder.held + (ext + multiset(pending)))
      modifies packs.Repr
      ensures Valid() && Refs(encoder.held + ext)
    {
      if 0 < |pending| {
        ghost var rest := BufBag(arq.view) + (encoder.held + ext);
        assert packs.refs == multiset(pending) + rest;
        Flush(pending, rest);
      } else {
        assert ext + multiset(pending) == ext;
      }
    }

    // ----- removal by first number

    method FreePacket(b: Buf)
      requires Valid() && b in packs.refs
      modifies packs.Repr
      ensures Valid() && packs.refs == old(packs.refs) - multiset{b}
    {
      assert Open(Fold.Parts, 0);
      packs.ReferencedIsInPool(b);
      packs.FreeBuf(b);
    }

    /** PopArqNode, FreeTranBuf and FreeItem: the node leaves with its packet reference. */
    method Discard(cur: int, ghost k: nat, ghost ext: multiset<Buf>, ghost others: map<int, nat>)
      requires Valid() && Refs(ext) && Blocks(others) && k < |arq.addrs| && arq.addrs[k] == cur
      modifies arq, nodes.Repr, packs.Repr
      ensures Valid() && Refs(ext) && Blocks(others)
      ensures arq.view == L.RemoveAt(old(arq.view), k) && arq.addrs == L.RemoveAt(old(arq.addrs), k)
    {
      NodeAt(cur, k);
      BufBagRemove(arq.view, k);
      var b := arq.fields[cur].buf;
      PopNode(cur, k);
      OwnsLess(nodes.live, old(arq.addrs), others, k);
      FreePacket(b);
      ReturnNode(cur);
    }

    /** The state between two nodes of a pass through the list, closed like that of a walk. */
    ghost predicate Steady(cur: int, done: seq<Node>, todo: seq<Node>, ext: multiset<Buf>, others: map<int, nat>)
      reads this, arq, nodes, nodes.Repr, nodes.bitmap, nodes.usedFlag, nodes.quote, packs, packs.Repr
    {
      forall k: nat {:trigger Open(Fold.Walking, k)} :: Open(Fold.Walking, k) ==>
        Valid() && Refs(ext) && Blocks(others) && At(cur, done, todo)
    }

    lemma SteadyAt(cur: int, done: seq<Node>, todo: seq<Node>, ext: multiset<Buf>, others: map<int, nat>)
      requires Steady(cur, done, todo, ext, others)
      ensures cur == L.NULL <==> todo == []
      ensures cur != L.NULL ==> cur in arq.fields && arq.fields[cur] == todo[0]
    {
      assert Open(Fold.Walking, 0);
      if cur == L.NULL { EndAt(cur, done, todo); } else { NextAt(cur, done, todo); }
    }

    method DeleteOrPass(cur: int, listed: bool, ghost done: seq<Node>, ghost todo: seq<Node>,
                        ghost ext: multiset<Buf>, ghost others: map<int, nat>) returns (next: int)
      requires Steady(cur, done, todo, ext, others) && todo != []
      modifies arq, nodes.Repr, packs.Repr
      ensures Steady(next, if listed then done else done + [todo[0]], todo[1..], ext, others)
    {
      assert Open(Fold.Walking, 0);
      NextAt(cur, done, todo);
      Middle(done, todo, todo[0]);
      next := arq.nxt[cur];
      if listed { Discard(cur, |done|, ext, others); }
    }

    /** Its loop body. */
    method DeleteListed(cur: int, firsts: seq<nat>, ghost done: seq<Node>, ghost todo: seq<Node>,
                        ghost ext: multiset<Buf>, ghost others: map<int, nat>) returns (next: int)
      requires Steady(cur, done, todo, ext, others) && todo != []
      modifies arq, nodes.Repr, packs.Repr
      ensures Steady(next, if todo[0].firstSn in firsts then done else done + [todo[0]], todo[1..], ext, others)
    {
      SteadyAt(cur, done, todo, ext, others);
      var listed := JudgeIsExist(arq.fields[cur].firstSn, firsts);
      next := DeleteOrPass(cur, listed, done, todo, ext, others);
    }

    /** DelNodeByFirstSn: every node with a listed first number leaves, with its references. */
    method DelNodeByFirstSn(firsts: seq<nat>, ghost ext: multiset<Buf>, ghost others: map<int, nat>)
      requires Valid() && Refs(ext) && Blocks(others)
      modifies arq, nodes.Repr, packs.Repr
      ensures Valid() && Refs(ext) && Blocks(others)
      ensures arq.view == T.Unlisted(old(arq.view), firsts)
    {
      ghost var v := arq.view;
      ghost var i := 0;
      var cur := arq.head;
      StartAt();
      assert v[..0] == [] && v[0..] == v;
      while cur != L.NULL
        invariant i <= |v| && Steady(cur, T.Unlisted(v[..i], firsts), v[i..], ext, others)
        decreases |v| - i
      {
        ghost var done := T.Unlisted(v[..i], firsts);
        SteadyAt(cur, done, v[i..], ext, others);
        UnlistedSnoc(v, i, firsts);
        assert v[i..][1..] == v[i + 1..];
        cur := DeleteListed(cur, firsts, done, v[i..], ext, others);
        i := i + 1;
      }
      SteadyAt(cur, T.Unlisted(v[..i], firsts), v[i..], ext, others);
      assert v[..i] == v && Open(Fold.Walking, 0);
    }

    // ----- feedback packets

    /** ProcAck and ProcNack: the walk, then the removal of the retired packets' copies. */
    method ProcFeedback(fb: Feedback, env: nat -> Sent, ghost ext: multiset<Buf>, ghost others: map<int, nat>)
      requires Valid() && Refs(encoder.held + ext) && Blocks(others) && WellFormed(fb)
      modifies this`ackResends, arq, encoder, nodes.Repr, packs.Repr
      ensures Valid() && Refs(encoder.held + ext) && Blocks(others)
      ensures AllSmall(old(arq.view)) && maxRetran < 256
      ensures arq.view == T.AfterFeedback(old(arq.view), fb, Lim(), env, reserve)
    {
      if arq.head == L.NULL {
        StartAt();
        EndAt(arq.head, [], arq.view);
        return;
      }
      var firsts := FeedbackWalk(fb, env, ext, others);
      DelNodeByFirstSn(firsts, encoder.held + ext, others);
    }

    // ----- new nodes

    /** Append a node in a newly acquired block. */
    method AppendNode(a: int, n: Node)
      requires Valid() && a != L.NULL && a !in arq.addrs && Bounded(n, peak)
      modifies arq
      ensures Valid() && arq.view == old(arq.view) + [n] && arq.addrs == old(arq.addrs) + [a]
    {
      assert Open(Fold.Parts, 0);
      BoundedSnoc(arq.view, n, peak);
      arq.Write(a, n);
      arq.Push(a);
    }

    method AcquireBlock() returns (a: int)
      requires Valid()
      modifies nodes.Repr
      ensures Valid()
      ensures a == L.NULL <==> old(nodes.FreeBlocks()) == 0
      ensures a == L.NULL ==> nodes.live == old(nodes.live)
      ensures a != L.NULL ==>
        a !in old(nodes.live) && nodes.live == old(nodes.live)[a := 1] && nodes.FreeBlocks() == old(nodes.FreeBlocks()) - 1
    {
      assert Open(Fold.Parts, 0);
      a := nodes.Acquire();
    }

    method AcquireBuffer(len: nat) returns (b: Option<Buf>)
      requires Valid()
      modifies packs.Repr
      ensures Valid()
      ensures b.None? <==> old(packs.Spent(MemSpec(len)))
      ensures packs.refs == if b.Some? then old(packs.refs) + multiset{b.value} else old(packs.refs)
      ensures b.Some? ==> b.value !in old(packs.refs)
      ensures b.Some? && len < 65536 ==> b.value.cls < CLASSES && len < Payload(b.value.cls)
    {
      assert Open(Fold.Parts, 0);
      b := packs.MallocTranBuf(MemSpec(len));
    }

    /** CloneBoostNode: a copy of n in a buffer and a block of its own, if both can be had. */
    method CloneBoostNode(n: Node, ts: nat, ghost ext: multiset<Buf>, ghost others: map<int, nat>)
        returns (got: Option<Buf>)
      requires Valid() && Refs(ext) && Blocks(others) && SmallCounters(n)
      modifies arq, nodes.Repr, packs.Repr
      ensures Valid() && Refs(ext) && Blocks(others)
      ensures got.None? <==> old(packs.Spent(MemSpec(n.packLen))) || old(nodes.FreeBlocks()) == 0
      ensures arq.view == if got.None? then old(arq.view) else old(arq.view) + [Clone(n, got.value, ts)]
      ensures |arq.addrs| >= |old(arq.addrs)| && arq.addrs[..|old(arq.addrs)|] == old(arq.addrs)
    {
      got := AcquireBuffer(n.packLen);
      if got.None? { return; }
      var a := AcquireBlock();
      if a == L.NULL {
        FreePacket(got.value);
        return N.None;
      }
      OwnsMore(old(nodes.live), arq.addrs, others, a);
      assert packs.refs == BufBag(arq.view) + (ext + multiset{got.value});
      AdoptNode(a, Clone(n, got.value, ts), ext, others);
    }

    /** Append a node in a new block, with the reference at hand on its packet. */
    method AdoptNode(a: int, m: Node, ghost ext: multiset<Buf>, ghost others: map<int, nat>)
      requires Valid() && Refs(ext + multiset{m.buf}) && Owns(nodes.live, arq.addrs + [a], others)
      requires a != L.NULL && a !in arq.addrs && Bounded(m, peak)
      modifies arq
      ensures Valid() && Refs(ext) && Blocks(others)
      ensures arq.view == old(arq.view) + [m] && arq.addrs == old(arq.addrs) + [a]
    {
      BufBagSnoc(arq.view, m);
      AppendNode(a, m);
    }

    method AddReference(b: Buf)
      requires Valid() && 0 < packs.refs[b] < 32767
      modifies packs.Repr
      ensures Valid() && packs.refs == old(packs.refs) + multiset{b}
    {
      assert Open(Fold.Parts, 0);
      packs.ShareBuf(b);
    }

    method SetHasBoost(a: int, ghost k: nat, ghost ext: multiset<Buf>)
      requires Valid() && Refs(ext) && k < |arq.addrs| && arq.addrs[k] == a
      modifies arq`fields, arq`view
      ensures Valid() && Refs(ext)
      ensures arq.view == old(arq.view)[k := old(arq.view)[k].(hasBoost := true)]
    {
      assert Open(Fold.Parts, 0);
      ghost var v := arq.view;
      var m := arq.fields[a].(hasBoost := true);
      BufBagUpdate(v, k, m);
      assert AllBounded(v[k := m], peak);
      arq.Update(a, k, m);
    }

    function NewNode(p: Packet, firstSn: nat, ts: nat): Node
      reads this
    {
      MakeNode(p, firstSn, ts, maxBoost)
    }

    /** Put a packet into the list with one more reference on it. */
    method EnterPacket(n: Node, ghost ext: multiset<Buf>, ghost others: map<int, nat>) returns (a: int)
      requires Valid() && Refs(ext) && Blocks(others)
      requires n.buf in ext && packs.refs[n.buf] < 32767 && Bounded(n, peak)
      modifies arq, nodes.Repr, packs.Repr
      ensures Valid() && Refs(ext) && Blocks(others)
      ensures a == L.NULL <==> old(nodes.FreeBlocks()) == 0
      ensures arq.view == if a == L.NULL then old(arq.view) else old(arq.view) + [n]
      ensures a != L.NULL ==> arq.addrs == old(arq.addrs) + [a] && nodes.FreeBlocks() == old(nodes.FreeBlocks()) - 1
      ensures packs.refs == if a == L.NULL then old(packs.refs) else old(packs.refs) + multiset{n.buf}
    {
      a := AcquireBlock();
      if a == L.NULL { return; }
      OwnsMore(old(nodes.live), arq.addrs, others, a);
      BufBagSnoc(arq.view, n);
      AppendNode(a, n);
      AddReference(n.buf);
    }

    /** Clone the last node of the list, and mark it as cloned. */
    method BoostLast(a: int, n: Node, ts: nat, ghost ext: multiset<Buf>, ghost others: map<int, nat>)
        returns (got: Option<Buf>)
      requires Valid() && Refs(ext) && Blocks(others) && SmallCounters(n)
      requires arq.addrs != [] && a == arq.addrs[|arq.addrs| - 1] && n == arq.view[|arq.view| - 1]
      modifies arq, nodes.Repr, packs.Repr
      ensures Valid() && Refs(ext) && Blocks(others)
      ensures got.None? <==> old(packs.Spent(MemSpec(n.packLen))) || old(nodes.FreeBlocks()) == 0
      ensures arq.view == if got.None? then old(arq.view)
                          else old(arq.view)[..|old(arq.view)| - 1] + [n.(hasBoost := true), Clone(n, got.value, ts)]
    {
      ghost var v, s := arq.view, arq.addrs;
      got := CloneBoostNode(n, ts, ext, others);
      if got.Some? {
        PrefixLast(s, arq.addrs);
        MarkBoosted(a, n, Clone(n, got.value, ts), v, ext, others);
      }
    }

    method MarkBoosted(a: int, ghost n: Node, ghost clone: Node, ghost v: seq<Node>, ghost ext: multiset<Buf>,
                       ghost others: map<int, nat>)
      requires Valid() && Refs(ext) && Blocks(others) && v != [] && n == v[|v| - 1] && arq.view == v + [clone]
      requires |v| <= |arq.addrs| && arq.addrs[|v| - 1] == a
      modifies arq`fields, arq`view
      ensures Valid() && Refs(ext) && Blocks(others)
      ensures arq.view == v[..|v| - 1] + [n.(hasBoost := true), clone]
    {
      BoostedView(v, n, clone);
      SetHasBoost(a, |v| - 1, ext);
    }

    lemma NeverNegative()
      requires Valid()
      ensures nodes.FreeBlocks() >= 0
    {
      assert Open(Fold.Parts, 0);
      nodes.FreeBlocksMeans();
    }

    /** PacketEntryList: append a node that takes one more reference on the packet and, while
        boosting, a clone with a buffer of its own.  Without a free block nothing changes. */
    method PacketEntryList(p: Packet, firstSn: nat, ts: nat, ghost ext: multiset<Buf>, ghost others: map<int, nat>)
        returns (ok: bool, got: Option<Buf>)
      requires Valid() && Refs(ext) && Blocks(others)
      requires p.buf in ext && packs.refs[p.buf] < 32767 && p.repeat < 256
      modifies arq, nodes.Repr, packs.Repr
      ensures Valid() && Refs(ext) && Blocks(others)
      ensures ok <==> old(nodes.FreeBlocks()) > 0
      ensures ok ==> (got.Some? <==>
        boostSwitch && maxBoost > 0 && old(nodes.FreeBlocks()) > 1 && !old(packs.Spent(MemSpec(p.len))))
      ensures arq.view == old(arq.view) + Entered(NewNode(p, firstSn, ts), ts, ok, got)
      ensures |arq.view| == |old(arq.view)| + (if !ok then 0 else if got.Some? then 2 else 1)
      ensures ok ==>
        var threshold := if maxBoost == 0 then 3 else maxBoost;
        arq.view[|old(arq.view)|] == Node(p.buf, p.len, p.sn, firstSn, ts, p.repeat, threshold, false, false, false, got.Some?, 0)
    {
      NeverNegative();
      got := N.None;
      var n := NewNode(p, firstSn, ts);
      var a := EnterPacket(n, ext, others);
      assert packs.Spent(MemSpec(p.len)) == old(packs.Spent(MemSpec(p.len)));
      ok := a != L.NULL;
      if ok && boostSwitch && maxBoost != 0 { got := BoostLast(a, n, ts, ext, others); }
      EnteredIs(old(arq.view), n, ts, ok, got);
    }

    // ----- the retransmission timer

    /** TranFailedPostHandler's second round: the node, already out of the list, is
        retransmitted and appended behind its clone. */
    method SecondRoundNode(cur: int, n: Node, s: Sent, ghost ext: multiset<Buf>, ghost others: map<int, nat>)
        returns (got: Option<Buf>)
      requires Valid() && Refs(ext + multiset{n.buf}) && Blocks(others[cur := 1]) && cur !in others && cur != L.NULL
      requires Bounded(n, peak) && !n.boost && !n.tryAgain
      modifies arq, nodes.Repr, packs.Repr
      ensures Valid() && Refs(ext) && Blocks(others)
      ensures got.None? <==> old(packs.Spent(MemSpec(s.len))) || old(nodes.FreeBlocks()) == 0
      ensures got.None? ==> packs.refs == old(packs.refs)
      ensures arq.view == old(arq.view) + SecondRound(n, s, got)
      ensures |arq.addrs| > |old(arq.addrs)| && arq.addrs[..|old(arq.addrs)|] == old(arq.addrs)
    {
      var m := Retry(n, s);
      RetryBounded(n, s, peak);
      got := RejoinWithClone(cur, m, s.ts, ext, others);
      SecondRoundIs(old(arq.view), n, s, got);
    }

    method RejoinWithClone(cur: int, m: Node, ts: nat, ghost ext: multiset<Buf>, ghost others: map<int, nat>)
        returns (got: Option<Buf>)
      requires Valid() && Refs(ext + multiset{m.buf}) && Blocks(others[cur := 1]) && cur !in others && cur != L.NULL
      requires Bounded(m, peak) && Bounded(m.(hasBoost := true), peak) && SmallCounters(m)
      modifies arq, nodes.Repr, packs.Repr
      ensures Valid() && Refs(ext) && Blocks(others)
      ensures got.None? <==> old(packs.Spent(MemSpec(m.packLen))) || old(nodes.FreeBlocks()) == 0
      ensures got.None? ==> packs.refs == old(packs.refs)
      ensures arq.view == if got.None? then old(arq.view) + [m]
                          else old(arq.view) + [Clone(m, got.value, ts)] + [m.(hasBoost := true)]
      ensures |arq.addrs| > |old(arq.addrs)| && arq.addrs[..|old(arq.addrs)|] == old(arq.addrs)
    {
      got := CloneBoostNode(m, ts, ext + multiset{m.buf}, others[cur := 1]);
      Rejoin(cur, if got.Some? then m.(hasBoost := true) else m, ext, others);
    }

    /** A node that kept its block and its packet reference outside the list comes back. */
    method Rejoin(cur: int, m: Node, ghost ext: multiset<Buf>, ghost others: map<int, nat>)
      requires Valid() && Refs(ext + multiset{m.buf}) && Blocks(others[cur := 1]) && cur !in others && cur != L.NULL
      requires Bounded(m, peak)
      modifies arq
      ensures Valid() && Refs(ext) && Blocks(others)
      ensures arq.view == old(arq.view) + [m] && arq.addrs == old(arq.addrs) + [cur]
    {
      OwnsBack(nodes.live, arq.addrs, others, cur);
      BufBagSnoc(arq.view, m);
      AppendNode(cur, m);
    }

    method SweepRetry(cur: int, s: Sent, ghost w: Sweep, ghost ext: multiset<Buf>, ghost others: map<int, nat>)
        returns (next: int, got: Option<Buf>)
      requires Valid() && Refs(encoder.held + ext) && Blocks(others) && At(cur, w.done, w.todo) && w.todo != []
      requires !w.todo[0].boost && !w.todo[0].tryAgain
      modifies arq, encoder, nodes.Repr, packs.Repr
      ensures Valid() && Refs(encoder.held + ext) && Blocks(others)
      ensures var v := ArqSweep.Requeue(w, SecondRound(w.todo[0], s, got)); At(next, v.done, v.todo)
      ensures got.None? ==> packs.Spent(MemSpec(s.len)) || old(nodes.FreeBlocks()) == 0
    {
      var n;
      next, n := LendNode(cur, w, encoder.held + ext, others);
      ghost var a := arq.addrs;
      got := RetransmitAgain(cur, n, s, ext, others);
      BackAt(next, w, SecondRound(n, s, got), a);
    }

    /** The cursor after nodes were appended behind the rest. */
    lemma BackAt(next: int, w: Sweep, add: seq<Node>, a: seq<int>)
      requires Valid() && w.todo != [] && add != [] && arq.view == w.done + w.todo[1..] + add
      requires |a| == |w.done| + |w.todo| - 1 < |arq.addrs| && arq.addrs[..|a|] == a
      requires next == if |w.todo| == 1 then L.NULL else a[|w.done|]
      ensures var v := ArqSweep.Requeue(w, add); At(next, v.done, v.todo)
    {
      assert Open(Fold.Parts, 0);
      T.Associates(w.done, w.todo[1..], add);
      if |w.todo| > 1 { assert arq.addrs[..|a|][|w.done|] == arq.addrs[|w.done|]; }
    }

    /** Encode and append a node whose block and reference are at hand. */
    method RetransmitAgain(cur: int, n: Node, s: Sent, ghost ext: multiset<Buf>, ghost others: map<int, nat>)
        returns (got: Option<Buf>)
      requires Valid() && Refs(encoder.held + ext + multiset{n.buf})
      requires Blocks(others[cur := 1]) && cur !in others && cur != L.NULL
      requires Bounded(n, peak) && !n.boost && !n.tryAgain
      modifies arq, encoder, nodes.Repr, packs.Repr
      ensures Valid() && Refs(encoder.held + ext) && Blocks(others)
      ensures arq.view == old(arq.view) + SecondRound(n, s, got)
      ensures |arq.addrs| > |old(arq.addrs)| && arq.addrs[..|old(arq.addrs)|] == old(arq.addrs)
      ensures got.None? ==> packs.Spent(MemSpec(s.len)) || old(nodes.FreeBlocks()) == 0
    {
      EncodeOutside(s.fec, n.buf, ext);
      got := SecondRoundNode(cur, n, s, encoder.held + ext, others);
    }

    /** Take the cursor's node off the list, with its block and its reference, and move on. */
    method LendNode(cur: int, ghost w: Sweep, ghost ext: multiset<Buf>, ghost others: map<int, nat>)
        returns (next: int, n: Node)
      requires Valid() && Refs(ext) && Blocks(others) && At(cur, w.done, w.todo) && w.todo != []
      modifies arq
      ensures Valid() && Refs(ext + multiset{n.buf}) && Blocks(others[cur := 1]) && cur !in others && cur != L.NULL
      ensures n == w.todo[0] && Bounded(n, peak) && At(next, w.done, w.todo[1..])
    {
      ghost var k := |w.done|;
      NextAt(cur, w.done, w.todo);
      next := arq.nxt[cur];
      n := arq.fields[cur];
      NodeBounded(k);
      BufBagRemove(arq.view, k);
      Middle(w.done, w.todo, n);
      NotNull(k);
      PopNode(cur, k);
      OwnsLend(nodes.live, old(arq.addrs), others, k);
    }

    lemma NodeBounded(k: nat)
      requires Valid() && k < |arq.view|
      ensures Bounded(arq.view[k], peak)
    {
      assert Open(Fold.Parts, 0);
    }

    /** The encoding while the node to be resent is out of the list, with its reference. */
    method EncodeOutside(draws: seq<Draw>, b: Buf, ghost ext: multiset<Buf>)
      requires Valid() && Refs(encoder.held + ext + multiset{b})
      modifies encoder, packs.Repr
      ensures Valid() && Refs(encoder.held + ext + multiset{b})
      ensures encoder.Draws(draws, old(encoder.held), encoder.held, BufBag(arq.view) + (ext + multiset{b}))
    {
      Bags.Regroup(encoder.held, ext, multiset{b});
      EncodeFrame(draws, ext + multiset{b});
      Bags.Regroup(encoder.held, ext, multiset{b});
    }

    lemma NotNull(k: nat)
      requires Valid() && k < |arq.addrs|
      ensures arq.addrs[k] != L.NULL
    {
      assert Open(Fold.Parts, 0);
    }

    method SweepResend(cur: int, s: Sent, ghost w: Sweep, ghost ext: multiset<Buf>, ghost others: map<int, nat>)
        returns (next: int)
      requires Valid() && Refs(encoder.held + ext) && Blocks(others) && At(cur, w.done, w.todo) && w.todo != []
      requires !Exhausted(w.todo[0], maxRetran)
      modifies arq, encoder, packs.Repr
      ensures Valid() && Refs(encoder.held + ext) && Blocks(others)
      ensures var v := ArqSweep.Requeue(w, [Resent(w.todo[0], s)]); At(next, v.done, v.todo)
    {
      next := VisitSend(cur, s, Walk(w.done, w.todo, [], []), ext, others);
    }

    /** One pass through the loop body of CheckRtoRetran. */
    method SweepNode(cur: int, c: Clock, stream: bool, s: Sent, ghost w: Sweep,
                     ghost ext: multiset<Buf>, ghost others: map<int, nat>)
        returns (next: int, got: Option<Buf>, resent: bool)
      requires Steady(cur, w.done, w.todo, encoder.held + ext, others) && w.todo != []
      modifies arq, encoder, nodes.Repr, packs.Repr
      ensures var v := SweepVisit(w, maxRetran, stream, c, s, got);
        Steady(next, v.done, v.todo, encoder.held + ext, others) && v.sent == w.sent + if resent then 1 else 0
      ensures TranFailed(w.todo[0], maxRetran, c) && Retries(w.todo[0], stream) && got.None? ==>
        packs.Spent(MemSpec(s.len)) || old(nodes.FreeBlocks()) == 0
    {
      SteadyAt(cur, w.done, w.todo, encoder.held + ext, others);
      assert Open(Fold.Walking, 0);
      got, resent := N.None, false;
      var n, t := arq.fields[cur], s.(ts := c.now);
      if TranFailed(n, maxRetran, c) {
        if Retries(n, stream) {
          resent := true;
          next, got := SweepRetry(cur, t, w, ext, others);
        } else {
          next := DeleteOrPass(cur, true, w.done, w.todo, encoder.held + ext, others);
        }
      } else if Due(n, maxRetran, c) {
        resent := true;
        next := SweepResend(cur, t, w, ext, others);
      } else {
        next := DeleteOrPass(cur, false, w.done, w.todo, encoder.held + ext, others);
      }
    }

    /** CheckRtoRetran.  The sweep terminates; it is a run of the sweep on the node sequence,
        for the clones it could allocate, and stops where the run is over. */
    method CheckRtoRetran(c: Clock, algorithms: bool, stream: bool, env: nat -> Sent,
                          ghost ext: multiset<Buf>, ghost others: map<int, nat>)
        returns (ghost got: seq<Option<Buf>>)
      requires Valid() && Refs(encoder.held + ext) && Blocks(others)
      modifies arq, encoder, nodes.Repr, packs.Repr
      ensures Valid() && Refs(encoder.held + ext) && Blocks(others)
      ensures !algorithms ==> arq.view == []
      ensures algorithms ==>
        var w := RunSweep(old(arq.view), maxRetran, stream, c, env, got);
        arq.view == w.done + w.todo && SweepOver(w, c)
    {
      got := [];
      if !algorithms {
        ClearArqList(encoder.held + ext, others);
        return;
      }
      ghost var v, w := arq.view, Sweep([], arq.view, [], 0);
      var cur, sent := arq.head, 0;
      StartAt();
      SteadyAt(cur, w.done, w.todo, encoder.held + ext, others);
      while cur != L.NULL && c.now > arq.fields[cur].lastSend
        invariant Steady(cur, w.done, w.todo, encoder.held + ext, others)
        invariant cur == L.NULL <==> w.todo == []
        invariant cur != L.NULL ==> cur in arq.fields && arq.fields[cur] == w.todo[0]
        invariant w == RunSweep(v, maxRetran, stream, c, env, got) && sent == w.sent
        decreases Load(w.todo, stream, c.now)
      {
        var g, resent;
        cur, g, resent := SweepNode(cur, c, stream, env(sent), w, ext, others);
        SweepProgress(w, maxRetran, stream, c, env(sent), g);
        RunSweepSnoc(v, maxRetran, stream, c, env, got, g);
        w := SweepVisit(w, maxRetran, stream, c, env(sent), g);
        sent := sent + if resent then 1 else 0;
        got := got + [g];
        SteadyAt(cur, w.done, w.todo, encoder.held + ext, others);
      }
      assert Open(Fold.Walking, 0);
    }

    // ----- the whole list

    /** Free one node's packet and block while its link fields stay in place. */
    method FreeNode(cur: int, ghost i: nat, ghost ext: multiset<Buf>, ghost others: map<int, nat>) returns (next: int)
      requires Valid() && i < |arq.addrs| && cur == arq.addrs[i]
      requires packs.refs == BufBag(arq.view[i..]) + ext && Owns(nodes.live, arq.addrs[i..], others)
      modifies nodes.Repr, packs.Repr
      ensures Valid()
      ensures packs.refs == BufBag(arq.view[i + 1..]) + ext && Owns(nodes.live, arq.addrs[i + 1..], others)
      ensures next == L.After(arq.addrs, i)
    {
      ghost var v, a := arq.view[i..], arq.addrs[i..];
      DistinctTail(i);
      NextLink(cur, i);
      next := arq.nxt[cur];
      BufBagRemove(v, 0);
      OwnsLess(nodes.live, a, others, 0);
      assert L.RemoveAt(v, 0) == arq.view[i + 1..] && L.RemoveAt(a, 0) == arq.addrs[i + 1..];
      FreePacket(arq.fields[cur].buf);
      ReturnNode(cur);
    }

    lemma DistinctTail(i: nat)
      requires Valid() && i < |arq.addrs|
      ensures L.Distinct(arq.addrs[i..])
    {
      assert Open(Fold.Parts, 0);
    }

    lemma NextLink(cur: int, i: nat)
      requires Valid() && i < |arq.addrs| && cur == arq.addrs[i]
      ensures cur != L.NULL && cur in arq.nxt && cur in arq.fields
      ensures arq.nxt[cur] == L.After(arq.addrs, i) && arq.fields[cur] == arq.view[i]
    {
      assert Open(Fold.Parts, 0);
    }

    /** ClearArqList and PopAllPack: every node returns its packet reference and its block. */
    method ClearArqList(ghost ext: multiset<Buf>, ghost others: map<int, nat>)
      requires Valid() && Refs(ext) && Blocks(others)
      modifies arq, nodes.Repr, packs.Repr
      ensures Valid() && Refs(ext) && Blocks(others) && arq.view == []
    {
      ghost var i := 0;
      var cur := arq.head;
      StartAt();
      assert arq.view[0..] == arq.view && arq.addrs[0..] == arq.addrs;
      while cur != L.NULL
        invariant Valid() && i <= |arq.addrs|
        invariant cur == if i < |arq.addrs| then arq.addrs[i] else L.NULL
        invariant packs.refs == BufBag(arq.view[i..]) + ext && Owns(nodes.live, arq.addrs[i..], others)
        invariant unchanged(arq)
        decreases |arq.addrs| - i
      {
        cur := FreeNode(cur, i, ext, others);
        i := i + 1;
      }
      if i < |arq.addrs| { NotNull(i); }
      ResetList();
    }

    method ResetList()
      requires Valid()
      modifies arq
      ensures Valid() && arq.view == [] && arq.addrs == []
    {
      assert Open(Fold.Parts, 0);
      arq.Reset();
    }

    /** AdjustRetranTimes: max_retran_times_ is an 8-bit field. */
    method AdjustRetranTimes(times: nat)
      requires Valid()
      modifies this`maxRetran, this`peak
      ensures Valid() && maxRetran == times % 256 && peak == Max(old(peak), maxRetran)
    {
      maxRetran := times % 256;
      peak := Max(peak, maxRetran);
      forall i | 0 <= i < |arq.view| ensures Bounded(arq.view[i], peak) { assert Bounded(arq.view[i], old(peak)); }
    }

    /** LinkQualityCallback switches boosting and sets max_boost_times_, an 8-bit field. */
    method AdjustBoost(on: bool, times: nat)
      requires Valid()
      modifies this`boostSwitch, this`maxBoost
      ensures Valid() && boostSwitch == on && maxBoost == times % 256
    {
      boostSwitch, maxBoost := on, times % 256;
    }
  }

  lemma SecondRoundIs(v: seq<Node>, n: Node, s: Sent, got: Option<Buf>)
    ensures v + SecondRound(n, s, got) ==
      if got.None? then v + [Retry(n, s)] else v + [Clone(Retry(n, s), got.value, s.ts)] + [Retry(n, s).(hasBoost := true)]
  {
  }

  lemma BoostedView(v: seq<Node>, n: Node, clone: Node)
    requires v != [] && v[|v| - 1] == n
    ensures var k := |v| - 1;
      (v + [clone])[k] == n && (v + [clone])[k := n.(hasBoost := true)] == v[..k] + [n.(hasBoost := true), clone]
  {
  }

  lemma PrefixLast(s: seq<int>, t: seq<int>)
    requires s != [] && |s| <= |t| && t[..|s|] == s
    ensures t[|s| - 1] == s[|s| - 1]
  {
    assert t[..|s|][|s| - 1] == t[|s| - 1];
  }

  /** The list after a packet was entered. */
  lemma EnteredIs(v: seq<Node>, n: Node, ts: nat, ok: bool, got: Option<Buf>)
    ensures got.None? ==> v + Entered(n, ts, ok, got) == if ok then v + [n] else v
    ensures got.Some? && ok ==>
      v + Entered(n, ts, ok, got) == (v + [n])[..|v + [n]| - 1] + [n.(hasBoost := true), Clone(n, got.value, ts)]
    ensures ok ==> (v + Entered(n, ts, ok, got))[|v|] == if got.None? then n else n.(hasBoost := true)
  {
    assert (v + [n])[..|v|] == v;
  }

  lemma UnlistedSnoc(v: seq<Node>, i: nat, firsts: seq<nat>)
    requires i < |v|
    ensures T.Unlisted(v[..i + 1], firsts) ==
      if v[i].firstSn in firsts then T.Unlisted(v[..i], firsts) else T.Unlisted(v[..i], firsts) + [v[i]]
  {
    assert v[..i + 1] == v[..i] + [v[i]];
    T.UnlistedConcat(v[..i], [v[i]], firsts);
  }

  /** JudgeIsExist: a scan from both ends at once finds a number exactly when it is listed. */
  method JudgeIsExist(firstSn: nat, vec: seq<nat>) returns (exist: bool)
    ensures exist <==> firstSn in vec
  {
    var i, j := 0, |vec| - 1;
    while i <= j
      invariant 0 <= i && i + j == |vec| - 1 && i <= j + 2
      invariant forall k :: 0 <= k < |vec| && (k < i || k > j) ==> vec[k] != firstSn
    {
      if firstSn == vec[i] || firstSn == vec[j] { return true; }
      i, j := i + 1, j - 1;
    }
    return false;
  }

  /** CheckCurSnIsDiscard: a scan of the missing offsets. */
  method CheckCurSnIsDiscard(head: nat, offsets: seq<nat>, sn: nat) returns (found: bool)
    ensures found <==> Discarded(head, offsets, sn)
  {
    var loop := 0;
    while loop < |offsets|
      invariant loop <= |offsets|
      invariant forall i :: 0 <= i < loop ==> sn != (head + offsets[i]) % U32
    {
      if sn == (head + offsets[loop]) % U32 { return true; }
      loop := loop + 1;
    }
    return false;
  }

  /** The tests at the top of the walks' loop bodies: range, bitmap word or missing offsets, and
      the node's retransmission count. */
  method Decide(fb: Feedback, lim: Limits, n: Node) returns (act: Act)
    requires WellFormed(fb)
    ensures act == ActOn(fb, lim, n)
  {
    var span, rto := Span(fb.head, n.packSn), Span(fb.head, fb.rto);
    var last := if fb.AckMap? then Span(fb.head, fb.tail) else rto;
    var quick := true;
    if last < span {
      if lim.window >= span { return Halt; }
    } else if fb.AckMap? {
      if if fb.wide then AckedIn64(fb.bytes, span) else AckedIn32(fb.bytes, span) { return Drop(n); }
      quick := rto >= span;
    } else if fb.NackSome? {
      quick := CheckCurSnIsDiscard(fb.head, fb.offsets, n.packSn);
      if !quick { return Drop(n); }
    } else {
      return Drop(n);
    }
    if !quick { return Pass(n); }
    if !Exhausted(n, lim.maxRetran) { return Send; }
    act := if lim.reliable then Pass(n.(failedAck := true)) else Drop(n.(failedAck := true));
  }

  /** A visit is a step of the walk. */
  lemma Onward(w: Walk, fb: Feedback, lim: Limits, env: nat -> Sent)
    requires WellFormed(fb) && lim.maxRetran < 256 && AllSmall(w.todo) && !Finished(w, fb, lim)
    ensures var act := ActOn(fb, lim, w.todo[0]);
      var v := Visit(w, act, env(|w.sent|));
      && Lawful(act, w.todo[0], lim.maxRetran) && AllSmall(v.todo)
      && Budget(v.todo, lim.maxRetran) < Budget(w.todo, lim.maxRetran)
      && RunWalk(v, fb, lim, env) == RunWalk(w, fb, lim, env)
      && v.retired == (if act.Drop? then w.retired + [act.n] else w.retired)
      && |v.sent| == |w.sent| + (if act.Send? then 1 else 0)
  {
    var act := ActOn(fb, lim, w.todo[0]);
    ActIsLawful(fb, lim, w.todo[0]);
    VisitProgress(w, act, lim.maxRetran, env(|w.sent|));
  }

  /** What happens to a list when the node at the cursor is overwritten, removed or requeued. */
  lemma Middle(done: seq<Node>, todo: seq<Node>, m: Node)
    requires todo != []
    ensures (done + todo)[|done| := m] == done + [m] + todo[1..]
    ensures m == todo[0] ==> done + todo == done + [m] + todo[1..]
    ensures L.RemoveAt(done + todo, |done|) == done + todo[1..]
    ensures L.RemoveAt(done + todo, |done|) + [m] == done + (todo[1..] + [m])
    ensures |todo| == 1 ==> L.RemoveAt(done + todo, |done|) + [m] == done + [m] + []
  {
  }

  lemma TakeSnoc(s: seq<Node>, n: Node, r: nat)
    ensures T.Leading(T.Firsts(s + [n]), r) == if |T.Leading(T.Firsts(s), r)| < r then T.Leading(T.Firsts(s), r) + [n.firstSn]
                                            else T.Leading(T.Firsts(s), r)
  {
    assert T.Firsts(s + [n]) == T.Firsts(s) + [n.firstSn];
  }

  lemma BoundedIsSmall(s: seq<Node>, peak: nat)
    requires AllBounded(s, peak)
    ensures AllSmall(s)
  {
  }
}
