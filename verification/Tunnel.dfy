/** A session at work (src/session/goodtp_session.cpp): the retransmission list, the FEC cache,
    the FEC encoder and the rest of the program share the buffers of one packet pool. */
module Tunnel {
  import opened SizeClasses
  import opened PacketPool
  import opened ArqModel
  import opened ArqSweep
  import opened Encoder
  import opened Ledger
  import Arq
  import F = FecCache
  import T = ArqTheorems
  import N = NodePool
  import Bags
  import opened Folding

  /** What an event does to the cache, given the classes from which on no buffer is free: a copy
      fails exactly for want of memory, everything else is determined by the event. */
  predicate Logged(e: Event, cap: nat, spent: set<nat>, op: F.Op) {
    match e
    case Cache(b, sn, len, needNew) =>
      cap > 0 &&
      if !needNew then op == F.Push(sn % cap, b)
      else if MemSpec(len) in spent then op.Idle?
      else op.Push? && op.pos == sn % cap
    case Uncache(pos) => op == F.Pop(pos)
    case UncachePack(_, pos, _) => op == F.Pop(pos)
    case ClearArc(start, end) => start < cap && end < cap && op == F.Sweep(start, end)
    case FlushCache => op == F.Flush
    case _ => op == F.Idle
  }

  lemma LoggedInRing(e: Event, cap: nat, spent: set<nat>, op: F.Op)
    requires Logged(e, cap, spent, op)
    ensures F.InRing(op, cap)
  {
  }

  class Session {
    const arq: Arq.GtpArq
    const fec: F.Fec2Buffer
    var callers: multiset<Buf>       // the references held by the rest of the program
    var others: map<int, nat>        // the node blocks of other sessions

    ghost predicate Apart() {
      && fec.packs == arq.packs && arq.encoder.packs == arq.packs
      && {this, fec, fec.cache} !! (arq.nodes.Repr + arq.packs.Repr + {arq, arq.arq, arq.encoder})
      && {arq, arq.arq, arq.encoder} !! (arq.packs.Repr + arq.nodes.Repr) && arq.nodes.Repr !! arq.packs.Repr
      && {arq.nodes, arq.nodes.bitmap, arq.nodes.usedFlag, arq.nodes.quote} <= arq.nodes.Repr
    }

    /** Everybody's references except those of listed nodes and encoder, or those of the cache. */
    ghost function ForList(): multiset<Buf>
      reads this, fec, fec.cache
    {
      F.SlotBag(fec.cache[..]) + callers
    }

    ghost function ForCache(): multiset<Buf>
      reads this, arq, arq.arq, arq.encoder
    {
      Arq.BufBag(arq.arq.view) + arq.encoder.held + callers
    }

    /** The pool without the callers' references. */
    ghost function Rest(): multiset<Buf>
      reads arq, arq.arq, arq.encoder, fec, fec.cache
    {
      F.SlotBag(fec.cache[..]) + (Arq.BufBag(arq.arq.view) + arq.encoder.held)
    }

    /** Conservation: each reference belongs to exactly one listed node, one cache slot, the
        encoder or one holder elsewhere, and each node block in use to one listed node or
        another session. */
    ghost predicate Conserved()
      reads this, arq, arq.arq, arq.encoder, arq.nodes, arq.packs, fec, fec.cache
    {
      && arq.packs.refs == F.SlotBag(fec.cache[..]) + ForCache()
      && arq.Blocks(others)
    }

    ghost predicate Valid()
      reads this, arq, arq.arq, arq.encoder, fec, fec.cache, arq.nodes, arq.nodes.Repr, arq.nodes.bitmap,
            arq.nodes.usedFlag, arq.nodes.quote, arq.packs, arq.packs.Repr, fec.packs, fec.packs.Repr
    {
      && Apart() && fec.cache.Length > 0
      && forall k: nat {:trigger Open(Fold.Sides, k)} :: Open(Fold.Sides, k) ==> arq.Valid() && fec.Valid() && Conserved()
    }

    /** A session of a list and a cache on one packet pool, with the references others hold. */
    constructor (a: Arq.GtpArq, f: F.Fec2Buffer, outside: multiset<Buf>, blocks: map<int, nat>)
      requires a.Valid() && f.Valid() && f.packs == a.packs && f.cache.Length > 0
      requires {f, f.cache} !! (a.nodes.Repr + a.packs.Repr)
      requires a.Refs(a.encoder.held + (F.SlotBag(f.cache[..]) + outside)) && a.Blocks(blocks)
      ensures Valid() && arq == a && fec == f && callers == outside && others == blocks
    {
      arq, fec, callers, others := a, f, outside, blocks;
      new;
      assert Open(Fold.Parts, 0);
      AfterList();
    }

    /** A new session on pools that others may already use. */
    static method Start(nodePool: N.GtpMemPool, packPool: TranMemPool, outside: multiset<Buf>, blocks: map<int, nat>,
                        capacity: nat, rel: bool, win: nat, rsv: nat, per: nat, limit: nat, boost: nat) returns (t: Session)
      requires nodePool.Valid() && nodePool.Conserved() && packPool.Valid() && nodePool.Repr !! packPool.Repr
      requires packPool.refs == outside && nodePool.live == blocks && capacity > 0 && per > 0 && limit <= 255 && boost <= 255
      ensures t.Valid() && t.callers == outside && t.arq.arq.view == [] && t.fec.cache.Length == capacity
      ensures forall i :: 0 <= i < capacity ==> t.fec.cache[i].None?
    {
      var f := new F.Fec2Buffer(packPool, capacity);
      F.NoneOccupied(f.cache[..]);
      var a := NewList(nodePool, packPool, rel, win, rsv, per, limit, boost);
      assert a.encoder.held + (F.SlotBag(f.cache[..]) + outside) == outside;
      t := new Session(a, f, outside, blocks);
    }

    /** A list with an encoder of its own. */
    static method NewList(nodePool: N.GtpMemPool, packPool: TranMemPool,
                          rel: bool, win: nat, rsv: nat, per: nat, limit: nat, boost: nat) returns (a: Arq.GtpArq)
      requires nodePool.Valid() && nodePool.Conserved() && packPool.Valid() && nodePool.Repr !! packPool.Repr
      requires per > 0 && limit <= 255 && boost <= 255
      ensures a.Valid() && a.arq.addrs == [] && a.Refs(packPool.refs) && a.Blocks(nodePool.live)
      ensures a.nodes == nodePool && a.packs == packPool && a.encoder.held == multiset{}
      ensures fresh(a) && fresh(a.arq) && fresh(a.encoder)
    {
      var enc := new FecEncoder(packPool);
      a := new Arq.GtpArq(nodePool, packPool, enc, rel, win, rsv, per, limit, boost);
    }

    /** The list and its limits, for the books. */
    ghost function Now(): Moment
      reads arq, arq.arq, arq.nodes, arq.packs
    {
      Moment(arq.arq.view, arq.Lim(), arq.boostSwitch, arq.maxBoost, arq.nodes.FreeBlocks(),
             set c: nat | c < CLASSES && arq.packs.Spent(c))
    }

    // ----- one side works while the others rest

    /** What holds of the cache and of the list whatever happens to the packet pool. */
    ghost predicate CacheAlone()
      reads fec, fec.cache
    {
      forall k: nat {:trigger Open(Fold.Sides, k)} :: Open(Fold.Sides, k) ==>
        fec.Shape() && fec.packNum == F.Occupied(fec.cache[..])
    }

    ghost predicate ListAlone()
      reads this`others, arq, arq.arq, arq.nodes, arq.nodes.Repr, arq.nodes.bitmap, arq.nodes.usedFlag, arq.nodes.quote
    {
      forall k: nat {:trigger Open(Fold.Sides, k)} :: Open(Fold.Sides, k) ==>
        && arq.Shape() && arq.nodes.Valid() && arq.nodes.Conserved() && arq.arq.Valid()
        && |arq.arq.view| == |arq.arq.addrs| && AllBounded(arq.arq.view, arq.peak)
        && arq.Blocks(others)
    }

    lemma OpenList()
      requires Valid()
      ensures CacheAlone() && arq.Valid() && arq.Refs(arq.encoder.held + ForList()) && arq.Blocks(others)
    {
      assert Open(Fold.Sides, 0);
      Shuffle(Arq.BufBag(arq.arq.view), F.SlotBag(fec.cache[..]), arq.encoder.held);
    }

    lemma OpenCache()
      requires Valid()
      ensures ListAlone() && fec.Valid() && fec.Refs(ForCache())
    {
      assert Open(Fold.Sides, 0) && Open(Fold.Parts, 0);
    }

    lemma OpenPool()
      requires Valid()
      ensures CacheAlone() && ListAlone() && arq.packs.Valid()
      ensures arq.packs.refs == Rest() + callers
    {
      assert Open(Fold.Sides, 0) && Open(Fold.Parts, 0);
      Bags.Regroup(F.SlotBag(fec.cache[..]), Arq.BufBag(arq.arq.view) + arq.encoder.held, callers);
    }

    lemma Shuffle(list: multiset<Buf>, slots: multiset<Buf>, enc: multiset<Buf>)
      ensures slots + (list + enc + callers) == list + (enc + (slots + callers))
    {
    }

    lemma AfterList()
      requires Apart() && CacheAlone() && fec.cache.Length > 0
      requires arq.Valid() && arq.Refs(arq.encoder.held + ForList()) && arq.Blocks(others)
      ensures Valid()
    {
      assert Open(Fold.Parts, 0) && Open(Fold.Sides, 0);
      Shuffle(Arq.BufBag(arq.arq.view), F.SlotBag(fec.cache[..]), arq.encoder.held);
    }

    lemma AfterCache()
      requires Apart() && ListAlone() && fec.cache.Length > 0 && fec.Valid() && fec.Refs(ForCache())
      ensures Valid()
    {
      assert Open(Fold.Sides, 0);
    }

    lemma AfterPool()
      requires Apart() && CacheAlone() && ListAlone() && fec.cache.Length > 0 && arq.packs.Valid()
      requires arq.packs.refs == Rest() + callers
      ensures Valid()
    {
      assert Open(Fold.Sides, 0);
      Bags.Regroup(F.SlotBag(fec.cache[..]), Arq.BufBag(arq.arq.view) + arq.encoder.held, callers);
    }

    // ----- the list

    /** A packet is appended, with a clone while boosting, or nothing changes. */
    method Enter(p: Arq.Packet, firstSn: nat, ts: nat) returns (ok: bool, got: Option<Buf>)
      requires Valid() && p.buf in callers && arq.packs.Room(p.buf) && p.repeat < 256
      modifies arq.arq, arq.nodes.Repr, arq.packs.Repr
      ensures Valid()
      ensures var n := arq.NewNode(p, firstSn, ts);
        arq.arq.view == old(arq.arq.view) + Arq.Entered(n, ts, ok, got)
      ensures ok <==> old(Now()).free != 0
      ensures ok ==> (got.Some? <==> arq.boostSwitch && arq.maxBoost > 0 && old(Now()).free > 1 && MemSpec(p.len) !in old(Now()).spent)
    {
      OpenPool();
      OpenList();
      arq.NeverNegative();
      arq.packs.RoomMeans(p.buf);
      ok, got := arq.PacketEntryList(p, firstSn, ts, arq.encoder.held + ForList(), others);
      AfterList();
    }

    method Report(fb: Feedback, env: nat -> Sent)
      requires Valid() && WellFormed(fb)
      modifies arq`ackResends, arq.arq, arq.encoder, arq.nodes.Repr, arq.packs.Repr
      ensures Valid()
      ensures AllSmall(old(arq.arq.view)) && arq.maxRetran < 256
      ensures arq.arq.view == T.AfterFeedback(old(arq.arq.view), fb, arq.Lim(), env, arq.reserve)
    {
      OpenList();
      arq.ProcFeedback(fb, env, ForList(), others);
      AfterList();
    }

    method Timer(c: Clock, algorithms: bool, stream: bool, env: nat -> Sent) returns (ghost got: seq<Option<Buf>>)
      requires Valid()
      modifies arq.arq, arq.encoder, arq.nodes.Repr, arq.packs.Repr
      ensures Valid()
      ensures !algorithms ==> arq.arq.view == []
      ensures algorithms ==>
        var w := RunSweep(old(arq.arq.view), arq.maxRetran, stream, c, env, got);
        arq.arq.view == w.done + w.todo && SweepOver(w, c)
    {
      OpenList();
      got := arq.CheckRtoRetran(c, algorithms, stream, env, ForList(), others);
      AfterList();
    }

    method AdjustLimit(times: nat)
      requires Valid()
      modifies arq`maxRetran, arq`peak
      ensures Valid() && arq.maxRetran == times % 256
    {
      OpenList();
      arq.AdjustRetranTimes(times);
      AfterList();
    }

    method AdjustBoost(on: bool, times: nat)
      requires Valid()
      modifies arq`boostSwitch, arq`maxBoost
      ensures Valid() && arq.boostSwitch == on && arq.maxBoost == times % 256
    {
      OpenList();
      arq.AdjustBoost(on, times);
      AfterList();
    }

    /** The encoding of a frame sent for the first time. */
    method Encode(draws: seq<Draw>)
      requires Valid()
      modifies arq.encoder, arq.packs.Repr
      ensures Valid()
      ensures arq.encoder.Draws(draws, old(arq.encoder.held), arq.encoder.held, Arq.BufBag(arq.arq.view) + ForList())
    {
      OpenList();
      arq.EncodeFrame(draws, ForList());
      AfterList();
    }

    /** Another session takes a block of the shared node pool, if there is one. */
    method OtherTakes()
      requires Valid()
      modifies this`others, arq.nodes.Repr
      ensures Valid()
      ensures if old(Now()).free == 0 then others == old(others) else exists a :: a !in old(others) && others == old(others)[a := 1]
    {
      OpenList();
      ghost var live := arq.nodes.live;
      var a := arq.AcquireBlock();
      if a != N.NULL {
        Arq.OwnsElsewhere(live, arq.arq.addrs, others, a);
        others := others[a := 1];
      }
      AfterList();
    }

    /** Another session returns a block of its own. */
    method OtherReturns(a: int)
      requires Valid() && a in others && others[a] == 1
      modifies this`others, arq.nodes.Repr
      ensures Valid() && others == old(others) - {a}
    {
      OpenList();
      Arq.OwnsNoMore(arq.nodes.live, arq.arq.addrs, others, a);
      arq.ReturnNode(a);
      others := others - {a};
      AfterList();
    }

    // ----- the cache

    method Cache(b: Buf, sn: nat, len: nat, needNew: bool) returns (ghost op: F.Op)
      requires Valid() && sn < U32 && (!needNew ==> b in callers && arq.packs.Room(b))
      modifies fec, fec.cache, arq.packs.Repr
      ensures Valid()
      ensures Logged(Event.Cache(b, sn, len, needNew), fec.cache.Length, old(Now()).spent, op)
      ensures fec.cache[..] == F.Effect(old(fec.cache[..]), op)
    {
      OpenCache();
      if !needNew {
        OpenPool();
        arq.packs.RoomMeans(b);
      }
      var r := fec.PushPack(b, sn, len, needNew, ForCache());
      op := if r.Some? then F.Push(sn % fec.cache.Length, r.value) else F.Idle;
      AfterCache();
    }

    method Uncache(pos: nat)
      requires Valid()
      modifies fec`packNum, fec.cache, arq.packs.Repr
      ensures Valid()
      ensures fec.cache[..] == F.Effect(old(fec.cache[..]), F.Pop(pos))
    {
      OpenCache();
      fec.PopAt(pos, ForCache());
      AfterCache();
    }

    /** The caller's own reference goes with it unless the slot holds that very pointer. */
    method UncachePack(b: Buf, pos: nat, same: bool)
      requires Valid() && (same ==> pos < fec.cache.Length && fec.cache[..][pos] == N.Some(b))
      requires pos < fec.cache.Length && !same ==> b in callers
      modifies this`callers, fec`packNum, fec.cache, arq.packs.Repr
      ensures Valid()
      ensures callers == if pos < fec.cache.Length && !same then old(callers) - multiset{b} else old(callers)
      ensures fec.cache[..] == F.Effect(old(fec.cache[..]), F.Pop(pos))
    {
      OpenCache();
      if pos < fec.cache.Length && !same {
        Bags.Lend(Arq.BufBag(arq.arq.view) + arq.encoder.held, callers, b);
        callers := callers - multiset{b};
        PopOther(b, pos);
      } else if same {
        PopOwn(b, pos);
      } else {
        PopOutside(b, pos);
      }
    }

    method PopOwn(b: Buf, pos: nat)
      requires Apart() && ListAlone() && fec.cache.Length > 0 && fec.Valid() && fec.Refs(ForCache())
      requires pos < fec.cache.Length && fec.cache[..][pos] == N.Some(b)
      modifies fec`packNum, fec.cache, arq.packs.Repr
      ensures Valid()
      ensures fec.cache[..] == F.Effect(old(fec.cache[..]), F.Pop(pos))
    {
      fec.PopPack(b, pos, true, ForCache());
      AfterCache();
    }

    method PopOutside(b: Buf, pos: nat)
      requires Apart() && ListAlone() && fec.cache.Length > 0 && fec.Valid() && fec.Refs(ForCache())
      requires pos >= fec.cache.Length
      modifies fec`packNum, fec.cache, arq.packs.Repr
      ensures Valid()
      ensures fec.cache[..] == F.Effect(old(fec.cache[..]), F.Pop(pos))
    {
      fec.PopPack(b, pos, false, ForCache());
      AfterCache();
    }

    method PopOther(b: Buf, pos: nat)
      requires Apart() && ListAlone() && fec.cache.Length > 0 && fec.Valid() && fec.Refs(ForCache() + multiset{b})
      requires pos < fec.cache.Length
      modifies fec`packNum, fec.cache, arq.packs.Repr
      ensures Valid()
      ensures fec.cache[..] == F.Effect(old(fec.cache[..]), F.Pop(pos))
    {
      fec.PopPack(b, pos, false, ForCache());
      AfterCache();
    }

    method ClearArc(start: nat, end: nat)
      requires Valid() && start < fec.cache.Length && end < fec.cache.Length
      modifies fec`packNum, fec.cache, arq.packs.Repr
      ensures Valid()
      ensures fec.cache[..] == F.Effect(old(fec.cache[..]), F.Sweep(start, end))
    {
      OpenCache();
      fec.Clear(start, end, ForCache());
      AfterCache();
    }

    method FlushCache()
      requires Valid()
      modifies fec`packNum, fec.cache, arq.packs.Repr
      ensures Valid() && fec.cache[..] == F.Effect(old(fec.cache[..]), F.Flush)
    {
      OpenCache();
      fec.PopAllPack(ForCache());
      AfterCache();
    }

    // ----- the callers' own references

    method Obtain(kind: nat) returns (r: Option<Buf>)
      requires Apart() && CacheAlone() && ListAlone() && arq.packs.Valid()
      modifies arq.packs.Repr
      ensures Apart() && CacheAlone() && ListAlone() && arq.packs.Valid()
      ensures arq.packs.refs == if r.Some? then old(arq.packs.refs) + multiset{r.value} else old(arq.packs.refs)
      ensures r.Some? ==> r.value !in old(arq.packs.refs)
      ensures r.Some? <==> kind < CLASSES && kind !in old(Now()).spent
    {
      r := arq.packs.MallocTranBuf(kind);
    }

    method Malloc(kind: nat) returns (r: Option<Buf>)
      requires Valid()
      modifies this`callers, arq.packs.Repr
      ensures Valid()
      ensures callers == if r.Some? then old(callers) + multiset{r.value} else old(callers)
      ensures r.Some? ==> r.value !in old(callers)
      ensures r.Some? <==> kind < CLASSES && kind !in old(Now()).spent
    {
      OpenPool();
      ghost var refs := arq.packs.refs;
      r := Obtain(kind);
      if r.Some? {
        Bags.Gain(refs, Rest(), callers, r.value);
        callers := callers + multiset{r.value};
      }
      AfterPool();
    }

    method Share(b: Buf)
      requires Valid() && b in callers && arq.packs.Room(b)
      modifies this`callers, arq.packs.Repr
      ensures Valid() && callers == old(callers) + multiset{b}
    {
      OpenPool();
      arq.packs.RoomMeans(b);
      Bags.Gain(arq.packs.refs, Rest(), callers, b);
      arq.packs.ShareBuf(b);
      callers := callers + multiset{b};
      AfterPool();
    }

    method Free(b: Buf)
      requires Valid() && b in callers
      modifies this`callers, arq.packs.Repr
      ensures Valid() && callers == old(callers) - multiset{b}
    {
      OpenPool();
      arq.packs.ReferencedIsInPool(b);
      Bags.GiveUp(arq.packs.refs, Rest(), callers, b);
      arq.packs.FreeBuf(b);
      callers := callers - multiset{b};
      AfterPool();
    }

    // ----- whole runs

    /** Callers only use references they hold, and no count is pushed past its 16 bits. */
    predicate Possible(e: Event)
      reads this, fec, fec.cache, arq, arq.packs, arq.packs.pools,
            set c: nat | c < |arq.packs.pools| :: arq.packs.pools[c].refCount
    {
      match e
      case Share(b) => b in callers && arq.packs.Room(b)
      case Free(b) => b in callers
      case Enter(p, _, _) => p.buf in callers && arq.packs.Room(p.buf) && p.repeat < 256
      case Report(fb, _) => WellFormed(fb)
      case Cache(b, sn, _, needNew) => sn < U32 && (needNew || (b in callers && arq.packs.Room(b)))
      case UncachePack(b, pos, same) =>
        if same then pos < fec.cache.Length && fec.cache[pos] == N.Some(b) else pos < fec.cache.Length ==> b in callers
      case ClearArc(start, end) => start < fec.cache.Length && end < fec.cache.Length
      case OtherReturns(a) => a in others && others[a] == 1
      case _ => true
    }

    /** What an event does to the callers' references. */
    predicate Settles(e: Event, before: multiset<Buf>, after: multiset<Buf>, spent: set<nat>, r: Option<Buf>)
      reads fec
    {
      match e
      case Malloc(kind) =>
        && after == (if r.Some? then before + multiset{r.value} else before) && (r.Some? ==> r.value !in before)
        && (r.Some? <==> kind < CLASSES && kind !in spent)
      case Share(b) => after == before + multiset{b}
      case Free(b) => after == before - multiset{b}
      case UncachePack(b, pos, same) => after == if pos < fec.cache.Length && !same then before - multiset{b} else before
      case _ => after == before
    }

    predicate OfList(e: Event) {
      e.Enter? || e.Report? || e.Timer? || e.AdjustLimit? || e.AdjustBoost?
    }

    predicate OfSide(e: Event) { e.Encode? || e.OtherTakes? || e.OtherReturns? }

    predicate OfCache(e: Event) { e.Cache? || e.Uncache? || e.UncachePack? || e.ClearArc? || e.FlushCache? }

    /** What an event does to the encoder's references and to the blocks of other sessions. */
    ghost predicate Beside(e: Event, free: int, held: multiset<Buf>, held': multiset<Buf>, rest: multiset<Buf>,
                           before: map<int, nat>, after: map<int, nat>)
      reads arq
    {
      match e
      case Encode(draws) => arq.encoder.Draws(draws, held, held', rest) && after == before
      case OtherTakes =>
        held' == held && if free == 0 then after == before else exists a :: a !in before && after == before[a := 1]
      case OtherReturns(a) => held' == held && after == before - {a}
      case _ => false
    }

    method ListStep(e: Event) returns (ghost r: Option<Buf>, ghost got: seq<Option<Buf>>)
      requires Valid() && Possible(e) && OfList(e)
      modifies arq, arq.arq, arq.encoder, arq.nodes.Repr, arq.packs.Repr
      ensures Valid() && Booked(e, old(Now()), Now(), arq.reserve, r, got)
      ensures e.Report? || e.Timer? || arq.encoder.held == old(arq.encoder.held)
      ensures fec.cache[..] == old(fec.cache[..])
    {
      r, got := N.None, [];
      match e {
        case Enter(p, firstSn, ts) => var ok; ok, r := Enter(p, firstSn, ts);
        case Report(fb, env) => Report(fb, env);
        case Timer(c, algorithms, stream, env) => got := Timer(c, algorithms, stream, env);
        case AdjustLimit(times) => AdjustLimit(times);
        case AdjustBoost(on, times) => AdjustBoost(on, times);
      }
    }

    method SideStep(e: Event)
      requires Valid() && Possible(e) && OfSide(e)
      modifies this`others, arq.encoder, arq.nodes.Repr, arq.packs.Repr
      ensures Valid() && Beside(e, old(Now()).free, old(arq.encoder.held), arq.encoder.held,
                                old(Arq.BufBag(arq.arq.view) + ForList()), old(others), others)
      ensures fec.cache[..] == old(fec.cache[..]) && Now().With(old(Now())) == old(Now())
    {
      match e {
        case Encode(draws) => Encode(draws);
        case OtherTakes => OtherTakes();
        case OtherReturns(a) => OtherReturns(a);
      }
    }

    method CacheStep(e: Event) returns (ghost op: F.Op)
      requires Valid() && Possible(e) && OfCache(e)
      modifies this`callers, fec, fec.cache, arq.packs.Repr
      ensures Valid() && Settles(e, old(callers), callers, old(Now()).spent, N.None)
      ensures Logged(e, fec.cache.Length, old(Now()).spent, op) && fec.cache[..] == F.Effect(old(fec.cache[..]), op)
    {
      match e {
        case Cache(b, sn, len, needNew) => op := Cache(b, sn, len, needNew);
        case Uncache(pos) => Uncache(pos); op := F.Pop(pos);
        case UncachePack(b, pos, same) => UncachePack(b, pos, same); op := F.Pop(pos);
        case ClearArc(start, end) => ClearArc(start, end); op := F.Sweep(start, end);
        case FlushCache => FlushCache(); op := F.Flush;
      }
    }

    method PoolStep(e: Event) returns (ghost r: Option<Buf>)
      requires Valid() && Possible(e) && !OfList(e) && !OfSide(e) && !OfCache(e)
      modifies this`callers, arq.packs.Repr
      ensures Valid() && Settles(e, old(callers), callers, old(Now()).spent, r)
      ensures arq.encoder.held == old(arq.encoder.held) && fec.cache[..] == old(fec.cache[..]) && Now().With(old(Now())) == old(Now())
    {
      r := N.None;
      match e {
        case Malloc(kind) => r := Malloc(kind);
        case Share(b) => Share(b);
        case Free(b) => Free(b);
      }
    }

    /** A list and limits that are as they were. */
    lemma ListStands(m: Moment)
      requires arq.arq.view == m.list && arq.Lim() == m.lim && arq.boostSwitch == m.boosting && arq.maxBoost == m.boost
      ensures Now().With(m) == m
    {
    }

    method RestStep(e: Event) returns (ghost op: F.Op, ghost r: Option<Buf>)
      requires Valid() && Possible(e) && !OfList(e)
      modifies this`callers, this`others, arq.encoder, fec, fec.cache, arq.nodes.Repr, arq.packs.Repr
      ensures Valid()
      ensures Logged(e, fec.cache.Length, old(Now()).spent, op) && fec.cache[..] == F.Effect(old(fec.cache[..]), op)
      ensures Settles(e, old(callers), callers, old(Now()).spent, r)
      ensures Now().With(old(Now())) == old(Now())
      ensures OfSide(e) ==> Beside(e, old(Now()).free, old(arq.encoder.held), arq.encoder.held,
                                   old(Arq.BufBag(arq.arq.view) + ForList()), old(others), others)
      ensures !OfSide(e) ==> others == old(others) && arq.encoder.held == old(arq.encoder.held)
    {
      op, r := F.Idle, N.None;
      if OfSide(e) {
        SideStep(e);
      } else if OfCache(e) {
        op := CacheStep(e);
        ListStands(old(Now()));
      } else {
        r := PoolStep(e);
      }
    }

    /** One event.  Conservation holds after it; list, cache, callers, encoder and other sessions
        change as the event says and on events of their own only, but for the encoder, which also
        works for retransmissions. */
    method Step(e: Event) returns (ghost op: F.Op, ghost r: Option<Buf>, ghost got: seq<Option<Buf>>)
      requires Valid() && Possible(e)
      modifies this`callers, this`others, arq, arq.arq, arq.encoder, fec, fec.cache, arq.nodes.Repr, arq.packs.Repr
      ensures Valid()
      ensures Logged(e, fec.cache.Length, old(Now()).spent, op) && fec.cache[..] == F.Effect(old(fec.cache[..]), op)
      ensures Settles(e, old(callers), callers, old(Now()).spent, r)
      ensures Booked(e, old(Now()), Now(), arq.reserve, r, got)
      ensures OfSide(e) ==> Beside(e, old(Now()).free, old(arq.encoder.held), arq.encoder.held,
                                   old(Arq.BufBag(arq.arq.view) + ForList()), old(others), others)
      ensures !OfSide(e) ==> others == old(others) && (e.Report? || e.Timer? || arq.encoder.held == old(arq.encoder.held))
    {
      op, r, got := F.Idle, N.None, [];
      if OfList(e) {
        r, got := ListStep(e);
      } else {
        op, r := RestStep(e);
        Stutters(e, old(Now()), Now(), arq.reserve, r, got);
      }
    }

    /** Whole runs.  The events happen in order up to the first impossible one; after each of
        them every reference and every block in use has exactly one owner, the pools' own
        statistics are exact, the list is well linked and no node has been resent more often
        than its limits allow; the cache is what the logged operations make of it; and the list has
        the history the books speak about. */
    method Run(events: seq<Event>) returns (n: nat, ghost log: seq<F.Op>, ghost h: seq<Moment>)
      requires Valid()
      modifies this`callers, this`others, arq, arq.arq, arq.encoder, fec, fec.cache, arq.nodes.Repr, arq.packs.Repr
      ensures Valid() && n <= |events| && (n < |events| ==> !Possible(events[n]))
      ensures AllLogged(events, fec.cache.Length, h, log, n)
      ensures F.AllInRing(log, fec.cache.Length) && fec.cache[..] == F.Play(old(fec.cache[..]), log)
      ensures History(h, events[..n], arq.reserve) && h[0] == old(Now()) && h[n] == Now()
    {
      n, log, h := 0, [], [Now()];
      ghost var s := fec.cache[..];
      while n < |events| && Possible(events[n])
        invariant Valid() && n <= |events|
        invariant AllLogged(events, fec.cache.Length, h, log, n)
        invariant F.AllInRing(log, fec.cache.Length) && fec.cache[..] == F.Play(s, log)
        invariant History(h, events[..n], arq.reserve) && h[0] == old(Now()) && h[n] == Now()
      {
        ghost var m := Now();
        ghost var op, r, got := Step(events[n]);
        Entry(h, events, n, arq.reserve, m, Now(), r, got);
        h := h + [Now()];
        LogGrows(events, fec.cache.Length, h, log, n, op);
        LoggedInRing(events[n], fec.cache.Length, m.spent, op);
        F.PlaySnoc(s, log, op);
        log := log + [op];
        n := n + 1;
      }
    }

    /** Each operation on the ring is the one its event asks for. */
    ghost predicate AllLogged(events: seq<Event>, cap: nat, h: seq<Moment>, log: seq<F.Op>, n: nat) {
      && |h| == n + 1 && |log| == n <= |events|
      && forall i :: 0 <= i < n ==> Logged(events[i], cap, h[i].spent, log[i])
    }

    lemma LogGrows(events: seq<Event>, cap: nat, h: seq<Moment>, log: seq<F.Op>, n: nat, op: F.Op)
      requires |h| == n + 2 && n < |events| && AllLogged(events, cap, h[..n + 1], log, n)
      requires Logged(events[n], cap, h[n].spent, op)
      ensures AllLogged(events, cap, h, log + [op], n + 1)
    {
      assert forall i :: 0 <= i < n ==> h[..n + 1][i] == h[i];
    }

    /** One more line in the books. */
    lemma Entry(h: seq<Moment>, events: seq<Event>, n: nat, reserve: nat, m: Moment, m': Moment, r: Option<Buf>, got: seq<Option<Buf>>)
      requires n < |events| && History(h, events[..n], reserve) && h[n] == m && Booked(events[n], m, m', reserve, r, got)
      ensures History(h + [m'], events[..n + 1], reserve)
    {
      assert events[..n + 1] == events[..n] + [events[n]];
      HistoryGrows(h, events[..n], reserve, events[n], m');
    }

    method CloseList()
      requires Valid()
      modifies arq.arq, arq.nodes.Repr, arq.packs.Repr
      ensures Valid() && arq.arq.view == []
    {
      OpenList();
      arq.ClearArqList(arq.encoder.held + ForList(), others);
      AfterList();
    }

    method CloseCache()
      requires Valid()
      modifies fec`packNum, fec.cache, arq.packs.Repr
      ensures Valid() && F.SlotBag(fec.cache[..]) == multiset{}
    {
      FlushCache();
      F.NoneOccupied(fec.cache[..]);
    }

    lemma NothingHeld()
      requires Valid() && arq.arq.view == [] && F.SlotBag(fec.cache[..]) == multiset{}
      ensures arq.packs.refs == arq.encoder.held + callers && Arq.OnlyOthers(arq.nodes.live, others)
      ensures arq.encoder.held + callers == multiset{} ==>
        forall c :: 0 <= c < |arq.packs.pools| ==> arq.packs.pools[c].usedNum == 0
    {
      OpenPool();
      assert Open(Fold.Sides, 0);
      assert arq.arq.addrs == [];
      Arq.OwnsNone(arq.nodes.live, others);
      if arq.encoder.held + callers == multiset{} { arq.packs.NobodyHolds(); }
    }

    /** The end of a session: list and cache give everything back; if encoder and callers hold
        nothing either, every buffer of the pool is free. */
    method Close()
      requires Valid()
      modifies arq.arq, fec`packNum, fec.cache, arq.nodes.Repr, arq.packs.Repr
      ensures Valid() && arq.packs.refs == arq.encoder.held + callers && Arq.OnlyOthers(arq.nodes.live, others)
      ensures arq.encoder.held + callers == multiset{} ==>
        forall c :: 0 <= c < |arq.packs.pools| ==> arq.packs.pools[c].usedNum == 0
    {
      CloseList();
      CloseCache();
      NothingHeld();
    }
  }
}
