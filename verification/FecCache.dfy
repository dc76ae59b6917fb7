/** The FEC packet cache Fec2Buffer (src/fec2/goodtp_fec2_buffer.cpp): a ring of packet
    buffers indexed by sequence number, sharing references with the retransmission list. */
module FecCache {
  import opened PacketPool
  import N = NodePool
  import Bags
  import opened Folding

  type Slot = Option<Buf>

  /** The references the slots hold. */
  ghost function SlotBag(s: seq<Slot>): multiset<Buf> {
    if s == [] then multiset{}
    else SlotBag(s[..|s| - 1]) + Single(s[|s| - 1])
  }

  ghost function Single(x: Slot): multiset<Buf> { if x.Some? then multiset{x.value} else multiset{} }

  function Occupied(s: seq<Slot>): (n: nat)
    ensures n <= |s|
  {
    if s == [] then 0 else Occupied(s[..|s| - 1]) + if s[|s| - 1].Some? then 1 else 0
  }

  lemma SlotBagLast(s: seq<Slot>, t: seq<Slot>, x: Slot)
    requires s != [] && t == s[..|s| - 1] && x == s[|s| - 1]
    ensures SlotBag(s) == SlotBag(t) + Single(x)
  {
  }

  lemma {:induction false} SlotBagUpdate(s: seq<Slot>, i: nat, x: Slot)
    requires i < |s|
    ensures SlotBag(s[i := x]) + Single(s[i]) == SlotBag(s) + Single(x)
  {
    var n := |s| - 1;
    if i < n {
      assert s[i := x][..n] == s[..n][i := x];
      SlotBagUpdate(s[..n], i, x);
      UpdateBeforeLast(s, s[i := x], s[..n], s[..n][i := x], Single(s[i]), Single(x));
    } else {
      UpdateLast(s, s[i := x], s[..n], x);
    }
  }

  lemma UpdateLast(s: seq<Slot>, r: seq<Slot>, t: seq<Slot>, x: Slot)
    requires |s| == |r| == |t| + 1 && t == s[..|t|] == r[..|t|] && r[|t|] == x
    ensures SlotBag(r) + Single(s[|t|]) == SlotBag(s) + Single(x)
  {
    SlotBagLast(s, t, s[|t|]);
    SlotBagLast(r, t, x);
    Bags.Swap(SlotBag(t), Single(x), Single(s[|t|]));
  }

  lemma UpdateBeforeLast(s: seq<Slot>, r: seq<Slot>, t: seq<Slot>, u: seq<Slot>, y: multiset<Buf>, x: multiset<Buf>)
    requires |s| == |r| == |t| + 1 == |u| + 1 && t == s[..|t|] && u == r[..|t|] && r[|t|] == s[|t|]
    requires SlotBag(u) + y == SlotBag(t) + x
    ensures SlotBag(r) + y == SlotBag(s) + x
  {
    SlotBagLast(s, t, s[|t|]);
    SlotBagLast(r, u, s[|t|]);
    Bags.Exchange(SlotBag(u), y, SlotBag(t), x, Single(s[|t|]));
  }

  lemma {:induction false} OccupiedUpdate(s: seq<Slot>, i: nat, x: Slot)
    requires i < |s|
    ensures Occupied(s[i := x]) == Occupied(s) + (if x.Some? then 1 else 0) - (if s[i].Some? then 1 else 0)
  {
    var n := |s| - 1;
    if i < n {
      OccupiedUpdate(s[..n], i, x);
      assert s[i := x][..n] == s[..n][i := x];
    } else {
      assert s[i := x][..n] == s[..n];
    }
  }

  lemma {:induction false} NoneOccupied(s: seq<Slot>)
    ensures Occupied(s) == 0 <==> forall i :: 0 <= i < |s| ==> s[i].None?
    ensures Occupied(s) == 0 ==> SlotBag(s) == multiset{}
  {
    if s != [] {
      var n := |s| - 1;
      NoneOccupied(s[..n]);
      if Occupied(s) == 0 { forall i | 0 <= i < |s| ensures s[i].None? { if i < n { assert s[..n][i].None?; } } }
    }
  }

  lemma {:induction false} SlotInBag(s: seq<Slot>, i: nat)
    requires i < |s| && s[i].Some?
    ensures s[i].value in SlotBag(s)
  {
    if i < |s| - 1 { SlotInBag(s[..|s| - 1], i); }
  }

  lemma SlotFilled(s: seq<Slot>, i: nat, b: Buf, ext: multiset<Buf>)
    requires i < |s| && s[i].None?
    ensures Occupied(s[i := N.Some(b)]) == Occupied(s) + 1
    ensures SlotBag(s[i := N.Some(b)]) + ext == SlotBag(s) + (ext + multiset{b})
  {
    var u := s[i := N.Some(b)];
    SlotBagUpdate(s, i, N.Some(b));
    OccupiedUpdate(s, i, N.Some(b));
    assert SlotBag(u) + multiset{} == SlotBag(u);
    Bags.Fill(SlotBag(s) + (ext + multiset{b}), SlotBag(s), SlotBag(u), ext, b);
  }

  /** How many slots Clear's loop passes before it meets end_pos: with equal bounds, all. */
  function Arc(start: nat, end: nat, cap: nat): (d: nat)
    requires start < cap && end < cap
    ensures 1 <= d <= cap && Wrap(start + d, cap) == end
  {
    if start < end then end - start else end + cap - start
  }

  /** Walking from start, end is first met after Arc steps. */
  lemma ArcFirst(start: nat, end: nat, cap: nat, k: nat)
    requires start < cap && end < cap && 1 <= k <= Arc(start, end, cap)
    ensures Wrap(start + k, cap) == end <==> k == Arc(start, end, cap)
    ensures Wrap(start + k, cap) < cap && Wrap(start + k, cap) == Wrap(Wrap(start + k - 1, cap) + 1, cap)
  {
  }

  /** Is slot j among the closed circular arc from start over d slots and the next one? */
  predicate InArc(start: nat, d: nat, cap: nat, j: nat)
    requires start < cap && j < cap
  {
    (if start <= j then j - start else j + cap - start) <= d
  }

  /** On distinct bounds the arc is the closed circular interval; on equal bounds, the ring. */
  lemma ArcMeans(start: nat, end: nat, cap: nat, j: nat)
    requires start < cap && end < cap && j < cap
    ensures InArc(start, Arc(start, end, cap), cap, j) <==>
      if start < end then start <= j <= end else if start > end then j >= start || j <= end else true
  {
  }

  function Wrap(i: nat, cap: nat): (r: nat)
    requires 0 < cap && i <= 2 * cap
  {
    if i < cap then i else if i < 2 * cap then i - cap else 0
  }

  function Monus(a: nat, b: nat): nat { if b <= a then a - b else 0 }

  /** The ring after emptying k slots from `start` on. */
  function Cleared(s: seq<Slot>, start: nat, k: nat): (t: seq<Slot>)
    requires start < |s| && k <= |s| + 1
    ensures |t| == |s|
  {
    if k == 0 then s else Cleared(s, start, k - 1)[Wrap(start + k - 1, |s|) := N.None]
  }

  lemma ClearedStep(s: seq<Slot>, start: nat, k: nat, i: nat, t: seq<Slot>)
    requires start < |s| && k <= |s| && t == Cleared(s, start, k) && i == Wrap(start + k, |s|) && i < |s|
    ensures Cleared(s, start, k + 1) == t[i := N.None]
  {
  }

  lemma {:induction false} ClearedAt(s: seq<Slot>, start: nat, k: nat, j: nat)
    requires start < |s| && 1 <= k <= |s| + 1 && j < |s|
    ensures Cleared(s, start, k)[j] == if InArc(start, k - 1, |s|, j) then N.None else s[j]
    decreases k
  {
    if k > 1 { ClearedAt(s, start, k - 1, j); }
  }

  // ----- what the ring holds after any sequence of operations

  /** The operations of the ring; Idle stands for an event that does not reach it. */
  datatype Op = Push(pos: nat, b: Buf) | Pop(pos: nat) | Sweep(start: nat, end: nat) | Flush | Idle

  predicate InRing(op: Op, cap: nat) {
    match op
    case Push(pos, _) => pos < cap
    case Sweep(start, end) => start < cap && end < cap
    case _ => true
  }

  predicate Touches(op: Op, cap: nat, i: nat)
    requires InRing(op, cap) && i < cap
  {
    match op
    case Push(pos, _) => pos == i
    case Pop(pos) => pos == i
    case Sweep(start, end) => InArc(start, Arc(start, end, cap), cap, i)
    case Flush => true
    case Idle => false
  }

  /** The ring after an operation. */
  function Effect(s: seq<Slot>, op: Op): (t: seq<Slot>)
    requires InRing(op, |s|)
    ensures |t| == |s|
    ensures forall i :: 0 <= i < |s| ==>
      t[i] == if !Touches(op, |s|, i) then s[i] else if op.Push? then N.Some(op.b) else N.None
  {
    match op
    case Push(pos, b) => s[pos := N.Some(b)]
    case Pop(pos) => if pos < |s| then s[pos := N.None] else s
    case Sweep(start, end) =>
      seq(|s|, i requires 0 <= i < |s| => if InArc(start, Arc(start, end, |s|), |s|, i) then N.None else s[i])
    case Flush => seq(|s|, i => N.None)
    case Idle => s
  }

  ghost predicate AllInRing(ops: seq<Op>, cap: nat) {
    forall k :: 0 <= k < |ops| ==> InRing(ops[k], cap)
  }

  /** A ring after a sequence of operations. */
  ghost function Play(s: seq<Slot>, ops: seq<Op>): (t: seq<Slot>)
    requires AllInRing(ops, |s|)
    ensures |t| == |s|
  {
    if ops == [] then s else Effect(Play(s, ops[..|ops| - 1]), ops[|ops| - 1])
  }

  lemma PlaySnoc(s: seq<Slot>, ops: seq<Op>, op: Op)
    requires AllInRing(ops, |s|) && InRing(op, |s|)
    ensures AllInRing(ops + [op], |s|) && Play(s, ops + [op]) == Effect(Play(s, ops), op)
  {
    assert (ops + [op])[..|ops|] == ops;
  }

  /** Operation k pushed b into slot i, or k is -1 and b was there to begin with; and no later
      operation touches the slot. */
  ghost predicate Latest(s: seq<Slot>, ops: seq<Op>, i: nat, b: Buf, k: int)
    requires AllInRing(ops, |s|) && i < |s|
  {
    && -1 <= k < |ops| && (if k < 0 then s[i] == N.Some(b) else ops[k] == Push(i, b))
    && forall j :: k < j < |ops| ==> !Touches(ops[j], |s|, i)
  }

  /** In every run an occupied slot holds the latest packet put there and not removed since,
      and every such packet is in its slot. */
  lemma {:induction false} SlotHoldsLatest(s: seq<Slot>, ops: seq<Op>, i: nat, b: Buf)
    requires AllInRing(ops, |s|) && i < |s|
    ensures Play(s, ops)[i] == N.Some(b) <==> exists k :: Latest(s, ops, i, b, k)
    decreases |ops|
  {
    if ops == [] {
      assert Latest(s, ops, i, b, -1) <==> s[i] == N.Some(b);
    } else {
      var n := |ops| - 1;
      if Touches(ops[n], |s|, i) {
        assert Latest(s, ops, i, b, n) <==> ops[n] == Push(i, b);
        assert forall k :: Latest(s, ops, i, b, k) ==> k == n;
      } else {
        SlotHoldsLatest(s, ops[..n], i, b);
        forall k ensures Latest(s, ops, i, b, k) <==> Latest(s, ops[..n], i, b, k) { LatestSame(s, ops, i, b, k); }
      }
    }
  }

  lemma LatestSame(s: seq<Slot>, ops: seq<Op>, i: nat, b: Buf, k: int)
    requires AllInRing(ops, |s|) && i < |s| && ops != [] && !Touches(ops[|ops| - 1], |s|, i)
    ensures Latest(s, ops, i, b, k) <==> Latest(s, ops[..|ops| - 1], i, b, k)
  {
    var n := |ops| - 1;
    if Latest(s, ops[..n], i, b, k) {
      forall j | k < j < |ops| ensures !Touches(ops[j], |s|, i) { if j < n { assert ops[..n][j] == ops[j]; } }
    }
  }

  class Fec2Buffer {
    const packs: TranMemPool
    const cache: array<Slot>    // pack_cache_
    var packNum: nat            // pack_num_in_cache_
    var maxSn: nat              // max_cached_sn_

    ghost predicate Shape()
      reads this
    {
      cache.Length > 0 && this !in packs.Repr && cache !in packs.Repr && packs in packs.Repr && maxSn < U32
    }

    /** pack_num_in_cache_ is the number of occupied slots. */
    ghost predicate Valid()
      reads this, cache, packs, packs.Repr
    {
      Shape() && packs.Valid() && packNum == Occupied(cache[..])
    }

    /** Conservation: each reference belongs to one slot or is among `ext`. */
    ghost predicate Refs(ext: multiset<Buf>)
      reads this, cache, packs
    {
      packs.refs == SlotBag(cache[..]) + ext
    }

    constructor (pool: TranMemPool, capacity: nat)
      requires pool.Valid() && capacity > 0
      ensures Valid() && Refs(pool.refs) && packs == pool && cache.Length == capacity && fresh(cache)
      ensures forall i :: 0 <= i < capacity ==> cache[i].None?
    {
      packs := pool;
      cache := new Slot[capacity](_ => N.None);
      packNum, maxSn := 0, 0;
      new;
      NoneOccupied(cache[..]);
    }

    /** Drop the reference of slot i, whose pointer is about to be overwritten with x. */
    method FreeHeld(i: nat, ghost x: Slot, ghost ext: multiset<Buf>)
      requires Shape() && packs.Valid() && Refs(ext) && i < cache.Length && cache[i].Some? && x.None?
      modifies packs.Repr
      ensures packs.Valid() && packs.refs == SlotBag(cache[..][i := x]) + ext
    {
      SlotBagUpdate(cache[..], i, x);
      ghost var s := cache[..];
      Bags.Release(packs.refs, SlotBag(s), SlotBag(s[i := x]), ext, cache[i].value);
      packs.ReferencedIsInPool(cache[i].value);
      packs.FreeBuf(cache[i].value);
    }

    /** Empty a slot, freeing the reference it held; returns how many slots that emptied. */
    method FreeSlot(i: nat, ghost ext: multiset<Buf>) returns (n: nat)
      requires Shape() && packs.Valid() && Refs(ext) && i < cache.Length
      modifies cache, packs.Repr
      ensures packs.Valid() && Refs(ext)
      ensures cache[..] == old(cache[..])[i := N.None]
      ensures Occupied(cache[..]) + n == Occupied(old(cache[..]))
    {
      ghost var s := cache[..];
      OccupiedUpdate(s, i, N.None);
      n := 0;
      if cache[i].Some? {
        FreeHeld(i, N.None, ext);
        n := 1;
      }
      cache[i] := N.None;
      assert cache[..] == s[i := N.None];
    }

    /** The state of PopAllPack with the first i slots emptied. */
    ghost predicate Popping(i: nat, ext: multiset<Buf>)
      reads this, cache, packs, packs.Repr
    {
      && i <= cache.Length
      && forall k: nat {:trigger Open(Fold.Ring, k)} :: Open(Fold.Ring, k) ==>
        Shape() && packs.Valid() && Refs(ext) && forall j :: 0 <= j < i ==> cache[..][j].None?
    }

    method PopNext(i: nat, ghost ext: multiset<Buf>)
      requires Popping(i, ext) && i < cache.Length
      modifies cache, packs.Repr
      ensures Popping(i + 1, ext)
    {
      assert Open(Fold.Ring, 0);
      ghost var s := cache[..];
      var n := FreeSlot(i, ext);
      assert cache[..] == s[i := N.None];
    }

    /** PopAllPack: every slot is emptied. */
    method PopAllPack(ghost ext: multiset<Buf>)
      requires Valid() && Refs(ext)
      modifies this`packNum, cache, packs.Repr
      ensures Valid() && Refs(ext) && packNum == 0
      ensures cache[..] == Effect(old(cache[..]), Flush)
    {
      NoneOccupied(cache[..]);
      if packNum == 0 { return; }
      PopSlots(ext);
      packNum := 0;
      NoneOccupied(cache[..]);
    }

    method PopSlots(ghost ext: multiset<Buf>)
      requires Shape() && packs.Valid() && Refs(ext)
      modifies cache, packs.Repr
      ensures packs.Valid() && Refs(ext) && forall j :: 0 <= j < cache.Length ==> cache[..][j].None?
    {
      var i := 0;
      while i < cache.Length
        invariant Popping(i, ext)
      {
        PopNext(i, ext);
        i := i + 1;
      }
      assert Open(Fold.Ring, 0);
    }

    /** The state of Clear after emptying `steps` slots of the ring s from `start` on. */
    ghost predicate Clearing(s: seq<Slot>, start: nat, steps: nat, i: nat, counter: nat, ext: multiset<Buf>)
      requires start < |s| && steps <= |s| + 1
      reads this, cache, packs, packs.Repr
    {
      && cache.Length == |s| && (steps <= |s| ==> i == Wrap(start + steps, |s|) && i < |s|)
      && forall k: nat {:trigger Open(Fold.Ring, k)} :: Open(Fold.Ring, k) ==>
        && Shape() && packs.Valid() && Refs(ext)
        && cache[..] == Cleared(s, start, steps) && Occupied(cache[..]) + counter == Occupied(s)
    }

    method ClearNext(i: nat, counter: nat, ghost s: seq<Slot>, ghost start: nat, ghost steps: nat, ghost ext: multiset<Buf>)
        returns (next: nat, c: nat)
      requires start < |s| && steps <= |s| && Clearing(s, start, steps, i, counter, ext)
      modifies cache, packs.Repr
      ensures Clearing(s, start, steps + 1, next, c, ext)
    {
      assert Open(Fold.Ring, 0);
      ClearedStep(s, start, steps, i, cache[..]);
      var n := FreeSlot(i, ext);
      c := counter + n;
      next := Wrap(i + 1, cache.Length);    // (i + 1) & FEC2_CACHE_CAPACITY_MASK
    }

    /** The do-while loop of Clear and the slot it stops at. */
    method ClearSlots(start: nat, end: nat, ghost ext: multiset<Buf>) returns (counter: nat)
      requires Shape() && packs.Valid() && Refs(ext) && start < cache.Length && end < cache.Length
      modifies cache, packs.Repr
      ensures packs.Valid() && Refs(ext)
      ensures cache[..] == Cleared(old(cache[..]), start, Arc(start, end, cache.Length) + 1)
      ensures Occupied(cache[..]) + counter == Occupied(old(cache[..]))
    {
      ghost var s, d, steps := cache[..], Arc(start, end, cache.Length), 1;
      var i;
      i, counter := ClearNext(start, 0, s, start, 0, ext);
      ArcFirst(start, end, |s|, 1);
      while i != end
        invariant 1 <= steps <= d && Clearing(s, start, steps, i, counter, ext)
        invariant i == end <==> steps == d
        decreases d - steps
      {
        ArcFirst(start, end, |s|, steps + 1);
        i, counter := ClearNext(i, counter, s, start, steps, ext);
        steps := steps + 1;
      }
      i, counter := ClearNext(i, counter, s, start, steps, ext);
      assert Open(Fold.Ring, 0);
    }

    /** Clear: the closed circular arc from start to end is emptied, nothing else; with equal
        bounds the do-while passes the whole ring. */
    method Clear(start: nat, end: nat, ghost ext: multiset<Buf>)
      requires Valid() && Refs(ext) && start < cache.Length && end < cache.Length
      modifies this`packNum, cache, packs.Repr
      ensures Valid() && Refs(ext)
      ensures cache[..] == Effect(old(cache[..]), Sweep(start, end))
    {
      ghost var s, d := cache[..], Arc(start, end, cache.Length);
      var counter := ClearSlots(start, end, ext);
      packNum := Monus(packNum, counter);
      forall j | 0 <= j < cache.Length
        ensures cache[..][j] == if InArc(start, d, cache.Length, j) then N.None else s[j]
      {
        ClearedAt(s, start, d + 1, j);
      }
    }

    /** PopPack(cache_pos): positions out of range and empty slots change nothing. */
    method PopAt(pos: nat, ghost ext: multiset<Buf>)
      requires Valid() && Refs(ext)
      modifies this`packNum, cache, packs.Repr
      ensures Valid() && Refs(ext)
      ensures cache[..] == Effect(old(cache[..]), Pop(pos))
    {
      if cache.Length <= pos { return; }
      if cache[pos].None? {
        assert cache[..] == cache[..][pos := N.None];
        return;
      }
      var n := FreeSlot(pos, ext);
      if 0 < packNum { packNum := packNum - n; }
    }

    /** PopPack(pack): the slot the packet names is emptied.  Unless `pack` is the very pointer
        the slot holds, the caller's own reference on its buffer b is given up as well; if the
        packet names no slot at all, nothing happens. */
    method PopPack(b: Buf, cacheId: nat, same: bool, ghost ext: multiset<Buf>)
      requires Valid() && (same ==> cacheId < cache.Length && cache[..][cacheId] == N.Some(b))
      requires Refs(if cacheId < cache.Length && !same then ext + multiset{b} else ext)
      modifies this`packNum, cache, packs.Repr
      ensures Valid() && Refs(ext)
      ensures cache[..] == Effect(old(cache[..]), Pop(cacheId))
    {
      if cache.Length <= cacheId { return; }
      if same {
        PopAt(cacheId, ext);
      } else {
        PopAt(cacheId, ext + multiset{b});
        GiveUp(b, ext);
      }
    }

    /** Free a reference the caller held. */
    method GiveUp(b: Buf, ghost ext: multiset<Buf>)
      requires Valid() && Refs(ext + multiset{b})
      modifies packs.Repr
      ensures Valid() && Refs(ext)
    {
      Bags.Release(packs.refs, SlotBag(cache[..]) + (ext + multiset{b}), SlotBag(cache[..]) + ext, multiset{}, b);
      packs.ReferencedIsInPool(b);
      packs.FreeBuf(b);
    }

    /** A reference for a slot: a buffer of its own, or one more on the caller's. */
    method TakeReference(b: Buf, len: nat, needNew: bool, ghost ext: multiset<Buf>) returns (r: Option<Buf>)
      requires Valid() && Refs(ext) && (!needNew ==> b in ext && packs.refs[b] < 32767)
      modifies packs.Repr
      ensures Valid()
      ensures r.None? <==> needNew && old(packs.Spent(MemSpec(len)))
      ensures r.None? ==> Refs(ext)
      ensures r.Some? ==> Refs(ext + multiset{r.value}) && (needNew ==> r.value !in old(packs.refs))
      ensures !needNew ==> r == N.Some(b)
    {
      if needNew {
        r := packs.MallocTranBuf(MemSpec(len));
      } else {
        packs.ShareBuf(b);
        r := N.Some(b);
      }
    }

    /** Put a buffer whose reference is at hand into a slot, freeing what the slot held. */
    method Place(pos: nat, b: Buf, ghost ext: multiset<Buf>)
      requires Valid() && Refs(ext + multiset{b}) && pos < cache.Length
      modifies this`packNum, cache, packs.Repr
      ensures Valid() && Refs(ext)
      ensures cache[..] == old(cache[..])[pos := N.Some(b)]
    {
      PopAt(pos, ext + multiset{b});
      Fill(pos, b, ext);
    }

    method Fill(pos: nat, b: Buf, ghost ext: multiset<Buf>)
      requires Valid() && Refs(ext + multiset{b}) && pos < cache.Length && cache[..][pos].None?
      modifies this`packNum, cache
      ensures Valid() && Refs(ext)
      ensures cache[..] == old(cache[..])[pos := N.Some(b)]
    {
      ghost var s := cache[..];
      SlotFilled(s, pos, b, ext);
      packNum := packNum + 1;
      cache[pos] := N.Some(b);
      assert cache[..] == s[pos := N.Some(b)];
    }

    /** PushPack: the slot of the packet's number takes a reference on it, or on a copy.  A
        failed copy changes nothing, and pushing the buffer a slot already holds leaves every
        reference count as it was. */
    method PushPack(b: Buf, sn: nat, len: nat, needNew: bool, ghost ext: multiset<Buf>) returns (r: Option<Buf>)
      requires Valid() && Refs(ext) && sn < U32 && (!needNew ==> b in ext && packs.refs[b] < 32767)
      modifies this, cache, packs.Repr
      ensures Valid() && Refs(ext)
      ensures r.None? <==> needNew && old(packs.Spent(MemSpec(len)))
      ensures var pos := sn % cache.Length;
        && cache[..] == (if r.None? then old(cache[..]) else Effect(old(cache[..]), Push(pos, r.value)))
        && (!needNew ==> r == N.Some(b))
        && (!needNew && old(cache[..])[pos] == r ==> packs.refs == old(packs.refs))
        && (needNew && r.Some? ==> r.value !in old(packs.refs))
      ensures r.Some? && old(maxSn) <= sn ==> maxSn == sn
      ensures maxSn == old(maxSn) || maxSn == sn
    {
      ghost var s := cache[..];
      r := TakeReference(b, len, needNew, ext);
      if r.None? { return; }
      Place(sn % cache.Length, r.value, ext);
      assert s[sn % cache.Length] == r ==> s == cache[..];
      RaiseMax(sn);
    }

    method RaiseMax(sn: nat)
      requires Valid() && sn < U32
      modifies this`maxSn
      ensures Valid() && maxSn == if old(maxSn) <= sn || cache.Length >= 0xFFFF_FFFF - old(maxSn) + sn then sn else old(maxSn)
    {
      if maxSn <= sn || cache.Length >= 0xFFFF_FFFF - maxSn + sn { maxSn := sn; }
    }
  }
}
