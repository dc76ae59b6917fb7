/** The packet buffer pool TranMemPool (src/tranmempool.h): seven size classes of reference
    counted buffers, each with its own used-bitmap, and a fallback to larger classes. */
module PacketPool {
  import opened SizeClasses
  import opened UsedBitmap
  import NodePool
  import Arithmetic
  import Bags
  import opened Folding

  type Option<+T> = NodePool.Option<T>
  const U32: nat := NodePool.U32

  /** A buffer, named by its size class and its place in that class. */
  datatype Buf = Buf(cls: nat, idx: nat)

  /** What a holder of buffers may ask of the pool. */
  datatype Draw = Take(kind: nat) | Share(b: Buf) | Give(b: Buf)

  /** GtpPackSizeToMemSpec: the smallest class larger than the packet. */
  function MemSpec(len: nat): (c: nat)
    ensures c < CLASSES
    ensures len < 65536 ==> len < Payload(c) && forall d :: 0 <= d < c ==> Payload(d) <= len
  {
    if len < 256 then 0 else if len < 512 then 1 else if len < 1024 then 2 else if len < 1536 then 3
    else if len < 4096 then 4 else if len < 8192 then 5 else 6
  }

  // ----- from addresses to buffers

  /** Where each class's element array starts, and how many elements it has. */
  datatype Range = Range(header: nat, size: nat)

  function Tail(ranges: seq<Range>, c: nat): nat
    requires c < |ranges| <= CLASSES
  {
    ranges[c].header + ElementSize(c) * ranges[c].size
  }

  /** The element arrays are separate allocations of less than 4 GiB each. */
  ghost predicate Layout(ranges: seq<Range>) {
    && |ranges| == CLASSES
    && (forall c :: 0 <= c < CLASSES ==> ElementSize(c) * ranges[c].size < U32)
    && Separate(ranges)
  }

  /** TranBufToElement: try the seven arrays in turn; the offset is cut to 32 bits before the
      division by the element size. */
  function Locate(ranges: seq<Range>, addr: int, c: nat): Option<Buf>
    requires c <= |ranges| <= CLASSES
    decreases |ranges| - c
  {
    if c == |ranges| then NodePool.None
    else if ranges[c].header <= addr < Tail(ranges, c) then
      var i := ((addr - ranges[c].header) % U32) / ElementSize(c);
      if ranges[c].size <= i then NodePool.None else NodePool.Some(Buf(c, i))
    else Locate(ranges, addr, c + 1)
  }

  /** Does the address lie inside the element of a buffer, from its header over the reserved
      space before the payload to its canary? */
  predicate Inside(ranges: seq<Range>, b: Buf, addr: int)
    requires |ranges| == CLASSES
  {
    && b.cls < CLASSES && b.idx < ranges[b.cls].size
    && 0 <= addr - (ranges[b.cls].header + b.idx * ElementSize(b.cls)) < ElementSize(b.cls)
  }

  /** Every address inside an element resolves to that element. */
  lemma {:induction false} LocateInterior(ranges: seq<Range>, addr: int, b: Buf, c: nat)
    requires Layout(ranges) && Inside(ranges, b, addr) && c <= b.cls
    ensures Locate(ranges, addr, c) == NodePool.Some(b)
    decreases b.cls - c
  {
    ElementOffset(ElementSize(b.cls), b.idx, ranges[b.cls].size, addr - ranges[b.cls].header);
    if c < b.cls { LocateInterior(ranges, addr, b, c + 1); }
  }

  lemma {:induction false} LocatedIsInside(ranges: seq<Range>, addr: int, c: nat)
    requires Layout(ranges) && c <= CLASSES && Locate(ranges, addr, c).Some?
    ensures Inside(ranges, Locate(ranges, addr, c).value, addr)
    decreases CLASSES - c
  {
    if c < CLASSES {
      if ranges[c].header <= addr < Tail(ranges, c) {
        OffsetElement(ElementSize(c), addr - ranges[c].header);
      } else {
        LocatedIsInside(ranges, addr, c + 1);
      }
    }
  }

  lemma OffsetElement(size: nat, off: nat)
    requires size > 0
    ensures 0 <= off - off / size * size < size
  {
    assert off == off / size * size + off % size;
  }

  /** TranBufToElement, exactly: an address resolves to a buffer if and only if it lies inside
      that buffer's element. */
  lemma LocateExactly(ranges: seq<Range>, addr: int, b: Buf)
    requires Layout(ranges)
    ensures Locate(ranges, addr, 0) == NodePool.Some(b) <==> Inside(ranges, b, addr)
  {
    if Inside(ranges, b, addr) { LocateInterior(ranges, addr, b, 0); }
    if Locate(ranges, addr, 0).Some? { LocatedIsInside(ranges, addr, 0); }
  }

  // ----- what frees do to the whole pool

  /** One state per class, of the size the class has. */
  ghost predicate Fits(s: seq<ClassState>, ranges: seq<Range>) {
    && |s| == |ranges| == CLASSES
    && forall c :: 0 <= c < CLASSES ==>
         |s[c].used| == |s[c].refCount| == ranges[c].size && ranges[c].size <= 64 * |s[c].bitmap|
  }

  /** The pool after one reference is freed through an address; a foreign address does nothing. */
  ghost function FreeAt(s: seq<ClassState>, ranges: seq<Range>, addr: int): (t: seq<ClassState>)
    requires Fits(s, ranges)
    ensures Fits(t, ranges)
  {
    match Locate(ranges, addr, 0)
    case None => s
    case Some(b) => if b.cls < CLASSES && Has(s[b.cls], b.idx) then s[b.cls := Dropped(s[b.cls], b.idx)] else s
  }

  /** Successive single frees. */
  ghost function FreeAll(s: seq<ClassState>, ranges: seq<Range>, addrs: seq<int>): (t: seq<ClassState>)
    requires Fits(s, ranges)
    ensures Fits(t, ranges)
  {
    if addrs == [] then s else FreeAt(FreeAll(s, ranges, addrs[..|addrs| - 1]), ranges, addrs[|addrs| - 1])
  }

  /** The buffers a vector of addresses resolves to. */
  ghost function Hits(ranges: seq<Range>, addrs: seq<int>): seq<Buf>
    requires |ranges| == CLASSES
  {
    if addrs == [] then []
    else
      var hit := Locate(ranges, addrs[|addrs| - 1], 0);
      Hits(ranges, addrs[..|addrs| - 1]) + if hit.Some? then [hit.value] else []
  }

  lemma {:induction false} HitsInside(ranges: seq<Range>, addrs: seq<int>, v: seq<Buf>)
    requires Layout(ranges) && |addrs| == |v| && forall i :: 0 <= i < |v| ==> Inside(ranges, v[i], addrs[i])
    ensures Hits(ranges, addrs) == v
  {
    if v != [] {
      var n := |v| - 1;
      HitsInside(ranges, addrs[..n], v[..n]);
      LocateExactly(ranges, addrs[n], v[n]);
      assert v == v[..n] + [v[n]];
    }
  }

  lemma ElementOffset(size: nat, i: nat, n: nat, off: nat)
    requires i < n && 0 <= off - i * size < size
    ensures off / size == i && off < size * n
  {
    Arithmetic.DivByBlock(size, i, off - i * size);
    Arithmetic.MulMonotone(i + 1, n, size);
  }

  /** The pool sizes configured for each application type. */
  const SMALL_SIZES: seq<nat> := [128, 128, 128, 1024 * 1024, 1024 * 64, 1024 * 16, 2048]
  const LARGE_SIZES: seq<nat> := [1024 * 1024, 1024 * 1024, 1024 * 1024, 1024 * 128, 2048, 2048, 2048]

  ghost predicate Separate(ranges: seq<Range>)
    requires |ranges| == CLASSES
  {
    forall c, d :: 0 <= c < CLASSES && 0 <= d < CLASSES && c != d ==>
      Tail(ranges, c) <= ranges[d].header || Tail(ranges, d) <= ranges[c].header
  }

  /** They are multiples of 64, and arrays of these sizes, wherever the allocator puts them
      apart, are laid out as the resolution of addresses needs. */
  lemma DefaultSizesFit(ranges: seq<Range>)
    requires |ranges| == CLASSES && Separate(ranges)
    requires (forall c :: 0 <= c < CLASSES ==> ranges[c].size == SMALL_SIZES[c])
      || (forall c :: 0 <= c < CLASSES ==> ranges[c].size == LARGE_SIZES[c])
    ensures Layout(ranges) && forall c :: 0 <= c < CLASSES ==> ranges[c].size > 0 && ranges[c].size % 64 == 0
  {
    forall c | 0 <= c < CLASSES
      ensures ranges[c].size > 0 && ranges[c].size % 64 == 0 && ElementSize(c) * ranges[c].size < U32
    {
      assert c in [0, 1, 2, 3, 4, 5, 6];
    }
  }

  /** TranMemPool. */
  class TranMemPool {
    const pools: seq<SizeClass>
    var mallocFailed: nat             // buf_malloc_failed_counter_
    ghost const Repr: set<object>
    ghost var refs: multiset<Buf>     // every reference held, on every buffer in use

    /** Where the element arrays lie. */
    function Ranges(): (r: seq<Range>)
      ensures |r| == |pools|
    {
      seq(|pools|, c requires 0 <= c < |pools| => Range(pools[c].header, pools[c].poolSize))
    }

    /** Seven classes that share no memory. */
    ghost predicate Shape() {
      && |pools| == CLASSES && this in Repr && Layout(Ranges())
      && (forall c :: 0 <= c < CLASSES ==>
            && pools[c].cls == c
            && {pools[c], pools[c].bitmap, pools[c].usedFlag, pools[c].refCount} <= Repr - {this})
      && (forall c, d :: 0 <= c < d < CLASSES ==>
            && pools[c] != pools[d] && pools[c].bitmap != pools[d].bitmap
            && pools[c].usedFlag != pools[d].usedFlag && pools[c].refCount != pools[d].refCount)
    }

    ghost predicate ClassesValid()
      reads Repr - {this}
    {
      Shape() && forall c :: 0 <= c < CLASSES ==> pools[c].Valid()
    }

    ghost predicate Valid()
      reads Repr, this
      ensures Valid() ==> this in Repr
    {
      && this in Repr && |pools| == CLASSES
      && forall k: nat {:trigger Open(Fold.Pool, k)} :: Open(Fold.Pool, k) ==> ClassesValid() && Counted()
    }

    /** `refs` tells how often each buffer in use is held. */
    ghost predicate Counted()
      reads this, pools
    {
      forall b: Buf {:trigger RefCount(b)} :: refs[b] == RefCount(b)
    }

    ghost predicate InPool(b: Buf) {
      b.cls < |pools| && b.idx < pools[b.cls].poolSize
    }

    ghost function RefCount(b: Buf): nat
      reads pools
    {
      if InPool(b) && b.idx < |pools[b.cls].held| then pools[b.cls].held[b.idx] else 0
    }

    /** With these references no buffer of class `kind` or above is free. */
    ghost predicate SpentBy(held: multiset<Buf>, kind: nat) {
      forall b: Buf :: InPool(b) && kind <= b.cls ==> b in held
    }

    ghost predicate Spent(kind: nat)
      reads this
    {
      SpentBy(refs, kind)
    }

    lemma SpentMeans(kind: nat)
      requires Valid()
      ensures Spent(kind) <==> forall c :: kind <= c < CLASSES ==> Exhausted(c)
    {
      forall b: Buf ensures InUse(b) <==> b in refs { InUseMeans(b); }
      assert Open(Fold.Pool, 0);
      if Spent(kind) {
        forall c, p | kind <= c < CLASSES && 0 <= p < pools[c].usedFlag.Length ensures pools[c].usedFlag[p] {
          assert InPool(Buf(c, p)) && InUse(Buf(c, p));
        }
      } else {
        var b: Buf :| InPool(b) && kind <= b.cls && b !in refs;
        assert pools[b.cls].Valid() && !pools[b.cls].usedFlag[b.idx];
        assert !Exhausted(b.cls);
      }
    }

    /** Is every buffer of class c in use? */
    ghost predicate Exhausted(c: nat)
      requires c < |pools|
      reads pools[c], pools[c].usedFlag
    {
      forall p :: 0 <= p < pools[c].usedFlag.Length ==> pools[c].usedFlag[p]
    }

    constructor (sizes: seq<nat>, starts: seq<nat>)
      requires |sizes| == |starts| == CLASSES
      requires forall c :: 0 <= c < CLASSES ==> sizes[c] > 0 && sizes[c] % 64 == 0 && starts[c] > 0
      requires Layout(seq(CLASSES, c requires 0 <= c < CLASSES => Range(starts[c], sizes[c])))
      ensures Valid() && fresh(Repr) && refs == multiset{}
      ensures forall c :: 0 <= c < CLASSES ==> pools[c].poolSize == sizes[c] && pools[c].header == starts[c]
    {
      var ps, repr := CreatePools(sizes, starts);
      pools := ps;
      mallocFailed := 0;
      Repr := {this} + repr;
      refs := multiset{};
      new;
      assert Ranges() == seq(CLASSES, c requires 0 <= c < CLASSES => Range(starts[c], sizes[c]));
    }

    /** The seven calls of CreateTranBufPool. */
    static method CreatePools(sizes: seq<nat>, starts: seq<nat>) returns (ps: seq<SizeClass>, ghost repr: set<object>)
      requires |sizes| == |starts| == CLASSES
      requires forall c :: 0 <= c < CLASSES ==> sizes[c] > 0 && sizes[c] % 64 == 0 && starts[c] > 0
      ensures |ps| == CLASSES && fresh(repr)
      ensures forall i :: 0 <= i < CLASSES ==>
        && ps[i].Valid() && ps[i].cls == i && ps[i].poolSize == sizes[i] && ps[i].header == starts[i]
        && {ps[i], ps[i].bitmap, ps[i].usedFlag, ps[i].refCount} <= repr
        && forall p :: 0 <= p < |ps[i].held| ==> ps[i].held[p] == 0
      ensures forall i, j :: 0 <= i < j < CLASSES ==>
        && ps[i] != ps[j] && ps[i].bitmap != ps[j].bitmap
        && ps[i].usedFlag != ps[j].usedFlag && ps[i].refCount != ps[j].refCount
    {
      ps, repr := [], {};
      for c := 0 to CLASSES
        invariant |ps| == c && fresh(repr)
        invariant forall i :: 0 <= i < c ==>
          && ps[i].Valid() && ps[i].cls == i && ps[i].poolSize == sizes[i] && ps[i].header == starts[i]
          && {ps[i], ps[i].bitmap, ps[i].usedFlag, ps[i].refCount} <= repr
          && forall p :: 0 <= p < |ps[i].held| ==> ps[i].held[p] == 0
        invariant forall i, j :: 0 <= i < j < c ==>
          && ps[i] != ps[j] && ps[i].bitmap != ps[j].bitmap
          && ps[i].usedFlag != ps[j].usedFlag && ps[i].refCount != ps[j].refCount
      {
        var p := new SizeClass(c, starts[c], sizes[c]);
        repr := repr + p.Repr;
        ps := ps + [p];
      }
    }

    lemma ReferencedIsInPool(b: Buf)
      requires Valid() && b in refs
      ensures InPool(b)
    {
      assert Open(Fold.Pool, 0);
      assert refs[b] == RefCount(b);
    }

    /** Can a buffer in use take one more reference? */
    predicate Room(b: Buf)
      reads if b.cls < |pools| then {pools[b.cls].refCount} else {}
    {
      b.cls < |pools| && b.idx < pools[b.cls].refCount.Length && pools[b.cls].refCount[b.idx] < 32767
    }

    /** Is a buffer in use? */
    predicate InUse(b: Buf)
      reads if b.cls < |pools| then {pools[b.cls].usedFlag} else {}
    {
      b.cls < |pools| && b.idx < pools[b.cls].usedFlag.Length && pools[b.cls].usedFlag[b.idx]
    }

    lemma InUseMeans(b: Buf)
      requires Valid()
      ensures InUse(b) <==> b in refs
    {
      assert Open(Fold.Pool, 0) && Open(Fold.Class, 0);
      assert refs[b] == RefCount(b);
    }

    lemma RoomMeans(b: Buf)
      requires Valid() && b in refs
      ensures Room(b) <==> refs[b] < 32767
    {
      assert Open(Fold.Pool, 0) && Open(Fold.Class, 0);
      ReferencedIsInPool(b);
      assert refs[b] == RefCount(b);
    }

    /** No leak: when nobody holds a reference, every buffer is free. */
    lemma NobodyHolds()
      requires Valid() && refs == multiset{}
      ensures forall c :: 0 <= c < CLASSES ==> pools[c].usedNum == 0 && pools[c].freeNum == pools[c].poolSize
    {
      assert Open(Fold.Pool, 0) && Open(Fold.Class, 0);
      forall c | 0 <= c < CLASSES ensures pools[c].usedNum == 0 && pools[c].freeNum == pools[c].poolSize {
        assert pools[c].Valid();
        forall p | 0 <= p < pools[c].poolSize ensures !pools[c].usedFlag[..][p] {
          assert refs[Buf(c, p)] == RefCount(Buf(c, p));
        }
        CountNone(pools[c].usedFlag[..]);
      }
    }

    /** A step that touches one class leaves the others alone. */
    twostate lemma OthersKept(c: nat)
      requires old(ClassesValid()) && c < CLASSES
      requires forall d :: 0 <= d < CLASSES && d != c ==>
        unchanged(pools[d], pools[d].bitmap, pools[d].usedFlag, pools[d].refCount)
      requires pools[c].Valid()
      ensures ClassesValid()
      ensures forall d :: 0 <= d < CLASSES && d != c ==> pools[d].State() == old(pools[d].State())
    {
      forall d | 0 <= d < CLASSES ensures pools[d].Valid() {
        assert old(pools[d].Valid());
      }
    }

    method Alloc(c: nat) returns (r: Option<Buf>)
      requires ClassesValid() && c < CLASSES
      modifies Repr - {this}
      ensures ClassesValid()
      ensures r.None? <==> old(Exhausted(c))
      ensures r.None? ==> unchanged(Repr)
      ensures r.Some? ==>
        && r.value.cls == c && InPool(r.value)
        && old(RefCount(r.value)) == 0 && RefCount(r.value) == 1
        && forall e: Buf :: e != r.value ==> RefCount(e) == old(RefCount(e))
    {
      assert pools[c].Valid();
      var e := pools[c].MallocElement();
      if e.None? { return NodePool.None; }
      r := NodePool.Some(Buf(c, e.value));
      OthersKept(c);
    }

    /** The states of the seven classes are s. */
    ghost predicate Is(s: seq<ClassState>)
      reads Repr - {this}
    {
      && Fits(s, Ranges())
      && forall k: nat {:trigger Open(Fold.States, k)} :: Open(Fold.States, k) ==>
           Shape() && forall c :: 0 <= c < CLASSES ==> s[c] == pools[c].State()
    }

    lemma AreStates(s: seq<ClassState>)
      requires ClassesValid() && Fits(s, Ranges()) && forall c :: 0 <= c < CLASSES ==> s[c] == pools[c].State()
      ensures Is(s)
    {
    }

    /** The references on buffer b change by a free, those on others do not. */
    twostate predicate Freed(b: Buf)
      reads pools
    {
      && RefCount(b) == (if old(RefCount(b)) > 0 then old(RefCount(b)) - 1 else 0)
      && forall e: Buf :: e != b ==> RefCount(e) == old(RefCount(e))
    }

    method Drop(b: Buf, ghost s: seq<ClassState>)
      requires ClassesValid() && InPool(b) && Is(s) && Has(s[b.cls], b.idx)
      modifies Repr - {this}
      ensures ClassesValid() && Freed(b) && Is(s[b.cls := Dropped(s[b.cls], b.idx)])
    {
      assert Open(Fold.States, 0);
      pools[b.cls].DropRef(b.idx);
      OthersKept(b.cls);
      AreStates(s[b.cls := Dropped(s[b.cls], b.idx)]);
    }

    method DropInBatch(b: Buf, ghost s: seq<ClassState>)
      requires ClassesValid() && InPool(b) && Is(s) && Has(s[b.cls], b.idx)
      modifies Repr - {this}
      ensures ClassesValid() && Freed(b) && Is(s[b.cls := Dropped(s[b.cls], b.idx)])
    {
      assert Open(Fold.States, 0);
      pools[b.cls].DropRefInBatch(b.idx);
      OthersKept(b.cls);
      AreStates(s[b.cls := Dropped(s[b.cls], b.idx)]);
    }

    method Add(b: Buf, n: nat)
      requires ClassesValid() && InPool(b) && RefCount(b) + n < 32768
      modifies Repr - {this}
      ensures ClassesValid()
      ensures RefCount(b) == if old(RefCount(b)) > 0 then old(RefCount(b)) + n else 0
      ensures forall e: Buf :: e != b ==> RefCount(e) == old(RefCount(e))
    {
      pools[b.cls].AddRef(b.idx, n);
      OthersKept(b.cls);
    }

    /** One size class: a buffer nobody holds, or none exactly when the class is exhausted. */
    method MallocFrom(c: nat) returns (r: Option<Buf>)
      requires Valid() && c < CLASSES
      modifies Repr
      ensures Valid()
      ensures r.None? <==> old(Exhausted(c))
      ensures r.None? ==> unchanged(Repr)
      ensures r.Some? ==>
        && r.value.cls == c && InPool(r.value)
        && r.value !in old(refs) && refs == old(refs) + multiset{r.value}
    {
      assert Open(Fold.Pool, 0);
      r := Alloc(c);
      if r.None? { return; }
      assert old(refs)[r.value] == old(RefCount(r.value));
      refs := refs + multiset{r.value};
      assert ClassesValid();
      forall e: Buf ensures refs[e] == RefCount(e) {
        assert old(refs)[e] == old(RefCount(e));
      }
    }

    /** MallocTranBuf(NULL, ...): a fresh buffer of the requested class or, along the chain of
        gotos, of the first larger class that has one. */
    method MallocTranBuf(kind: nat) returns (r: Option<Buf>)
      requires Valid()
      modifies Repr
      ensures Valid()
      ensures kind >= CLASSES ==> r.None?
      ensures kind < CLASSES ==> (r.None? <==> forall c :: kind <= c < CLASSES ==> old(Exhausted(c)))
      ensures kind < CLASSES ==> (r.None? <==> old(Spent(kind)))
      ensures r.None? ==> refs == old(refs)
      ensures r.Some? ==>
        && InPool(r.value) && kind <= r.value.cls < CLASSES && Payload(r.value.cls) >= Payload(kind)
        && (forall c :: kind <= c < r.value.cls ==> old(Exhausted(c)))
        && r.value !in old(refs) && refs == old(refs) + multiset{r.value}
    {
      if kind >= CLASSES { return NodePool.None; }
      SpentMeans(kind);
      var c := kind;
      while c < CLASSES
        invariant kind <= c <= CLASSES
        invariant forall d :: kind <= d < c ==> old(Exhausted(d))
        invariant unchanged(Repr)
        invariant Valid()
      {
        r := MallocFrom(c);
        if r.Some? {
          PayloadGrows(kind, c);
          return;
        }
        c := c + 1;
      }
      CountFailure();
      return NodePool.None;
    }

    method CountFailure()
      requires Valid()
      modifies this`mallocFailed
      ensures Valid() && mallocFailed == old(mallocFailed) + 1
    {
      assert Open(Fold.Pool, 0);
      mallocFailed := mallocFailed + 1;
    }

    /** If only the references on b changed, and `refs` with them, `refs` is still exact. */
    twostate lemma Recounted(b: Buf)
      requires old(Counted()) && refs[b] == RefCount(b)
      requires forall e: Buf :: e != b ==> refs[e] == old(refs[e]) && RefCount(e) == old(RefCount(e))
      ensures Counted()
    {
      forall e: Buf ensures refs[e] == RefCount(e) { assert old(refs[e]) == old(RefCount(e)); }
    }

    /** An address resolves to buffers of the pool only. */
    lemma LocatedIsInPool(addr: int, s: seq<ClassState>)
      requires Valid() && Locate(Ranges(), addr, 0).Some?
      ensures var b := Locate(Ranges(), addr, 0).value;
        InPool(b) && Inside(Ranges(), b, addr) && (Fits(s, Ranges()) ==> Has(s[b.cls], b.idx))
    {
      assert Open(Fold.Pool, 0);
      LocatedIsInside(Ranges(), addr, 0);
    }

    /** TranBufUseRefAddOne: through any address inside a buffer in use, n references more on
        it; an address outside the pool or inside a buffer not in use changes no reference. */
    method TranBufUseRefAddOne(addr: int, n: nat) returns (ok: bool)
      requires Valid() && forall b :: Inside(Ranges(), b, addr) ==> refs[b] + n < 32768
      modifies Repr
      ensures Valid()
      ensures ok <==> Locate(Ranges(), addr, 0).Some?
      ensures ok ==> var b := Locate(Ranges(), addr, 0).value;
        refs == if b in old(refs) then old(refs)[b := old(refs)[b] + n] else old(refs)
      ensures !ok ==> refs == old(refs)
    {
      assert Open(Fold.Pool, 0);
      var hit := Locate(Ranges(), addr, 0);
      if hit.None? { return false; }
      var b := hit.value;
      LocatedIsInPool(addr, []);
      assert refs[b] == RefCount(b);
      Add(b, n);
      refs := if b in refs then refs[b := refs[b] + n] else refs;
      Recounted(b);
      return true;
    }

    /** FreeTranBuf: through any address inside a buffer, drop one reference on it, if it has
        any; an address outside the pool changes nothing. */
    method FreeTranBuf(addr: int, ghost s: seq<ClassState>)
      requires Valid() && Is(s)
      modifies Repr
      ensures Valid() && Is(FreeAt(s, Ranges(), addr))
      ensures var hit := Locate(Ranges(), addr, 0);
        refs == if hit.Some? then old(refs) - multiset{hit.value} else old(refs)
    {
      var hit := Locate(Ranges(), addr, 0);
      if hit.None? { return; }
      LocatedIsInPool(addr, s);
      Lose(hit.value, s);
    }

    method Lose(b: Buf, ghost s: seq<ClassState>)
      requires Valid() && InPool(b) && Is(s) && Has(s[b.cls], b.idx)
      modifies Repr
      ensures Valid() && refs == old(refs) - multiset{b} && Is(s[b.cls := Dropped(s[b.cls], b.idx)])
    {
      assert Open(Fold.Pool, 0);
      assert refs[b] == RefCount(b);
      Drop(b, s);
      refs := refs - multiset{b};
      Recounted(b);
    }

    /** One pass through the loop of the vector form. */
    method FreeInBatch(addr: int, ghost s: seq<ClassState>)
      requires Valid() && Is(s)
      modifies Repr
      ensures Valid() && Is(FreeAt(s, Ranges(), addr))
      ensures var hit := Locate(Ranges(), addr, 0);
        refs == if hit.Some? then old(refs) - multiset{hit.value} else old(refs)
    {
      var hit := Locate(Ranges(), addr, 0);
      if hit.None? { return; }
      LocatedIsInPool(addr, s);
      LoseInBatch(hit.value, s);
    }

    method LoseInBatch(b: Buf, ghost s: seq<ClassState>)
      requires Valid() && InPool(b) && Is(s) && Has(s[b.cls], b.idx)
      modifies Repr
      ensures Valid() && refs == old(refs) - multiset{b} && Is(s[b.cls := Dropped(s[b.cls], b.idx)])
    {
      assert Open(Fold.Pool, 0);
      assert refs[b] == RefCount(b);
      DropInBatch(b, s);
      refs := refs - multiset{b};
      Recounted(b);
    }

    /** FreeTranBuf on a vector: on bitmaps, headers, hints and statistics it equals the
        successive single frees; each reference goes as often as its buffer is hit. */
    method FreeTranBufs(addrs: seq<int>, ghost s: seq<ClassState>)
      requires Valid() && Is(s)
      modifies Repr
      ensures Valid() && Is(FreeAll(s, Ranges(), addrs))
      ensures refs == old(refs) - multiset(Hits(Ranges(), addrs))
    {
      var j := 0;
      NothingFreed(addrs, s);
      while j < |addrs|
        invariant j <= |addrs| && Valid() && Fits(s, Ranges()) && Freeing(addrs[..j], s, old(refs))
      {
        FreeNext(addrs, j, s, old(refs));
        j := j + 1;
      }
      AllFreed(addrs, j, s, old(refs));
    }

    lemma NothingFreed(addrs: seq<int>, s: seq<ClassState>)
      requires |pools| == CLASSES && Is(s)
      ensures Freeing(addrs[..0], s, refs)
    {
      assert addrs[..0] == [];
    }

    lemma AllFreed(addrs: seq<int>, j: nat, s: seq<ClassState>, before: multiset<Buf>)
      requires |pools| == CLASSES && Fits(s, Ranges()) && j == |addrs| && Freeing(addrs[..j], s, before)
      ensures Is(FreeAll(s, Ranges(), addrs)) && refs == before - multiset(Hits(Ranges(), addrs))
    {
      assert addrs[..j] == addrs;
    }

    /** The pool and its references after freeing through `done`. */
    ghost predicate Freeing(done: seq<int>, s: seq<ClassState>, before: multiset<Buf>)
      requires |pools| == CLASSES && Fits(s, Ranges())
      reads this, Repr - {this}
    {
      Is(FreeAll(s, Ranges(), done)) && refs == before - multiset(Hits(Ranges(), done))
    }

    method FreeNext(addrs: seq<int>, j: nat, ghost s: seq<ClassState>, ghost before: multiset<Buf>)
      requires Valid() && Fits(s, Ranges()) && j < |addrs| && Freeing(addrs[..j], s, before)
      modifies Repr
      ensures Valid() && Freeing(addrs[..j + 1], s, before)
    {
      FreesSnoc(s, addrs, j);
      Bags.MinusSome(before, Hits(Ranges(), addrs[..j]), Hits(Ranges(), addrs[..j + 1]), Locate(Ranges(), addrs[j], 0));
      FreeInBatch(addrs[j], FreeAll(s, Ranges(), addrs[..j]));
    }

    lemma FreesSnoc(s: seq<ClassState>, addrs: seq<int>, j: nat)
      requires |pools| == CLASSES && Fits(s, Ranges()) && j < |addrs|
      ensures FreeAll(s, Ranges(), addrs[..j + 1]) == FreeAt(FreeAll(s, Ranges(), addrs[..j]), Ranges(), addrs[j])
      ensures var hit := Locate(Ranges(), addrs[j], 0);
        Hits(Ranges(), addrs[..j + 1]) == Hits(Ranges(), addrs[..j]) + if hit.Some? then [hit.value] else []
    {
      assert addrs[..j + 1][..j] == addrs[..j];
    }

    // ----- holders and their pointers

    /** Whatever pointer into a buffer its holder has by now: packets move inside their buffer
        when headers in front of them grow or shrink. */
    method Pointer(b: Buf) returns (addr: int)
      requires |pools| == CLASSES && InPool(b)
      ensures Inside(Ranges(), b, addr)
    {
      var first := Ranges()[b.cls].header + b.idx * ElementSize(b.cls);
      var off: int :| 0 <= off < ElementSize(b.cls);
      addr := first + off;
    }

    ghost function States(): (s: seq<ClassState>)
      requires Valid()
      reads this, Repr
      ensures Is(s)
    {
      assert Open(Fold.Pool, 0);
      [pools[0].State(), pools[1].State(), pools[2].State(), pools[3].State(), pools[4].State(), pools[5].State(),
       pools[6].State()]
    }

    /** A holder of b frees its reference through its pointer. */
    method FreeBuf(b: Buf)
      requires Valid() && InPool(b)
      modifies Repr
      ensures Valid() && refs == old(refs) - multiset{b}
    {
      var addr := Pointer(b);
      Resolves(b, addr);
      FreeTranBuf(addr, States());
    }

    lemma Resolves(b: Buf, addr: int)
      requires Valid() && Inside(Ranges(), b, addr)
      ensures Locate(Ranges(), addr, 0) == NodePool.Some(b)
    {
      assert Open(Fold.Pool, 0);
      LocateExactly(Ranges(), addr, b);
    }

    /** A holder of b takes one more reference through its pointer. */
    method ShareBuf(b: Buf)
      requires Valid() && 0 < refs[b] < 32767
      modifies Repr
      ensures Valid() && refs == old(refs) + multiset{b}
    {
      ReferencedIsInPool(b);
      var addr := Pointer(b);
      Resolves(b, addr);
      forall e | Inside(Ranges(), e, addr) ensures e == b { Resolves(e, addr); }
      var ok := TranBufUseRefAddOne(addr, 1);
      Bags.OneMore(old(refs), b);
    }

    /** The holders of a vector of buffers free their references together. */
    method FreeBufs(v: seq<Buf>)
      requires Valid() && forall i :: 0 <= i < |v| ==> InPool(v[i])
      modifies Repr
      ensures Valid() && refs == old(refs) - multiset(v)
    {
      var addrs := Pointers(v);
      FindsAll(v, addrs);
      FreeTranBufs(addrs, States());
    }

    method Pointers(v: seq<Buf>) returns (addrs: seq<int>)
      requires |pools| == CLASSES && forall i :: 0 <= i < |v| ==> InPool(v[i])
      ensures |addrs| == |v| && forall i :: 0 <= i < |v| ==> Inside(Ranges(), v[i], addrs[i])
    {
      addrs := [];
      while |addrs| < |v|
        invariant |addrs| <= |v| && forall i :: 0 <= i < |addrs| ==> Inside(Ranges(), v[i], addrs[i])
      {
        var addr := Pointer(v[|addrs|]);
        addrs := addrs + [addr];
      }
    }

    lemma FindsAll(v: seq<Buf>, addrs: seq<int>)
      requires Valid() && |addrs| == |v| && forall i :: 0 <= i < |v| ==> Inside(Ranges(), v[i], addrs[i])
      ensures Hits(Ranges(), addrs) == v
    {
      assert Open(Fold.Pool, 0);
      HitsInside(Ranges(), addrs, v);
    }
  }

  lemma PayloadGrows(c: nat, d: nat)
    requires c <= d < CLASSES
    ensures Payload(c) <= Payload(d)
  {
  }
}
