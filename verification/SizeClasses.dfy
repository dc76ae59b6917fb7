/** One size class of the packet buffer pool (TranBufMng in src/tranmempool.h): reference
    counted buffers with a used-bitmap, a last-free hint and statistics. */
module SizeClasses {
  import opened Bits
  import opened UsedBitmap
  import NodePool
  import opened Folding

  const CLASSES: nat := 7
  const ELEMENT_HEADER: nat := 40   // sizeof(TranbufElement), packed
  const BUF_OFFSET: nat := 288      // HEADER_RSV_SIZE + TP_ADDR_RSV_SIZE
  const CANARY: nat := 8

  function Payload(cls: nat): (n: nat)
    requires cls < CLASSES
  {
    [256, 512, 1024, 1536, 4096, 8192, 65536][cls]
  }

  function ElementSize(cls: nat): (n: nat)
    requires cls < CLASSES
    ensures n > ELEMENT_HEADER + BUF_OFFSET
  {
    ELEMENT_HEADER + BUF_OFFSET + Payload(cls) + CANARY
  }

  /** The seven sizes: each payload with 336 bytes around it. */
  lemma ElementSizes(cls: nat)
    requires cls < CLASSES
    ensures ElementSize(cls) == [592, 848, 1360, 1872, 4432, 8528, 65872][cls]
  {
    assert cls in [0, 1, 2, 3, 4, 5, 6];
  }

  /** referenceCounter is an int16_t. */
  function Int16(x: int): (r: int)
    ensures -32768 <= r < 32768
    ensures -32768 <= x < 32768 ==> r == x
  {
    (x + 32768) % 65536 - 32768
  }

  // ----- the state of a class and what the operations make of it

  /** All a size class keeps apart from times: bitmap, element headers, hint and statistics. */
  datatype ClassState = ClassState(
    bitmap: seq<nat>, used: seq<bool>, refCount: seq<int>, lastFreePos: nat,
    usedNum: int, freeNum: int, mallocs: int, frees: int, abnormal: int)

  predicate Has(s: ClassState, p: nat) { p < |s.used| == |s.refCount| && p / 64 < |s.bitmap| }

  /** The state after element p is handed out. */
  function Taken(s: ClassState, p: nat): ClassState
    requires Has(s, p)
  {
    ClassState(s.bitmap[p / 64 := Or(s.bitmap[p / 64], Pow2(p % 64))], s.used[p := true], s.refCount[p := 1], p,
               s.usedNum + 1, s.freeNum - 1, s.mallocs + 1, s.frees, s.abnormal + if s.used[p] then 1 else 0)
  }

  /** The state after n references are added on element p. */
  function Added(s: ClassState, p: nat, n: nat): ClassState
    requires Has(s, p)
  {
    s.(refCount := s.refCount[p := Int16(s.refCount[p] + n)])
  }

  /** The state after one reference on element p is freed. */
  function Dropped(s: ClassState, p: nat): ClassState
    requires Has(s, p)
  {
    var rc := Int16(s.refCount[p] - 1);
    if 0 < rc || !s.used[p] then s.(refCount := s.refCount[p := rc])
    else Released(s, p)
  }

  /** ... when it was the last one. */
  function Released(s: ClassState, p: nat): ClassState
    requires Has(s, p)
  {
    ClassState(s.bitmap[p / 64 := AndNot(s.bitmap[p / 64], Pow2(p % 64))], s.used[p := false], s.refCount[p := 0], p,
               s.usedNum - 1, s.freeNum + 1, s.mallocs, s.frees + 1,
               s.abnormal + if Bit(s.bitmap[p / 64], p % 64) then 0 else 1)
  }

  /** The statistics are exact, the abnormality counter is zero, and `held` tells how many
      references each buffer in use has. */
  ghost predicate Exact(s: ClassState, held: seq<nat>, size: nat)
    requires size == |s.used| == |s.refCount| == |held|
  {
    && Agree(s.bitmap, s.used)
    && s.usedNum == Count(s.used) && s.usedNum + s.freeNum == size && s.mallocs - s.frees == s.usedNum
    && s.abnormal == 0
    && (forall p :: 0 <= p < size ==> held[p] == if s.used[p] then s.refCount[p] else 0)
    && (forall p :: 0 <= p < size && s.used[p] ==> 1 <= s.refCount[p] < 32768)
  }

  /** Exact, for a class of the given size. */
  ghost predicate Sound(s: ClassState, held: seq<nat>, size: nat) {
    && size == |s.used| == |s.refCount| == |held| == 64 * |s.bitmap| && s.lastFreePos < size
    && forall k: nat {:trigger Open(Fold.Class, k)} :: Open(Fold.Class, k) ==> Exact(s, held, size)
  }

  lemma TakeIsSound(s: ClassState, held: seq<nat>, size: nat, p: nat)
    requires Sound(s, held, size) && p < size && !s.used[p]
    ensures Sound(Taken(s, p), held[p := 1], size) && s.freeNum > 0 && held[p] == 0
    ensures Taken(s, p).lastFreePos == p && Taken(s, p).frees == s.frees
  {
    assert Open(Fold.Class, 0);
    CountUpdate(s.used, p, true);
    CountFull(s.used);
    MarkKeepsAgreement(s.bitmap, s.used, p);
  }

  lemma AddIsSound(s: ClassState, held: seq<nat>, size: nat, p: nat, n: nat)
    requires Sound(s, held, size) && p < size && held[p] + n < 32768
    ensures Sound(Added(s, p, n), if held[p] > 0 then held[p := held[p] + n] else held, size)
    ensures held[p] > 0 <==> s.used[p]
  {
    assert Open(Fold.Class, 0);
  }

  /** The code does not check the 16-bit counter: adding references on a buffer in use leaves a
      sound state, whatever is held, if and only if the counter does not overflow. */
  lemma AddExactly(s: ClassState, held: seq<nat>, size: nat, p: nat, n: nat)
    requires Sound(s, held, size) && p < size && s.used[p] && n < 32768
    ensures (exists h :: Sound(Added(s, p, n), h, size)) <==> s.refCount[p] + n < 32768
  {
    assert Open(Fold.Class, 0);
    if s.refCount[p] + n < 32768 {
      AddIsSound(s, held, size, p, n);
    } else {
      assert Int16(s.refCount[p] + n) < 0;
    }
  }

  /** One holder less; the last one returns the buffer, and freeing a buffer that is not in use
      only disturbs its dead counter. */
  lemma DropIsSound(s: ClassState, held: seq<nat>, size: nat, p: nat)
    requires Sound(s, held, size) && p < size
    ensures Sound(Dropped(s, p), held[p := if held[p] > 0 then held[p] - 1 else 0], size)
    ensures s.used[p] ==> s.usedNum > 0
  {
    assert Open(Fold.Class, 0);
    CountUpdate(s.used, p, false);
    UnmarkKeepsAgreement(s.bitmap, s.used, p);
    assert Marked(s.bitmap, p) == s.used[p];
  }

  /** The last holder's free clears the buffer's flag and points the hint at it; any other free
      changes nothing but one counter. */
  lemma LastFreeReturns(s: ClassState, held: seq<nat>, size: nat, p: nat)
    requires Sound(s, held, size) && p < size
    ensures held[p] == 1 ==> !Dropped(s, p).used[p] && Dropped(s, p).lastFreePos == p && Dropped(s, p).frees == s.frees + 1
    ensures held[p] != 1 ==> Dropped(s, p).(refCount := s.refCount) == s
  {
    assert Open(Fold.Class, 0);
  }

  lemma FreshIsSound(s: ClassState, size: nat)
    requires size == |s.used| == |s.refCount| == 64 * |s.bitmap| && s.lastFreePos < size
    requires s.usedNum == s.mallocs == s.frees == s.abnormal == 0 && s.freeNum == size
    requires (forall i :: 0 <= i < |s.bitmap| ==> s.bitmap[i] == 0) && (forall p :: 0 <= p < size ==> !s.used[p])
    ensures Sound(s, seq(size, _ => 0), size)
  {
    forall p | 0 <= p < size ensures Marked(s.bitmap, p) == s.used[p] { BitOfZero(p % 64); }
    CountNone(s.used);
  }

  // ----- the class

  class SizeClass {
    const cls: nat
    const header: nat           // pool_header
    const poolSize: nat
    const bitmap: array<nat>    // used_bitmap
    const usedFlag: array<bool>
    const refCount: array<int>  // referenceCounter
    var lastFreePos: nat
    var usedNum: nat
    var freeNum: nat
    var mallocCounter: nat
    var freeCounter: nat
    var abnormal: nat           // used_bit_abnormal_counter
    ghost const Repr: set<object>
    ghost var held: seq<nat>    // the references each buffer in use is held by

    ghost predicate Shape() {
      && Repr == {this, bitmap, usedFlag, refCount}
      && cls < CLASSES && header > 0 && poolSize > 0
      && poolSize == usedFlag.Length == refCount.Length == 64 * bitmap.Length
    }

    ghost function State(): ClassState
      reads this, bitmap, usedFlag, refCount
    {
      ClassState(bitmap[..], usedFlag[..], refCount[..], lastFreePos, usedNum, freeNum, mallocCounter, freeCounter, abnormal)
    }

    ghost predicate Valid()
      reads this, bitmap, usedFlag, refCount
    {
      Shape() && Sound(State(), held, poolSize)
    }

    constructor (c: nat, start: nat, size: nat)
      requires c < CLASSES && start > 0 && size > 0 && size % 64 == 0
      ensures Valid() && fresh(Repr)
      ensures cls == c && header == start && poolSize == size
      ensures forall p :: 0 <= p < poolSize ==> held[p] == 0
    {
      cls, header, poolSize := c, start, size;
      var b := new nat[size / 64](_ => 0);
      var u := new bool[size](_ => false);
      var r := new int[size](_ => 0);
      bitmap, usedFlag, refCount := b, u, r;
      lastFreePos, usedNum, freeNum, mallocCounter, freeCounter, abnormal := 0, 0, size, 0, 0, 0;
      held := seq(size, _ => 0);
      Repr := {this, b, u, r};
      new;
      FreshIsSound(State(), size);
    }

    /** The hinted word if it has a clear bit, else the first word that has one. */
    method OpenWord() returns (w: nat)
      requires Valid()
      ensures w <= bitmap.Length
      ensures w < bitmap.Length ==> bitmap[w] != FULL_WORD
      ensures w != lastFreePos / 64 ==>
        bitmap[lastFreePos / 64] == FULL_WORD && forall i :: 0 <= i < w ==> bitmap[i] == FULL_WORD
      ensures w == bitmap.Length ==> forall p :: 0 <= p < poolSize ==> usedFlag[..][p]
    {
      w := lastFreePos / 64;
      if bitmap[w] != FULL_WORD { return; }
      w := 0;
      while w < bitmap.Length && bitmap[w] == FULL_WORD
        invariant w <= bitmap.Length
        invariant forall i :: 0 <= i < w ==> bitmap[i] == FULL_WORD
      {
        w := w + 1;
      }
      if w == bitmap.Length {
        assert Open(Fold.Class, 0);
        forall p | 0 <= p < poolSize ensures usedFlag[..][p] { FullWordCovers(bitmap[..], usedFlag[..], p); }
      }
    }

    /** MallocTranBufElement: the free buffer nearest to the hint, held once, or none exactly when
        all are in use. */
    method MallocElement() returns (r: NodePool.Option<nat>)
      requires Valid()
      modifies this, bitmap, usedFlag, refCount
      ensures Valid()
      ensures r.None? <==> forall p :: 0 <= p < poolSize ==> old(usedFlag[..])[p]
      ensures r.None? ==> unchanged(this, bitmap, usedFlag, refCount)
      ensures r.Some? ==>
        && r.value < poolSize && NearestFree(old(usedFlag[..]), old(lastFreePos) / 64, r.value)
        && State() == Taken(old(State()), r.value)
        && held == old(held)[r.value := 1] && old(held)[r.value] == 0
    {
      var w := OpenWord();
      if w == bitmap.Length { return NodePool.None; }
      var p := ClearBit(w);
      assert Open(Fold.Class, 0);
      SearchFindsNearest(bitmap[..], usedFlag[..], lastFreePos / 64, w, p);
      Take(p);
      return NodePool.Some(p);
    }

    /** The first element of a word whose bit is clear. */
    method ClearBit(w: nat) returns (p: nat)
      requires Valid() && w < bitmap.Length && bitmap[w] != FULL_WORD
      ensures p / 64 == w && FirstFree(usedFlag[..], 64 * w, p)
    {
      assert Open(Fold.Class, 0);
      FreeBlockInWord(bitmap[..], usedFlag[..], w);
      ghost var free :| 0 <= free < 64 && !Bit(bitmap[..][w], free);
      var j := 0;
      while Bit(bitmap[w], j)
        invariant j <= free
        invariant forall q :: 64 * w <= q < 64 * w + j ==> usedFlag[..][q]
        decreases free - j
      {
        assert Marked(bitmap[..], 64 * w + j) == usedFlag[..][64 * w + j];
        j := j + 1;
      }
      p := 64 * w + j;
      assert Marked(bitmap[..], p) == usedFlag[..][p];
    }

    method Take(p: nat)
      requires Valid() && p < poolSize && !usedFlag[..][p]
      modifies this, bitmap, usedFlag, refCount
      ensures Valid() && State() == Taken(old(State()), p)
      ensures held == old(held)[p := 1] && old(held)[p] == 0
    {
      ghost var s := State();
      TakeIsSound(s, held, poolSize, p);
      bitmap[p / 64] := Or(bitmap[p / 64], Pow2(p % 64));
      lastFreePos := p;
      usedNum, freeNum, mallocCounter := usedNum + 1, freeNum - 1, mallocCounter + 1;
      abnormal := abnormal + if usedFlag[p] then 1 else 0;
      usedFlag[p] := true;
      refCount[p] := 1;
      held := held[p := 1];
      assert State() == Taken(s, p);
    }

    /** TranBufUseRefAddOne on a resolved element: n more holders of a buffer in use; on one
        that is not, only a dead counter is disturbed.  The 16-bit counter is not checked:
        AddExactly says when it keeps the class sound. */
    method AddRef(p: nat, n: nat)
      requires Valid() && p < poolSize
      modifies this`held, refCount
      ensures Shape() && State() == Added(old(State()), p, n)
      ensures held == if old(held)[p] > 0 then old(held)[p := old(held)[p] + n] else old(held)
      ensures old(held)[p] + n < 32768 ==> Valid()
    {
      ghost var s := State();
      if held[p] + n < 32768 { AddIsSound(s, held, poolSize, p, n); }
      refCount[p] := Int16(refCount[p] + n);
      held := if held[p] > 0 then held[p := held[p] + n] else held;
      assert State() == Added(s, p, n);
    }

    /** FreeTranBuf on a resolved element. */
    method DropRef(p: nat)
      requires Valid() && p < poolSize
      modifies this, bitmap, usedFlag, refCount
      ensures Valid() && State() == Dropped(old(State()), p)
      ensures held == old(held)[p := if old(held)[p] > 0 then old(held)[p] - 1 else 0]
    {
      ghost var s := State();
      DropIsSound(s, held, poolSize, p);
      held := held[p := if held[p] > 0 then held[p] - 1 else 0];
      refCount[p] := Int16(refCount[p] - 1);
      assert State() == s.(refCount := s.refCount[p := Int16(s.refCount[p] - 1)]);
      if 0 < refCount[p] || !usedFlag[p] { return; }
      Release(p);
    }

    /** The rest of the single form: hint, statistics, bitmap, header. */
    method Release(p: nat)
      requires Shape() && p < poolSize && usedNum > 0
      modifies this`lastFreePos, this`usedNum, this`freeNum, this`freeCounter, this`abnormal, bitmap, usedFlag, refCount
      ensures State() == Released(old(State()), p)
    {
      lastFreePos := p;
      usedNum, freeNum, freeCounter := usedNum - 1, freeNum + 1, freeCounter + 1;
      abnormal := abnormal + if Bit(bitmap[p / 64], p % 64) then 0 else 1;
      bitmap[p / 64] := AndNot(bitmap[p / 64], Pow2(p % 64));
      refCount[p] := 0;
      usedFlag[p] := false;
    }

    /** The vector form of FreeTranBuf on a resolved element. */
    method DropRefInBatch(p: nat)
      requires Valid() && p < poolSize
      modifies this, bitmap, usedFlag, refCount
      ensures Valid() && State() == Dropped(old(State()), p)
      ensures held == old(held)[p := if old(held)[p] > 0 then old(held)[p] - 1 else 0]
    {
      DropIsSound(State(), held, poolSize, p);
      held := held[p := if held[p] > 0 then held[p] - 1 else 0];
      BatchBody(p);
    }

    /** Its loop body, which does not call the single form but repeats its work: it has the same
        effect on everything but times. */
    method BatchBody(p: nat)
      requires Shape() && p < poolSize && (usedFlag[p] ==> usedNum > 0)
      modifies this`lastFreePos, this`usedNum, this`freeNum, this`freeCounter, this`abnormal, bitmap, usedFlag, refCount
      ensures State() == Dropped(old(State()), p)
    {
      refCount[p] := Int16(refCount[p] - 1);
      assert State() == old(State()).(refCount := old(State()).refCount[p := Int16(old(State()).refCount[p] - 1)]);
      if !(0 < refCount[p] || !usedFlag[p]) { BatchRelease(p); }
    }

    method BatchRelease(p: nat)
      requires Shape() && p < poolSize && usedNum > 0
      modifies this`lastFreePos, this`usedNum, this`freeNum, this`freeCounter, this`abnormal, bitmap, usedFlag, refCount
      ensures State() == Released(old(State()), p)
    {
      lastFreePos := p;
      usedNum := usedNum - 1;
      freeNum := freeNum + 1;
      freeCounter := freeCounter + 1;
      var mask := Pow2(p % 64);
      if !Bit(bitmap[p / 64], p % 64) { abnormal := abnormal + 1; }
      bitmap[p / 64] := AndNot(bitmap[p / 64], mask);
      refCount[p] := 0;
      usedFlag[p] := false;
    }
  }
}
