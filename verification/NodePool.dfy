/** The fixed-block allocator GtpMemPool (src/mempool/goodtp_mem_pool.cpp): a used-bitmap,
    per-block used flags and quote counters, a last-free hint and statistics counters. */
module NodePool {
  import opened Bits
  import opened UsedBitmap
  import opened Arithmetic

  const U32: nat := 0x1_0000_0000
  const HEADER: nat := 4      // bytes of a PoolNode before memory_
  const NULL: int := 0

  datatype Option<+T> = None | Some(value: T)

  // ----- the constructor's rounding

  function RoundBlockSize(blockSize: nat): nat {
    if blockSize < 4 then HEADER + blockSize else HEADER + (blockSize / 4 * 4 + 4)
  }

  function RoundBlockNum(blockNum: nat): nat {
    if blockNum < 64 then blockNum else blockNum / 64 * 64 + 64
  }

  /** The bitmap holds blockNum >> 6 words: it covers every block exactly when at least 64
      blocks (or none) are asked for, because smaller requests are not rounded up. */
  lemma BitmapCoversPool(blockNum: nat)
    ensures 64 * (RoundBlockNum(blockNum) / 64) == RoundBlockNum(blockNum) <==> blockNum >= 64 || blockNum == 0
    ensures blockNum >= 64 ==> blockNum < RoundBlockNum(blockNum) <= blockNum + 64
    ensures blockNum < 64 ==> RoundBlockNum(blockNum) == blockNum
  {
    if blockNum >= 64 { assert (blockNum / 64 * 64 + 64) / 64 == blockNum / 64 + 1; }
  }

  /** A block has room for its header and the memory asked for, rounded up past the next multiple
      of 4 from 4 bytes on. */
  lemma BlocksFit(blockSize: nat)
    ensures RoundBlockSize(blockSize) >= blockSize + 4
    ensures blockSize >= 4 ==> RoundBlockSize(blockSize) % 4 == 0 && RoundBlockSize(blockSize) <= blockSize + 8
    ensures blockSize < 4 ==> RoundBlockSize(blockSize) == blockSize + 4
  {
  }

  // ----- quote accounting

  /** Sum of the quote counters of the blocks in use. */
  function QuoteSum(used: seq<bool>, quote: seq<nat>): nat
    requires |used| == |quote|
  {
    if used == [] then 0
    else
      var n := |used| - 1;
      QuoteSum(used[..n], quote[..n]) + if used[n] then quote[n] else 0
  }

  function Held(b: bool, q: nat): nat { if b then q else 0 }

  lemma {:induction false} QuoteSumUpdate(used: seq<bool>, quote: seq<nat>, p: nat, b: bool, q: nat)
    requires |used| == |quote| && p < |used|
    ensures QuoteSum(used[p := b], quote[p := q]) == QuoteSum(used, quote) + Held(b, q) - Held(used[p], quote[p])
  {
    var n := |used| - 1;
    if p < n {
      QuoteSumUpdate(used[..n], quote[..n], p, b, q);
      assert used[p := b][..n] == used[..n][p := b] && quote[p := q][..n] == quote[..n][p := q];
    } else {
      assert used[p := b][..n] == used[..n] && quote[p := q][..n] == quote[..n];
    }
  }

  lemma {:induction false} QuoteSumNone(used: seq<bool>, quote: seq<nat>)
    requires |used| == |quote| && forall p :: 0 <= p < |used| ==> !used[p]
    ensures QuoteSum(used, quote) == 0
  {
    if used != [] { QuoteSumNone(used[..|used| - 1], quote[..|used| - 1]); }
  }

  /** malloc_counter_ - free_counter_ is the sum of the quotes held, modulo the counters'
      32-bit width, and every block in use is quoted 1 to 255 times. */
  ghost predicate Balanced(used: seq<bool>, quote: seq<nat>, mallocs: nat, frees: nat)
    requires |used| == |quote|
  {
    && (mallocs - frees - QuoteSum(used, quote)) % U32 == 0
    && forall p :: 0 <= p < |used| && used[p] ==> 1 <= quote[p] <= 255
  }

  // ----- addresses

  function BlockAddr(base: nat, size: nat, p: nat): nat { base + p * size + HEADER }

  /** GtpMemPool::MemAddrToElementAddr: the block an address falls into, if any. */
  function Resolve(base: nat, size: nat, n: nat, addr: int): (r: Option<nat>)
    requires size > 0
  {
    if addr < base || addr >= base + n * size then None else Some((addr - base) / size)
  }

  /** An address resolves to block p exactly when it lies inside block p, header included. */
  lemma ResolveIsBlock(base: nat, size: nat, n: nat, addr: int, p: nat)
    requires size > 0
    ensures Resolve(base, size, n, addr) == Some(p) <==> p < n && base + p * size <= addr < base + p * size + size
  {
    MulMonotone(p + 1, n, size);
    MulMonotone(n, p, size);
    if base + p * size <= addr < base + p * size + size { DivByBlock(size, p, addr - base - p * size); }
  }

  lemma BlockAddrInjective(base: nat, size: nat, p: nat, q: nat)
    requires size > 0
    ensures BlockAddr(base, size, p) == BlockAddr(base, size, q) ==> p == q
  {
    MulMonotone(p + 1, q, size);
    MulMonotone(q + 1, p, size);
  }

  // ----- live blocks

  /** `live` lists the addresses of the blocks in use, each with its quote counter. */
  ghost predicate LiveTable(live: map<int, nat>, used: seq<bool>, quote: seq<nat>, base: nat, size: nat) {
    && |used| == |quote| && size > 0
    && (forall p :: 0 <= p < |used| ==>
          if used[p] then BlockAddr(base, size, p) in live && live[BlockAddr(base, size, p)] == quote[p]
          else BlockAddr(base, size, p) !in live)
    && (forall a :: a in live ==> exists p :: 0 <= p < |used| && a == BlockAddr(base, size, p))
  }

  lemma LiveSet(live: map<int, nat>, used: seq<bool>, quote: seq<nat>, base: nat, size: nat, p: nat, q: nat)
    requires LiveTable(live, used, quote, base, size) && p < |used|
    ensures LiveTable(live[BlockAddr(base, size, p) := q], used[p := true], quote[p := q], base, size)
  {
    forall r | 0 <= r < |used| && r != p ensures BlockAddr(base, size, r) != BlockAddr(base, size, p) {
      BlockAddrInjective(base, size, r, p);
    }
  }

  lemma LiveClear(live: map<int, nat>, used: seq<bool>, quote: seq<nat>, base: nat, size: nat, p: nat, q: nat)
    requires LiveTable(live, used, quote, base, size) && p < |used|
    ensures LiveTable(live - {BlockAddr(base, size, p)}, used[p := false], quote[p := q], base, size)
  {
    forall r | 0 <= r < |used| && r != p ensures BlockAddr(base, size, r) != BlockAddr(base, size, p) {
      BlockAddrInjective(base, size, r, p);
    }
  }

  lemma LiveBlock(live: map<int, nat>, used: seq<bool>, quote: seq<nat>, base: nat, size: nat, a: int) returns (p: nat)
    requires LiveTable(live, used, quote, base, size) && a in live && size > HEADER
    ensures p < |used| && used[p] && quote[p] == live[a] && a == BlockAddr(base, size, p)
    ensures Resolve(base, size, |used|, a) == Some(p)
  {
    p :| 0 <= p < |used| && a == BlockAddr(base, size, p);
    ResolveIsBlock(base, size, |used|, a, p);
  }

  /** Zeroed memory is a consistent pool with nothing in use. */
  lemma NothingLive(words: seq<nat>, used: seq<bool>, quote: seq<nat>, base: nat, size: nat)
    requires |used| == |quote| == 64 * |words| && size > 0
    requires forall i :: 0 <= i < |words| ==> words[i] == 0
    requires forall p :: 0 <= p < |used| ==> !used[p]
    ensures Agree(words, used) && Count(used) == 0
    ensures LiveTable(map[], used, quote, base, size) && Balanced(used, quote, 0, 0)
  {
    forall p | 0 <= p < |used| ensures Marked(words, p) == used[p] { BitOfZero(p % 64); }
    CountNone(used);
    QuoteSumNone(used, quote);
  }

  // ----- the pool

  /** The block handed out: the hinted one if it is free, else the nearest to it. */
  ghost predicate Hinted(used: seq<bool>, hint: nat, p: nat)
    requires hint < |used|
  {
    if !used[hint] then p == hint else NearestFree(used, hint / 64, p)
  }

  datatype PoolOp = Take | Quote(addr: int) | Free(addr: int)

  /** The blocks in use with their quote counters, and how many are free. */
  datatype Tally = Tally(live: map<int, nat>, free: int)

  class GtpMemPool {
    const base: nat             // mem_pool_left_boundary_
    const blockSize: nat
    const poolSize: nat
    const bitmap: array<nat>    // used_bitmap_
    const usedFlag: array<bool>
    const quote: array<nat>     // quote_counter_, a u8
    var usingNum: nat
    var mallocCounter: nat
    var freeCounter: nat
    var lastFreePos: nat
    ghost const Repr: set<object>
    ghost var live: map<int, nat>

    ghost predicate Shape()
      reads this
    {
      && Repr == {this, bitmap, usedFlag, quote}
      && bitmap != quote
      && base > 0 && blockSize > HEADER && poolSize > 0
      && poolSize == usedFlag.Length == quote.Length == 64 * bitmap.Length
      && lastFreePos < poolSize
      && mallocCounter < U32 && freeCounter < U32
    }

    /** Bit set, used flag and using_num_ agree, and `live` is what they describe. */
    ghost predicate Valid()
      reads this, bitmap, usedFlag, quote
    {
      && Shape()
      && Agree(bitmap[..], usedFlag[..])
      && usingNum == Count(usedFlag[..])
      && LiveTable(live, usedFlag[..], quote[..], base, blockSize)
    }

    function FreeBlocks(): int
      reads this
    {
      poolSize - usingNum
    }

    lemma FreeBlocksMeans()
      requires Valid()
      ensures FreeBlocks() >= 0
      ensures FreeBlocks() == 0 <==> forall p :: 0 <= p < poolSize ==> usedFlag[p]
    {
      CountFull(usedFlag[..]);
    }

    /** The quote accounting is exact. */
    ghost predicate Conserved()
      reads this, usedFlag, quote
      requires Shape()
    {
      Balanced(usedFlag[..], quote[..], mallocCounter, freeCounter)
    }

    function Addr(p: nat): nat {
      BlockAddr(base, blockSize, p)
    }

    function Find(addr: int): Option<nat>
      requires blockSize > 0
    {
      Resolve(base, blockSize, poolSize, addr)
    }

    constructor (size: nat, num: nat, start: nat)
      requires size > 0 && num >= 64 && start > 0
      ensures Valid() && Conserved() && fresh(Repr) && live == map[]
      ensures poolSize == RoundBlockNum(num) && blockSize == RoundBlockSize(size)
    {
      var n := RoundBlockNum(num);
      BitmapCoversPool(num);
      base, blockSize, poolSize := start, RoundBlockSize(size), n;
      var b := new nat[n / 64](_ => 0);
      var u := new bool[n](_ => false);
      var q := new nat[n](_ => 0);
      bitmap, usedFlag, quote := b, u, q;
      usingNum, mallocCounter, freeCounter, lastFreePos := 0, 0, 0, 0;
      live := map[];
      Repr := {this, b, u, q};
      new;
      NothingLive(bitmap[..], usedFlag[..], quote[..], start, blockSize);
    }

    /** directly_distribute_pos_: hand out block lastFreePos, which must be free. */
    method Distribute() returns (r: int)
      requires Valid() && !usedFlag[lastFreePos]
      modifies this`usingNum, this`mallocCounter, this`live, bitmap, usedFlag, quote
      ensures Valid()
      ensures r == Addr(lastFreePos) && r != NULL
      ensures usedFlag[..] == old(usedFlag[..])[lastFreePos := true]
      ensures quote[..] == old(quote[..])[lastFreePos := 1]
      ensures mallocCounter == (old(mallocCounter) + 1) % U32 && usingNum == old(usingNum) + 1
      ensures r !in old(live) && live == old(live)[r := 1]
    {
      var p := lastFreePos;
      ghost var u, q, w := usedFlag[..], quote[..], bitmap[..];
      usedFlag[p] := true;
      quote[p] := 1;
      bitmap[p / 64] := Or(bitmap[p / 64], Pow2(p % 64));
      mallocCounter := (mallocCounter + 1) % U32;
      usingNum := usingNum + 1;
      r := Addr(p);
      live := live[r := 1];
      MarkKeepsAgreement(w, u, p);
      CountUpdate(u, p, true);
      LiveSet(old(live), u, q, base, blockSize, p, 1);
      assert usedFlag[..] == u[p := true] && quote[..] == q[p := 1];
      assert bitmap[..] == w[p / 64 := Or(w[p / 64], Pow2(p % 64))];
    }

    /** A block of one word whose bit and flag are both clear, or 64. */
    method FreeInWord(w: nat) returns (loop: nat)
      requires Shape() && Agree(bitmap[..], usedFlag[..]) && w < bitmap.Length
      ensures loop <= 64 && (loop == 64 <==> bitmap[w] == FULL_WORD)
      ensures loop < 64 ==> FirstFree(usedFlag[..], 64 * w, 64 * w + loop)
    {
      loop := 0;
      while loop < 64
        invariant loop <= 64
        invariant forall k :: 0 <= k < loop ==> Bit(bitmap[w], k)
        invariant forall q :: 64 * w <= q < 64 * w + loop ==> usedFlag[q]
      {
        assert Marked(bitmap[..], 64 * w + loop) == usedFlag[64 * w + loop];
        if !Bit(bitmap[w], loop) && !usedFlag[64 * w + loop] {
          BitOfFull(loop);
          return;
        }
        loop := loop + 1;
      }
      if bitmap[w] != FULL_WORD { FreeBlockInWord(bitmap[..], usedFlag[..], w); }
    }

    /** indirectly_distribute_pos_: scan one word and remember where it has a free block. */
    method ScanWord(w: nat) returns (found: bool)
      requires Valid() && w < bitmap.Length
      modifies this`lastFreePos
      ensures Valid()
      ensures found <==> bitmap[w] != FULL_WORD
      ensures found ==> lastFreePos / 64 == w && FirstFree(usedFlag[..], 64 * w, lastFreePos)
      ensures !found ==> lastFreePos == old(lastFreePos)
    {
      var loop := FreeInWord(w);
      found := loop < 64;
      if found { lastFreePos := 64 * w + loop; }
    }

    lemma BitOfFull(k: nat)
      requires k < 64
      ensures Bit(FULL_WORD, k)
    {
      FullWordIsAllOnes();
      BitOnes(64, k);
    }

    /** The first word, from the start, that is not full. */
    method FirstOpenWord() returns (w: nat)
      requires Valid() && usingNum < poolSize
      ensures w < bitmap.Length && bitmap[w] != FULL_WORD && forall i :: 0 <= i < w ==> bitmap[i] == FULL_WORD
    {
      w := 0;
      while w < bitmap.Length && bitmap[w] == FULL_WORD
        invariant w <= bitmap.Length
        invariant forall i :: 0 <= i < w ==> bitmap[i] == FULL_WORD
      {
        w := w + 1;
      }
      if w == bitmap.Length {
        forall p | 0 <= p < poolSize ensures usedFlag[..][p] { FullWordCovers(bitmap[..], usedFlag[..], p); }
        CountFull(usedFlag[..]);
        assert false;   // using_num_ says a block is free, so the give-up branch is dead
      }
    }

    /** The search of MallocItem(NULL), its backward gotos written as a loop: it ends with
        the hint on a free block, the hinted one or the nearest to it, after scanning at most one
        word beyond the hinted one. */
    method Search()
      requires Valid() && usingNum < poolSize
      modifies this`lastFreePos
      ensures Valid() && Hinted(usedFlag[..], old(lastFreePos), lastFreePos)
    {
      if !usedFlag[lastFreePos] { return; }
      ghost var hint := lastFreePos / 64;
      var w: nat := lastFreePos / 64;
      var scanning := bitmap[w] != FULL_WORD;
      var found := false;
      while !found
        invariant Valid()
        invariant w < bitmap.Length
        invariant scanning ==> bitmap[w] != FULL_WORD
        invariant w == hint || (bitmap[hint] == FULL_WORD && forall i :: 0 <= i < w ==> bitmap[i] == FULL_WORD)
        invariant !found ==> scanning || bitmap[hint] == FULL_WORD
        invariant found ==> NearestFree(usedFlag[..], hint, lastFreePos)
        decreases !found, !scanning
      {
        if scanning {
          found := ScanWord(w);
          if found { SearchFindsNearest(bitmap[..], usedFlag[..], hint, w, lastFreePos); }
        }
        if !found {
          w := FirstOpenWord();
          scanning := true;
        }
      }
    }

    /** MallocItem(NULL): a block that was not in use, or NULL exactly when all are. */
    method MallocNew() returns (r: int)
      requires Valid()
      modifies this, bitmap, usedFlag, quote
      ensures Valid()
      ensures r == NULL <==> forall p :: 0 <= p < poolSize ==> old(usedFlag[..])[p]
      ensures r == NULL ==> unchanged(this, bitmap, usedFlag, quote)
      ensures r != NULL ==>
        && r == Addr(lastFreePos) && Hinted(old(usedFlag[..]), old(lastFreePos), lastFreePos)
        && usedFlag[..] == old(usedFlag[..])[lastFreePos := true]
        && quote[..] == old(quote[..])[lastFreePos := 1]
        && mallocCounter == (old(mallocCounter) + 1) % U32 && freeCounter == old(freeCounter)
        && usingNum == old(usingNum) + 1
        && r !in old(live) && live == old(live)[r := 1]
    {
      CountFull(usedFlag[..]);
      if poolSize <= usingNum { return NULL; }
      Search();
      r := Distribute();
    }

    /** MallocItem: quote the block `payload` lies in once more, or take a new block.  The
        accounting survives exactly when a quoted block is in use and quoted fewer than 255
        times: the code checks neither. */
    method MallocItem(payload: int) returns (r: int)
      requires Valid()
      modifies this, bitmap, usedFlag, quote
      ensures Valid()
      ensures var hit := if payload == NULL then None else Find(payload);
        match hit
        case None =>
          && (r == NULL <==> forall p :: 0 <= p < poolSize ==> old(usedFlag[..])[p])
          && (r == NULL ==> live == old(live) && usingNum == old(usingNum))
          && (r != NULL ==> r !in old(live) && live == old(live)[r := 1] && usingNum == old(usingNum) + 1)
          && (old(Conserved()) ==> Conserved())
        case Some(p) =>
          && p < poolSize
          && r == Addr(p)
          && usedFlag[..] == old(usedFlag[..])
          && quote[..] == old(quote[..])[p := (old(quote[..])[p] + 1) % 256]
          && live == (if old(usedFlag[..])[p] then old(live)[r := (old(quote[..])[p] + 1) % 256] else old(live))
          && usingNum == old(usingNum)
          && mallocCounter == (old(mallocCounter) + 1) % U32 && freeCounter == old(freeCounter)
          && (old(Conserved()) ==> (Conserved() <==> old(usedFlag[..])[p] && old(quote[..])[p] < 255))
    {
      ghost var u, q, m := usedFlag[..], quote[..], mallocCounter;
      if payload != NULL {
        var hit := Find(payload);
        if hit.Some? {
          ResolveIsBlock(base, blockSize, poolSize, payload, hit.value);
          Requote(hit.value);
          return Addr(hit.value);
        }
      }
      r := MallocNew();
      if r != NULL { DistributeBalance(u, q, m, freeCounter, lastFreePos); }
    }

    method Requote(p: nat)
      requires Valid() && p < poolSize
      modifies this`mallocCounter, this`live, quote
      ensures Valid()
      ensures quote[..] == old(quote[..])[p := (old(quote[..])[p] + 1) % 256]
      ensures mallocCounter == (old(mallocCounter) + 1) % U32
      ensures live == if usedFlag[p] then old(live)[Addr(p) := (old(quote[..])[p] + 1) % 256] else old(live)
      ensures old(Conserved()) ==> (Conserved() <==> usedFlag[p] && old(quote[..])[p] < 255)
    {
      ghost var q := quote[..];
      QuoteOnce(p);
      mallocCounter := (mallocCounter + 1) % U32;
      RequoteBalance(usedFlag[..], q, old(mallocCounter), freeCounter, p);
    }

    method QuoteOnce(p: nat)
      requires Valid() && p < poolSize
      modifies this`live, quote
      ensures Valid() && quote[..] == old(quote[..])[p := (old(quote[..])[p] + 1) % 256]
      ensures live == if usedFlag[p] then old(live)[Addr(p) := (old(quote[..])[p] + 1) % 256] else old(live)
    {
      ghost var q := quote[..];
      quote[p] := (quote[p] + 1) % 256;
      if usedFlag[p] {
        live := live[Addr(p) := quote[p]];
        LiveSet(old(live), usedFlag[..], q, base, blockSize, p, quote[p]);
        assert usedFlag[..][p := true] == usedFlag[..];
      }
      assert quote[..] == q[p := quote[p]];
    }

    /** FreeItem: drop one quote of the block `addr` lies in.  An address outside the pool or
        inside a free block changes nothing; the last quote returns the block. */
    method FreeItem(addr: int)
      requires Valid()
      modifies this, bitmap, usedFlag, quote
      ensures Valid()
      ensures old(Conserved()) ==> Conserved()
      ensures Find(addr).Some? ==> Find(addr).value < poolSize
      ensures Find(addr).None? || !old(usedFlag[..])[Find(addr).value] ==> unchanged(this, bitmap, usedFlag, quote)
      ensures Find(addr).Some? && old(usedFlag[..])[Find(addr).value] ==>
        var p := Find(addr).value;
        var q := if old(quote[..])[p] > 0 then old(quote[..])[p] - 1 else 0;
        && quote[..] == old(quote[..])[p := q]
        && usedFlag[..] == old(usedFlag[..])[p := q != 0]
        && freeCounter == (old(freeCounter) + 1) % U32 && mallocCounter == old(mallocCounter)
        && live == if q == 0 then old(live) - {Addr(p)} else old(live)[Addr(p) := q]
    {
      var hit := Find(addr);
      if hit.None? { return; }
      var p := hit.value;
      ResolveIsBlock(base, blockSize, poolSize, addr, p);
      if !usedFlag[p] { return; }
      FreeBalance(usedFlag[..], quote[..], mallocCounter, freeCounter, p);
      DropQuote(p);
    }

    /** Does the address lie in a block in use whose quote counter has room? */
    predicate Quotable(addr: int)
      requires Shape()
      reads this, usedFlag, quote
    {
      addr != NULL && Find(addr).Some? && Find(addr).value < poolSize
      && usedFlag[Find(addr).value] && quote[Find(addr).value] < 255
    }

    /** Does the address lie in the block handed out as b, header included? */
    predicate Around(b: int, addr: int) { b - 4 <= addr < b - 4 + blockSize }

    lemma HolderIs(addr: int)
      requires Valid()
      ensures Find(addr).Some? ==> Find(addr).value < poolSize && Around(Addr(Find(addr).value), addr)
      ensures Find(addr).None? || !usedFlag[Find(addr).value] ==> forall b :: b in live ==> !Around(b, addr)
    {
      if Find(addr).Some? { ResolveIsBlock(base, blockSize, poolSize, addr, Find(addr).value); }
      forall b | b in live ensures Around(b, addr) ==> Find(addr).Some? && usedFlag[Find(addr).value] {
        var p := LiveBlock(live, usedFlag[..], quote[..], base, blockSize, b);
        ResolveIsBlock(base, blockSize, poolSize, addr, p);
      }
    }

    ghost function Now(): Tally
      reads this
    {
      Tally(live, FreeBlocks())
    }

    /** What an operation makes of the blocks in use. */
    ghost predicate Did(op: PoolOp, m: Tally, m': Tally) {
      match op
      case Take => if m.free == 0 then m' == m else Took(m, m')
      case Quote(a) => (exists b :: Around(b, a) && Quoted(b, m, m')) || (m' == m && Full(a, m))
      case Free(a) => (exists b :: Around(b, a) && Freed(b, m, m')) || (m' == m && forall b :: b in m.live ==> !Around(b, a))
    }

    ghost predicate Took(m: Tally, m': Tally) {
      m'.free == m.free - 1 && exists b :: b !in m.live && m'.live == m.live[b := 1]
    }

    ghost predicate Quoted(b: int, m: Tally, m': Tally) {
      b in m.live && m.live[b] < 255 && m' == m.(live := m.live[b := m.live[b] + 1])
    }

    ghost predicate Freed(b: int, m: Tally, m': Tally) {
      b in m.live && m' == if m.live[b] > 1 then m.(live := m.live[b := m.live[b] - 1]) else Tally(m.live - {b}, m.free + 1)
    }

    /** The address is NULL, or no block with room for a quote lies around it. */
    ghost predicate Full(addr: int, m: Tally) {
      addr == 0 || forall b :: b in m.live && Around(b, addr) ==> m.live[b] >= 255
    }

    method Step(op: PoolOp)
      requires Valid() && Conserved()
      modifies this, bitmap, usedFlag, quote
      ensures Valid() && Conserved() && Did(op, old(Now()), Now())
    {
      FreeBlocksMeans();
      match op {
        case Take =>
          var r := MallocItem(NULL);
          assert r != NULL ==> Took(old(Now()), Now());
        case Quote(a) => StepQuote(a);
        case Free(a) => StepFree(a);
      }
    }

    method StepQuote(a: int)
      requires Valid() && Conserved()
      modifies this, bitmap, usedFlag, quote
      ensures Valid() && Conserved() && Did(Quote(a), old(Now()), Now())
    {
      HolderIs(a);
      if Quotable(a) {
        ghost var b := Addr(Find(a).value);
        var r := MallocItem(a);
        assert Around(b, a) && Quoted(b, old(Now()), Now());
      } else {
        FullMeans(a);
      }
    }

    lemma FullMeans(a: int)
      requires Valid() && Conserved() && !Quotable(a)
      ensures Full(a, Now())
    {
      forall b | b in live && Around(b, a) ensures a == 0 || live[b] >= 255 {
        var p := LiveBlock(live, usedFlag[..], quote[..], base, blockSize, b);
        ResolveIsBlock(base, blockSize, poolSize, a, p);
      }
    }

    method StepFree(a: int)
      requires Valid() && Conserved()
      modifies this, bitmap, usedFlag, quote
      ensures Valid() && Conserved() && Did(Free(a), old(Now()), Now())
    {
      HolderIs(a);
      ghost var hit := Find(a);
      ghost var used := usedFlag[..];
      FreeItem(a);
      if hit.Some? && used[hit.value] {
        CountUpdate(used, hit.value, usedFlag[hit.value]);
        assert used[hit.value := true] == used;
        assert Around(Addr(hit.value), a) && Freed(Addr(hit.value), old(Now()), Now());
      }
    }

    /** Whole runs: after any sequence of allocations, re-quotes of blocks in use with room and
        frees of any address, bits, flags, counts and quotes agree, the accounting is exact, and
        each operation did to the blocks in use what it should. */
    method Run(ops: seq<PoolOp>) returns (ghost h: seq<Tally>)
      requires Valid() && Conserved()
      modifies this, bitmap, usedFlag, quote
      ensures Valid() && Conserved()
      ensures |h| == |ops| + 1 && h[0] == old(Now()) && h[|ops|] == Now()
      ensures forall i :: 0 <= i < |ops| ==> Did(ops[i], h[i], h[i + 1])
    {
      h := [Now()];
      for i := 0 to |ops|
        invariant Valid() && Conserved()
        invariant |h| == i + 1 && h[0] == old(Now()) && h[i] == Now()
        invariant forall j :: 0 <= j < i ==> Did(ops[j], h[j], h[j + 1])
      {
        Step(ops[i]);
        h := h + [Now()];
      }
    }

    /** A new block for an owner, or NULL. */
    method Acquire() returns (r: int)
      requires Valid()
      modifies Repr
      ensures Valid() && (old(Conserved()) ==> Conserved())
      ensures r == NULL <==> old(FreeBlocks()) == 0
      ensures r == NULL ==> live == old(live)
      ensures r != NULL ==> r !in old(live) && live == old(live)[r := 1] && FreeBlocks() == old(FreeBlocks()) - 1
    {
      FreeBlocksMeans();
      r := MallocItem(NULL);
    }

    /** Return a block its owner holds the only quote of. */
    method Return(a: int)
      requires Valid() && a in live && live[a] == 1
      modifies Repr
      ensures Valid() && (old(Conserved()) ==> Conserved())
      ensures live == old(live) - {a}
    {
      ghost var p := LiveBlock(live, usedFlag[..], quote[..], base, blockSize, a);
      FreeItem(a);
    }

    method DropQuote(p: nat)
      requires Valid() && p < poolSize && usedFlag[p]
      modifies this, bitmap, usedFlag, quote
      ensures Valid()
      ensures var q := if old(quote[..])[p] > 0 then old(quote[..])[p] - 1 else 0;
        && quote[..] == old(quote[..])[p := q]
        && usedFlag[..] == old(usedFlag[..])[p := q != 0]
        && freeCounter == (old(freeCounter) + 1) % U32 && mallocCounter == old(mallocCounter)
        && live == if q == 0 then old(live) - {Addr(p)} else old(live)[Addr(p) := q]
    {
      if 1 < quote[p] { LowerQuote(p); } else { LastQuote(p); }
    }

    method LowerQuote(p: nat)
      requires Valid() && p < poolSize && usedFlag[p] && 1 < quote[p]
      modifies this`freeCounter, this`live, quote
      ensures Valid() && quote[..] == old(quote[..])[p := old(quote[..])[p] - 1]
      ensures usedFlag[..] == usedFlag[..][p := true]
      ensures freeCounter == (old(freeCounter) + 1) % U32 && live == old(live)[Addr(p) := quote[p]]
    {
      ghost var q := quote[..];
      freeCounter := (freeCounter + 1) % U32;
      quote[p] := quote[p] - 1;
      live := live[Addr(p) := quote[p]];
      assert quote[..] == q[p := quote[p]];
      LiveSet(old(live), usedFlag[..], q, base, blockSize, p, quote[p]);
      assert usedFlag[..] == usedFlag[..][p := true];
    }

    method LastQuote(p: nat)
      requires Valid() && p < poolSize && usedFlag[p] && quote[p] <= 1
      modifies this, bitmap, usedFlag, quote
      ensures Valid() && quote[..] == old(quote[..])[p := 0] && usedFlag[..] == old(usedFlag[..])[p := false]
      ensures freeCounter == (old(freeCounter) + 1) % U32 && mallocCounter == old(mallocCounter)
      ensures live == old(live) - {Addr(p)}
    {
      ghost var u, q := usedFlag[..], quote[..];
      freeCounter := (freeCounter + 1) % U32;
      quote[p] := 0;
      assert quote[..] == q[p := 0];
      live := live - {Addr(p)};
      LiveClear(old(live), u, q, base, blockSize, p, 0);
      ReleaseBlock(p);
    }

    /** Clear flag and bit of a block whose last quote is gone, and point the hint at it. */
    method ReleaseBlock(p: nat)
      requires Shape() && p < poolSize && usedFlag[p]
      requires Agree(bitmap[..], usedFlag[..]) && usingNum == Count(usedFlag[..])
      modifies this`usingNum, this`lastFreePos, bitmap, usedFlag
      ensures Shape() && Agree(bitmap[..], usedFlag[..]) && usingNum == Count(usedFlag[..])
      ensures usedFlag[..] == old(usedFlag[..])[p := false] && lastFreePos == p
    {
      ghost var u, w := usedFlag[..], bitmap[..];
      CountUpdate(u, p, false);
      UnmarkKeepsAgreement(w, u, p);
      if 0 < usingNum { usingNum := usingNum - 1; }
      usedFlag[p] := false;
      bitmap[p / 64] := AndNot(bitmap[p / 64], Pow2(p % 64));
      lastFreePos := p;
      assert usedFlag[..] == u[p := false];
      assert bitmap[..] == w[p / 64 := AndNot(w[p / 64], Pow2(p % 64))];
    }
  }

  lemma DistributeBalance(used: seq<bool>, quote: seq<nat>, mallocs: nat, frees: nat, p: nat)
    requires |used| == |quote| && p < |used| && !used[p] && mallocs < U32
    ensures Balanced(used, quote, mallocs, frees) ==>
      Balanced(used[p := true], quote[p := 1], (mallocs + 1) % U32, frees)
  {
    QuoteSumUpdate(used, quote, p, true, 1);
  }

  lemma RequoteBalance(used: seq<bool>, quote: seq<nat>, mallocs: nat, frees: nat, p: nat)
    requires |used| == |quote| && p < |used| && mallocs < U32
    ensures Balanced(used, quote, mallocs, frees) ==>
      (Balanced(used, quote[p := (quote[p] + 1) % 256], (mallocs + 1) % U32, frees) <==> used[p] && quote[p] < 255)
  {
    var q := (quote[p] + 1) % 256;
    QuoteSumUpdate(used, quote, p, used[p], q);
    assert used[p := used[p]] == used;
    if used[p] && quote[p] == 255 { assert quote[p := q][p] == 0; }
  }

  lemma FreeBalance(used: seq<bool>, quote: seq<nat>, mallocs: nat, frees: nat, p: nat)
    requires |used| == |quote| && p < |used| && used[p] && frees < U32
    ensures Balanced(used, quote, mallocs, frees) ==>
      quote[p] >= 1 && Balanced(used[p := quote[p] != 1], quote[p := quote[p] - 1], mallocs, (frees + 1) % U32)
  {
    if Balanced(used, quote, mallocs, frees) { QuoteSumUpdate(used, quote, p, quote[p] != 1, quote[p] - 1); }
  }
}
