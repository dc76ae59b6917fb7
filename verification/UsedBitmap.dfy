/** The used-bitmap both packet allocators keep: one bit per block, 64 blocks to a word. */
module UsedBitmap {
  import opened Bits

  const FULL_WORD: nat := 0xFFFF_FFFF_FFFF_FFFF

  lemma FullWordIsAllOnes()
    ensures FULL_WORD == Pow2(64) - 1
  {
    assert Pow2(8) == 256;
    Pow2Square(8, 256);
    Pow2Square(16, 0x1_0000);
    Pow2Square(32, 0x1_0000_0000);
  }

  lemma {:induction false} Pow2Add(a: nat, b: nat)
    ensures Pow2(a + b) == Pow2(a) * Pow2(b)
  {
    if a > 0 { Pow2Add(a - 1, b); }
  }

  lemma {:induction false} Pow2Square(n: nat, p: nat)
    requires Pow2(n) == p
    ensures Pow2(n + n) == p * p
  {
    Pow2Add(n, n);
  }

  ghost predicate Words(words: seq<nat>) {
    forall i :: 0 <= i < |words| ==> words[i] <= FULL_WORD
  }

  /** Bit p of the bitmap. */
  predicate Marked(words: seq<nat>, p: nat)
    requires p / 64 < |words|
  {
    Bit(words[p / 64], p % 64)
  }

  /** The bitmap and the per-block flags say the same of every block. */
  ghost predicate Agree(words: seq<nat>, used: seq<bool>) {
    && |used| == 64 * |words|
    && Words(words)
    && forall p :: 0 <= p < |used| ==> Marked(words, p) == used[p]
  }

  lemma MarkKeepsAgreement(words: seq<nat>, used: seq<bool>, p: nat)
    requires Agree(words, used) && p < |used|
    ensures Agree(words[p / 64 := Or(words[p / 64], Pow2(p % 64))], used[p := true])
  {
    var w := words[p / 64];
    FullWordIsAllOnes();
    Pow2Monotone(p % 64, 64);
    OrBelow(w, Pow2(p % 64), 64);
    var words' := words[p / 64 := Or(w, Pow2(p % 64))];
    forall q | 0 <= q < |used| ensures Marked(words', q) == used[p := true][q] {
      assert Marked(words, q) == used[q];
      BitSet(w, p % 64, q % 64);
    }
  }

  lemma UnmarkKeepsAgreement(words: seq<nat>, used: seq<bool>, p: nat)
    requires Agree(words, used) && p < |used|
    ensures Agree(words[p / 64 := AndNot(words[p / 64], Pow2(p % 64))], used[p := false])
  {
    var w := words[p / 64];
    AndNotBelow(w, Pow2(p % 64));
    var words' := words[p / 64 := AndNot(w, Pow2(p % 64))];
    forall q | 0 <= q < |used| ensures Marked(words', q) == used[p := false][q] {
      assert Marked(words, q) == used[q];
      BitClear(w, p % 64, q % 64);
    }
  }

  /** A word that is not full covers a free block. */
  lemma FreeBlockInWord(words: seq<nat>, used: seq<bool>, i: nat)
    requires Agree(words, used) && i < |words| && words[i] != FULL_WORD
    ensures exists k :: 0 <= k < 64 && !Bit(words[i], k)
  {
    FullWordIsAllOnes();
    ClearBitExists(words[i], 64);
  }

  /** A full word covers no free block. */
  lemma FullWordCovers(words: seq<nat>, used: seq<bool>, p: nat)
    requires Agree(words, used) && p < |used| && words[p / 64] == FULL_WORD
    ensures used[p]
  {
    FullWordIsAllOnes();
    BitOnes(64, p % 64);
    assert Marked(words, p) == used[p];
  }

  /** Block p is the first from `start` on that is not in use. */
  ghost predicate FirstFree(used: seq<bool>, start: nat, p: nat) {
    start <= p < |used| && !used[p] && forall q :: start <= q < p ==> used[q]
  }

  /** Block p is the first free one of word w if that word has any, else the first of all. */
  ghost predicate NearestFree(used: seq<bool>, w: nat, p: nat) {
    if exists q :: 64 * w <= q < 64 * w + 64 && q < |used| && !used[q] then FirstFree(used, 64 * w, p)
    else FirstFree(used, 0, p)
  }

  /** A search that looks at the hinted word, and from the first word on if that one is full,
      finds the nearest free block. */
  lemma SearchFindsNearest(words: seq<nat>, used: seq<bool>, hint: nat, w: nat, p: nat)
    requires Agree(words, used) && hint < |words| && FirstFree(used, 64 * w, p) && p / 64 == w
    requires w == hint || (words[hint] == FULL_WORD && forall i :: 0 <= i < w ==> words[i] == FULL_WORD)
    ensures NearestFree(used, hint, p)
  {
    if w != hint {
      forall q | 0 <= q < |used| && (q / 64 == hint || q / 64 < w) ensures used[q] { FullWordCovers(words, used, q); }
    }
  }

  /** How many blocks are in use. */
  function Count(used: seq<bool>): (n: nat)
    ensures n <= |used|
  {
    if used == [] then 0 else Count(used[..|used| - 1]) + if used[|used| - 1] then 1 else 0
  }

  lemma {:induction false} CountUpdate(used: seq<bool>, p: nat, b: bool)
    requires p < |used|
    ensures Count(used[p := b]) == Count(used) + (if b then 1 else 0) - (if used[p] then 1 else 0)
  {
    var n := |used| - 1;
    if p < n {
      CountUpdate(used[..n], p, b);
      assert used[p := b][..n] == used[..n][p := b];
    } else {
      assert used[p := b][..n] == used[..n];
    }
  }

  /** The count reaches the pool size exactly when every block is in use. */
  lemma {:induction false} CountFull(used: seq<bool>)
    ensures Count(used) == |used| <==> forall p :: 0 <= p < |used| ==> used[p]
  {
    if used != [] {
      var n := |used| - 1;
      CountFull(used[..n]);
      if Count(used) == |used| { forall p | 0 <= p < |used| ensures used[p] { if p < n { assert used[..n][p]; } } }
    }
  }

  lemma {:induction false} CountNone(used: seq<bool>)
    requires forall p :: 0 <= p < |used| ==> !used[p]
    ensures Count(used) == 0
  {
    if used != [] { CountNone(used[..|used| - 1]); }
  }
}
