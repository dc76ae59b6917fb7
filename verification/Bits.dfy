/** Machine words as natural numbers, with the bitwise operators the sources apply to them.

    The sources test, set and clear bits with `&`, `|`, `~` and shifts on u8, u32 and u64
    values.  A word is a natural number here; each operator is defined on binary digits and
    characterised by what it does to every single bit. */
module Bits {

  function Pow2(n: nat): (p: nat)
    ensures p >= 1
  {
    if n == 0 then 1 else 2 * Pow2(n - 1)
  }

  /** `(w >> k) & 1` */
  predicate Bit(w: nat, k: nat) {
    if k == 0 then w % 2 == 1 else Bit(w / 2, k - 1)
  }

  /** `a | b` */
  function Or(a: nat, b: nat): nat {
    if a == 0 then b
    else if b == 0 then a
    else (if a % 2 == 1 || b % 2 == 1 then 1 else 0) + 2 * Or(a / 2, b / 2)
  }

  /** `a & ~b` */
  function AndNot(a: nat, b: nat): nat {
    if a == 0 then 0
    else (if a % 2 == 1 && b % 2 == 0 then 1 else 0) + 2 * AndNot(a / 2, b / 2)
  }

  lemma {:induction false} BitOfZero(k: nat)
    ensures !Bit(0, k)
  {
    if k > 0 { BitOfZero(k - 1); }
  }

  lemma {:induction false} BitOr(a: nat, b: nat, k: nat)
    ensures Bit(Or(a, b), k) <==> Bit(a, k) || Bit(b, k)
    decreases k
  {
    BitOfZero(k);
    if a != 0 && b != 0 && k > 0 {
      BitOr(a / 2, b / 2, k - 1);
      assert Or(a, b) / 2 == Or(a / 2, b / 2);
    }
  }

  lemma {:induction false} BitAndNot(a: nat, b: nat, k: nat)
    ensures Bit(AndNot(a, b), k) <==> Bit(a, k) && !Bit(b, k)
    decreases k
  {
    BitOfZero(k);
    if a != 0 && k > 0 {
      BitAndNot(a / 2, b / 2, k - 1);
      assert AndNot(a, b) / 2 == AndNot(a / 2, b / 2);
    }
  }

  lemma {:induction false} OrBelow(a: nat, b: nat, n: nat)
    requires a < Pow2(n) && b < Pow2(n)
    ensures Or(a, b) < Pow2(n)
  {
    if a != 0 && b != 0 && n > 0 { OrBelow(a / 2, b / 2, n - 1); }
  }

  lemma {:induction false} AndNotBelow(a: nat, b: nat)
    ensures AndNot(a, b) <= a
  {
    if a != 0 { AndNotBelow(a / 2, b / 2); }
  }

  lemma {:induction false} Pow2Monotone(j: nat, n: nat)
    requires j < n
    ensures Pow2(j) < Pow2(n)
  {
    if j < n - 1 { Pow2Monotone(j, n - 1); }
  }

  lemma {:induction false} BitOfPow2(j: nat, k: nat)
    ensures Bit(Pow2(j), k) <==> j == k
    decreases j
  {
    if j == 0 {
      if k > 0 { BitOfZero(k - 1); }
    } else if k > 0 {
      BitOfPow2(j - 1, k - 1);
    }
  }

  /** `w | (1 << j)` sets bit j and no other. */
  lemma BitSet(w: nat, j: nat, k: nat)
    ensures Bit(Or(w, Pow2(j)), k) <==> k == j || Bit(w, k)
  {
    BitOr(w, Pow2(j), k);
    BitOfPow2(j, k);
  }

  /** `w & ~(1 << j)` clears bit j and no other. */
  lemma BitClear(w: nat, j: nat, k: nat)
    ensures Bit(AndNot(w, Pow2(j)), k) <==> k != j && Bit(w, k)
  {
    BitAndNot(w, Pow2(j), k);
    BitOfPow2(j, k);
  }

  /** `(1 << c) - 1` has exactly the bits below c. */
  lemma {:induction false} BitOnes(c: nat, k: nat)
    ensures Bit(Pow2(c) - 1, k) <==> k < c
    decreases c
  {
    if c == 0 { BitOfZero(k); } else if k > 0 {
      BitOnes(c - 1, k - 1);
      assert (Pow2(c) - 1) / 2 == Pow2(c - 1) - 1;
    }
  }

  /** A word with all of its n bits set is all ones. */
  lemma {:induction false} OnesFromBits(w: nat, n: nat)
    requires w < Pow2(n) && forall k :: 0 <= k < n ==> Bit(w, k)
    ensures w == Pow2(n) - 1
  {
    if n > 0 {
      assert Bit(w, 0);
      forall k | 0 <= k < n - 1 ensures Bit(w / 2, k) { assert Bit(w, k + 1); }
      OnesFromBits(w / 2, n - 1);
    }
  }

  /** A word that is not all ones has a clear bit. */
  lemma {:induction false} ClearBitExists(w: nat, n: nat)
    requires w < Pow2(n) && w != Pow2(n) - 1
    ensures exists k :: 0 <= k < n && !Bit(w, k)
  {
    if forall k :: 0 <= k < n ==> Bit(w, k) { OnesFromBits(w, n); }
  }

  /** `x << s` moves every bit up by s. */
  lemma {:induction false} BitShl(x: nat, s: nat, k: nat)
    ensures Bit(x * Pow2(s), k) <==> k >= s && Bit(x, k - s)
    decreases s
  {
    if s > 0 {
      assert x * Pow2(s) == 2 * (x * Pow2(s - 1));
      if k > 0 { BitShl(x, s - 1, k - 1); }
    }
  }

  // ----- little-endian reads

  /** The number whose little-endian bytes are `bytes`: what reading a u32 or u64 through a
      pointer to those bytes yields on a little-endian machine. */
  function LittleEndian(bytes: seq<nat>): nat {
    if bytes == [] then 0 else bytes[0] + 256 * LittleEndian(bytes[1..])
  }

  predicate Bytes(s: seq<nat>) {
    forall i :: 0 <= i < |s| ==> s[i] < 256
  }

  lemma {:induction false} BitAboveDigits(lo: nat, hi: nat, d: nat, k: nat)
    requires lo < Pow2(d)
    ensures Bit(lo + Pow2(d) * hi, k) == if k < d then Bit(lo, k) else Bit(hi, k - d)
    decreases d
  {
    if d > 0 {
      assert (lo + Pow2(d) * hi) / 2 == lo / 2 + Pow2(d - 1) * hi && (lo + Pow2(d) * hi) % 2 == lo % 2 by {
        assert Pow2(d) * hi == 2 * (Pow2(d - 1) * hi);
      }
      if k > 0 { BitAboveDigits(lo / 2, hi, d - 1, k - 1); }
    }
  }

  /** Bit k of a little-endian word is bit k % 8 of its byte k / 8, whatever the word's width. */
  lemma {:induction false} BitOfLittleEndian(bytes: seq<nat>, k: nat)
    requires Bytes(bytes) && k < 8 * |bytes|
    ensures Bit(LittleEndian(bytes), k) == Bit(bytes[k / 8], k % 8)
    decreases |bytes|
  {
    assert Pow2(8) == 256;
    BitAboveDigits(bytes[0], LittleEndian(bytes[1..]), 8, k);
    if k >= 8 { BitOfLittleEndian(bytes[1..], k - 8); }
  }
}
