/** Small facts about multisets of sequences, used to account for references. */
module Bags {
  import opened NodePool

  lemma Snoc<T>(v: seq<T>, x: T)
    ensures multiset(v + [x]) == multiset(v) + multiset{x}
  {
  }

  lemma Remove<T>(v: seq<T>, k: nat)
    requires k < |v|
    ensures multiset(v) == multiset(v[..k] + v[k + 1..]) + multiset{v[k]}
  {
    assert v == v[..k] + [v[k]] + v[k + 1..];
  }

  lemma MinusTwice<T>(m: multiset<T>, a: multiset<T>, b: multiset<T>)
    ensures m - a - b == m - (a + b)
  {
  }

  /** Taking away one more element, if there is one. */
  lemma MinusSome<T>(m: multiset<T>, v: seq<T>, w: seq<T>, x: Option<T>)
    requires w == v + if x.Some? then [x.value] else []
    ensures m - multiset(w) == if x.Some? then m - multiset(v) - multiset{x.value} else m - multiset(v)
  {
    if x.Some? {
      Snoc(v, x.value);
      MinusTwice(m, multiset(v), multiset{x.value});
    } else {
      assert v + [] == v;
    }
  }

  lemma Swap<T>(a: multiset<T>, x: multiset<T>, y: multiset<T>)
    ensures (a + x) + y == (a + y) + x
  {
  }

  lemma Exchange<T>(a: multiset<T>, b: multiset<T>, c: multiset<T>, d: multiset<T>, e: multiset<T>)
    requires a + b == c + d
    ensures (a + e) + b == (c + e) + d
  {
    assert (a + e) + b == (a + b) + e;
  }

  lemma Release<T>(refs: multiset<T>, held: multiset<T>, rest: multiset<T>, ext: multiset<T>, x: T)
    requires refs == held + ext && rest + multiset{x} == held
    ensures x in refs && refs - multiset{x} == rest + ext
  {
    assert x in held;
  }

  lemma Fill<T>(refs: multiset<T>, held: multiset<T>, more: multiset<T>, ext: multiset<T>, x: T)
    requires refs == held + (ext + multiset{x}) && more == held + multiset{x}
    ensures refs == more + ext
  {
  }

  lemma GiveUp<T>(refs: multiset<T>, rest: multiset<T>, mine: multiset<T>, x: T)
    requires refs == rest + mine && x in mine
    ensures refs - multiset{x} == rest + (mine - multiset{x})
  {
  }

  lemma Gain<T>(refs: multiset<T>, rest: multiset<T>, mine: multiset<T>, x: T)
    requires refs == rest + mine
    ensures refs + multiset{x} == rest + (mine + multiset{x})
    ensures x !in refs ==> x !in mine
  {
  }

  lemma Lend<T>(rest: multiset<T>, mine: multiset<T>, x: T)
    requires x in mine
    ensures rest + mine == rest + (mine - multiset{x}) + multiset{x}
  {
  }

  /** One element x moves from the middle of three bags to either side or stays. */
  lemma Moves<T>(a: multiset<T>, x: multiset<T>, b: multiset<T>, c: multiset<T>)
    ensures (a + x) + b + c == a + (x + b) + c == a + (b + x) + c == a + b + (c + x)
  {
  }

  lemma OneMore<T>(m: multiset<T>, x: T)
    ensures m[x := m[x] + 1] == m + multiset{x}
  {
  }

  lemma Rotate<T>(a: multiset<T>, b: multiset<T>, c: multiset<T>)
    ensures a + (b + c) == b + (a + c)
  {
  }

  lemma Regroup<T>(a: multiset<T>, b: multiset<T>, c: multiset<T>)
    ensures (a + b) + c == a + (b + c)
  {
  }
}
