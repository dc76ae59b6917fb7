/** The duplicate filter slide_win (socks5udpf/src/slide_win.cpp): a 4096-bit circular window
    over 16-bit sequence numbers, and the unbounded seen-set it stands for. */
module SlideWindow {
  import opened Bits
  import opened BitBuffer
  import opened Folding

  const SIZE: nat := 4096       // k_slide_win_size
  const BUF_SIZE: nat := 512    // k_slide_win_buf_size
  const MAX_STEP: nat := 1024   // k_slide_win_max_step
  const U16: nat := 65536

  // ----- clearing a circular range of bits

  /** How far position p lies behind `start` on the circle. */
  function Off(start: nat, p: nat): int
  {
    if start <= p then p - start else p + SIZE - start
  }

  /** t is s with the n bits from `start` on cleared, circularly, and all others kept. */
  ghost predicate RangeCleared(s: seq<nat>, t: seq<nat>, start: nat, n: nat) {
    && |s| == |t| == BUF_SIZE && Bytes(t)
    && forall p :: 0 <= p < SIZE ==> BitAt(t, p) == (BitAt(s, p) && Off(start, p) >= n)
  }

  lemma RangesCompose(s: seq<nat>, t: seq<nat>, u: seq<nat>, start: nat, a: nat, b: nat)
    requires start < SIZE && a + b <= SIZE
    requires RangeCleared(s, t, start, a) && RangeCleared(t, u, (start + a) % SIZE, b)
    ensures RangeCleared(s, u, start, a + b)
  {
    forall p | 0 <= p < SIZE ensures BitAt(u, p) == (BitAt(s, p) && Off(start, p) >= a + b) {
      assert BitAt(u, p) == (BitAt(t, p) && Off((start + a) % SIZE, p) >= b);
      assert BitAt(t, p) == (BitAt(s, p) && Off(start, p) >= a);
    }
  }

  /** `(0xFF >> (8 - c)) << b` */
  function Mask(c: nat, b: nat): nat { (Pow2(c) - 1) * Pow2(b) }

  /** It is a run of c ones from bit b on. */
  lemma MaskBits(c: nat, b: nat, k: nat)
    ensures Bit(Mask(c, b), k) <==> b <= k < b + c
  {
    BitShl(Pow2(c) - 1, b, k);
    if b <= k { BitOnes(c, k - b); }
  }

  /** clr_buf_bit_mask with such a mask clears c bits inside one byte. */
  lemma ByteRun(s: seq<nat>, start: nat, c: nat)
    requires |s| == BUF_SIZE && Bytes(s) && start < SIZE && c <= 8 - start % 8
    ensures var m := Mask(c, start % 8);
      RangeCleared(s, s[start / 8 := AndNot(s[start / 8], m)], start, c)
  {
    var m := Mask(c, start % 8);
    var t := s[start / 8 := AndNot(s[start / 8], m)];
    AndNotBelow(s[start / 8], m);
    forall p | 0 <= p < SIZE ensures BitAt(t, p) == (BitAt(s, p) && Off(start, p) >= c) {
      BitAndNot(s[start / 8], m, p % 8);
      MaskBits(c, start % 8, p % 8);
    }
  }

  /** memset of k whole bytes clears 8 * k bits. */
  lemma BytesRun(s: seq<nat>, t: seq<nat>, b: nat, k: nat)
    requires |s| == |t| == BUF_SIZE && Bytes(s) && b + k <= BUF_SIZE && b < BUF_SIZE
    requires forall i :: 0 <= i < BUF_SIZE ==> t[i] == if b <= i < b + k then 0 else s[i]
    ensures RangeCleared(s, t, 8 * b, 8 * k)
  {
    forall p | 0 <= p < SIZE ensures BitAt(t, p) == (BitAt(s, p) && Off(8 * b, p) >= 8 * k) {
      BitOfZero(p % 8);
    }
  }

  lemma OneCleared(s: seq<nat>, t: seq<nat>, start: nat)
    requires |s| == BUF_SIZE && Bytes(t) && OnlyBit(s, t, BitPos(start, BUF_SIZE), false)
    ensures RangeCleared(s, t, start % SIZE, 1)
  {
    var b := start % SIZE;
    PosInRing(start);
    forall p | 0 <= p < SIZE ensures BitAt(t, p) == (BitAt(s, p) && Off(b, p) >= 1) {
      assert Off(b, p) >= 1 <==> p != b;
    }
  }

  lemma PosInRing(pos: nat)
    ensures BitPos(pos, BUF_SIZE) == pos % SIZE
  {
    var q, r := pos / SIZE, pos % SIZE;
    assert pos / 8 == BUF_SIZE * q + r / 8 && pos % 8 == r % 8;
    assert (BUF_SIZE * q + r / 8) % BUF_SIZE == r / 8;
  }

  lemma NothingCleared(s: seq<nat>, start: nat)
    requires |s| == BUF_SIZE && Bytes(s) && start < SIZE
    ensures RangeCleared(s, s, start, 0)
  {
  }

  // ----- the filter the window stands for

  /** What the receiver should remember: every number accepted since the last
      resynchronisation, and the largest.  Numbers are unbounded here. */
  datatype Filter = Filter(started: bool, top: int, accepted: set<int>)

  const FRESH := Filter(false, 0, {})

  /** How far ahead of, or behind, a number a 16-bit sequence number lies. */
  function Ahead(top: int, sn: nat): nat { (sn - top) % U16 }
  function Behind(top: int, sn: nat): nat { (top - sn) % U16 }

  /** Too far ahead and not in the window: the filter starts over. */
  predicate Resyncs(f: Filter, sn: nat) {
    !f.started || (Behind(f.top, sn) >= SIZE && Ahead(f.top, sn) >= MAX_STEP)
  }

  /** The unbounded number a sequence number denotes, relative to the top. */
  function Lift(top: int, sn: nat): int {
    if Behind(top, sn) < SIZE then top - Behind(top, sn) else top + Ahead(top, sn)
  }

  /** The filter before it looks the number up. */
  function Moved(f: Filter, sn: nat): Filter {
    if Resyncs(f, sn) then Filter(true, sn, {})
    else f.(top := if Lift(f.top, sn) > f.top then Lift(f.top, sn) else f.top)
  }

  /** The ideal answer: accept a number exactly if it was not accepted before. */
  function Answer(f: Filter, sn: nat): bool {
    var g := Moved(f, sn);
    Lift(g.top, sn) !in g.accepted
  }

  function Next(f: Filter, sn: nat, onlyCheck: bool): Filter {
    var g := Moved(f, sn);
    if onlyCheck then g else g.(accepted := g.accepted + {Lift(g.top, sn)})
  }

  lemma LiftDenotes(top: int, sn: nat)
    requires sn < U16
    ensures Lift(top, sn) % U16 == sn
    ensures top - SIZE < Lift(top, sn) < top + U16 - SIZE + 1
    ensures Lift(top, sn) > top ==> Behind(top, sn) >= SIZE && Lift(top, sn) == top + Ahead(top, sn)
  {
  }

  /** Once the window has moved to a number, the number still denotes itself. */
  lemma MovedDenotesSame(f: Filter, sn: nat)
    requires sn < U16
    ensures !Resyncs(f, sn) ==> Lift(Moved(f, sn).top, sn) == Lift(f.top, sn)
    ensures Resyncs(f, sn) ==> Lift(Moved(f, sn).top, sn) == sn
    ensures !Resyncs(Moved(f, sn), sn)
  {
  }

  /** A check-only call followed by the real call equals the real call alone. */
  lemma CheckThenAccept(f: Filter, sn: nat)
    requires sn < U16
    ensures Answer(Next(f, sn, true), sn) == Answer(f, sn)
    ensures Next(Next(f, sn, true), sn, false) == Next(f, sn, false)
  {
    MovedDenotesSame(f, sn);
    MovedDenotesSame(Moved(f, sn), sn);
  }

  // ----- whole runs

  datatype Call = Call(sn: nat, onlyCheck: bool)

  function Run(f: Filter, calls: seq<Call>): Filter {
    if calls == [] then f else
      var n := |calls| - 1;
      Next(Run(f, calls[..n]), calls[n].sn, calls[n].onlyCheck)
  }

  /** What the ideal filter answers to each call of a run. */
  function Answers(f: Filter, calls: seq<Call>): (a: seq<bool>)
    ensures |a| == |calls|
  {
    if calls == [] then [] else
      var n := |calls| - 1;
      Answers(f, calls[..n]) + [Answer(Run(f, calls[..n]), calls[n].sn)]
  }

  lemma {:induction false} AnswersAt(f: Filter, calls: seq<Call>, i: nat)
    requires i < |calls|
    ensures Answers(f, calls)[i] == Answer(Run(f, calls[..i]), calls[i].sn)
    decreases |calls|
  {
    var n := |calls| - 1;
    if i < n {
      AnswersAt(f, calls[..n], i);
      assert calls[..n][..i] == calls[..i];
    }
  }

  lemma RunSnoc(f: Filter, calls: seq<Call>, n: nat)
    requires n < |calls|
    ensures Run(f, calls[..n + 1]) == Next(Run(f, calls[..n]), calls[n].sn, calls[n].onlyCheck)
    ensures Answers(f, calls[..n + 1]) == Answers(f, calls[..n]) + [Answer(Run(f, calls[..n]), calls[n].sn)]
  {
    assert calls[..n + 1][..n] == calls[..n];
  }

  /** No call from i on resynchronises. */
  ghost predicate Steady(f: Filter, calls: seq<Call>, i: nat) {
    forall j :: i <= j < |calls| ==> !Resyncs(Run(f, calls[..j]), calls[j].sn)
  }

  lemma SteadyPrefix(f: Filter, calls: seq<Call>, i: nat)
    requires Steady(f, calls, i) && calls != []
    ensures Steady(f, calls[..|calls| - 1], i)
  {
    var n := |calls| - 1;
    forall j | i <= j < n ensures !Resyncs(Run(f, calls[..n][..j]), calls[..n][j].sn) {
      assert calls[..n][..j] == calls[..j];
    }
  }

  lemma NextKeeps(f: Filter, sn: nat, onlyCheck: bool, x: int)
    requires !Resyncs(f, sn) && x in f.accepted
    ensures x in Next(f, sn, onlyCheck).accepted
  {
  }

  lemma {:induction false} AcceptedStays(f: Filter, calls: seq<Call>, i: nat, x: int)
    requires i <= |calls| && Steady(f, calls, i) && x in Run(f, calls[..i]).accepted
    ensures x in Run(f, calls).accepted
    decreases |calls|
  {
    var n := |calls| - 1;
    if i <= n {
      assert calls[..n][..i] == calls[..i];
      SteadyPrefix(f, calls, i);
      AcceptedStays(f, calls[..n], i, x);
      NextKeeps(Run(f, calls[..n]), calls[n].sn, calls[n].onlyCheck, x);
    } else {
      assert calls[..i] == calls;
    }
  }

  /** Whole-run duplicate safety: between resynchronisations a number accepted by call i is
      refused by every later call that denotes it. */
  lemma NeverAcceptedTwice(f: Filter, calls: seq<Call>, i: nat, sn: nat)
    requires i < |calls| && Steady(f, calls, i + 1) && !calls[i].onlyCheck
    requires sn < U16 && calls[i].sn < U16 && !Resyncs(Run(f, calls), sn)
    requires Lift(Run(f, calls).top, sn) == Lift(Moved(Run(f, calls[..i]), calls[i].sn).top, calls[i].sn)
    ensures !Answer(Run(f, calls), sn)
  {
    var x := Lift(Moved(Run(f, calls[..i]), calls[i].sn).top, calls[i].sn);
    assert calls[..i + 1][..i] == calls[..i];
    assert x in Run(f, calls[..i + 1]).accepted;
    AcceptedStays(f, calls, i + 1, x);
    MovedDenotesSame(Run(f, calls), sn);
  }

  /** The unbounded number call i of a run denotes. */
  function Denoted(f: Filter, calls: seq<Call>, i: nat): int
    requires i < |calls|
  {
    Lift(Moved(Run(f, calls[..i]), calls[i].sn).top, calls[i].sn)
  }

  /** In any run, two calls accepted with no resynchronisation after the first denote different
      numbers. */
  lemma AcceptedAreDistinct(f: Filter, calls: seq<Call>, i: nat, j: nat)
    requires i < j < |calls| && !calls[i].onlyCheck && forall k :: 0 <= k < |calls| ==> calls[k].sn < U16
    requires forall k :: i < k <= j ==> !Resyncs(Run(f, calls[..k]), calls[k].sn)
    requires Answers(f, calls)[j]
    ensures Denoted(f, calls, i) != Denoted(f, calls, j)
  {
    var head := calls[..j];
    AnswersAt(f, calls, j);
    assert head[..i] == calls[..i];
    forall k | i + 1 <= k < j ensures !Resyncs(Run(f, head[..k]), head[k].sn) { assert head[..k] == calls[..k]; }
    MovedDenotesSame(Run(f, head), calls[j].sn);
    if Denoted(f, calls, i) == Denoted(f, calls, j) { NeverAcceptedTwice(f, head, i, calls[j].sn); }
  }

  /** Whatever a run remembers as accepted, one of its calls accepted since the last
      resynchronisation: a number none of those calls denotes is still accepted. */
  lemma {:induction false} AcceptedHasCause(f: Filter, calls: seq<Call>, x: int)
    requires x in Run(f, calls).accepted && x !in f.accepted
    ensures exists i :: Causes(f, calls, x, i)
    decreases |calls|
  {
    var n := |calls| - 1;
    var g := Moved(Run(f, calls[..n]), calls[n].sn);
    if !calls[n].onlyCheck && Lift(g.top, calls[n].sn) == x {
      assert Causes(f, calls, x, n);
    } else {
      AcceptedHasCause(f, calls[..n], x);
      var i :| Causes(f, calls[..n], x, i);
      CauseStays(f, calls, x, i);
    }
  }

  /** Exactly what a run accepts: a call that does not resynchronise is accepted if and only if
      no earlier real call since the last resynchronisation denotes the same number. */
  lemma AnsweredExactly(f: Filter, calls: seq<Call>, j: nat)
    requires f.accepted == {} && j < |calls| && forall k :: 0 <= k < |calls| ==> calls[k].sn < U16
    requires !Resyncs(Run(f, calls[..j]), calls[j].sn)
    ensures Answers(f, calls)[j] <==> !exists i :: Causes(f, calls[..j], Denoted(f, calls, j), i)
  {
    var head, x := calls[..j], Denoted(f, calls, j);
    AnswersAt(f, calls, j);
    MovedDenotesSame(Run(f, head), calls[j].sn);
    if i :| Causes(f, head, x, i) {
      assert head[..i] == calls[..i] && head[i] == calls[i];
      NeverAcceptedTwice(f, head, i, calls[j].sn);
    }
    if x in Run(f, head).accepted { AcceptedHasCause(f, head, x); }
  }

  /** Call i accepted x, and no later call resynchronises. */
  ghost predicate Causes(f: Filter, calls: seq<Call>, x: int, i: int) {
    0 <= i < |calls| && !calls[i].onlyCheck && Denoted(f, calls, i) == x && Steady(f, calls, i + 1)
  }

  lemma CauseStays(f: Filter, calls: seq<Call>, x: int, i: int)
    requires calls != [] && Causes(f, calls[..|calls| - 1], x, i)
    requires !Resyncs(Run(f, calls[..|calls| - 1]), calls[|calls| - 1].sn)
    ensures Causes(f, calls, x, i)
  {
    var n := |calls| - 1;
    assert calls[..n][..i] == calls[..i] && calls[..n][i] == calls[i];
    forall j | i + 1 <= j < |calls| ensures !Resyncs(Run(f, calls[..j]), calls[j].sn) {
      if j < n { assert calls[..n][..j] == calls[..j] && calls[..n][j] == calls[j]; }
    }
  }

  // ----- the bounds, in numbers

  /** A number less than 4096 behind the largest or less than 1024 ahead of it: everything
      accepted is kept, and the number is accepted exactly if it was not before. */
  lemma NearIsRemembered(f: Filter, d: int, onlyCheck: bool)
    requires f.started && 0 - 4096 < d < 1024
    ensures var sn, x := (f.top + d) % 65536, f.top + d;
      && Next(f, sn, onlyCheck) == Filter(true, if d > 0 then x else f.top, if onlyCheck then f.accepted else f.accepted + {x})
      && (Answer(f, sn) <==> x !in f.accepted)
  {
    var sn := (f.top + d) % 65536;
    Distances(f.top, sn);
    ModShift(f.top, d);
    MoveCases(f, sn);
  }

  /** A number 1024 or more ahead and 4096 or more behind, or the first one at all: everything
      accepted is forgotten and the window starts over at the number. */
  lemma FarStartsOver(f: Filter, sn: nat, d: int, onlyCheck: bool)
    requires sn < 65536 && (f.started ==> 1024 <= d <= 65536 - 4096 && sn == (f.top + d) % 65536)
    ensures Next(f, sn, onlyCheck) == Filter(true, sn, if onlyCheck then {} else {sn as int})
    ensures Answer(f, sn)
  {
    Distances(f.top, sn);
    if f.started { FarWraps(f.top, d); }
  }

  lemma FarWraps(top: int, d: int)
    requires 1024 <= d <= 65536 - 4096
    ensures (top + d) % 65536 == if top % 65536 + d < 65536 then top % 65536 + d else top % 65536 + d - 65536
  {
    assert top == top / 65536 * 65536 + top % 65536;
  }

  /** After calls with the unbounded numbers x the filter knows them, but for a shift. */
  ghost predicate Knows(f: Filter, calls: seq<Call>, x: seq<int>, shift: int)
    requires |calls| == |x|
  {
    && f.started && (exists j :: 0 <= j < |x| && x[j] - shift == f.top)
    && (forall j :: 0 <= j < |x| ==> x[j] - shift <= f.top)
    && (forall y :: y in f.accepted <==> exists j :: 0 <= j < |x| && !calls[j].onlyCheck && x[j] - shift == y)
  }

  /** Each number is less than 1024 ahead of one of those before it and less than 4096 behind
      all of them. */
  ghost predicate InOrder(x: seq<int>) { forall i :: 0 < i < |x| ==> Near(x, i) }

  ghost predicate Near(x: seq<int>, i: nat)
    requires i < |x|
  {
    (exists j :: 0 <= j < i && x[i] < x[j] + 1024) && forall j :: 0 <= j < i ==> x[j] - 4096 < x[i]
  }

  lemma StepKnows(f: Filter, calls: seq<Call>, x: seq<int>, shift: int, c: Call, y: int)
    requires |calls| == |x| && Knows(f, calls, x, shift) && shift % 65536 == 0
    requires c.sn == y % 65536 && InOrder(x + [y])
    ensures Knows(Next(f, c.sn, c.onlyCheck), calls + [c], x + [y], shift)
    ensures Answer(f, c.sn) <==> y - shift !in f.accepted
  {
    var d := y - shift - f.top;
    ClosesIn(f, calls, x, shift, y);
    assert (f.top + d) % 65536 == y % 65536 by { ShiftByRounds(y, shift); }
    NearIsRemembered(f, d, c.onlyCheck);
    ExtendedKnows(f, calls, x, shift, c, y, Next(f, c.sn, c.onlyCheck));
  }

  lemma ShiftByRounds(y: int, shift: int)
    requires shift % 65536 == 0
    ensures (y - shift) % 65536 == y % 65536
  {
    assert shift == shift / 65536 * 65536;
    assert y == y / 65536 * 65536 + y % 65536;
    assert y - shift == (y / 65536 - shift / 65536) * 65536 + y % 65536;
  }

  lemma ClosesIn(f: Filter, calls: seq<Call>, x: seq<int>, shift: int, y: int)
    requires |calls| == |x| && Knows(f, calls, x, shift) && InOrder(x + [y])
    ensures 0 - 4096 < y - shift - f.top < 1024
  {
    var n, u := |x|, x + [y];
    assert u[n] == y && Near(u, n) && forall j :: 0 <= j < n ==> u[j] == x[j];
    var t :| 0 <= t < n && x[t] - shift == f.top;
    assert u[t] - 4096 < u[n];
    var j :| 0 <= j < n && u[n] < u[j] + 1024;
    assert x[j] - shift <= f.top;
  }

  lemma ExtendedKnows(f: Filter, calls: seq<Call>, x: seq<int>, shift: int, c: Call, y: int, g: Filter)
    requires |calls| == |x| && Knows(f, calls, x, shift)
    requires g == Filter(true, if y - shift > f.top then y - shift else f.top,
                         if c.onlyCheck then f.accepted else f.accepted + {y - shift})
    ensures Knows(g, calls + [c], x + [y], shift)
  {
    var n, cs, xs := |x|, calls + [c], x + [y];
    assert cs[n] == c && xs[n] == y;
    assert forall j :: 0 <= j < n ==> cs[j] == calls[j] && xs[j] == x[j];
    var t :| 0 <= t < n && x[t] - shift == f.top;
    assert xs[t] - shift == f.top;
    forall z ensures z in g.accepted <==> exists j :: 0 <= j < |xs| && !cs[j].onlyCheck && xs[j] - shift == z {
      if z in f.accepted {
        var j :| 0 <= j < n && !calls[j].onlyCheck && x[j] - shift == z;
        assert !cs[j].onlyCheck && xs[j] - shift == z;
      }
      if j :| 0 <= j < |xs| && !cs[j].onlyCheck && xs[j] - shift == z {
        if j < n { assert !calls[j].onlyCheck && x[j] - shift == z; }
      }
    }
  }

  lemma FirstKnows(c: Call, y: int) returns (shift: int)
    requires c.sn == y % 65536
    ensures shift % 65536 == 0 && Knows(Next(FRESH, c.sn, c.onlyCheck), [c], [y], shift)
  {
    shift := y - y % 65536;
    assert shift == y / 65536 * 65536;
    FarStartsOver(FRESH, c.sn, 0, c.onlyCheck);
    assert [y][0] - shift == c.sn && [c][0] == c;
  }

  lemma {:induction false} RunKnows(calls: seq<Call>, x: seq<int>) returns (shift: int)
    requires |calls| == |x| > 0 && InOrder(x) && forall i :: 0 <= i < |x| ==> calls[i].sn == x[i] % 65536
    ensures shift % 65536 == 0 && Knows(Run(FRESH, calls), calls, x, shift)
    decreases |calls|
  {
    var n := |calls| - 1;
    if n == 0 {
      assert calls == [calls[0]] && x == [x[0]] && Run(FRESH, calls[..0]) == FRESH;
      shift := FirstKnows(calls[0], x[0]);
    } else {
      PrefixInOrder(x, n);
      shift := RunKnows(calls[..n], x[..n]);
      Split(calls, x, n);
      StepKnows(Run(FRESH, calls[..n]), calls[..n], x[..n], shift, calls[n], x[n]);
    }
  }

  lemma Split(calls: seq<Call>, x: seq<int>, n: nat)
    requires |calls| == |x| == n + 1
    ensures calls[..n] + [calls[n]] == calls && x[..n] + [x[n]] == x
  {
  }

  lemma KnownMeans(f: Filter, calls: seq<Call>, x: seq<int>, shift: int, y: int)
    requires |calls| == |x| && Knows(f, calls, x, shift)
    ensures y - shift in f.accepted <==> exists j :: 0 <= j < |x| && !calls[j].onlyCheck && x[j] == y
  {
    if j :| 0 <= j < |x| && !calls[j].onlyCheck && x[j] == y { assert x[j] - shift == y - shift; }
  }

  /** A fresh window and any run of calls whose unbounded numbers stay within those bounds: a call
      is accepted exactly if no earlier real call had the same number. */
  lemma RunAcceptsOnce(calls: seq<Call>, x: seq<int>, i: nat)
    requires |calls| == |x| && InOrder(x) && forall j :: 0 <= j < |x| ==> calls[j].sn == x[j] % 65536
    requires i < |calls|
    ensures Answers(FRESH, calls)[i] <==> forall j :: 0 <= j < i && !calls[j].onlyCheck ==> x[j] != x[i]
  {
    AnswersAt(FRESH, calls, i);
    if i == 0 {
      assert Run(FRESH, calls[..0]) == FRESH;
      FarStartsOver(FRESH, calls[0].sn, 0, true);
    } else {
      PrefixInOrder(x, i);
      PrefixInOrder(x, i + 1);
      LaterAnswer(calls[..i], x[..i], calls[i], x[i], x[..i + 1]);
      SameNumbers(calls, x, i);
    }
  }

  lemma SameNumbers(calls: seq<Call>, x: seq<int>, i: nat)
    requires i < |calls| == |x|
    ensures (forall j :: 0 <= j < |x[..i]| && !calls[..i][j].onlyCheck ==> x[..i][j] != x[i]) <==>
      forall j :: 0 <= j < i && !calls[j].onlyCheck ==> x[j] != x[i]
  {
    assert forall j :: 0 <= j < i ==> calls[..i][j] == calls[j] && x[..i][j] == x[j];
  }

  lemma LaterAnswer(calls: seq<Call>, x: seq<int>, c: Call, y: int, u: seq<int>)
    requires |calls| == |x| > 0 && InOrder(x) && forall j :: 0 <= j < |x| ==> calls[j].sn == x[j] % 65536
    requires c.sn == y % 65536 && InOrder(u) && u == x + [y]
    ensures Answer(Run(FRESH, calls), c.sn) <==> forall j :: 0 <= j < |x| && !calls[j].onlyCheck ==> x[j] != y
  {
    var shift := RunKnows(calls, x);
    StepKnows(Run(FRESH, calls), calls, x, shift, c, y);
    KnownMeans(Run(FRESH, calls), calls, x, shift, y);
  }

  lemma PrefixInOrder(x: seq<int>, n: nat)
    requires n <= |x| && InOrder(x)
    ensures InOrder(x[..n])
  {
    forall i | 0 < i < n ensures Near(x[..n], i) { NearInPrefix(x, n, i); }
  }

  lemma NearInPrefix(x: seq<int>, n: nat, i: nat)
    requires i < n <= |x| && Near(x, i)
    ensures Near(x[..n], i)
  {
    var u := x[..n];
    var j :| 0 <= j < i && x[i] < x[j] + 1024;
    assert u[i] < u[j] + 1024;
  }

  // ----- the window

  /** The window's bits are the filter's memory of the last 4096 numbers. */
  ghost predicate Remembers(buf: seq<nat>, f: Filter) {
    && |buf| == BUF_SIZE && Bytes(buf)
    && forall x {:trigger x in f.accepted} ::
         (x in f.accepted ==> x <= f.top)
         && (f.top - SIZE < x <= f.top ==> BitAt(buf, x % SIZE) == (x in f.accepted))
  }

  /** Sliding by a step frees exactly the slots of the numbers newly covered. */
  lemma SlideRemembers(buf: seq<nat>, buf': seq<nat>, f: Filter, step: nat)
    requires Remembers(buf, f) && 0 < step <= SIZE && RangeCleared(buf, buf', (f.top + 1) % SIZE, step)
    ensures Remembers(buf', f.(top := f.top + step))
  {
    forall x | f.top + step - SIZE < x <= f.top + step
      ensures BitAt(buf', x % SIZE) == (x in f.accepted)
    {
      OffsetOf(f.top + 1, x);
      assert BitAt(buf', x % SIZE) == (BitAt(buf, x % SIZE) && Off((f.top + 1) % SIZE, x % SIZE) >= step);
    }
  }

  lemma OffsetOf(a: int, x: int)
    requires a - SIZE <= x < a + SIZE
    ensures Off(a % SIZE, x % SIZE) == if x < a then x - a + SIZE else x - a
  {
  }

  lemma MarkRemembers(buf: seq<nat>, buf': seq<nat>, f: Filter, x: int)
    requires Remembers(buf, f) && f.top - SIZE < x <= f.top && Bytes(buf') && OnlyBit(buf, buf', x % SIZE, true)
    ensures Remembers(buf', f.(accepted := f.accepted + {x}))
  {
    forall y | f.top - SIZE < y <= f.top ensures BitAt(buf', y % SIZE) == (y in f.accepted || y == x) {
      assert BitAt(buf, y % SIZE) == (y in f.accepted);
      assert BitAt(buf', y % SIZE) == (y % SIZE == x % SIZE || BitAt(buf, y % SIZE));
    }
  }

  lemma ZerosRemember(buf: seq<nat>, top: int)
    requires |buf| == BUF_SIZE && forall i :: 0 <= i < BUF_SIZE ==> buf[i] == 0
    ensures Remembers(buf, Filter(true, top, {}))
  {
    forall x: int ensures !BitAt(buf, x % SIZE) { BitOfZero((x % SIZE) % 8); }
  }

  /** Distances on the circle of 16-bit numbers, from the 16-bit image of the top. */
  lemma Distances(top: int, sn: nat)
    requires sn < U16
    ensures var u := top % U16;
      && Behind(top, sn) == (if u >= sn then u - sn else u - sn + U16)
      && Ahead(top, sn) == (if sn >= u then sn - u else sn - u + U16)
      && (top + 1 - SIZE) % U16 == (if u >= SIZE - 1 then u - (SIZE - 1) else u - (SIZE - 1) + U16)
  {
    var minus: int := 0 - sn;
    ModShift(top, minus);
    ModShift(-top, sn);
    ModShift(top, 1 - SIZE);
    assert (-top) % U16 == if top % U16 == 0 then 0 else U16 - top % U16;
  }

  lemma ModShift(x: int, d: int)
    requires 0 - U16 < d < U16
    ensures (x + d) % U16 == var r := x % U16 + d; if r < 0 then r + U16 else if r >= U16 then r - U16 else r
  {
  }

  lemma AddMod16(x: int, d: int)
    ensures (x % U16 + d) % U16 == (x + d) % U16
  {
    assert x == x / U16 * U16 + x % U16;
  }

  lemma AddMod12(x: int, d: int)
    ensures (x % SIZE + d) % SIZE == (x + d) % SIZE
  {
    assert x == x / SIZE * SIZE + x % SIZE;
  }

  lemma ModMod(x: int)
    ensures x % U16 % SIZE == x % SIZE
  {
    assert x == (x / U16 * 16) * SIZE + x % U16;
  }

  /** The window bounds move with the top. */
  lemma SlidBounds(top: int, sn: nat, step: nat)
    requires sn < U16 && step == Ahead(top, sn)
    ensures sn == (top + step) % U16
    ensures ((top + 1 - SIZE) % U16 + step) % U16 == (top + step + 1 - SIZE) % U16
    ensures ((top + 1) % SIZE + step) % SIZE == (top + step + 1) % SIZE
    ensures ((top + 1 + step) % SIZE + (SIZE - 1)) % SIZE == (top + step) % SIZE
  {
    AddMod16(sn - top, top);
    AddMod16(top + 1 - SIZE, step);
    AddMod12(top + 1, step);
    AddMod12(top + 1 + step, SIZE - 1);
    AddMod12(top + step, SIZE);
  }

  /** Where the top goes, in terms of the step the code takes. */
  lemma MoveCases(f: Filter, sn: nat)
    requires sn < U16
    ensures Behind(sn - 1, sn) == U16 - 1 && Ahead(sn - 1, sn) == 1 && Behind(sn, sn) == 0
    ensures !Resyncs(f, sn) ==>
      var step := if Behind(f.top, sn) < SIZE then 0 else Ahead(f.top, sn);
      step < MAX_STEP && Moved(f, sn) == f.(top := f.top + step) && Behind(f.top + step, sn) < SIZE
  {
    var step := if Behind(f.top, sn) < SIZE then 0 else Ahead(f.top, sn);
    Distances(f.top, sn);
    if step > 0 {
      AddMod16(sn - f.top, f.top);
      Distances(f.top + step, sn);
    }
  }

  /** A range up to the end of the circle and one from its beginning. */
  lemma ComposedAtEnd(s: seq<nat>, t: seq<nat>, u: seq<nat>, start: nat, m: nat, n: nat)
    requires start < SIZE && m == SIZE - start && m + n <= SIZE
    requires RangeCleared(s, t, start, m) && RangeCleared(t, u, 0, n)
    ensures RangeCleared(s, u, start, m + n)
  {
    assert (start + m) % SIZE == 0;
    RangesCompose(s, t, u, start, m, n);
  }

  class SlideWin {
    const buf: array<nat>    // slide_win_buf_
    var posLower: nat        // win_pos_idx_lower_
    var posUpper: nat
    var snLower: nat         // win_pkg_sn_lower_
    var snUpper: nat
    var firstPkg: bool
    ghost var filter: Filter

    ghost predicate Bounds()
      reads this
    {
      && snUpper == filter.top % U16 && snLower == (filter.top + 1 - SIZE) % U16
      && posLower == (filter.top + 1) % SIZE && posUpper == filter.top % SIZE
    }

    /** The window is a 4096-bit image of the unbounded filter. */
    ghost predicate Valid()
      reads this, buf
    {
      && buf.Length == BUF_SIZE && Bytes(buf[..])
      && filter.started == !firstPkg
      && (firstPkg ==> filter == FRESH)
      && (!firstPkg ==> Bounds() && Remembers(buf[..], filter))
    }

    constructor ()
      ensures Valid() && filter == FRESH
    {
      buf := new nat[BUF_SIZE](_ => 0);
      snUpper, snLower := 65535, 65535 - (SIZE - 1);
      posUpper, posLower := SIZE - 1, 0;
      firstPkg := true;
      filter := FRESH;
    }

    /** Zero k bytes from byte b on. */
    method Memset(b: nat, k: nat)
      requires buf.Length == BUF_SIZE && Bytes(buf[..]) && b < BUF_SIZE && b + k <= BUF_SIZE
      modifies buf
      ensures RangeCleared(old(buf[..]), buf[..], 8 * b, 8 * k)
      ensures forall i :: 0 <= i < BUF_SIZE ==> buf[..][i] == if b <= i < b + k then 0 else old(buf[..])[i]
    {
      var j := 0;
      while j < k
        invariant j <= k
        invariant forall i :: 0 <= i < BUF_SIZE ==> buf[i] == if b <= i < b + j then 0 else old(buf[..])[i]
      {
        buf[b + j] := 0;
        j := j + 1;
      }
      BytesRun(old(buf[..]), buf[..], b, k);
    }

    /** clr_buf_bit_mask with a run of c ones from bit start & 7 on. */
    method ClearMask(start: nat, c: nat)
      requires buf.Length == BUF_SIZE && Bytes(buf[..]) && start < SIZE && c <= 8 - start % 8
      modifies buf
      ensures RangeCleared(old(buf[..]), buf[..], start, c)
    {
      ghost var s := buf[..];
      ByteRun(s, start, c);
      var m := Mask(c, start % 8);
      buf[start / 8] := AndNot(buf[start / 8], m);
      assert buf[..] == s[start / 8 := AndNot(s[start / 8], m)];
    }

    /** The whole bytes of a range that starts on a byte, wrapping around the end. */
    method ClearBytes(cur: nat, full: nat)
      requires buf.Length == BUF_SIZE && Bytes(buf[..]) && cur < SIZE && cur % 8 == 0 && full <= BUF_SIZE
      modifies buf
      ensures RangeCleared(old(buf[..]), buf[..], cur, 8 * full)
    {
      var b := cur / 8;
      if b + full <= BUF_SIZE {
        Memset(b, full);
      } else {
        ghost var s := buf[..];
        var first := BUF_SIZE - b;
        Memset(b, first);
        ghost var t := buf[..];
        Memset(0, full - first);
        RangesCompose(s, t, buf[..], cur, 8 * first, 8 * (full - first));
      }
    }

    /** clear_bit_range: partial first byte, whole bytes, partial last byte.  Exactly the n bits
        from `start` on are cleared, circularly, for every start and every n up to 4096. */
    method ClearBitRange(start: nat, n: nat)
      requires buf.Length == BUF_SIZE && Bytes(buf[..]) && n <= SIZE
      modifies buf
      ensures RangeCleared(old(buf[..]), buf[..], start % SIZE, n)
    {
      if n == 0 {
        NothingCleared(buf[..], start % SIZE);
      } else if n == 1 {
        ghost var s := buf[..];
        ClrBufBit(buf, start);
        OneCleared(s, buf[..], start);
      } else {
        ClearUnaligned(start % SIZE, n);
      }
    }

    method ClearUnaligned(start: nat, n: nat)
      requires buf.Length == BUF_SIZE && Bytes(buf[..]) && start < SIZE && n <= SIZE
      modifies buf
      ensures RangeCleared(old(buf[..]), buf[..], start, n)
    {
      ghost var s := buf[..];
      var c := ClearToByte(start, n);
      if c == n { return; }
      ghost var t := buf[..];
      ClearAligned((start + c) % SIZE, n - c);
      RangesCompose(s, t, buf[..], start, c, n - c);
    }

    /** The bits up to the next byte, or none if the range starts on one. */
    method ClearToByte(start: nat, n: nat) returns (c: nat)
      requires buf.Length == BUF_SIZE && Bytes(buf[..]) && start < SIZE && n <= SIZE
      modifies buf
      ensures c <= n && (c < n ==> (start + c) % SIZE % 8 == 0)
      ensures RangeCleared(old(buf[..]), buf[..], start, c)
    {
      c := 0;
      if start % 8 != 0 {
        c := if n > 8 - start % 8 then 8 - start % 8 else n;
        ClearMask(start, c);
      } else {
        NothingCleared(buf[..], start);
      }
    }

    /** A range that starts on a byte: whole bytes, then the low bits of the last one. */
    method ClearAligned(start: nat, n: nat)
      requires buf.Length == BUF_SIZE && Bytes(buf[..]) && start < SIZE && start % 8 == 0 && n <= SIZE
      modifies buf
      ensures RangeCleared(old(buf[..]), buf[..], start, n)
    {
      ghost var s := buf[..];
      var remaining, cur := n, start;
      NothingCleared(s, cur);
      var full := remaining / 8;
      if full != 0 {
        ClearBytes(cur, full);
        remaining := remaining - full * 8;
        cur := (cur + full * 8) % SIZE;
      }
      assert cur % 8 == 0 && remaining == n % 8;
      if remaining > 0 {
        ghost var t := buf[..];
        ClearMask(cur, remaining);
        ghost var u := buf[..];
        RangesCompose(s, t, u, start, full * 8, remaining);
      }
    }

    /** win_boundary_moving: free the slots of the numbers the window moves over. */
    method WinBoundaryMoving(step: nat)
      requires buf.Length == BUF_SIZE && Bytes(buf[..]) && posLower < SIZE && 0 < step < SIZE
      modifies this`posLower, this`posUpper, buf
      ensures RangeCleared(old(buf[..]), buf[..], old(posLower), step)
      ensures posLower == (old(posLower) + step) % SIZE && posUpper == (posLower + SIZE - 1) % SIZE
    {
      FreeSlots(step);
      var lower := posLower + step;
      posLower := if lower < SIZE then lower else lower % SIZE;
      posUpper := if posLower != 0 then posLower - 1 else SIZE - 1;
    }

    /** Its one or two calls of clear_bit_range. */
    method FreeSlots(step: nat)
      requires buf.Length == BUF_SIZE && Bytes(buf[..]) && posLower < SIZE && 0 < step < SIZE
      modifies buf
      ensures RangeCleared(old(buf[..]), buf[..], posLower, step)
    {
      if posLower + step < SIZE {
        ClearBitRange(posLower, step);
        return;
      }
      FreeAcrossEnd(SIZE - posLower, step);
    }

    method FreeAcrossEnd(first: nat, step: nat)
      requires buf.Length == BUF_SIZE && Bytes(buf[..]) && posLower < SIZE && first == SIZE - posLower <= step < SIZE
      modifies buf
      ensures RangeCleared(old(buf[..]), buf[..], posLower, step)
    {
      ghost var s := buf[..];
      ClearBitRange(posLower, first);
      ghost var t := buf[..];
      ClearBitRange(0, step - first);
      ghost var u := buf[..];
      ComposedAtEnd(s, t, u, posLower, first, step - first);
    }

    /** reset: an empty window ending at sn, waiting for a first packet. */
    method Reset(sn: nat)
      requires buf.Length == BUF_SIZE && sn < U16
      modifies this, buf
      ensures Valid() && filter == FRESH
      ensures snUpper == sn && snLower == (sn + 1 - SIZE) % U16
      ensures posLower == snLower % SIZE && posUpper == snUpper % SIZE
      ensures forall i :: 0 <= i < BUF_SIZE ==> buf[..][i] == 0
    {
      snLower := (sn + U16 - (SIZE - 1)) % U16;
      snUpper := sn;
      posLower, posUpper := snLower % SIZE, snUpper % SIZE;
      forall i | 0 <= i < BUF_SIZE { buf[i] := 0; }
      firstPkg := true;
      filter := FRESH;
    }

    /** first_pkg_sn_valid: an empty window ending just before sn. */
    method FirstPkgSnValid(sn: nat)
      requires buf.Length == BUF_SIZE && sn < U16
      modifies this, buf
      ensures Valid() && !firstPkg && filter == Filter(true, sn - 1, {})
    {
      Reset(if sn != 0 then sn - 1 else 65535);
      ModMod(sn - SIZE);
      ModMod(sn - 1);
      firstPkg := false;
      filter := Filter(true, sn - 1, {});
      ZerosRemember(buf[..], sn - 1);
    }

    /** pkg_sn_in_win and get_slide_step. */
    function PkgSnInWin(sn: nat): bool
      reads this
    {
      if snUpper > snLower then snUpper >= sn >= snLower else snUpper >= sn || sn >= snLower
    }

    function SlideStep(sn: nat): (step: int)
      reads this
    {
      if PkgSnInWin(sn) then 0
      else if sn - snUpper < 0 then sn - snUpper + U16 else sn - snUpper
    }

    /** The comparisons on the 16-bit bounds decide the window exactly. */
    lemma StepIsDistance(sn: nat)
      requires Bounds() && sn < U16
      ensures SlideStep(sn) == if Behind(filter.top, sn) < SIZE then 0 else Ahead(filter.top, sn)
    {
      Distances(filter.top, sn);
    }

    /** Advance the window by a step that is not a resynchronisation. */
    method Slide(sn: nat, step: nat)
      requires Valid() && !firstPkg && sn < U16 && 0 < step < SIZE && step == Ahead(filter.top, sn)
      modifies this, buf
      ensures Valid() && !firstPkg && filter == old(filter).(top := old(filter).top + step)
    {
      snLower := (snLower + step) % U16;
      snUpper := sn;
      ghost var s, f := buf[..], filter;
      SlidBounds(f.top, sn, step);
      WinBoundaryMoving(step);
      SlideRemembers(s, buf[..], f, step);
      filter := f.(top := f.top + step);
    }

    /** Move the window to cover sn, starting over where the code does. */
    method MoveTo(sn: nat)
      requires Valid() && sn < U16
      modifies this, buf
      ensures Valid() && !firstPkg && filter == Moved(old(filter), sn) && Behind(filter.top, sn) < SIZE
    {
      MoveCases(filter, sn);
      if firstPkg { FirstPkgSnValid(sn); }
      StepIsDistance(sn);
      var step := SlideStep(sn);
      if step >= MAX_STEP {
        FirstPkgSnValid(sn);
        step := 1;
      }
      if step != 0 { Slide(sn, step); }
    }

    /** pkg_sn_valid: the answer and the new state are those of the unbounded filter. */
    method PkgSnValid(sn: nat, onlyCheck: bool) returns (ok: bool)
      requires Valid() && sn < U16
      modifies this, buf
      ensures Valid()
      ensures ok == Answer(old(filter), sn)
      ensures filter == Next(old(filter), sn, onlyCheck)
    {
      MoveTo(sn);
      ghost var x := Lift(filter.top, sn);
      LookUp(sn);
      if BitAt(buf[..], sn % SIZE) {
        assert filter.accepted + {x} == filter.accepted;
        return false;
      }
      if !onlyCheck { Mark(sn); }
      return true;
    }

    /** Valid(), closed unless opened by name. */
    ghost predicate Image()
      reads this, buf
    {
      forall k: nat {:trigger Open(Fold.Window, k)} :: Open(Fold.Window, k) ==> Valid()
    }

    method FeedOne(c: Call) returns (ok: bool)
      requires Image() && c.sn < U16
      modifies this, buf
      ensures Image() && ok == Answer(old(filter), c.sn) && filter == Next(old(filter), c.sn, c.onlyCheck)
    {
      assert Open(Fold.Window, 0);
      ok := PkgSnValid(c.sn, c.onlyCheck);
    }

    /** Whole runs: the window answers every call as the unbounded filter does. */
    method Feed(calls: seq<Call>) returns (answers: seq<bool>)
      requires Valid() && forall i :: 0 <= i < |calls| ==> calls[i].sn < U16
      modifies this, buf
      ensures Valid() && filter == Run(old(filter), calls)
      ensures answers == Answers(old(filter), calls)
    {
      answers := [];
      ghost var f := filter;
      for n := 0 to |calls|
        invariant Image() && filter == Run(f, calls[..n]) && answers == Answers(f, calls[..n])
      {
        RunSnoc(f, calls, n);
        var ok := FeedOne(calls[n]);
        answers := answers + [ok];
      }
      assert calls[..|calls|] == calls && Open(Fold.Window, 0);
    }

    /** The bit of a number the window covers says whether the number was accepted. */
    lemma LookUp(sn: nat)
      requires Valid() && !firstPkg && sn < U16 && Behind(filter.top, sn) < SIZE
      ensures var x := Lift(filter.top, sn);
        && filter.top - SIZE < x <= filter.top && x % SIZE == sn % SIZE
        && (x in filter.accepted <==> BitAt(buf[..], sn % SIZE))
    {
      var x := Lift(filter.top, sn);
      LiftDenotes(filter.top, sn);
      ModMod(x);
      assert x in filter.accepted <==> BitAt(buf[..], x % SIZE);
    }

    method Mark(sn: nat)
      requires Valid() && !firstPkg && sn < U16 && Behind(filter.top, sn) < SIZE
      modifies this`filter, buf
      ensures Valid() && filter == old(filter).(accepted := old(filter).accepted + {Lift(old(filter).top, sn)})
    {
      ghost var s, x := buf[..], Lift(filter.top, sn);
      LookUp(sn);
      SetBufBit(buf, sn % SIZE);
      MarkRemembers(s, buf[..], filter, x);
      filter := filter.(accepted := filter.accepted + {x});
    }
  }
}
