/** The loss meter loss_stat (socks5udpf/src/loss_stat.cpp): a 2048-bit circular bitmap of
    received sequence numbers, and the plain counting of missing numbers it stands for. */
module LossMeter {
  import opened Bits
  import opened BitBuffer
  import Arithmetic
  import opened Folding

  const BITS: nat := 2048      // k_pkg_num_pps_max
  const BUF_SIZE: nat := 256   // k_pkg_loss_stat_buf_size
  const PERIOD: nat := 2000    // k_pkg_loss_stat_period
  const U16: nat := 65536

  // ----- what is to be counted

  /** How many of the n numbers from `base` on are not among `seen`. */
  function Missing(base: int, n: nat, seen: set<int>): (m: nat)
    ensures m <= n
  {
    if n == 0 then 0 else Missing(base, n - 1, seen) + if base + n - 1 in seen then 0 else 1
  }

  /** The loss rate in hundredths of a percent. */
  function Rate(lost: nat, total: nat): nat { if total == 0 then 0 else lost * 10000 / total }

  lemma RateAtMost(lost: nat, total: nat)
    requires lost <= total
    ensures Rate(lost, total) <= 10000
  {
    if total > 0 { Arithmetic.DivAtMost(lost * 10000, total, 10000); }
  }

  /** The rate is the share of the lost numbers, rounded down. */
  lemma RateIsShare(lost: nat, total: nat)
    ensures total == 0 ==> Rate(lost, total) == 0
    ensures total > 0 ==> Rate(lost, total) * total <= lost * 10000 < (Rate(lost, total) + 1) * total
  {
    if total > 0 {
      var q := lost * 10000 / total;
      assert lost * 10000 == q * total + lost * 10000 % total;
      assert (q + 1) * total == q * total + total;
    }
  }

  /** The numbers of a stretch that are not among `seen`. */
  function Absent(base: int, n: nat, seen: set<int>): set<int> { set x: int | base <= x < base + n && x !in seen }

  lemma {:induction false} MissingIsAbsent(base: int, n: nat, seen: set<int>)
    ensures Missing(base, n, seen) == |Absent(base, n, seen)|
  {
    if n == 0 {
      assert Absent(base, 0, seen) == {};
    } else {
      MissingIsAbsent(base, n - 1, seen);
      var x := base + n - 1;
      if x in seen {
        assert Absent(base, n, seen) == Absent(base, n - 1, seen);
      } else {
        assert Absent(base, n, seen) == Absent(base, n - 1, seen) + {x};
      }
    }
  }

  // ----- the circular bitmap

  /** The position d steps after `start` on the circle. */
  function Slot(start: nat, d: nat): (p: nat) {
    if start + d < BITS then start + d else start + d - BITS
  }

  /** Bit d of the circle that starts at position `start` says whether base + d was seen. */
  ghost predicate Shows(buf: seq<nat>, start: nat, base: int, seen: set<int>) {
    && |buf| == BUF_SIZE && Bytes(buf) && start < BITS
    && (forall x :: x in seen ==> base <= x < base + BITS)
    && (forall d {:trigger Slot(start, d)} :: 0 <= d < BITS ==> BitAt(buf, Slot(start, d)) == (base + d in seen))
  }

  /** Zero bits among the n positions from p on, not wrapping. */
  function Zeros(buf: seq<nat>, p: nat, n: nat): nat
    requires |buf| == BUF_SIZE && p + n <= BITS
  {
    if n == 0 then 0 else Zeros(buf, p, n - 1) + if BitAt(buf, p + n - 1) then 0 else 1
  }

  /** The zero bits of a stretch are the missing numbers it stands for. */
  lemma {:induction false} ZerosAreMissing(buf: seq<nat>, start: nat, base: int, seen: set<int>, d: nat, n: nat)
    requires Shows(buf, start, base, seen) && d + n <= BITS && d < BITS && Slot(start, d) + n <= BITS
    ensures Zeros(buf, Slot(start, d), n) == Missing(base + d, n, seen)
    decreases n
  {
    if n > 0 {
      ZerosAreMissing(buf, start, base, seen, d, n - 1);
      assert Slot(start, d + n - 1) == Slot(start, d) + n - 1;
    }
  }

  lemma {:induction false} MissingSplits(base: int, a: nat, b: nat, seen: set<int>)
    ensures Missing(base, a + b, seen) == Missing(base, a, seen) + Missing(base + a, b, seen)
    decreases b
  {
    if b > 0 { MissingSplits(base, a, b - 1, seen); }
  }

  lemma StretchMissing(s: seq<nat>, start: nat, base: int, seen: set<int>, n: nat)
    requires Shows(s, start, base, seen) && start + n < BITS
    ensures Zeros(s, start, n) == Missing(base, n, seen)
  {
    ZerosAreMissing(s, start, base, seen, 0, n);
  }

  /** The zero bits x before the end of the buffer and y from its beginning on. */
  lemma WrappedMissing(s: seq<nat>, start: nat, base: int, seen: set<int>, n: nat, x: nat, y: nat)
    requires Shows(s, start, base, seen) && start + n >= BITS && n < BITS
    requires x == Zeros(s, start, BITS - start) && y == Zeros(s, 0, start + n - BITS)
    ensures x + y == Missing(base, n, seen)
  {
    var a := BITS - start;
    FirstPart(s, start, base, seen, x);
    ZerosAreMissing(s, start, base, seen, a, n - a);
    MissingAddUp(base, a, n - a, seen, x, y);
  }

  lemma FirstPart(s: seq<nat>, start: nat, base: int, seen: set<int>, x: nat)
    requires Shows(s, start, base, seen) && x == Zeros(s, start, BITS - start)
    ensures x == Missing(base, BITS - start, seen)
  {
    ZerosAreMissing(s, start, base, seen, 0, BITS - start);
  }

  lemma MissingAddUp(base: int, a: nat, b: nat, seen: set<int>, x: nat, y: nat)
    requires x == Missing(base, a, seen) && y == Missing(base + a, b, seen)
    ensures x + y == Missing(base, a + b, seen)
  {
    MissingSplits(base, a, b, seen);
  }

  /** t is s with the n bits from p on cleared, without wrapping. */
  ghost predicate Cleared(s: seq<nat>, t: seq<nat>, p: nat, n: nat) {
    && |s| == |t| == BUF_SIZE && Bytes(t)
    && forall q :: 0 <= q < BITS ==> BitAt(t, q) == (BitAt(s, q) && !(p <= q < p + n))
  }

  lemma {:induction false} ZerosElsewhere(s: seq<nat>, t: seq<nat>, p: nat, n: nat, q: nat, m: nat)
    requires Cleared(s, t, p, n) && q + m <= BITS && q + m <= p
    ensures Zeros(t, q, m) == Zeros(s, q, m)
    decreases m
  {
    if m > 0 { ZerosElsewhere(s, t, p, n, q, m - 1); }
  }

  /** t is s without the first n numbers of the circle. */
  ghost predicate Advanced(s: seq<nat>, t: seq<nat>, start: nat, n: nat) {
    && |s| == |t| == BUF_SIZE && Bytes(t) && start < BITS
    && forall d {:trigger Slot(start, d)} :: 0 <= d < BITS ==>
         BitAt(t, Slot(start, d)) == (BitAt(s, Slot(start, d)) && d >= n)
  }

  function Later(seen: set<int>, from: int): set<int> { set x | x in seen && x >= from }

  /** Dropping the n numbers just counted leaves a circle that starts n positions on. */
  lemma ShowsAdvance(s: seq<nat>, t: seq<nat>, start: nat, base: int, seen: set<int>, n: nat)
    requires Shows(s, start, base, seen) && n < BITS && Advanced(s, t, start, n)
    ensures Shows(t, Slot(start, n), base + n, Later(seen, base + n))
  {
    var from := Slot(start, n);
    forall d | 0 <= d < BITS ensures BitAt(t, Slot(from, d)) == (base + n + d in Later(seen, base + n)) {
      var e := if n + d < BITS then n + d else n + d - BITS;
      assert Slot(start, e) == Slot(from, d);
    }
  }

  /** Clearing one stretch, or two across the end of the buffer, advances the circle. */
  lemma AdvanceStraight(s: seq<nat>, t: seq<nat>, start: nat, n: nat)
    requires Cleared(s, t, start, n) && start + n <= BITS && start < BITS
    ensures Advanced(s, t, start, n)
  {
  }

  lemma AdvanceWrapped(s: seq<nat>, t: seq<nat>, u: seq<nat>, start: nat, n: nat)
    requires start < BITS <= start + n && n <= BITS
    requires Cleared(s, t, start, BITS - start) && Cleared(t, u, 0, start + n - BITS)
    ensures Advanced(s, u, start, n)
  {
  }

  lemma MarkShows(s: seq<nat>, t: seq<nat>, start: nat, base: int, seen: set<int>, d: nat)
    requires Shows(s, start, base, seen) && d < BITS && Bytes(t) && OnlyBit(s, t, Slot(start, d), true)
    ensures Shows(t, start, base, seen + {base + d})
  {
  }

  lemma ZerosShow(buf: seq<nat>, base: int)
    requires |buf| == BUF_SIZE && forall i :: 0 <= i < BUF_SIZE ==> buf[i] == 0
    ensures Shows(buf, 0, base, {})
  {
    forall p | 0 <= p < BITS ensures !BitAt(buf, p) { BitOfZero(p % 8); }
  }

  /** The distance cache_pkg_sn computes from the 16-bit numbers. */
  function Delta(min: nat, sn: nat): nat
    requires min < U16 && sn < U16
  {
    if sn < min then U16 - min + sn else sn - min
  }

  // ----- the measurement, on unbounded numbers

  /** A packet, the time it is handled at, and the clock a restart reads. */
  datatype Arrival = Arrival(sn: nat, now: nat, clock: nat)

  /** Numbers from `base` on are being measured; `mid` and `top` are the largest ones seen in time
      for the next calculation and at all. */
  datatype Meter = Meter(first: bool, base: int, mid: int, top: int, seen: set<int>, rate: nat, midTime: nat, calcTime: nat)
  {
    predicate Formed() { base <= mid <= top }

    /** The bounds are 16-bit numbers. */
    predicate InRange() { 0 <= base && Formed() && top < U16 }

    /** The 16-bit number base stands for. */
    function Low(): nat { base % U16 }
  }

  function FreshMeter(clock: nat): Meter { Meter(true, 0, 0, 0, {}, 0, clock + 1500, clock + PERIOD) }

  /** The number a packet denotes. */
  function Denoted(m: Meter, sn: nat): int
    requires sn < U16
  {
    if m.first then sn else m.base + Delta(m.Low(), sn)
  }

  /** Too far from the start of the period: the meter starts over. */
  predicate Restarts(m: Meter, sn: nat)
    requires sn < U16
  {
    !m.first && Delta(m.Low(), sn) >= BITS
  }

  function Noted(m: Meter, a: Arrival): (r: Meter)
    requires m.Formed() && a.sn < U16
    ensures r.Formed() && !r.first
  {
    if m.first then m.(first := false, base := a.sn, mid := a.sn, top := a.sn, seen := {a.sn as int})
    else
      var at := m.base + a.sn - m.Low();
      m.(mid := if a.now < m.midTime && at > m.mid then at else m.mid, top := if at > m.top then at else m.top,
         seen := m.seen + {m.base + Delta(m.Low(), a.sn)})
  }

  /** How far the next calculation reaches: to the middle or, if no packet moved that, to the top. */
  function Reach(m: Meter): nat
    requires m.Formed()
  {
    if m.mid == m.base then m.top - m.base else m.mid - m.base
  }

  function Calculated(m: Meter, now: nat): (r: Meter)
    requires m.Formed()
    ensures r.Formed()
  {
    var n := Reach(m);
    Meter(m.first, m.base + n, m.base + n, m.top, Later(m.seen, m.base + n), Rate(Missing(m.base, n, m.seen), n),
          now + 1500, now + PERIOD)
  }

  function MeterStep(m: Meter, a: Arrival): (r: Meter)
    requires m.Formed() && a.sn < U16
    ensures r.Formed()
  {
    if Restarts(m, a.sn) then FreshMeter(a.clock)
    else
      var t := Noted(m, a);
      if a.now < t.calcTime then t else Calculated(t, a.now)
  }

  ghost predicate Short(arrivals: seq<Arrival>) { forall i :: 0 <= i < |arrivals| ==> arrivals[i].sn < U16 }

  ghost function RunMeter(m: Meter, arrivals: seq<Arrival>): (r: Meter)
    requires m.Formed() && Short(arrivals)
    ensures r.Formed()
  {
    if arrivals == [] then m
    else MeterStep(RunMeter(m, arrivals[..|arrivals| - 1]), arrivals[|arrivals| - 1])
  }

  // ----- what a run has counted

  /** Books over a run since the last restart: the first number measured, every number that
      arrived, and the losses counted by all calculations together. */
  datatype Books = Books(start: int, log: set<int>, lost: nat)

  ghost function BooksStep(b: Books, m: Meter, a: Arrival): Books
    requires m.Formed() && a.sn < U16
  {
    if Restarts(m, a.sn) then Books(0, {}, 0)
    else
      var t := Noted(m, a);
      var c := Books(if m.first then a.sn else b.start, b.log + {Denoted(m, a.sn)}, b.lost);
      if a.now < t.calcTime then c else c.(lost := c.lost + Missing(t.base, Reach(t), t.seen))
  }

  ghost function RunBooks(m: Meter, arrivals: seq<Arrival>): Books
    requires m.Formed() && Short(arrivals)
  {
    if arrivals == [] then Books(0, {}, 0)
    else
      var n := |arrivals| - 1;
      BooksStep(RunBooks(m, arrivals[..n]), RunMeter(m, arrivals[..n]), arrivals[n])
  }

  /** The meter remembers what arrived from base on, and the losses counted so far are the
      numbers before base that never arrived. */
  ghost predicate Balanced(b: Books, m: Meter) {
    && (m.first ==> b.log == {} && b.lost == 0)
    && (!m.first ==> b.start <= m.base && m.seen == Later(b.log, m.base) && b.lost == Missing(b.start, m.base - b.start, b.log))
  }

  lemma {:induction false} MissingAgree(base: int, n: nat, a: set<int>, b: set<int>)
    requires forall x :: base <= x < base + n ==> (x in a <==> x in b)
    ensures Missing(base, n, a) == Missing(base, n, b)
  {
    if n > 0 { MissingAgree(base, n - 1, a, b); }
  }

  lemma NoteBalances(b: Books, m: Meter, a: Arrival)
    requires m.Formed() && a.sn < U16 && Balanced(b, m)
    ensures Balanced(Books(if m.first then a.sn else b.start, b.log + {Denoted(m, a.sn)}, b.lost), Noted(m, a))
  {
    var x := Denoted(m, a.sn);
    if !m.first { MissingAgree(b.start, m.base - b.start, b.log, b.log + {x}); }
  }

  lemma CalculationBalances(b: Books, m: Meter, now: nat)
    requires m.Formed() && !m.first && Balanced(b, m)
    ensures Balanced(b.(lost := b.lost + Missing(m.base, Reach(m), m.seen)), Calculated(m, now))
  {
    var n := Reach(m);
    MissingAgree(m.base, n, m.seen, b.log);
    MissingSplits(b.start, m.base - b.start, n, b.log);
  }

  lemma StepBalances(b: Books, m: Meter, a: Arrival)
    requires m.Formed() && a.sn < U16 && Balanced(b, m)
    ensures Balanced(BooksStep(b, m, a), MeterStep(m, a))
  {
    if !Restarts(m, a.sn) {
      NoteBalances(b, m, a);
      var t := Noted(m, a);
      var c := Books(if m.first then a.sn else b.start, b.log + {Denoted(m, a.sn)}, b.lost);
      if a.now >= t.calcTime { CalculationBalances(c, t, a.now); }
    }
  }

  /** Conservation over whole runs: however the packets arrive and whenever the calculations
      fall, since the last restart all losses counted together are exactly the numbers before
      the current period that never arrived, each counted once. */
  lemma {:induction false} LossesAddUp(clock: nat, arrivals: seq<Arrival>)
    requires Short(arrivals)
    ensures Balanced(RunBooks(FreshMeter(clock), arrivals), RunMeter(FreshMeter(clock), arrivals))
    decreases |arrivals|
  {
    if arrivals != [] {
      var n := |arrivals| - 1;
      LossesAddUp(clock, arrivals[..n]);
      StepBalances(RunBooks(FreshMeter(clock), arrivals[..n]), RunMeter(FreshMeter(clock), arrivals[..n]), arrivals[n]);
    }
  }

  // ----- what one packet does, in numbers

  /** A packet 2048 or more numbers after the start of the period starts the meter over; every
      other one is remembered under the one number its 16 bits denote there, and until the period
      is over nothing else happens but the bounds moving. */
  lemma ArrivalIsRemembered(m: Meter, a: Arrival)
    requires m.InRange() && a.sn < 65536
    ensures var d := (a.sn - m.base) % 65536;
      !m.first && d >= 2048 ==> MeterStep(m, a) == Meter(true, 0, 0, 0, {}, 0, a.clock + 1500, a.clock + 2000)
    ensures m.first && a.now < m.calcTime ==>
      MeterStep(m, a) == Meter(false, a.sn, a.sn, a.sn, {a.sn as int}, m.rate, m.midTime, m.calcTime)
    ensures var d := (a.sn - m.base) % 65536;
      !m.first && d < 2048 && a.now < m.calcTime ==>
        var mid, top := if a.now < m.midTime && a.sn > m.mid then a.sn else m.mid, if a.sn > m.top then a.sn else m.top;
        MeterStep(m, a) == Meter(false, m.base, mid, top, m.seen + {m.base + d}, m.rate, m.midTime, m.calcTime)
  {
    assert m.Low() == m.base;
  }

  /** The rate is lost / n in units of 1/10000, rounded down; 0 of nothing. */
  ghost predicate InTenThousandths(rate: nat, lost: nat, n: nat) {
    if n == 0 then rate == 0 else rate * n <= lost * 10000 < (rate + 1) * n
  }

  /** What a due calculation publishes, with the losses read off the books. */
  lemma RateOfStep(b: Books, m: Meter, a: Arrival) returns (from: int, n: nat, lost: nat)
    requires m.Formed() && a.sn < U16 && Balanced(b, m) && !Restarts(m, a.sn) && a.now >= m.calcTime
    ensures
      var r := MeterStep(m, a);
      && from == (if m.first then a.sn else m.base) && r.base == from + n
      && lost == |Absent(from, n, BooksStep(b, m, a).log)|
      && InTenThousandths(r.rate, lost, n) && r.midTime == a.now + 1500 && r.calcTime == a.now + 2000
  {
    NoteBalances(b, m, a);
    var t := Noted(m, a);
    var log := b.log + {Denoted(m, a.sn)};
    from, n := t.base, Reach(t);
    MissingAgree(t.base, n, t.seen, log);
    MissingIsAbsent(t.base, n, log);
    lost := Missing(t.base, n, t.seen);
    RateIsShare(lost, n);
  }

  /** A packet that arrives when the period is over is remembered first; then, unless the meter
      starts over, the rate published is the share, in hundredths of a percent rounded down, of
      the numbers of the period that never arrived in this run, and the next period begins behind
      them. */
  lemma PublishedRate(clock: nat, arrivals: seq<Arrival>, a: Arrival) returns (from: int, n: nat, lost: nat)
    requires Short(arrivals) && Short(arrivals + [a]) && a.sn < 65536
    requires !RunMeter(FreshMeter(clock), arrivals + [a]).first && a.now >= RunMeter(FreshMeter(clock), arrivals).calcTime
    ensures
      var m, r := RunMeter(FreshMeter(clock), arrivals), RunMeter(FreshMeter(clock), arrivals + [a]);
      && from == (if m.first then a.sn else m.base) && r.base == from + n
      && lost == |set x: int | from <= x < r.base && x !in RunBooks(FreshMeter(clock), arrivals + [a]).log|
      && InTenThousandths(r.rate, lost, n) && r.midTime == a.now + 1500 && r.calcTime == a.now + 2000
  {
    RunSnoc(FreshMeter(clock), arrivals, a);
    LossesAddUp(clock, arrivals);
    from, n, lost := RateOfStep(RunBooks(FreshMeter(clock), arrivals), RunMeter(FreshMeter(clock), arrivals), a);
    AbsentUpTo(from, n, RunBooks(FreshMeter(clock), arrivals + [a]).log);
  }

  lemma RunSnoc(f: Meter, arrivals: seq<Arrival>, a: Arrival)
    requires f.Formed() && Short(arrivals) && Short(arrivals + [a]) && a.sn < U16
    ensures RunMeter(f, arrivals + [a]) == MeterStep(RunMeter(f, arrivals), a)
    ensures RunBooks(f, arrivals + [a]) == BooksStep(RunBooks(f, arrivals), RunMeter(f, arrivals), a)
  {
    assert (arrivals + [a])[..|arrivals|] == arrivals;
  }

  lemma AbsentUpTo(from: int, n: nat, log: set<int>)
    ensures Absent(from, n, log) == set x: int | from <= x < from + n && x !in log
  {
  }

  // ----- numbers past a 16-bit wrap

  /** The period never leaves the 16-bit numbers: nothing past 65535 is ever counted. */
  lemma {:induction false} PeriodStaysShort(clock: nat, arrivals: seq<Arrival>)
    requires Short(arrivals)
    ensures RunMeter(FreshMeter(clock), arrivals).InRange()
    decreases |arrivals|
  {
    if arrivals != [] {
      var n := |arrivals| - 1;
      PeriodStaysShort(clock, arrivals[..n]);
      StepStaysShort(RunMeter(FreshMeter(clock), arrivals[..n]), arrivals[n]);
    }
  }

  lemma StepStaysShort(m: Meter, a: Arrival)
    requires m.InRange() && a.sn < U16
    ensures MeterStep(m, a).InRange()
  {
    assert m.Low() == m.base;
  }

  /** Which packets move the bounds of the period: those that denote a number beyond the bound
      and have not wrapped.  One that has wrapped denotes a number beyond both bounds and moves
      neither, because the bounds are compared as 16-bit values. */
  lemma BoundsMoveExactly(m: Meter, a: Arrival)
    requires m.InRange() && !m.first && a.sn < U16
    ensures Noted(m, a).top != m.top <==> Denoted(m, a.sn) > m.top && a.sn >= m.base
    ensures Noted(m, a).mid != m.mid <==> Denoted(m, a.sn) > m.mid && a.sn >= m.base && a.now < m.midTime
    ensures a.sn < m.base ==> Denoted(m, a.sn) > m.top
  {
    assert m.Low() == m.base;
  }

  /** All three bounds coincide. */
  predicate Stuck(m: Meter) { !m.first && m.InRange() && m.base == m.mid == m.top }

  /** The packets have wrapped past the period and are not far enough to start over. */
  ghost predicate Wrapped(m: Meter, arrivals: seq<Arrival>)
    requires m.InRange()
  {
    forall i :: 0 <= i < |arrivals| ==> arrivals[i].sn < m.base && !Restarts(m, arrivals[i].sn)
  }

  /** Once they do, wrapped packets leave them in place whatever was lost between them, and the
      rate is 0 as soon as it is taken. */
  lemma {:induction false} WrappedPacketsCountNothing(m: Meter, arrivals: seq<Arrival>)
    requires Stuck(m) && Short(arrivals) && Wrapped(m, arrivals)
    ensures var r := RunMeter(m, arrivals);
      && Stuck(r) && r.base == m.base
      && ((r.calcTime == m.calcTime && r.rate == m.rate) || r.rate == 0)
    ensures arrivals != [] && arrivals[|arrivals| - 1].now >= RunMeter(m, arrivals[..|arrivals| - 1]).calcTime ==>
      RunMeter(m, arrivals).rate == 0
    decreases |arrivals|
  {
    if arrivals != [] {
      var n := |arrivals| - 1;
      WrappedPacketsCountNothing(m, arrivals[..n]);
      StuckStep(RunMeter(m, arrivals[..n]), arrivals[n]);
    }
  }

  lemma StuckStep(m: Meter, a: Arrival)
    requires Stuck(m) && a.sn < m.base && !Restarts(m, a.sn)
    ensures var r := MeterStep(m, a);
      && Stuck(r) && r.base == m.base
      && (if a.now >= m.calcTime then r.rate == 0 else r.calcTime == m.calcTime && r.rate == m.rate)
  {
    assert m.Low() == m.base;
  }

  /** Such a run: 65535 arrives, 0 does not, 1 arrives when the rate is due, and the rate is 0. */
  lemma WrappedLossIsMissed(clock: nat, now: nat)
    requires now < clock + PERIOD
    ensures var arrivals := [Arrival(65535, now, clock), Arrival(1, clock + PERIOD, clock)];
      RunMeter(FreshMeter(clock), arrivals).rate == 0
      && RunBooks(FreshMeter(clock), arrivals).log == {65535, 65537}
  {
    var a, b := Arrival(65535, now, clock), Arrival(1, clock + PERIOD, clock);
    var m := MeterStep(FreshMeter(clock), a);
    assert [a, b][..1] == [a] && [a][..0] == [];
    assert RunMeter(FreshMeter(clock), [a]) == m && RunBooks(FreshMeter(clock), [a]).log == {65535};
    StuckStep(m, b);
  }

  class LossStat {
    const buf: array<nat>    // k_pkg_loss_stat_buf_
    var rate: nat            // pkg_loss_rate_
    var posMin: nat
    var posMid: nat
    var posMax: nat
    var snMin: nat           // period_pkg_sn_min_
    var snMid: nat
    var snMax: nat
    var first: bool
    var midTime: nat
    var calcTime: nat
    ghost var base: int      // the unbounded number snMin stands for
    ghost var seen: set<int> // the numbers cached while covered

    ghost predicate Positions()
      reads this
    {
      && posMin < BITS && snMin <= snMid <= snMax < U16 && snMax - snMin < BITS
      && posMid == Slot(posMin, snMid - snMin) && posMax == Slot(posMin, snMax - snMin)
    }

    /** The circle from `at` on shows what was seen from base on. */
    ghost predicate Picture(at: nat)
      reads this, buf
    {
      buf.Length == BUF_SIZE
      && forall k: nat {:trigger Open(Fold.Picture, k)} :: Open(Fold.Picture, k) ==> Shows(buf[..], at, base, seen)
    }

    /** Bit (pos_min + d) mod 2048 is set exactly if number sn_min + d was cached. */
    ghost predicate Valid()
      reads this, buf
    {
      && buf.Length == BUF_SIZE && rate <= 10000
      && Positions() && Picture(posMin)
      && (if first then posMin == 0 && snMin == snMax && seen == {} else base % U16 == snMin)
    }

    /** The measurement the fields stand for. */
    ghost function Meaning(): Meter
      reads this
    {
      Meter(first, base, base + snMid - snMin, base + snMax - snMin, seen, rate, midTime, calcTime)
    }

    constructor (clock: nat)
      ensures Valid() && Meaning() == FreshMeter(clock)
    {
      buf := new nat[BUF_SIZE](_ => 0);
      rate, posMin, posMid, posMax, snMin, snMid, snMax := 0, 0, 0, 0, 0, 0, 0;
      first := true;
      midTime, calcTime := clock + PERIOD / 4 + PERIOD / 2, clock + PERIOD;
      base, seen := 0, {};
      new;
      ZerosShow(buf[..], 0);
    }

    method ZeroBuffer()
      requires buf.Length == BUF_SIZE
      modifies buf
      ensures Shows(buf[..], 0, 0, {})
    {
      forall i | 0 <= i < BUF_SIZE { buf[i] := 0; }
      ZerosShow(buf[..], 0);
    }

    /** reset */
    method Reset(clock: nat)
      requires buf.Length == BUF_SIZE
      modifies this, buf
      ensures Valid() && Meaning() == FreshMeter(clock)
    {
      ZeroBuffer();
      rate, posMin, posMid, posMax, snMin, snMid, snMax := 0, 0, 0, 0, 0, 0, 0;
      first := true;
      midTime, calcTime := clock + PERIOD / 4 + PERIOD / 2, clock + PERIOD;
      base, seen := 0, {};
    }

    /** One of the counting loops: count the zero bits of a stretch and clear the others. */
    method CountStretch(from: nat, to: nat) returns (lost: nat)
      requires buf.Length == BUF_SIZE && Bytes(buf[..]) && from <= to <= BITS
      modifies buf
      ensures lost == Zeros(old(buf[..]), from, to - from)
      ensures Cleared(old(buf[..]), buf[..], from, to - from)
    {
      ghost var s := buf[..];
      lost := 0;
      var i := from;
      while i < to
        invariant from <= i <= to && Bytes(buf[..])
        invariant lost == Zeros(s, from, i - from)
        invariant Cleared(s, buf[..], from, i - from)
      {
        assert BitAt(buf[..], i) == BitAt(s, i);
        if !BitAt(buf[..], i) {
          lost := lost + 1;
        } else {
          ClrBufBit(buf, i);
        }
        i := i + 1;
      }
    }

    /** The loops of calc_pkg_loss_rate, wrapped or not: they count the missing numbers among
        the n from `base` on and drop those numbers from the circle. */
    method CountMissing(n: nat) returns (lost: nat)
      requires Shows(buf[..], posMin, base, seen) && buf.Length == BUF_SIZE && n < BITS
      requires posMid == Slot(posMin, n)
      modifies buf
      ensures lost == Missing(base, n, seen)
      ensures Advanced(old(buf[..]), buf[..], posMin, n)
    {
      ghost var s := buf[..];
      if posMin <= posMid {
        StretchMissing(s, posMin, base, seen, n);
        lost := CountStretch(posMin, posMid);
        AdvanceStraight(s, buf[..], posMin, n);
      } else {
        var late := CountStretch(posMin, BITS);
        ghost var t := buf[..];
        var early := CountStretch(0, posMid);
        lost := late + early;
        ZerosElsewhere(s, t, posMin, BITS - posMin, 0, posMid);
        WrappedMissing(s, posMin, base, seen, n, late, early);
        AdvanceWrapped(s, t, buf[..], posMin, n);
      }
    }

    /** The stretch a calculation covers: up to the middle or, if no packet moved that, all. */
    ghost function Covered(): int
      reads this
    {
      if snMid == snMin then snMax - snMin else snMid - snMin
    }

    /** calc_pkg_loss_rate: the rate of the missing numbers in [sn_min, sn_mid), after which
        the measurement goes on from sn_mid. */
    method CalcPkgLossRate(now: nat)
      requires Valid() && !first
      modifies this, buf
      ensures Valid() && !first
      ensures var n := if old(snMid) == old(snMin) then old(snMax) - old(snMin) else old(snMid) - old(snMin);
        0 <= n < 2048 && base == old(base) + n && snMin == old(snMin) + n && snMax == old(snMax)
        && seen == (set x | x in old(seen) && x >= base)
      ensures var n, lost := base - old(base), |set x: int | old(base) <= x < base && x !in old(seen)|;
        if n == 0 then rate == 0 else rate * n <= lost * 10000 < (rate + 1) * n
      ensures rate <= 10000 && midTime == now + 1500 && calcTime == now + 2000
      ensures old(Meaning()).Formed() && Meaning() == Calculated(old(Meaning()), now)
    {
      ghost var n := Covered();
      Measure(now);
      MissingIsAbsent(old(base), n, old(seen));
      assert Absent(old(base), n, old(seen)) == set x: int | old(base) <= x < base && x !in old(seen);
      RateIsShare(Missing(old(base), n, old(seen)), n);
    }

    method Measure(now: nat)
      requires Valid() && !first
      modifies this, buf
      ensures Valid() && !first
      ensures var n := old(Covered());
        0 <= n < BITS && rate == Rate(Missing(old(base), n, old(seen)), n) <= 10000
        && base == old(base) + n && seen == Later(old(seen), base)
        && snMin == snMid == old(snMin) + n && snMax == old(snMax)
      ensures midTime == now + 1500 && calcTime == now + PERIOD
    {
      var total, lost := TakeStretch();
      Close(lost, total, now);
    }

    /** Choose the stretch and count what is missing in it. */
    method TakeStretch() returns (total: nat, lost: nat)
      requires Valid() && !first
      modifies this`posMid, this`snMid, this`base, this`seen, buf
      ensures total == old(Covered()) == snMid - snMin < BITS
      ensures lost == Missing(old(base), total, old(seen))
      ensures base == old(base) + total && seen == Later(old(seen), base) && base % U16 == snMid
      ensures Positions() && Picture(posMid)
    {
      ChooseMid();
      total := snMid - snMin;
      ModAdvance(base, snMin, total);
      lost := TakeMissing(total);
    }

    /** Publish the rate and go on from the middle. */
    method Close(lost: nat, total: nat, now: nat)
      requires Positions() && lost <= total
      modifies this`rate, this`midTime, this`calcTime, this`snMin, this`posMin
      ensures Positions() && snMin == old(snMid) && posMin == old(posMid)
      ensures midTime == now + 1500 && calcTime == now + PERIOD
      ensures rate == Rate(lost, total) <= 10000
    {
      RateAtMost(lost, total);
      rate := Rate(lost, total);
      midTime, calcTime := now + PERIOD / 4 + PERIOD / 2, now + PERIOD;
      snMin, posMin := snMid, posMid;
    }

    /** If packets came too slowly to move the middle, take the maximum for it. */
    method ChooseMid()
      requires Positions()
      modifies this`posMid, this`snMid
      ensures Positions() && snMid - snMin == old(Covered()) && posMid == Slot(posMin, snMid - snMin)
    {
      if posMid == posMin {
        posMid, snMid := posMax, snMax;
      }
    }

    method RaiseBounds(sn: nat, pos: nat, now: nat)
      requires Positions() && sn < U16 && (sn >= snMin ==> sn - snMin < BITS && pos == Slot(posMin, sn - snMin))
      modifies this`snMid, this`posMid, this`snMax, this`posMax
      ensures Positions()
      ensures snMax == if sn > old(snMax) then sn else old(snMax)
      ensures snMid == if now < midTime && sn > old(snMid) then sn else old(snMid)
    {
      if now < midTime && sn > snMid {
        snMid, posMid := sn, pos;
      }
      if sn > snMax {
        snMax, posMax := sn, pos;
      }
    }

    /** Count the missing among the first n numbers and drop those numbers from the circle. */
    method TakeMissing(n: nat) returns (lost: nat)
      requires Picture(posMin) && n < BITS
      requires posMid == Slot(posMin, n)
      modifies this`base, this`seen, buf
      ensures lost == Missing(old(base), n, old(seen))
      ensures base == old(base) + n && seen == Later(old(seen), base)
      ensures Picture(posMid)
    {
      assert Open(Fold.Picture, 0);
      ghost var s := buf[..];
      lost := CountMissing(n);
      base, seen := base + n, Later(seen, base + n);
      ShowsAdvance(s, buf[..], posMin, old(base), old(seen), n);
    }

    /** The bookkeeping of cache_pkg_sn for a number the circle covers. */
    method Note(sn: nat, now: nat)
      requires Valid() && !first && sn < U16 && Delta(snMin, sn) < BITS
      modifies this, buf
      ensures Valid() && !first && base == old(base) && snMin == old(snMin)
      ensures seen == old(seen) + {base + Delta(snMin, sn)}
      ensures snMax == if sn > old(snMax) then sn else old(snMax)
      ensures snMid == if now < midTime && sn > old(snMid) then sn else old(snMid)
      ensures midTime == old(midTime) && calcTime == old(calcTime) && rate == old(rate)
    {
      var d := Delta(snMin, sn);
      var pos := (d + posMin) % BITS;
      assert pos == Slot(posMin, d);
      RaiseBounds(sn, pos, now);
      MarkSeen(d, pos);
    }

    /** Set the bit of the number d after the start of the period. */
    method MarkSeen(d: nat, pos: nat)
      requires Picture(posMin) && d < BITS && pos == Slot(posMin, d)
      modifies this`seen, buf
      ensures Picture(posMin) && seen == old(seen) + {base + d}
    {
      assert Open(Fold.Picture, 0);
      ghost var s := buf[..];
      seen := seen + {base + d};
      SetBufBit(buf, pos);
      MarkShows(s, buf[..], posMin, base, old(seen), d);
    }

    /** The first packet after a reset. */
    method NoteFirst(sn: nat)
      requires Valid() && first && sn < U16
      modifies this, buf
      ensures Valid() && !first && base == sn && seen == {sn} && snMin == snMid == snMax == sn
      ensures midTime == old(midTime) && calcTime == old(calcTime) && rate == old(rate)
    {
      assert Open(Fold.Picture, 0);
      first := false;
      snMin, snMid, snMax := sn, sn, sn;
      Rebase(buf[..], base, sn);
      base := sn;
      assert Slot(posMin, 0) == posMin;
      MarkSeen(0, posMin);
    }

    /** cache_pkg_sn: a number too far from the start of the period starts the meter over;
        every other number is remembered, and when the period is over the rate of the missing
        numbers is taken. */
    method CachePkgSn(sn: nat, now: nat, clock: nat)
      requires Valid() && sn < U16
      modifies this, buf
      ensures Valid()
      ensures old(Meaning()).Formed() && Meaning() == MeterStep(old(Meaning()), Arrival(sn, now, clock))
    {
      if first {
        NoteFirst(sn);
      } else if Delta(snMin, sn) >= BITS {
        Reset(clock);
        return;
      } else {
        Note(sn, now);
      }
      if now < calcTime { return; }
      CalcPkgLossRate(now);
    }

    /** Whole runs: the fields follow the measurement through every sequence of packets. */
    method Feed(arrivals: seq<Arrival>)
      requires Valid() && forall i :: 0 <= i < |arrivals| ==> arrivals[i].sn < U16
      modifies this, buf
      ensures Valid() && old(Meaning()).Formed() && Meaning() == RunMeter(old(Meaning()), arrivals)
    {
      ghost var m := Meaning();
      for n := 0 to |arrivals|
        invariant Valid() && m.Formed() && Meaning() == RunMeter(m, arrivals[..n])
      {
        assert arrivals[..n + 1][..n] == arrivals[..n];
        CachePkgSn(arrivals[n].sn, arrivals[n].now, arrivals[n].clock);
      }
      assert arrivals[..|arrivals|] == arrivals;
    }
  }

  lemma Rebase(s: seq<nat>, old_: int, base: int)
    requires Shows(s, 0, old_, {})
    ensures Shows(s, 0, base, {})
  {
    forall d | 0 <= d < BITS ensures !BitAt(s, Slot(0, d)) { assert old_ + d !in {}; }
  }

  lemma ModAdvance(base: int, min: nat, n: nat)
    requires base % U16 == min && min + n < U16
    ensures (base + n) % U16 == min + n
  {
  }
}
