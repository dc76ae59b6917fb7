/** What the retransmission list of GtpArq (src/arq/goodtp_arq.cpp) holds and how feedback
    and timers judge its nodes, on plain sequences of nodes. */
module ArqModel {
  import opened Bits
  import opened PacketPool
  import Bags

  const U64: nat := 0x1_0000_0000_0000_0000
  const MAX_BOOST_TIMES_PER_ONCE: nat := 7
  const DEFAULT_BOOST_TIMES: nat := 3

  /** An ArqNode without its links.  `buf` is the buffer pack_ points into; `sends` counts the
      retransmissions of the node's whole life and exists only for the proofs. */
  datatype Node = Node(
    buf: Buf, packLen: nat, packSn: nat, firstSn: nat, lastSend: nat,
    retran: nat, threshold: nat,
    tryAgain: bool, boost: bool, failedAck: bool, hasBoost: bool,
    sends: nat)

  /** The limits in force: max_retran_times_, SUPPORT_RELIABLE_TRAN, SLID_WIN_SIZE. */
  datatype Limits = Limits(maxRetran: nat, reliable: bool, window: nat)

  /** What one retransmission did: the clock it read, the new sequence number and length, and
      what encoding the frame for FEC asked of the packet pool. */
  datatype Sent = Sent(ts: nat, sn: nat, len: nat, fec: seq<Draw>)

  /** JudgeExhautResendNum */
  predicate Exhausted(n: Node, maxRetran: nat) {
    (if n.boost then n.threshold else maxRetran) <= n.retran
  }

  /** PackRetransmit (src/session/goodtp_session.cpp): stamp, count, renumber. */
  function Resent(n: Node, s: Sent): Node {
    n.(lastSend := s.ts, retran := (n.retran + 1) % 256, packSn := s.sn, packLen := s.len, sends := n.sends + 1)
  }

  function Bufs(s: seq<Node>): (b: seq<Buf>)
    ensures |b| == |s|
  {
    seq(|s|, i requires 0 <= i < |s| => s[i].buf)
  }

  lemma BufsConcat(s: seq<Node>, t: seq<Node>)
    ensures Bufs(s + t) == Bufs(s) + Bufs(t)
  {
  }

  // ----- feedback

  /** An acknowledgement bitmap, read in 64- or 32-bit words, or a list of missing offsets. */
  datatype Feedback =
    | AckMap(bytes: seq<nat>, wide: bool, head: nat, tail: nat, rto: nat)
    | NackNone(head: nat, rto: nat)
    | NackSome(offsets: seq<nat>, head: nat, rto: nat)

  /** Distance from the head, with 2^32 - 1 as the wrap-around modulus as in the code. */
  function Span(head: nat, sn: nat): nat
    requires head < U32
  {
    if head <= sn then sn - head else sn + (0xFFFF_FFFF - head)
  }

  predicate WellFormed(fb: Feedback) {
    && fb.head < U32 && fb.rto < U32
    && (fb.AckMap? ==>
          && fb.tail < U32 && Bytes(fb.bytes)
          && (if fb.wide then 8 * (Span(fb.head, fb.tail) / 64 + 1) else 4 * (Span(fb.head, fb.tail) / 32 + 1)) <= |fb.bytes|)
  }

  /** The bitmap bit of a span, tested in the word the code loads. */
  predicate AckedIn64(bytes: seq<nat>, span: nat)
    requires 8 * (span / 64) + 8 <= |bytes|
  {
    Bit(LittleEndian(bytes[8 * (span / 64)..8 * (span / 64) + 8]), span % 64)
  }

  predicate AckedIn32(bytes: seq<nat>, span: nat)
    requires 4 * (span / 32) + 4 <= |bytes|
  {
    Bit(LittleEndian(bytes[4 * (span / 32)..4 * (span / 32) + 4]), span % 32)
  }

  /** CheckCurSnIsDiscard; head_sn + offset wraps at 32 bits. */
  predicate Discarded(head: nat, offsets: seq<nat>, sn: nat) {
    exists i :: 0 <= i < |offsets| && sn == (head + offsets[i]) % U32
  }

  datatype Verdict = Stop | Keep | Quick | Retire

  /** Beyond the range: stop inside the window, resend far outside it. */
  function Beyond(window: nat, span: nat): Verdict {
    if window >= span then Stop else Quick
  }

  /** What the walk over the list decides for a sequence number. */
  function Judge(fb: Feedback, window: nat, sn: nat): Verdict
    requires WellFormed(fb)
  {
    var span := Span(fb.head, sn);
    var rto := Span(fb.head, fb.rto);
    match fb
    case AckMap(bytes, wide, head, tail, _) =>
      if Span(head, tail) < span then Beyond(window, span)
      else if if wide then AckedIn64(bytes, span) else AckedIn32(bytes, span) then Retire
      else if rto >= span then Quick
      else Keep
    case NackNone(_, _) =>
      if rto < span then Beyond(window, span) else Retire
    case NackSome(offsets, head, _) =>
      if rto < span then Beyond(window, span)
      else if Discarded(head, offsets, sn) then Quick
      else Retire
  }

  /** What happens to a node: a quick resend of an exhausted node marks it failed instead, and
      without reliable transport retires it. */
  datatype Act = Halt | Pass(n: Node) | Send | Drop(n: Node)

  function ActOn(fb: Feedback, lim: Limits, n: Node): Act
    requires WellFormed(fb)
  {
    match Judge(fb, lim.window, n.packSn)
    case Stop => Halt
    case Keep => Pass(n)
    case Retire => Drop(n)
    case Quick =>
      if !Exhausted(n, lim.maxRetran) then Send
      else if lim.reliable then Pass(n.(failedAck := true))
      else Drop(n.(failedAck := true))
  }

  // ----- the walk

  /** The walk's state: the list is done + todo, with the cursor at the head of todo. */
  datatype Walk = Walk(done: seq<Node>, todo: seq<Node>, retired: seq<Node>, sent: seq<Node>)

  /** Retransmissions the nodes ahead can still take, plus their number. */
  function Budget(todo: seq<Node>, maxRetran: nat): nat {
    if todo == [] then 0 else Budget(todo[..|todo| - 1], maxRetran) + Allowance(todo[|todo| - 1], maxRetran)
  }

  function Allowance(n: Node, maxRetran: nat): nat {
    if Exhausted(n, maxRetran) then 1
    else 1 + (if n.boost then n.threshold else maxRetran) - n.retran
  }

  lemma {:induction false} BudgetHead(todo: seq<Node>, maxRetran: nat)
    requires todo != []
    ensures Budget(todo, maxRetran) == Allowance(todo[0], maxRetran) + Budget(todo[1..], maxRetran)
  {
    var n := |todo| - 1;
    if n > 0 {
      BudgetHead(todo[..n], maxRetran);
      assert todo[..n][1..] == todo[1..][..n - 1];
    }
  }

  /** Node counters fit the u8 fields they live in. */
  predicate SmallCounters(n: Node) { n.retran < 256 && n.threshold < 256 }

  ghost predicate AllSmall(s: seq<Node>) {
    forall i :: 0 <= i < |s| ==> SmallCounters(s[i])
  }

  /** Resending moves a node behind the cursor's rest but spends some of its allowance. */
  lemma SendSpends(todo: seq<Node>, maxRetran: nat, s: Sent)
    requires todo != [] && !Exhausted(todo[0], maxRetran) && SmallCounters(todo[0]) && maxRetran < 256
    ensures Budget(todo[1..] + [Resent(todo[0], s)], maxRetran) < Budget(todo, maxRetran)
  {
    BudgetHead(todo, maxRetran);
    BudgetSnoc(todo[1..], Resent(todo[0], s), maxRetran);
    ResentAllowance(todo[0], maxRetran, s);
  }

  lemma ResentAllowance(n: Node, maxRetran: nat, s: Sent)
    requires !Exhausted(n, maxRetran) && SmallCounters(n) && maxRetran < 256
    ensures Allowance(Resent(n, s), maxRetran) < Allowance(n, maxRetran)
  {
    assert Resent(n, s).retran == n.retran + 1;
  }

  lemma BudgetSnoc(todo: seq<Node>, n: Node, maxRetran: nat)
    ensures Budget(todo + [n], maxRetran) == Budget(todo, maxRetran) + Allowance(n, maxRetran)
  {
    assert (todo + [n])[..|todo|] == todo;
  }

  /** All a visit does to its node besides resending it is to set the failed mark. */
  predicate Lawful(act: Act, n: Node, maxRetran: nat) {
    match act
    case Halt => true
    case Send => !Exhausted(n, maxRetran)
    case Pass(m) => m == n || m == n.(failedAck := true)
    case Drop(m) => m == n || m == n.(failedAck := true)
  }

  lemma ActIsLawful(fb: Feedback, lim: Limits, n: Node)
    requires WellFormed(fb)
    ensures Lawful(ActOn(fb, lim, n), n, lim.maxRetran)
  {
  }

  /** One visit: the cursor's node stays, leaves, or is resent and re-appended.  The last node
      is resent without being visited again, because its successor was read before. */
  function Visit(w: Walk, act: Act, s: Sent): (w': Walk)
    requires w.todo != []
  {
    var n, rest := w.todo[0], w.todo[1..];
    match act
    case Halt => w
    case Pass(m) => w.(done := w.done + [m], todo := rest)
    case Drop(m) => w.(todo := rest, retired := w.retired + [m])
    case Send =>
      var m := Resent(n, s);
      if rest == [] then w.(done := w.done + [m], todo := [], sent := w.sent + [m])
      else w.(todo := rest + [m], sent := w.sent + [m])
  }

  predicate Finished(w: Walk, fb: Feedback, lim: Limits)
    requires WellFormed(fb)
  {
    w.todo == [] || ActOn(fb, lim, w.todo[0]).Halt?
  }

  lemma VisitProgress(w: Walk, act: Act, maxRetran: nat, s: Sent)
    requires maxRetran < 256 && w.todo != [] && AllSmall(w.todo) && !act.Halt? && Lawful(act, w.todo[0], maxRetran)
    ensures AllSmall(Visit(w, act, s).todo)
    ensures Budget(Visit(w, act, s).todo, maxRetran) < Budget(w.todo, maxRetran)
  {
    BudgetHead(w.todo, maxRetran);
    if act.Send? { SendSpends(w.todo, maxRetran, s); }
  }

  /** The whole walk.  It ends although it re-appends nodes to the list it is walking. */
  function RunWalk(w: Walk, fb: Feedback, lim: Limits, env: nat -> Sent): (r: Walk)
    requires WellFormed(fb) && lim.maxRetran < 256 && AllSmall(w.todo)
    ensures Finished(r, fb, lim)
    decreases Budget(w.todo, lim.maxRetran)
  {
    if Finished(w, fb, lim) then w
    else
      var act := ActOn(fb, lim, w.todo[0]);
      ActIsLawful(fb, lim, w.todo[0]);
      VisitProgress(w, act, lim.maxRetran, env(|w.sent|));
      RunWalk(Visit(w, act, env(|w.sent|)), fb, lim, env)
  }
}
