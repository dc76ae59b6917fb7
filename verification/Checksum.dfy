/** packet_checksum (socks5udpf/utils/packet_checksum.h): the Internet checksum with deferred
    carry folding (sections 1 and 2 of RFC 1071, zero sent as all ones as in RFC 768) and
    Adler-32 (section 8.2 of RFC 1950).  16-bit words are read little-endian, as on the hosts
    the program runs on. */
module Checksum {
  import opened Bits

  const MOD: nat := 65535
  const ADLER: nat := 65521
  const U32: nat := 0x1_0000_0000

  // ----- what is computed

  /** The plain sum of the 16-bit words of a buffer, an odd last byte padded with zero. */
  function WordSum(s: seq<nat>): nat {
    if s == [] then 0
    else if |s| == 1 then s[0]
    else s[0] + 256 * s[1] + WordSum(s[2..])
  }

  /** The one's-complement sum a 16-bit accumulator with end-around carry ends with: the sum
      modulo 65535, with 0 standing only for an empty sum. */
  function OnesSum(x: nat): (r: nat)
    ensures r <= MOD && r % MOD == x % MOD && (r == 0 <==> x == 0)
  {
    if x == 0 then 0 else (x - 1) % MOD + 1
  }

  /** The checksum sent: the complement, with zero replaced by all ones. */
  function Sent(total: nat): (r: nat)
    ensures 1 <= r <= MOD
  {
    if OnesSum(total) == MOD then MOD else MOD - OnesSum(total)
  }

  // ----- folding

  /** Two sums no 16-bit end-around-carry accumulator can tell apart. */
  predicate Same(x: nat, y: nat) { x % MOD == y % MOD && (x == 0 <==> y == 0) }

  /** `(sum & 0xFFFF) + (sum >> 16)` */
  function Fold(x: nat): nat { x % 65536 + x / 65536 }

  lemma FoldIsSame(x: nat)
    ensures Same(Fold(x), x)
    ensures x >= 65536 ==> Fold(x) < x
    ensures x < U32 ==> Fold(x) < 131071
  {
    assert x == Fold(x) + MOD * (x / 65536);
    ModMultiple(Fold(x), x / 65536);
  }

  lemma ModMultiple(x: nat, k: nat)
    ensures (x + MOD * k) % MOD == x % MOD
  {
  }

  lemma SameAdds(x: nat, y: nat, z: nat)
    requires Same(x, y)
    ensures Same(x + z, y + z)
  {
    AddMod(x, z);
    AddMod(y, z);
  }

  lemma AddMod(x: nat, z: nat)
    ensures (x + z) % MOD == (x % MOD + z) % MOD
  {
    assert x + z == x % MOD + z + MOD * (x / MOD);
    ModMultiple(x % MOD + z, x / MOD);
  }

  /** The one's-complement sum is a function of what an accumulator can tell apart. */
  lemma SameOnesSum(x: nat, y: nat)
    requires Same(x, y)
    ensures OnesSum(x) == OnesSum(y)
  {
    if x > 0 {
      var a, b := OnesSum(x), OnesSum(y);
      assert 1 <= a <= MOD && 1 <= b <= MOD && a % MOD == b % MOD;
    }
  }

  lemma SmallOnesSum(x: nat)
    requires x < 65536
    ensures OnesSum(x) == x
  {
  }

  // ----- the loops

  lemma {:induction false} WordSumConcat(s: seq<nat>, t: seq<nat>)
    requires |s| % 2 == 0
    ensures WordSum(s + t) == WordSum(s) + WordSum(t)
  {
    if s == [] {
      assert s + t == t;
    } else {
      WordSumConcat(s[2..], t);
      assert (s + t)[2..] == s[2..] + t;
    }
  }

  lemma WordSumSnoc(s: seq<nat>, i: nat)
    requires 2 * i + 1 < |s|
    ensures WordSum(s[..2 * i + 2]) == WordSum(s[..2 * i]) + s[2 * i] + 256 * s[2 * i + 1]
  {
    var w := s[2 * i..2 * i + 2];
    assert s[..2 * i + 2] == s[..2 * i] + w;
    WordSumConcat(s[..2 * i], w);
    assert w[2..] == [] && WordSum(w[2..]) == 0;
  }

  /** checksum_core: sums `count` words, folding carries only when the top bit is reached.  The
      32-bit accumulator never overflows, and stays indistinguishable from the plain sum. */
  method ChecksumCore(data: seq<nat>, count: nat, pre: nat) returns (sum: nat)
    requires Bytes(data) && 2 * count <= |data| && pre < 0x8000_0000
    ensures sum < 0x8000_0000
    ensures Same(sum, pre + WordSum(data[..2 * count]))
  {
    sum := pre;
    var i := 0;
    while i < count
      invariant i <= count && sum < 0x8000_0000
      invariant Same(sum, pre + WordSum(data[..2 * i]))
    {
      var w := data[2 * i] + 256 * data[2 * i + 1];
      WordSumSnoc(data, i);
      SameAdds(sum, pre + WordSum(data[..2 * i]), w);
      assert sum + w < U32;    // no 32-bit overflow
      sum := sum + w;
      if sum >= 0x8000_0000 {
        FoldIsSame(sum);
        sum := Fold(sum);
      }
      i := i + 1;
    }
  }

  /** finalize_checksum: for every length, the checksum of RFC 1071 of what was summed before
      and the data; never zero. */
  method FinalizeChecksum(data: seq<nat>, pre: nat) returns (r: nat)
    requires Bytes(data) && pre < 0x8000_0000
    ensures r == Sent(pre + WordSum(data))
  {
    var sum := ChecksumCore(data, |data| / 2, pre);
    ghost var words := data[..2 * (|data| / 2)];
    if |data| % 2 != 0 {
      var last := data[|data| - 1];
      LastByte(data, words);
      SameAdds(sum, pre + WordSum(words), last);
      assert sum + last < U32;
      sum := sum + last;
    } else {
      assert words == data;
    }
    sum := FoldAll(sum);
    FoldedIsSent(sum, pre + WordSum(data));
    r := MOD - sum;
    if r == 0 { r := MOD; }
  }

  lemma LastByte(data: seq<nat>, words: seq<nat>)
    requires |data| % 2 != 0 && words == data[..2 * (|data| / 2)]
    ensures WordSum(data) == WordSum(words) + data[|data| - 1]
  {
    var last := [data[|data| - 1]];
    assert data == words + last;
    WordSumConcat(words, last);
  }

  lemma FoldedIsSent(sum: nat, total: nat)
    requires sum < 65536 && Same(sum, total)
    ensures Sent(total) == if sum == MOD then MOD else MOD - sum
  {
    SmallOnesSum(sum);
    SameOnesSum(sum, total);
  }

  /** The final loop folds until no carry is left. */
  method FoldAll(x: nat) returns (sum: nat)
    ensures sum < 65536 && Same(sum, x)
  {
    sum := x;
    while sum / 65536 != 0
      invariant Same(sum, x)
      decreases sum
    {
      FoldIsSame(sum);
      sum := Fold(sum);
    }
  }

  // ----- verification at the receiver

  /** A receiver that sums everything gets 0xFFFF exactly when the sum is 0 modulo 65535. */
  lemma VerifiesIff(total: nat)
    ensures Sent(total) == MOD <==> total % MOD == 0
  {
  }

  /** Filling a zeroed checksum with the value computed makes the whole verify. */
  lemma FilledVerifies(total: nat)
    ensures Sent(total + Sent(total)) == MOD
  {
    var s := OnesSum(total);
    AddMod(total, Sent(total));
    AddMod(s, Sent(total));
    assert (s + Sent(total)) % MOD == 0;
    VerifiesIff(total + Sent(total));
  }

  /** The bytes of a packet with a 16-bit word stored at an even offset. */
  function Store(s: seq<nat>, at: nat, w: nat): seq<nat>
    requires at + 1 < |s|
  {
    s[at := w % 256][at + 1 := w / 256]
  }

  lemma {:induction false} StoredWordSum(s: seq<nat>, at: nat, w: nat)
    requires at % 2 == 0 && at + 1 < |s| && s[at] == 0 && s[at + 1] == 0
    ensures WordSum(Store(s, at, w)) == WordSum(s) + w
  {
    var t := Store(s, at, w);
    if at == 0 {
      assert t[2..] == s[2..];
    } else {
      StoredWordSum(s[2..], at - 2, w);
      assert t[2..] == Store(s[2..], at - 2, w);
    }
  }

  /** A packet whose zeroed 16-bit checksum field, at an even offset, is filled with the
      checksum of the whole, verifies at the receiver; whatever was summed before it. */
  lemma ChecksumRoundTrip(s: seq<nat>, at: nat, pre: nat)
    requires at % 2 == 0 && at + 1 < |s| && s[at] == 0 && s[at + 1] == 0
    ensures Sent(pre + WordSum(Store(s, at, Sent(pre + WordSum(s))))) == MOD
  {
    StoredWordSum(s, at, Sent(pre + WordSum(s)));
    FilledVerifies(pre + WordSum(s));
  }

  // ----- headers and payloads

  /** compute_icmp_v4_checksum: header and payload as one, if the header's length is even; an
      odd header loses its last byte. */
  method IcmpV4Checksum(header: seq<nat>, payload: seq<nat>) returns (r: nat)
    requires Bytes(header) && Bytes(payload)
    ensures r == Sent(WordSum(header[..2 * (|header| / 2)] + payload))
    ensures |header| % 2 == 0 ==> r == Sent(WordSum(header + payload))
  {
    var even := 2 * (|header| / 2);
    var sum := ChecksumCore(header, |header| / 2, 0);
    r := FinalizeChecksum(payload, sum);
    WordSumConcat(header[..even], payload);
    SameAdds(sum, WordSum(header[..even]), WordSum(payload));
    SameOnesSum(sum + WordSum(payload), WordSum(header[..even]) + WordSum(payload));
    assert |header| % 2 == 0 ==> header[..even] == header;
  }

  /** One more even-length part of a checksum summed piece by piece. */
  method AddPart(part: seq<nat>, sum: nat, ghost before: seq<nat>) returns (r: nat)
    requires Bytes(part) && |part| % 2 == 0 && |before| % 2 == 0
    requires sum < 0x8000_0000 && Same(sum, WordSum(before))
    ensures r < 0x8000_0000 && Same(r, WordSum(before + part))
  {
    r := ChecksumCore(part, |part| / 2, sum);
    assert part[..2 * (|part| / 2)] == part;
    SameAdds(sum, WordSum(before), WordSum(part));
    WordSumConcat(before, part);
  }

  /** The pseudo-header of RFC 768: addresses, zero and protocol, length in network order. */
  method PseudoHeaderV4(src: seq<nat>, dst: seq<nat>, protocol: nat, len: nat) returns (sum: nat)
    requires Bytes(src) && Bytes(dst) && |src| == |dst| == 4 && protocol < 256
    ensures sum < 0x8000_0000 && Same(sum, WordSum(src + dst + [0, protocol, len % 65536 / 256, len % 256]))
  {
    sum := AddPart(src, 0, []);
    assert [] + src == src;
    sum := AddPart(dst, sum, src);
    sum := AddPart([0, protocol], sum, src + dst);
    sum := AddPart([len % 65536 / 256, len % 256], sum, src + dst + [0, protocol]);
    assert src + dst + [0, protocol] + [len % 65536 / 256, len % 256] == src + dst + [0, protocol, len % 65536 / 256, len % 256];
  }

  /** The pseudo-header of section 8.1 of RFC 8200: addresses, 32-bit length, next header. */
  method PseudoHeaderV6(src: seq<nat>, dst: seq<nat>, protocol: nat, len: nat) returns (sum: nat)
    requires Bytes(src) && Bytes(dst) && |src| == |dst| == 16 && protocol < 256
    ensures sum < 0x8000_0000 && Same(sum, WordSum(
      src + dst + [len % 0x1_0000_0000 / 0x100_0000, len % 0x100_0000 / 65536, len % 65536 / 256, len % 256] + [0, 0, 0, protocol]))
  {
    var l := [len % U32 / 0x100_0000, len % 0x100_0000 / 65536, len % 65536 / 256, len % 256];
    sum := AddPart(src, 0, []);
    assert [] + src == src;
    sum := AddPart(dst, sum, src);
    sum := AddPart(l, sum, src + dst);
    sum := AddPart([0, 0, 0, protocol], sum, src + dst + l);
  }

  /** compute_transport_checksum: the checksum of pseudo-header, header and payload in one
      buffer, if the header's length is even. */
  method TransportChecksum(header: seq<nat>, payload: seq<nat>, src: seq<nat>, dst: seq<nat>, protocol: nat, v6: bool)
      returns (r: nat)
    requires Bytes(header) && Bytes(payload) && Bytes(src) && Bytes(dst) && protocol < 256
    requires |src| == |dst| == if v6 then 16 else 4
    ensures var len := |header| + |payload|;
      var pseudo := if v6
        then src + dst + [len % 0x1_0000_0000 / 0x100_0000, len % 0x100_0000 / 65536, len % 65536 / 256, len % 256] + [0, 0, 0, protocol]
        else src + dst + [0, protocol, len % 65536 / 256, len % 256];
      && r == Sent(WordSum(pseudo + header[..2 * (|header| / 2)] + payload))
      && (|header| % 2 == 0 ==> r == Sent(WordSum(pseudo + header + payload)))
  {
    var len := |header| + |payload|;
    ghost var pseudo := if v6
      then src + dst + [len % U32 / 0x100_0000, len % 0x100_0000 / 65536, len % 65536 / 256, len % 256] + [0, 0, 0, protocol]
      else src + dst + [0, protocol, len % 65536 / 256, len % 256];
    var sum;
    if v6 { sum := PseudoHeaderV6(src, dst, protocol, len); } else { sum := PseudoHeaderV4(src, dst, protocol, len); }
    var even := header[..2 * (|header| / 2)];
    r := SumParts(even, payload, sum, pseudo);
    assert |header| % 2 == 0 ==> even == header;
  }

  /** Two parts behind one already summed. */
  method SumParts(part: seq<nat>, rest: seq<nat>, sum: nat, ghost before: seq<nat>) returns (r: nat)
    requires Bytes(part) && Bytes(rest) && |part| % 2 == 0 && |before| % 2 == 0
    requires sum < 0x8000_0000 && Same(sum, WordSum(before))
    ensures r == Sent(WordSum(before + part + rest))
  {
    var s := AddPart(part, sum, before);
    r := FinalizeChecksum(rest, s);
    WordSumConcat(before + part, rest);
    SameAdds(s, WordSum(before + part), WordSum(rest));
    SameOnesSum(s + WordSum(rest), WordSum(before + part) + WordSum(rest));
  }

  // ----- headers of odd length

  /** Two sums give the same checksum exactly when they agree modulo 65535. */
  lemma SentSame(x: nat, y: nat)
    ensures Sent(x) == Sent(y) <==> x % MOD == y % MOD
  {
    var a, b := OnesSum(x), OnesSum(y);
    assert a % MOD == x % MOD && b % MOD == y % MOD;
  }

  /** A byte in front shifts all the others to the other half of their words: modulo 65535 that
      multiplies the sum by 256. */
  lemma {:induction false} ShiftedWordSum(x: nat, p: seq<nat>)
    ensures WordSum([x] + p) % MOD == (x + 256 * WordSum(p)) % MOD
    decreases |p|
  {
    if |p| <= 1 {
      if |p| == 1 { assert ([x] + p)[2..] == []; }
    } else {
      var s := [x] + p;
      assert s[2..] == [p[1]] + p[2..];
      ShiftedWordSum(p[1], p[2..]);
      var rest := WordSum(p[2..]);
      assert WordSum(s) == x + 256 * p[0] + WordSum(s[2..]);
      assert 256 * WordSum(p) == 256 * p[0] + 65536 * p[1] + 256 * rest;
      ModCarry(x + 256 * p[0], WordSum(s[2..]), p[1] + 256 * rest, p[1]);
    }
  }

  lemma ModCarry(a: nat, b: nat, c: nat, k: nat)
    requires b % MOD == c % MOD
    ensures (a + b) % MOD == (a + c + MOD * k) % MOD
  {
    AddMod(b, a);
    AddMod(c, a);
    ModMultiple(a + c, k);
  }

  /** The exact condition under which a header of odd length, `even` with one byte x more, does
      no harm: the sum the code takes and the sum of the bytes in one buffer give the same
      checksum if and only if x plus 255 times the payload's sum is 0 modulo 65535. */
  lemma OddHeaderExactly(before: seq<nat>, even: seq<nat>, x: nat, payload: seq<nat>, taken: nat, whole: nat, p: nat)
    requires |before| % 2 == 0 && |even| % 2 == 0 && p == WordSum(payload)
    requires taken == WordSum(before + even + payload) && whole == WordSum(before + (even + [x]) + payload)
    ensures Sent(taken) == Sent(whole) <==> (x + 255 * p) % MOD == 0
  {
    var e, q := OddWordSums(before, even, x, payload);
    OddSums(taken, whole, e, p, q, x);
  }

  lemma OddWordSums(before: seq<nat>, even: seq<nat>, x: nat, payload: seq<nat>) returns (e: nat, q: nat)
    requires |before| % 2 == 0 && |even| % 2 == 0
    ensures WordSum(before + even + payload) == e + WordSum(payload)
    ensures WordSum(before + (even + [x]) + payload) == e + q
    ensures q % MOD == (x + 256 * WordSum(payload)) % MOD
  {
    assert before + (even + [x]) + payload == (before + even) + ([x] + payload);
    WordSumConcat(before + even, payload);
    WordSumConcat(before + even, [x] + payload);
    ShiftedWordSum(x, payload);
    e, q := WordSum(before + even), WordSum([x] + payload);
  }

  lemma OddSums(a: nat, b: nat, e: nat, p: nat, q: nat, x: nat)
    requires a == e + p && b == e + q && q % MOD == (x + 256 * p) % MOD
    ensures Sent(a) == Sent(b) <==> (x + 255 * p) % MOD == 0
  {
    SentSame(a, b);
    CancelSum(e, p, q, x);
  }

  lemma CancelSum(e: nat, p: nat, q: nat, x: nat)
    requires q % MOD == (x + 256 * p) % MOD
    ensures (e + p) % MOD == (e + q) % MOD <==> (x + 255 * p) % MOD == 0
  {
    var k := q / MOD - (x + 256 * p) / MOD;
    assert q == x + 256 * p + MOD * k;
    assert (e + q) - (e + p) == x + 255 * p + MOD * k;
    DifferenceMod(e + p, e + q);
    ModShift(x + 255 * p, k);
  }

  lemma DifferenceMod(a: nat, b: nat)
    ensures a % MOD == b % MOD <==> (b - a) % MOD == 0
  {
  }

  lemma ModShift(a: int, k: int)
    ensures (a + MOD * k) % MOD == a % MOD
  {
  }

  /** Such a header: its byte is not checksummed at all. */
  lemma OddHeaderLosesByte()
    ensures Sent(WordSum([1][..0])) != Sent(WordSum([1]))
  {
    assert [1][..0] == [];
  }

  // ----- Adler-32

  /** d1 + d2 + ... + dn */
  function ByteSum(s: seq<nat>): nat { if s == [] then 0 else s[0] + ByteSum(s[1..]) }

  /** n * d1 + (n - 1) * d2 + ... + dn */
  function Weighted(s: seq<nat>): nat { if s == [] then 0 else |s| * s[0] + Weighted(s[1..]) }

  /** The closed form of section 8.2 of RFC 1950, continued from a previous value. */
  function AdlerOf(s: seq<nat>, pre: nat): nat {
    if s == [] then pre
    else
      var a, b := pre % 65536, pre / 65536 % 65536;
      (b + |s| * a + Weighted(s)) % ADLER * 65536 + (a + ByteSum(s)) % ADLER
  }

  lemma {:induction false} ByteSumConcat(s: seq<nat>, t: seq<nat>)
    ensures ByteSum(s + t) == ByteSum(s) + ByteSum(t)
  {
    if s == [] {
      assert s + t == t;
    } else {
      ByteSumConcat(s[1..], t);
      assert (s + t)[1..] == s[1..] + t;
    }
  }

  lemma {:induction false} WeightedConcat(s: seq<nat>, t: seq<nat>)
    ensures Weighted(s + t) == Weighted(s) + |t| * ByteSum(s) + Weighted(t)
  {
    if s == [] {
      assert s + t == t;
    } else {
      WeightedConcat(s[1..], t);
      assert (s + t)[1..] == s[1..] + t;
      WeightedHead(s + t, |s| + |t|, s[0], Weighted(s[1..] + t));
      WeightedHead(s, |s|, s[0], Weighted(s[1..]));
      WeightedStep(|s|, |t|, s[0], ByteSum(s[1..]), Weighted(s[1..]), Weighted(t));
    }
  }

  lemma WeightedHead(s: seq<nat>, n: nat, x: nat, w: nat)
    requires |s| == n > 0 && s[0] == x && w == Weighted(s[1..])
    ensures Weighted(s) == n * x + w
  {
  }

  lemma WeightedStep(m: nat, n: nat, h: nat, x: nat, v: nat, w: nat)
    ensures (m + n) * h + (v + n * x + w) == m * h + v + n * (h + x) + w
  {
    Distribute(m, n, h, x);
  }

  lemma Distribute(m: nat, n: nat, a: nat, x: nat)
    ensures (m + n) * a == m * a + n * a && n * (a + x) == n * a + n * x
  {
  }

  lemma ModAdler(x: nat, k: nat)
    ensures (x + ADLER * k) % ADLER == x % ADLER
  {
  }

  lemma AddModAdler(x: nat, z: nat)
    ensures (x % ADLER + z) % ADLER == (x + z) % ADLER
  {
    assert x + z == x % ADLER + z + ADLER * (x / ADLER);
    ModAdler(x % ADLER + z, x / ADLER);
  }

  /** adler32: the loop computes the weighted-sum closed form. */
  method Adler32(data: seq<nat>, pre: nat) returns (r: nat)
    requires Bytes(data) && pre < U32
    ensures r == AdlerOf(data, pre)
  {
    if data == [] { return pre; }
    var a, b := pre % 65536, pre / 65536 % 65536;
    ghost var a0, b0 := a, b;
    var i := 0;
    while i < |data|
      invariant i <= |data|
      invariant i == 0 ==> a == a0 && b == b0
      invariant i > 0 ==> a == (a0 + ByteSum(data[..i])) % ADLER && b == (b0 + i * a0 + Weighted(data[..i])) % ADLER
    {
      AdlerStep(data, i, a0, b0, a, b);
      a := (a + data[i]) % ADLER;
      b := (b + a) % ADLER;
      i := i + 1;
    }
    assert data[..i] == data;
    r := b * 65536 + a;
  }

  lemma AdlerStep(data: seq<nat>, i: nat, a0: nat, b0: nat, a: nat, b: nat)
    requires i < |data|
    requires i == 0 ==> a == a0 && b == b0
    requires i > 0 ==> a == (a0 + ByteSum(data[..i])) % ADLER && b == (b0 + i * a0 + Weighted(data[..i])) % ADLER
    ensures var a' := (a + data[i]) % ADLER;
      && a' == (a0 + ByteSum(data[..i + 1])) % ADLER
      && (b + a') % ADLER == (b0 + (i + 1) * a0 + Weighted(data[..i + 1])) % ADLER
  {
    var p, x := data[..i], data[i];
    var A, B := a0 + ByteSum(p), HighSum(p, a0, b0);
    NextSums(data, i, a0, b0);
    SumsStep(A, B, x, a, b);
  }

  lemma NextSums(data: seq<nat>, i: nat, a0: nat, b0: nat)
    requires i < |data|
    ensures var A, B := a0 + ByteSum(data[..i]), b0 + i * a0 + Weighted(data[..i]);
      && a0 + ByteSum(data[..i + 1]) == A + data[i]
      && b0 + (i + 1) * a0 + Weighted(data[..i + 1]) == B + (A + data[i])
    ensures i == 0 ==> ByteSum(data[..i]) == 0 && Weighted(data[..i]) == 0
  {
    var p, x := data[..i], data[i];
    assert data[..i + 1] == p + [x];
    ByteSumConcat(p, [x]);
    WeightedConcat(p, [x]);
    assert [x][1..] == [];
    assert (i + 1) * a0 == i * a0 + a0;
  }

  lemma SumsStep(A: nat, B: nat, x: nat, a: nat, b: nat)
    requires (a == A || a == A % ADLER) && (b == B || b == B % ADLER)
    ensures (a + x) % ADLER == (A + x) % ADLER
    ensures (b + (a + x) % ADLER) % ADLER == (B + (A + x)) % ADLER
  {
    AddModAdler(A, x);
    AddModAdler(A + x, b);
    AddModAdler(B, A + x);
  }

  /** Given a valid initial value, both halves of a result are below 65521. */
  lemma AdlerHalves(s: seq<nat>, pre: nat)
    requires pre < U32 && (s == [] ==> pre % 65536 < 65521 && pre / 65536 < 65521)
    ensures AdlerOf(s, pre) % 65536 < 65521 && AdlerOf(s, pre) / 65536 < 65521
  {
  }

  /** One byte at a time, as section 8.2 of RFC 1950 defines it: the low half adds the byte, the
      high half adds the low half. */
  lemma AdlerByByte(s: seq<nat>, x: nat, pre: nat)
    requires pre < U32
    ensures var v, w := AdlerOf(s, pre), AdlerOf(s + [x], pre);
      && w % 65536 == (v % 65536 + x) % 65521
      && w / 65536 == (v / 65536 + w % 65536) % 65521
  {
    AdlerStreams(s, [x], pre);
    var v := AdlerOf(s, pre);
    assert v < U32;
    ByteAfter(v, x);
  }

  lemma ByteAfter(v: nat, x: nat)
    requires v < U32
    ensures var w := AdlerOf([x], v);
      && w % 65536 == (v % 65536 + x) % 65521
      && w / 65536 == (v / 65536 + w % 65536) % 65521
  {
    var a, b := v % 65536, v / 65536;
    assert [x][1..] == [] && ByteSum([x]) == x && Weighted([x]) == x && |[x]| * a == a;
    assert AdlerOf([x], v) == (b + a + x) % ADLER * 65536 + (a + x) % ADLER;
    AddModAdler(a + x, b);
  }

  /** The high half's sum, before reduction. */
  function HighSum(s: seq<nat>, a: nat, b: nat): nat { b + |s| * a + Weighted(s) }

  lemma HighSumConcat(s: seq<nat>, t: seq<nat>, a: nat, b: nat)
    ensures HighSum(s + t, a, b) == HighSum(s, a, b) + |t| * (a + ByteSum(s)) + Weighted(t)
  {
    WeightedConcat(s, t);
    HighSumsJoin(s, s + t, |s|, |t|, a, b, ByteSum(s), Weighted(s), Weighted(t));
  }

  lemma HighSumsJoin(s: seq<nat>, u: seq<nat>, m: nat, n: nat, a: nat, b: nat, x: nat, v: nat, w: nat)
    requires |s| == m && |u| == m + n && Weighted(s) == v && Weighted(u) == v + n * x + w
    ensures HighSum(u, a, b) == HighSum(s, a, b) + n * (a + x) + w
  {
    HighSumIs(s, m, a, b, v);
    HighSumIs(u, m + n, a, b, v + n * x + w);
    JoinSums(m, n, a, b, x, v, w);
  }

  lemma HighSumIs(s: seq<nat>, n: nat, a: nat, b: nat, w: nat)
    requires |s| == n && Weighted(s) == w
    ensures HighSum(s, a, b) == b + n * a + w
  {
  }

  lemma JoinSums(m: nat, n: nat, a: nat, b: nat, x: nat, v: nat, w: nat)
    ensures b + (m + n) * a + (v + n * x + w) == b + m * a + v + n * (a + x) + w
  {
    Distribute(m, n, a, x);
  }

  lemma Halves(s: seq<nat>, pre: nat)
    requires s != []
    ensures var a, b := pre % 65536, pre / 65536 % 65536;
      && AdlerOf(s, pre) % 65536 == (a + ByteSum(s)) % ADLER
      && AdlerOf(s, pre) / 65536 % 65536 == HighSum(s, a, b) % ADLER
      && AdlerOf(s, pre) == HighSum(s, a, b) % ADLER * 65536 + (a + ByteSum(s)) % ADLER
  {
  }

  /** Streaming: chained calls equal one call on the concatenation. */
  lemma AdlerStreams(s: seq<nat>, t: seq<nat>, pre: nat)
    requires pre < U32
    ensures AdlerOf(t, AdlerOf(s, pre)) == AdlerOf(s + t, pre)
  {
    if s == [] {
      assert s + t == t;
    } else if t == [] {
      assert s + t == s;
    } else {
      var a, b := pre % 65536, pre / 65536 % 65536;
      Halves(s, pre);
      Halves(s + t, pre);
      Halves(t, AdlerOf(s, pre));
      StreamHalves(s, t, a, b);
    }
  }

  lemma StreamHalves(s: seq<nat>, t: seq<nat>, a: nat, b: nat)
    ensures var a', b' := (a + ByteSum(s)) % ADLER, HighSum(s, a, b) % ADLER;
      && (a' + ByteSum(t)) % ADLER == (a + ByteSum(s + t)) % ADLER
      && HighSum(t, a', b') % ADLER == HighSum(s + t, a, b) % ADLER
  {
    ByteSumConcat(s, t);
    AddModAdler(a + ByteSum(s), ByteSum(t));
    HighSumConcat(s, t, a, b);
    MulModAdler(a + ByteSum(s), HighSum(s, a, b), |t|, Weighted(t));
  }

  lemma MulModAdler(A: nat, B: nat, n: nat, z: nat)
    ensures (B % ADLER + n * (A % ADLER) + z) % ADLER == (B + n * A + z) % ADLER
  {
    var k := B / ADLER + n * (A / ADLER);
    assert n * A == n * (A % ADLER) + ADLER * (n * (A / ADLER)) by {
      assert A == A % ADLER + ADLER * (A / ADLER);
    }
    assert B + n * A + z == B % ADLER + n * (A % ADLER) + z + ADLER * k;
    ModAdler(B % ADLER + n * (A % ADLER) + z, k);
  }
}
