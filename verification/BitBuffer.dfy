/** The byte-buffer bit helpers of socks5udpf/src/buf_operation.h, on buffers of any size. */
module BitBuffer {
  import opened Bits
  import Arithmetic

  /** get_buf_bit */
  predicate BitAt(s: seq<nat>, p: nat)
    requires p / 8 < |s|
  {
    Bit(s[p / 8], p % 8)
  }

  /** Apart from bit q, which is now v, the buffers have the same bits. */
  ghost predicate OnlyBit(s: seq<nat>, t: seq<nat>, q: nat, v: bool) {
    && |t| == |s| && q / 8 < |s|
    && forall p :: 0 <= p < 8 * |s| ==> BitAt(t, p) == if p == q then v else BitAt(s, p)
  }

  lemma SetOne(s: seq<nat>, q: nat)
    requires q / 8 < |s| && Bytes(s)
    ensures Bytes(s[q / 8 := Or(s[q / 8], Pow2(q % 8))])
    ensures OnlyBit(s, s[q / 8 := Or(s[q / 8], Pow2(q % 8))], q, true)
  {
    var t := s[q / 8 := Or(s[q / 8], Pow2(q % 8))];
    assert Pow2(8) == 256;
    Pow2Monotone(q % 8, 8);
    OrBelow(s[q / 8], Pow2(q % 8), 8);
    forall p | 0 <= p < 8 * |s| ensures BitAt(t, p) == (p == q || BitAt(s, p)) {
      BitSet(s[q / 8], q % 8, p % 8);
    }
  }

  lemma ClearOne(s: seq<nat>, q: nat)
    requires q / 8 < |s| && Bytes(s)
    ensures Bytes(s[q / 8 := AndNot(s[q / 8], Pow2(q % 8))])
    ensures OnlyBit(s, s[q / 8 := AndNot(s[q / 8], Pow2(q % 8))], q, false)
  {
    var t := s[q / 8 := AndNot(s[q / 8], Pow2(q % 8))];
    AndNotBelow(s[q / 8], Pow2(q % 8));
    forall p | 0 <= p < 8 * |s| ensures BitAt(t, p) == (p != q && BitAt(s, p)) {
      BitClear(s[q / 8], q % 8, p % 8);
    }
  }

  /** The bit the helpers address: byte (pos >> 3) % size, bit pos & 7. */
  function BitPos(pos: nat, size: nat): (q: nat)
    requires size > 0
    ensures q / 8 == (pos / 8) % size && q % 8 == pos % 8
    ensures pos < 8 * size ==> q == pos
  {
    8 * ((pos / 8) % size) + pos % 8
  }

  /** Positions wrap around at the end of the buffer. */
  lemma PositionsWrap(pos: nat, size: nat)
    requires size > 0
    ensures BitPos(pos + 8 * size, size) == BitPos(pos, size) < 8 * size
  {
    assert (pos + 8 * size) / 8 == pos / 8 + size;
    Arithmetic.AddModulus(pos / 8, size);
  }

  /** set_buf_bit */
  method SetBufBit(buf: array<nat>, pos: nat)
    requires buf.Length > 0 && Bytes(buf[..])
    modifies buf
    ensures Bytes(buf[..]) && OnlyBit(old(buf[..]), buf[..], BitPos(pos, buf.Length), true)
  {
    ghost var s := buf[..];
    var i, b := (pos / 8) % buf.Length, pos % 8;
    SetOne(s, BitPos(pos, buf.Length));
    buf[i] := Or(buf[i], Pow2(b));
    assert buf[..] == s[i := Or(s[i], Pow2(b))];
  }

  /** clr_buf_bit */
  method ClrBufBit(buf: array<nat>, pos: nat)
    requires buf.Length > 0 && Bytes(buf[..])
    modifies buf
    ensures Bytes(buf[..]) && OnlyBit(old(buf[..]), buf[..], BitPos(pos, buf.Length), false)
  {
    ghost var s := buf[..];
    var i, b := (pos / 8) % buf.Length, pos % 8;
    ClearOne(s, BitPos(pos, buf.Length));
    buf[i] := AndNot(buf[i], Pow2(b));
    assert buf[..] == s[i := AndNot(s[i], Pow2(b))];
  }
}
