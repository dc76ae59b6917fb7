/** The FEC encoder as a holder of packet buffers (src/fec2/goodtp_fec2.cpp): every frame sent,
    retransmissions included, may make it take, share and give up buffers of the pool. */
module Encoder {
  import opened SizeClasses
  import opened PacketPool
  import Bags

  class FecEncoder {
    const packs: TranMemPool
    var held: multiset<Buf>     // the references of the encoding matrices

    ghost predicate Apart() { this !in packs.Repr }

    constructor (pool: TranMemPool)
      ensures packs == pool && held == multiset{}
    {
      packs, held := pool, multiset{};
    }

    /** What one request does to the encoder's references, when everybody else's are `ext`: a
        buffer nobody holds is taken unless none is free; one in use is shared unless its count is
        at its limit; one the encoder holds is given up. */
    ghost predicate Drawn(d: Draw, before: multiset<Buf>, after: multiset<Buf>, ext: multiset<Buf>) {
      match d
      case Take(kind) =>
        if kind >= CLASSES || packs.SpentBy(before + ext, kind) then after == before
        else exists b :: b !in before + ext && after == before + multiset{b}
      case Share(b) => after == if 0 < (before + ext)[b] < 32767 then before + multiset{b} else before
      case Give(b) => after == if b in before then before - multiset{b} else before
    }

    /** What a sequence of requests does to them. */
    ghost predicate Draws(draws: seq<Draw>, before: multiset<Buf>, after: multiset<Buf>, ext: multiset<Buf>) {
      exists h :: Recorded(h, draws, ext) && h[0] == before && h[|draws|] == after
    }

    ghost predicate Recorded(h: seq<multiset<Buf>>, draws: seq<Draw>, ext: multiset<Buf>) {
      |h| == |draws| + 1 && forall i :: 0 <= i < |draws| ==> Drawn(draws[i], h[i], h[i + 1], ext)
    }

    method TakeBuffer(kind: nat, ghost ext: multiset<Buf>)
      requires Apart() && packs.Valid() && packs.refs == held + ext
      modifies this, packs.Repr
      ensures packs.Valid() && packs.refs == held + ext
      ensures Drawn(Take(kind), old(held), held, ext)
    {
      ghost var refs := packs.refs;
      var r := packs.MallocTranBuf(kind);
      if r.Some? {
        Bags.Gain(refs, ext, held, r.value);
        held := held + multiset{r.value};
      }
    }

    method ShareBuffer(b: Buf, ghost ext: multiset<Buf>)
      requires Apart() && packs.Valid() && packs.refs == held + ext
      modifies this, packs.Repr
      ensures packs.Valid() && packs.refs == held + ext
      ensures Drawn(Share(b), old(held), held, ext)
    {
      packs.InUseMeans(b);
      if !packs.InUse(b) { return; }
      packs.RoomMeans(b);
      if !packs.Room(b) { return; }
      Bags.Gain(packs.refs, ext, held, b);
      packs.ShareBuf(b);
      held := held + multiset{b};
    }

    method GiveBuffer(b: Buf, ghost ext: multiset<Buf>)
      requires Apart() && packs.Valid() && packs.refs == held + ext
      modifies this, packs.Repr
      ensures packs.Valid() && packs.refs == held + ext
      ensures Drawn(Give(b), old(held), held, ext)
    {
      if b !in held { return; }
      packs.ReferencedIsInPool(b);
      Bags.GiveUp(packs.refs, ext, held, b);
      packs.FreeBuf(b);
      held := held - multiset{b};
    }

    method DrawOne(d: Draw, ghost ext: multiset<Buf>)
      requires Apart() && packs.Valid() && packs.refs == held + ext
      modifies this, packs.Repr
      ensures packs.Valid() && packs.refs == held + ext
      ensures Drawn(d, old(held), held, ext)
    {
      match d {
        case Take(kind) => TakeBuffer(kind, ext);
        case Share(b) => ShareBuffer(b, ext);
        case Give(b) => GiveBuffer(b, ext);
      }
    }

    /** One encoding step: whatever it does to the pool, the references are still the encoder's
        and everybody else's, and it does what was asked. */
    method Encode(draws: seq<Draw>, ghost ext: multiset<Buf>)
      requires Apart() && packs.Valid() && packs.refs == held + ext
      modifies this, packs.Repr
      ensures packs.Valid() && packs.refs == held + ext
      ensures Draws(draws, old(held), held, ext)
    {
      ghost var h := [held];
      for i := 0 to |draws|
        invariant packs.Valid() && packs.refs == held + ext
        invariant Recorded(h, draws[..i], ext) && h[0] == old(held) && h[i] == held
      {
        DrawOne(draws[i], ext);
        h := h + [held];
      }
      assert draws[..|draws|] == draws;
    }
  }
}
