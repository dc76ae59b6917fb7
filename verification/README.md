# A verified model of the tunnel's packet machinery

The repository is a UDP tunnel: packets are kept for retransmission (ARQ), cached for forward
error correction (FEC), filtered for duplicates, measured for loss and checksummed, and their
memory comes from two pooled allocators. This project models those parts in Dafny and proves what
they promise, over every input and every run.

| file | models |
|---|---|
| `Bits.dfy`, `Arithmetic.dfy`, `Bags.dfy`, `Folding.dfy` | words as bits, division by blocks, multisets, folded invariants: what the rest needs |
| `UsedBitmap.dfy` | the used-bitmap both allocators keep |
| `NodePool.dfy` | `GtpMemPool`, the allocator of list nodes |
| `SizeClasses.dfy`, `PacketPool.dfy` | `TranMemPool`, the reference-counted packet buffers in seven size classes |
| `Encoder.dfy` | the FEC encoder as a holder of packet buffers |
| `ArqList.dfy` | the intrusive doubly linked list, node memory addressed by block |
| `ArqModel.dfy`, `ArqSweep.dfy` | how feedback and the retransmission timer judge nodes, on plain sequences |
| `ArqTheorems.dfy` | acknowledgement safety and completeness, 32/64-bit equivalence |
| `ArqLosses.dfy` | exactly which packets feedback removes, and inputs on which that is too many or too few |
| `FeedbackLaws.dfy`, `TimerLaws.dfy` | what feedback and timer do to each node, in numbers, bits, offsets and elapsed times |
| `Arq.dfy` | `GtpArq`: list, node pool, packet pool and encoder together, proved against the two models above |
| `FecCache.dfy` | `Fec2Buffer`, the ring of cached packets |
| `Ledger.dfy` | the books of the list over whole runs: what became of every packet and where it came from |
| `Tunnel.dfy` | a session: list, cache, encoder and callers share one packet pool, over whole runs |
| `BitBuffer.dfy`, `SlideWindow.dfy` | the duplicate filter `slide_win` and the unbounded seen-set it refines |
| `LossMeter.dfy` | the loss meter `loss_stat` and the plain counting it refines |
| `Checksum.dfy` | Internet checksum (sections 1 and 2 of RFC 1071, RFC 768) and Adler-32 (section 8.2 of RFC 1950) |
| `Sessions.dfy` | the two session indexes of `pair_session_mgr` |

The central results:

* **Reference conservation.** `Tunnel.Session.Run`: after every event of every run, each packet
  buffer's reference count is the number of listed ARQ nodes on it plus the number of cache slots
  on it plus the references of the FEC encoder and of callers. Inside a feedback walk the pending
  batch of frees is one more holder, and every retransmission may run the encoder
  (`Arq.GtpArq.WalkLoop`). Node blocks are conserved likewise. When everything is closed, nothing
  leaks (`Tunnel.Session.Close`).
* **Acknowledgements.** The pointer walk computes the walk on sequences. What it does is stated in
  the peer's own terms (`FeedbackLaws`): the code's verdict is "arrived" exactly for numbers whose
  bit is set or that no NACK offset gives; when new numbers lie beyond the report and inside the
  window, a packet goes if and only if the walk gets to a node of it that arrived or, without
  reliable transport, is wanted and has no resend left (`FeedbackLaws.GoesExactly`); wanted nodes
  are sent again (`FeedbackLaws.WantedIsSent`). In general a packet loses a copy only for such a
  cause, unless a retransmission gets an acknowledged number (`ArqTheorems.RemovedHasCause`), and
  `ArqLosses.RenumberingExactly` says exactly when that can happen. Both walks end although they
  re-append nodes to the list they are walking.
* **Retransmission.** The timer's pointer sweep is a run of the sweep on sequences, and each node
  it gets to is given up, sent again, given a second round or left alone as elapsed times and
  counts of sends say (`TimerLaws.TimerHandles`, `TimerLaws.DroppedHasFailed`).
* **The ledger.** Over every run of a session (`Tunnel.Session.Run`), every packet ever entered is
  still listed, or an event took it that acknowledged it, gave it up or cleared the list, and
  whatever is listed was entered (`Ledger.GoneWasTaken`, `Ledger.ListedWasEntered`). A packet
  enters exactly if there is a block for it (`Arq.GtpArq.PacketEntryList`).
* **Duplicate safety.** The 4096-bit window answers every sequence of calls as an unbounded
  seen-set does. A fresh window fed numbers less than 1024 ahead of the largest and less than 4096
  behind it accepts each number exactly once (`SlideWindow.RunAcceptsOnce`).
* **Loss accounting.** Over any run, all losses the meter has counted since its last restart are
  exactly the numbers before the current period that never arrived. That period never passes
  65535 (`LossMeter.PeriodStaysShort`), so losses past a 16-bit wrap are never counted. Each rate
  published is the share of the period's numbers that never arrived (`LossMeter.PublishedRate`).
* **Sessions.** Over every run the two indexes agree and hold exactly the sessions that a plain
  map of clients to sessions holds after the same events (`Sessions.PairSessionMgr.Run`).

Where the code falls short of what one would expect, the model keeps the code, and lemmas give the
condition it needs and, where that is not plain, an input that fails without it:

| shortfall | condition | failing input |
|---|---|---|
| node pools of fewer than 64 blocks have no bitmap | `NodePool.BitmapCoversPool` (exact) | |
| re-quoting a free block or past 255 spoils the accounting | `NodePool.GtpMemPool.MallocItem` (exact) | |
| a packet's 16-bit reference count is not checked | `SizeClasses.AddExactly` (exact) | |
| spans wrap by 2^32 - 1 | `ArqTheorems.SpanIsDistance` (exact) | `ArqTheorems.WrapConflates` |
| a retransmission that gets an acknowledged number retires its packet | `ArqLosses.RenumberingExactly` (exact), `ArqLosses.CounterIsSheltered` (exact, for the session's counter) | `ArqLosses.RenumberingLosesPacket` |
| without reliable transport, as `SUPPORT_RELIABLE_TRAN` is configured, unacknowledged packets are dropped | `ArqLosses.RemovedExactly`, `ArqLosses.AcknowledgedExactly` (exact, for every list) | `ArqLosses.UnreliableLosesPacket` |
| clones outlive their packet when more nodes are retired than the reserve | `ArqTheorems.AckCompleteness`: at most reserve + 1 nodes | `ArqLosses.ReserveOverflows`: reserve + 2 nodes, every reserve |
| with a retransmission limit of 0 a packet is still sent once more | `ArqSweep.LifetimeBound` | `ArqSweep.ZeroLimitExceedsTwice` |
| a packet numbered past a 16-bit wrap never moves the bounds of the loss measurement, so no loss there is counted until a restart | `LossMeter.BoundsMoveExactly` (exact) | `LossMeter.WrappedPacketsCountNothing`, `LossMeter.WrappedLossIsMissed` |
| a session whose server socket was closed never times out and stays in the client index until its client sends again | `Sessions.PairSessionMgr.Run` (`Lingering`) | |
| the last byte of an odd-length header is not checksummed | `Checksum.OddHeaderExactly` (exact) | `Checksum.OddHeaderLosesByte` |

Modelling decisions:

* `SUPPORT_RELIABLE_TRAN`, `SLID_WIN_SIZE`, `MAX_RSV_WIN_SIZE` and `FREE_C3BUF_NUM_PER`
  (src/utils/goodtp_macrodefine.h) are parameters of the list. `SUPPORT_RELIABLE_TRAN` is 0 there;
  results that differ between its two values name both. `ENABLE_ARQ_BOOST_FLAG` is 0 and
  `ENABLE_BOOST_AI_FLAG` is 1 as configured, so feedback walks make no clones and the timer does.
* The retransmission callback (src/session/goodtp_session.cpp:1222-1330) is a function `env` from
  the number of earlier retransmissions to the clock, number and length it produced and to what
  encoding the frame asked of the packet pool. It stamps and counts the node, may renumber it and
  runs the FEC encoder (lines 1323 and 1992), which takes, shares and frees packet buffers; it
  leaves the list and the node pool alone.
* A packet pointer may lie anywhere inside its buffer, because packets move when headers grow.
  Holders free and share through such a pointer, chosen arbitrarily
  (`PacketPool.TranMemPool.Pointer`), and the pool resolves it. Node memory is kept field by field
  in maps indexed by address.
* The element arrays are separate allocations below 4 GiB, as the configured sizes are
  (`PacketPool.DefaultSizesFit`).
* An ACK bitmap is as long as its range needs: the code reads it without looking at bitmap_sz.
* Fields of 8, 16 and 32 bits wrap where the code lets them; the statistics counters of the packet
  pool are unbounded. `(i + 1) & mask` on the power-of-two ring is written as wrapping at the
  capacity.
* A reference count is not pushed past 32767: the code does not check this, so it is a
  precondition of taking a reference.
* `Folding.Open` is always true; it keeps large invariants folded until a proof names them.

## Model

| member | source | states |
|---|---|---|
| UsedBitmap.MarkKeepsAgreement | src/tranmempool.h:1356-1403 | setting a block's bit and flag together keeps bitmap and flags in agreement for every block |
| UsedBitmap.UnmarkKeepsAgreement | src/tranmempool.h:953-987 | clearing a block's bit and flag together keeps the agreement for every block |
| UsedBitmap.FreeBlockInWord | src/mempool/goodtp_mem_pool.cpp:151-170 | a word other than all ones has a clear bit, so scanning it finds a block |
| UsedBitmap.SearchFindsNearest | src/tranmempool.h:1339-1371 | looking at the hinted word and, if it is full, from the first word on finds the first free block of the hinted word if that has one, else the first free block of all |
| UsedBitmap.CountFull | src/mempool/goodtp_mem_pool.cpp:120-122 | the number of used blocks reaches the pool size exactly when every block is in use |
| NodePool.BitmapCoversPool | src/mempool/goodtp_mem_pool.cpp:29-41 | after the constructor's rounding the bitmap covers every block if and only if at least 64 blocks (or none) were asked for |
| NodePool.BlocksFit | src/mempool/goodtp_mem_pool.cpp:29-36 | a block has room for its header and what was asked for, rounded past the next multiple of 4 |
| NodePool.GtpMemPool.constructor | src/mempool/goodtp_mem_pool.cpp:50-105 | a fresh pool of the rounded sizes with nothing in use and exact accounting |
| NodePool.ResolveIsBlock | src/mempool/goodtp_mem_pool.cpp:236-271 | an address resolves to block p if and only if it lies inside block p, header included |
| NodePool.BlockAddrInjective | src/mempool/goodtp_mem_pool.cpp:236-271 | different blocks have different addresses |
| NodePool.GtpMemPool.ScanWord | src/mempool/goodtp_mem_pool.cpp:151-170 | the scan finds the first free block of the word exactly when the word is not full and then points the hint at it |
| NodePool.GtpMemPool.FirstOpenWord | src/mempool/goodtp_mem_pool.cpp:172-190 | while using_num_ is below the pool size there is a first word that is not full: the give-up branch is dead |
| NodePool.GtpMemPool.Search | src/mempool/goodtp_mem_pool.cpp:107-194 | the backward gotos end, with the hint on the hinted block if that is free, else on the first free one of its word, else on the first free one of all |
| NodePool.GtpMemPool.MallocNew | src/mempool/goodtp_mem_pool.cpp:107-194 | the hinted block if free, else the nearest one, now in use with one quote; NULL exactly when every block is in use, and then nothing changes |
| NodePool.GtpMemPool.MallocItem | src/mempool/goodtp_mem_pool.cpp:107-194 | both forms; re-quoting keeps the accounting if and only if the block is in use and quoted fewer than 255 times |
| NodePool.GtpMemPool.FreeItem | src/mempool/goodtp_mem_pool.cpp:196-234 | one quote less, the last one returns the block; an address outside the pool or in a free block changes nothing; accounting is kept |
| NodePool.GtpMemPool.Run | src/mempool/goodtp_mem_pool.cpp:107-234 | after any sequence of allocations, re-quotes of used blocks and frees: bit, flag and using_num_ agree, the sum of quotes is malloc_counter_ - free_counter_ modulo 2^32, and the history says what each operation did to the blocks in use: one block more exactly when one was free, one quote more or less on the block around the address, the last one gone with its quotes |
| NodePool.RequoteBalance | src/mempool/goodtp_mem_pool.cpp:110-118 | the balance survives a re-quote if and only if the block is in use and its 8-bit counter does not overflow |
| NodePool.FreeBalance | src/mempool/goodtp_mem_pool.cpp:196-234 | the balance survives a free, which finds at least one quote |
| NodePool.QuoteSumUpdate | src/mempool/goodtp_mem_pool.cpp:107-146 | how one block's change moves the sum of quotes over the blocks in use |
| SizeClasses.ElementSizes | src/tranmempool.h:148-173 | the bytes an element of each class takes: its payload and 336 around it |
| SizeClasses.SizeClass.constructor | src/tranmempool.h:1187-1327 | a class of empty buffers whose statistics are exact |
| SizeClasses.SizeClass.OpenWord | src/tranmempool.h:1339-1354 | the hinted word, or the first one with a clear bit if that is full; none only if all buffers are in use |
| SizeClasses.SizeClass.MallocElement | src/tranmempool.h:1329-1416 | the first buffer not in use of the hinted word, else of all, held once; none if and only if all are in use, and then nothing changes; the whole new state |
| SizeClasses.SizeClass.AddRef | src/tranmempool.h:592-608 | the whole new state for any count: on a buffer in use that many holders more, and the class stays sound unless the 16-bit counter overflows; on one not in use only a dead counter changes |
| SizeClasses.SizeClass.DropRef | src/tranmempool.h:927-994 | one holder less, the last returns the buffer; repeated frees of a free buffer never disturb bitmap, statistics or the abnormality counter |
| SizeClasses.AddExactly | src/tranmempool.h:605 | adding references leaves a sound state if and only if the 16-bit counter does not overflow |
| SizeClasses.DropIsSound | src/tranmempool.h:927-994 | after a free used + free = size, malloc - free = used, bit and flag agree and the abnormality counter is 0, also for repeated frees |
| SizeClasses.LastFreeReturns | src/tranmempool.h:944-991 | the last holder's free clears the flag, counts and points the hint at the buffer; any other free changes one counter only |
| SizeClasses.SizeClass.BatchBody | src/tranmempool.h:845-908 | the vector form's own body changes bitmap, headers, hint and statistics exactly as a single free does |
| PacketPool.LocateInterior | src/tranmempool.h:1418-1563 | every address inside an element, reserved space before the payload included, resolves to that element |
| PacketPool.LocateExactly | src/tranmempool.h:1418-1563 | an address resolves to a buffer if and only if it lies inside that buffer's element |
| PacketPool.DefaultSizesFit | src/tranmempool.h:50-66 | arrays of the configured sizes, wherever they are put apart, are multiples of 64 long and meet what the resolution needs |
| PacketPool.MemSpec | src/interface/bitlinker.h:201-206 | the class chosen for a packet below 64 KiB is the smallest one larger than it |
| PacketPool.TranMemPool.constructor | src/tranmempool.h:1187-1327 | seven classes that share no memory, nobody holding anything |
| PacketPool.TranMemPool.MallocTranBuf | src/tranmempool.h:644-758 | a fresh request fails if and only if every class from the requested one up is full; otherwise a buffer nobody held, of the first class with room, with at least the requested capacity |
| PacketPool.TranMemPool.TranBufUseRefAddOne | src/tranmempool.h:592-608 | through any address inside a buffer in use, n references more on it and none elsewhere; other addresses change no reference; fails exactly for addresses outside the pool |
| PacketPool.TranMemPool.FreeTranBuf | src/tranmempool.h:927-994 | through any address inside a buffer, one reference less on it and none elsewhere; the whole new state; addresses outside the pool change nothing |
| PacketPool.TranMemPool.FreeTranBufs | src/tranmempool.h:822-911 | on bitmaps, headers, hints and statistics of all classes the vector form, with its own loop body, equals the successive single frees; each reference goes as often as its buffer is hit |
| Encoder.FecEncoder.Encode | src/fec2/goodtp_fec2.cpp:564-1320 | whatever buffers an encoding takes, shares and frees, the pool's references are still the encoder's and everybody else's, and it does what was asked: a take fails exactly if no buffer is free, a share exactly at the count's limit or on a free buffer |
| PacketPool.TranMemPool.NobodyHolds | src/tranmempool.h:927-994 | when no reference is held every buffer of every class is free |
| ArqList.List.Pop | src/arq/goodtp_arq.cpp:27-48 | PopArqNode removes the node from the sequence at head, middle, tail or singleton; the list stays acyclic, ends at tail, back links are right from the second node on and node_num_ is its length |
| ArqList.List.Push | src/arq/goodtp_arq.cpp:50-61 | PushPack appends, with the same invariant, despite the head's back link being self or null |
| ArqList.List.Requeue | src/arq/goodtp_arq.cpp:205-235 | pop, rewrite and push move a node to the end of the sequence |
| ArqList.RemovedLinked | src/arq/goodtp_arq.cpp:27-48 | the link updates of each branch of PopArqNode give a well linked list without that node |
| ArqList.ForwardAppended | src/arq/goodtp_arq.cpp:50-61 | appending at the tail keeps the forward chain |
| ArqModel.SendSpends | src/arq/goodtp_arq.cpp:534-564 | re-appending a resent node costs more of the remaining budget than the longer list adds |
| ArqModel.VisitProgress | src/arq/goodtp_arq.cpp:451-608 | every visit of a feedback walk shrinks the budget: the walk terminates |
| ArqModel.RunWalk | src/arq/goodtp_arq.cpp:451-608 | the whole walk is defined on every list and ends at the end of the list or at a node beyond the range |
| ArqTheorems.VisitConserves | src/arq/goodtp_arq.cpp:451-608 | a visit neither loses nor invents a packet |
| ArqTheorems.WalkConserves | src/arq/goodtp_arq.cpp:451-608 | list and retired nodes together hold exactly the packets the list held |
| ArqTheorems.WalkRetiresOnlyRetirable | src/arq/goodtp_arq.cpp:451-608 | every retired node was acknowledged or, without reliable transport, out of retransmissions |
| ArqTheorems.AcknowledgedMeans | src/arq/goodtp_arq.cpp:509-519 | for a range that does not wrap, a number is acknowledged if and only if it lies in [head, tail] and its bit of the byte map is set |
| ArqTheorems.SpanIsDistance | src/arq/goodtp_arq.cpp:476-502 | the span equals the distance modulo 2^32 if and only if it does not wrap, and is one too small if it does |
| ArqTheorems.WrapConflates | src/arq/goodtp_arq.cpp:476-518 | with a head above 0 the numbers 0 and 2^32 - 1 always get the same verdict |
| ArqTheorems.AckedIsByteBit | src/arq/goodtp_arq.cpp:516-518 | whichever word width loads the bitmap, the bit tested is the same bit of the same byte |
| ArqTheorems.WalksAgree | src/arq/goodtp_arq.cpp:297-608 | the 32-bit and the 64-bit walk leave the same list, resend the same nodes in the same order and retire the same nodes, for every bitmap and list |
| ArqTheorems.UnlistedKeeps | src/arq/goodtp_arq.cpp:1161-1178 | DelNodeByFirstSn removes every copy of the listed packets and keeps every other copy |
| ArqTheorems.AckSafety | src/arq/goodtp_arq.cpp:451-608 | retired nodes were in the list and retirable; if no retransmission gets an acknowledged number before one that stops the walk, under the number they were listed with; and a packet none of whose copies was retired keeps all its copies |
| ArqTheorems.RemovedHasCause | src/arq/goodtp_arq.cpp:451-916 | for every feedback and both kinds of transport, if no retransmission gets an acknowledged number before one that stops the walk (ArqLosses.RenumberingExactly): a packet that loses a copy has a listed copy that was acknowledged or, without reliable transport, was due for a resend and ran out of them |
| ArqLosses.ReachedIsRetired | src/arq/goodtp_arq.cpp:451-608 | a node the walk would drop is dropped unless an earlier node stops the walk |
| ArqLosses.AcknowledgedIsRemoved | src/arq/goodtp_arq.cpp:451-608 | an acknowledged node that no earlier node stops the walk from reaching takes every copy of its packet with it, if the list holds at most one node more than the reserve MAX_RSV_WIN_SIZE |
| ArqLosses.SingleExactly | src/arq/goodtp_arq.cpp:509-592 | a list of one packet is emptied if and only if the packet was acknowledged or, without reliable transport, is due for a resend and has none left |
| ArqTheorems.WalkKeepsSources | src/arq/goodtp_arq.cpp:451-608 | resent nodes come up in the order they were sent: a retired node is one of the list, untouched or under a number none of whose predecessors stops the walk |
| ArqLosses.RetiredExactly | src/arq/goodtp_arq.cpp:451-608 | if every new number stops the walk or is left alone, the retired nodes are, in order, exactly the retirable ones ahead of the first that stops it |
| ArqLosses.CopiesLeftExactly | src/arq/goodtp_arq.cpp:451-605 | then the number of copies left of every packet, for every list and reserve |
| ArqLosses.RemovedExactly | src/arq/goodtp_arq.cpp:451-605 | then, on lists of at most the reserve plus one, a packet loses all its copies if and only if the walk gets to a copy that is acknowledged or, without reliable transport, due for a resend with none left, and keeps them all otherwise |
| ArqLosses.AcknowledgedExactly | src/arq/goodtp_arq.cpp:451-605 | the same in terms of the bitmap's bits, for ranges that do not wrap and new numbers beyond the range and inside the window |
| ArqLosses.RenumberingExactly | src/arq/goodtp_arq.cpp:534-592 | some list loses a packet no copy of which was acknowledged as listed, because its retransmission got an acknowledged number, if and only if such a number is given out before one that stops the walk and the feedback asks for any number at all; for every limit |
| ArqLosses.CounterIsSheltered | src/session/goodtp_session.cpp:1929-1941 | with numbers from the session's increasing counter that cannot happen if and only if the peer acknowledges no number that was not sent yet |
| ArqLosses.RenumberingLosesPacket | src/arq/goodtp_arq.cpp:534-592 | 5 and 6 are listed, the counter stands at 7 and the peer, asking for 5, acknowledges 7: the packet sent as 5 is gone |
| FeedbackLaws.AfterIs | src/arq/goodtp_arq.cpp:451-605 | if every new number stops the walk or is left alone, the list afterwards: the nodes that keep their places, then the resent ones in order, without the packets retired |
| FeedbackLaws.JudgesAsSaid | src/arq/goodtp_arq.cpp:476-534 | for all three kinds of feedback with a range that does not wrap and every number: retired exactly if the bit is set or, of a NACK, in range and given by no offset; stopping the walk exactly beyond the range but inside the window; resent exactly if missing and due by time or outside range and window |
| FeedbackLaws.ArrivedGoes | src/arq/goodtp_arq.cpp:451-605 | whatever numbers retransmissions get, a packet goes with every copy once the walk gets to a node of it whose number arrived |
| FeedbackLaws.GoesExactly | src/arq/goodtp_arq.cpp:770-916 | exactly which packets go, by bits, offsets, range, window, resends left and transport; all others keep every copy |
| FeedbackLaws.WantedIsSent | src/arq/goodtp_arq.cpp:521-564 | a wanted node is sent again under a new number with one more send counted while it has resends left, and marked as failed otherwise; a node neither wanted nor arrived stays as it is |
| FeedbackLaws.AwaitedEndsWalk | src/arq/goodtp_arq.cpp:500-505 | the first node beyond the range but inside the window and every node behind it stay as they are |
| FeedbackLaws.NackKeepsMissing | src/arq/goodtp_arq.cpp:770-916 | of the packets in a NACK's range exactly those stay that an offset gives and that have a resend left or reliable transport |
| ArqLosses.UnreliableLosesPacket | src/arq/goodtp_arq.cpp:520-532 | without reliable transport, a packet nobody acknowledged is lost once it is exhausted, for every limit |
| ArqTheorems.RemovedMeansAcknowledged | src/arq/goodtp_arq.cpp:451-608 | for a bitmap whose range does not wrap, under the condition of RemovedHasCause: a packet that loses a copy has a listed copy whose number is in range with its bit set or, without reliable transport, one due for a resend that ran out |
| ArqTheorems.AckCompleteness | src/arq/goodtp_arq.cpp:574-605 | if at most MAX_RSV_WIN_SIZE nodes are retired, or the list has at most one node more, no original or boost clone of a retired packet remains |
| ArqLosses.FeedbackExactly | src/arq/goodtp_arq.cpp:574-605 | the exact number of copies of every packet after feedback, whatever the number retired |
| ArqLosses.ReserveOverflows | src/arq/goodtp_arq.cpp:574-578 | for every reserve: one node more than that, and a clone of a retired packet remains |
| ArqSweep.SweepProgress | src/arq/goodtp_arq.cpp:162-242 | every visit of the timer's sweep lightens the load ahead, although nodes and clones are re-appended: the sweep terminates |
| ArqSweep.LifetimeBound | src/arq/goodtp_arq.cpp:1015-1060 | in its whole life an original is resent at most twice the largest limit in force (at least 1), a boost clone at most boost_threshold_ times |
| ArqSweep.ZeroLimitExceedsTwice | src/arq/goodtp_arq.cpp:1122-1159 | with a limit of 0 a sweep that finds an original of a reliable stream timed out sends it once more |
| ArqSweep.SweepKeepsBounds | src/arq/goodtp_arq.cpp:162-242 | every visit of the sweep keeps every node within its lifetime bound |
| ArqSweep.SweepVisitConserves | src/arq/goodtp_arq.cpp:1062-1159 | a visit loses no packet, and what it adds copies a packet it had |
| ArqSweep.SweepRunIsSound | src/arq/goodtp_arq.cpp:162-242 | whatever clones could be had: every packet is still listed or was given up after failing, all packets come from the list, and the originals passed by need nothing now |
| TimerLaws.TimerHandles | src/arq/goodtp_arq.cpp:162-242 | every node the sweep gets to, by elapsed times and counts of sends: given up, sent once more in a second round (originals of reliable streams, once), sent again when its own period has passed, or left as it is; for timeouts no longer than the clock has run |
| TimerLaws.RecentEndsSweep | src/arq/goodtp_arq.cpp:173 | the first node sent at the sweep's time or later and every node behind it stay |
| TimerLaws.DroppedHasFailed | src/arq/goodtp_arq.cpp:1030-1042 | whatever is given up was marked as failed or had used up its sends for a whole timeout, and was not due for a second round |
| TimerLaws.CloneIsSentNext | src/arq/goodtp_arq.cpp:1062-1120 | a clone carries its packet's numbers in a buffer of its own and is sent by the first sweep that gets to it with a boost period of at most a second |
| Arq.GtpArq.constructor | src/arq/goodtp_arq.cpp:82-116 | an empty list that owns no block and no reference |
| Arq.GtpArq.PacketEntryList | src/arq/goodtp_arq.cpp:118-160 | fails exactly if no node block is free; otherwise the packet's node, field by field, is appended with a reference, and a clone behind it exactly if boosting is on, a second block and a large enough buffer are free |
| Arq.GtpArq.CheckRtoRetran | src/arq/goodtp_arq.cpp:162-242 | the pointer sweep terminates and leaves the list of the sweep on sequences; references and blocks are conserved; with algorithms off the list is cleared |
| Arq.GtpArq.SweepNode | src/arq/goodtp_arq.cpp:175-239 | one loop body equals one visit of the sweep on sequences |
| Arq.GtpArq.SecondRoundNode | src/arq/goodtp_arq.cpp:1131-1159 | the node gets its second round behind its clone, keeping its block and its reference |
| Arq.GtpArq.CloneBoostNode | src/arq/goodtp_arq.cpp:1062-1120 | a copy with a buffer and a block of its own is appended, or nothing changes: exactly if no buffer large enough or no block is free |
| Arq.GtpArq.RetireNode | src/arq/goodtp_arq.cpp:574-592 | the node's reference joins the pending batch, which is freed when full: the references are those of the list, the batch and the others |
| Arq.GtpArq.VisitNode | src/arq/goodtp_arq.cpp:498-595 | one loop body of the feedback walks equals one visit of the walk on sequences |
| Arq.Decide | src/arq/goodtp_arq.cpp:498-532 | the tests at the top of the loop bodies, with the scan of missing offsets, give the verdict of the sequence model |
| Arq.GtpArq.EncodeFrame | src/session/goodtp_session.cpp:1975-1999 | the encoding a frame sets off changes the encoder's references and nobody else's |
| Arq.GtpArq.WalkLoop | src/arq/goodtp_arq.cpp:451-596 | the pointer walk computes the walk on sequences and records the first numbers of the first MAX_RSV_WIN_SIZE retired nodes; between visits the references are those of the list, the pending batch, the encoder and the others |
| Arq.GtpArq.FeedbackWalk | src/arq/goodtp_arq.cpp:451-601 | after the last batch of frees the references are exactly those of the list and the others |
| Arq.GtpArq.DelNodeByFirstSn | src/arq/goodtp_arq.cpp:1161-1178 | exactly the nodes with a listed first number leave, with their references and blocks |
| Arq.GtpArq.ProcFeedback | src/arq/goodtp_arq.cpp:269-916 | ACK bitmaps, NACKs without and with losses: the list becomes the one the theorems speak about; references and blocks are conserved although every retransmission runs the encoder |
| Arq.GtpArq.ClearArqList | src/arq/goodtp_arq.cpp:918-987 | every node returns its reference and its block and the list is empty |
| Arq.GtpArq.AdjustRetranTimes | src/arq/goodtp_arq.cpp:254-259 | the 8-bit limit changes and every node stays within its lifetime bound |
| Arq.GtpArq.AdjustBoost | src/session/goodtp_session.cpp:148-334 | boosting is switched and its 8-bit limit set; the list is not touched |
| Arq.JudgeIsExist | src/arq/goodtp_arq.cpp:68-80 | the scan from both ends finds a number if and only if it is listed |
| Arq.CheckCurSnIsDiscard | src/arq/goodtp_arq.cpp:997-1012 | true if and only if some offset from the head, modulo 2^32, is the number |
| FecCache.Fec2Buffer.constructor | src/fec2/goodtp_fec2_buffer.cpp:27-37 | an empty ring that holds no reference |
| FecCache.Fec2Buffer.PushPack | src/fec2/goodtp_fec2_buffer.cpp:158-214 | the slot of the number holds the packet or a copy, with one reference, and what it held is freed; re-pushing the same buffer leaves every count unchanged; a copy fails exactly if no buffer large enough is free, and then changes nothing; the count of occupied slots is exact |
| FecCache.Fec2Buffer.PopAt | src/fec2/goodtp_fec2_buffer.cpp:136-156 | the slot is emptied and its reference freed; positions out of range and empty slots change nothing |
| FecCache.Fec2Buffer.PopPack | src/fec2/goodtp_fec2_buffer.cpp:99-134 | the named slot is emptied; the caller's own reference goes too unless the slot holds that very pointer |
| FecCache.Fec2Buffer.Clear | src/fec2/goodtp_fec2_buffer.cpp:67-97 | exactly the slots of the arc are emptied and freed and the count stays exact |
| FecCache.ArcMeans | src/fec2/goodtp_fec2_buffer.cpp:66-81 | on distinct bounds the arc is the closed circular interval, on equal bounds the whole ring |
| FecCache.Fec2Buffer.PopAllPack | src/fec2/goodtp_fec2_buffer.cpp:42-60 | every slot is emptied, its reference freed, and the count is 0 |
| FecCache.SlotHoldsLatest | src/fec2/goodtp_fec2_buffer.cpp:42-214 | in every run a slot holds a packet if and only if that is the latest one put there and not removed since; Tunnel.Session.Run ties runs of the ring to it |
| Ledger.EventTakes | src/arq/goodtp_arq.cpp:162-987 | an event that takes a copy off the list is a report that acknowledges or gives up a node of that packet (as it was listed, if new numbers are sheltered), a timer that finds that copy marked as failed or out of sends for a whole timeout, or a clearing of the list |
| Ledger.GoneWasTaken | src/session/goodtp_session.cpp:1975-2583 | over any run, between any two moments: if a packet has fewer copies, an event between took one for such a cause |
| Ledger.EnteredIsListedOrTaken | src/session/goodtp_session.cpp:1975-2583 | every packet ever entered is still listed at the end or was taken by a later event for such a cause |
| Ledger.EventBrings | src/arq/goodtp_arq.cpp:118-987 | only entering a packet brings a first number the list did not have: clones and resends keep theirs |
| Ledger.ListedWasEntered | src/session/goodtp_session.cpp:1975-2583 | over any run, a packet listed later and not before was entered between |
| Tunnel.Session.Step | src/session/goodtp_session.cpp:1975-2583 | conservation after every event; the exact effect on list, limits, boosting, cache and callers, which change on their own events only |
| Tunnel.Session.Run | src/session/goodtp_session.cpp:1975-2583 | events up to the first impossible one: conservation of references and blocks, exact statistics of both pools, well linked list and lifetime bounds after each; the cache is what the logged operations make of it; the list's history is one the ledger speaks about |
| Tunnel.Session.Start | src/session/goodtp_session.cpp:938-1023 | a session may start on pools that others already use |
| Tunnel.Session.Close | src/arq/goodtp_arq.cpp:953-987 | after closing list and cache only encoder and callers hold references; if they hold none, every buffer is free |
| BitBuffer.SetBufBit | socks5udpf/src/buf_operation.h:4-10 | sets exactly the addressed bit and keeps every other bit, positions wrapping at the buffer's end |
| BitBuffer.ClrBufBit | socks5udpf/src/buf_operation.h:12-18 | clears exactly the addressed bit and keeps every other bit |
| BitBuffer.PositionsWrap | socks5udpf/src/buf_operation.h:7-8 | positions one buffer length apart address the same bit |
| SlideWindow.MaskBits | socks5udpf/src/slide_win.cpp:157-216 | the shifted mask is a run of ones |
| SlideWindow.RangesCompose | socks5udpf/src/slide_win.cpp:157-216 | clearing two adjacent circular ranges clears their union |
| SlideWindow.SlideWin.ClearBitRange | socks5udpf/src/slide_win.cpp:157-216 | exactly the bits start..start+n-1 modulo 4096 are cleared and all others kept, for every start and n up to 4096, through all its paths |
| SlideWindow.SlideWin.WinBoundaryMoving | socks5udpf/src/slide_win.cpp:137-155 | exactly the slots of the newly covered numbers are freed and the positions advance |
| SlideWindow.SlideWin.Reset | socks5udpf/src/slide_win.cpp:15-27 | an empty window ending at the number |
| SlideWindow.SlideWin.StepIsDistance | socks5udpf/src/slide_win.cpp:76-135 | the comparisons of 16-bit bounds give the distance to the unbounded number, 0 exactly inside the window |
| SlideWindow.SlideWin.PkgSnValid | socks5udpf/src/slide_win.cpp:29-74 | the answer and the new state are those of the unbounded seen-set |
| SlideWindow.SlideWin.Feed | socks5udpf/src/slide_win.cpp:29-66 | for every sequence of calls the window gives the seen-set's answers |
| SlideWindow.SlideRemembers | socks5udpf/src/slide_win.cpp:137-155 | after sliding, the bits are the seen-set's memory of the last 4096 numbers |
| SlideWindow.LiftDenotes | socks5udpf/src/slide_win.cpp:218-257 | a 16-bit number denotes one unbounded number congruent to it in the range the window decides |
| SlideWindow.CheckThenAccept | socks5udpf/src/slide_win.cpp:29-66 | a check-only call followed by the real call equals the real call alone |
| SlideWindow.NeverAcceptedTwice | socks5udpf/src/slide_win.cpp:29-66 | between resynchronisations a number accepted by one call is refused by every later call that denotes it |
| SlideWindow.NearIsRemembered | socks5udpf/src/slide_win.cpp:29-74 | a number less than 4096 behind the largest or less than 1024 ahead keeps everything accepted and is accepted exactly if it was not before |
| SlideWindow.FarStartsOver | socks5udpf/src/slide_win.cpp:33-44 | a number 1024 or more ahead and 4096 or more behind, or the first one, starts the window over |
| SlideWindow.RunAcceptsOnce | socks5udpf/src/slide_win.cpp:29-74 | a fresh window and any run whose unbounded numbers stay within those bounds: a call is accepted exactly if no earlier real call had the same number |
| SlideWindow.AcceptedAreDistinct | socks5udpf/src/slide_win.cpp:29-66 | in any run, calls accepted without a resynchronisation between them denote different numbers |
| SlideWindow.AcceptedHasCause | socks5udpf/src/slide_win.cpp:29-66 | whatever is remembered as accepted, a real call since the last resynchronisation accepted |
| SlideWindow.AnsweredExactly | socks5udpf/src/slide_win.cpp:29-66 | in any run a call that does not resynchronise is accepted if and only if no earlier real call since the last resynchronisation denotes the same number |
| LossMeter.LossStat.Reset | socks5udpf/src/loss_stat.cpp:15-37 | an empty meter |
| LossMeter.LossStat.CachePkgSn | socks5udpf/src/loss_stat.cpp:39-102 | the fields follow the measurement on unbounded numbers: every covered number is remembered, one too far away starts over, and when the period is over the rate of exactly the missing numbers is taken |
| LossMeter.LossStat.Feed | socks5udpf/src/loss_stat.cpp:39-182 | the fields follow the measurement through every sequence of packets |
| LossMeter.LossesAddUp | socks5udpf/src/loss_stat.cpp:39-182 | over any run, all losses counted since the last restart together are exactly the numbers before the current period that never arrived, and the meter remembers exactly what arrived since; numbers past a 16-bit wrap are before no period (PeriodStaysShort) |
| LossMeter.PeriodStaysShort | socks5udpf/src/loss_stat.cpp:75-93 | in every run the bounds of the period stay ordered 16-bit numbers |
| LossMeter.BoundsMoveExactly | socks5udpf/src/loss_stat.cpp:75-93 | a packet moves the middle (while its time lasts) or the maximum if and only if it denotes a number beyond that bound and has not wrapped; a wrapped one denotes a number beyond both |
| LossMeter.WrappedPacketsCountNothing | socks5udpf/src/loss_stat.cpp:75-182 | once the three bounds coincide, any sequence of wrapped packets short of a restart leaves them in place, and every rate taken is 0 whatever was lost |
| LossMeter.WrappedLossIsMissed | socks5udpf/src/loss_stat.cpp:75-182 | 65535 arrives, 0 does not, 1 arrives when the rate is due, and the rate is 0 |
| LossMeter.LossStat.CalcPkgLossRate | socks5udpf/src/loss_stat.cpp:104-182 | the rate times the numbers covered is the count of those never cached times 10000, rounded down, and 0 if none are covered; the next period begins behind them |
| LossMeter.PublishedRate | socks5udpf/src/loss_stat.cpp:39-182 | in any run the rate published is the share of the period's numbers that never arrived |
| LossMeter.ArrivalIsRemembered | socks5udpf/src/loss_stat.cpp:39-102 | a number 2048 or more after the start of the period starts over, every other one is remembered, and nothing but the bounds moves before the period is over |
| LossMeter.MissingIsAbsent | socks5udpf/src/loss_stat.cpp:117-164 | the count of missing numbers is the number of elements absent from what was seen |
| LossMeter.LossStat.CountMissing | socks5udpf/src/loss_stat.cpp:117-164 | the counting loops count the missing numbers and drop those numbers from the circle |
| LossMeter.ZerosAreMissing | socks5udpf/src/loss_stat.cpp:119-164 | the zero bits of a stretch are the missing numbers it stands for |
| LossMeter.ShowsAdvance | socks5udpf/src/loss_stat.cpp:172-174 | after dropping the counted numbers, bit (pos_min + d) mod 2048 again says whether sn_min + d was cached |
| LossMeter.RateAtMost | socks5udpf/src/loss_stat.cpp:166-170 | the rate is at most 10000 |
| Checksum.ChecksumCore | socks5udpf/utils/packet_checksum.h:218-236 | with an initial sum below 2^31 the 32-bit accumulator never overflows and stays congruent to the plain sum modulo 65535 |
| Checksum.FinalizeChecksum | socks5udpf/utils/packet_checksum.h:188-216 | for every length: the complement of the one's-complement sum, with zero sent as all ones |
| Checksum.FoldAll | socks5udpf/utils/packet_checksum.h:188-216 | the fold loop terminates with a 16-bit value congruent to the sum |
| Checksum.VerifiesIff | socks5udpf/utils/packet_checksum.h:188-216 | verification gives 0xFFFF if and only if the sum is 0 modulo 65535 |
| Checksum.ChecksumRoundTrip | socks5udpf/utils/packet_checksum.h:188-216 | a zeroed 16-bit field at an even offset, filled with the checksum, makes the packet verify |
| Checksum.WordSumConcat | socks5udpf/utils/packet_checksum.h:238-252 | an even-length part followed by another sums like their concatenation |
| Checksum.IcmpV4Checksum | socks5udpf/utils/packet_checksum.h:391-402 | the checksum of header and payload in one buffer if the header's length is even; an odd header loses its last byte |
| Checksum.PseudoHeaderV4 | socks5udpf/utils/packet_checksum.h:254-273 | the sum of the RFC 768 pseudo-header |
| Checksum.PseudoHeaderV6 | socks5udpf/utils/packet_checksum.h:275-294 | the sum of the pseudo-header of section 8.1 of RFC 8200 |
| Checksum.TransportChecksum | socks5udpf/utils/packet_checksum.h:238-252 | the checksum of pseudo-header, header and payload in one buffer, if the header's length is even |
| Checksum.OddHeaderExactly | socks5udpf/utils/packet_checksum.h:238-252 | for a header of odd length the checksum sent is that of the bytes in one buffer if and only if its last byte plus 255 times the payload's sum is 0 modulo 65535 |
| Checksum.OddHeaderLosesByte | socks5udpf/utils/packet_checksum.h:391-402 | a header of one byte whose checksum ignores that byte |
| Checksum.Adler32 | socks5udpf/utils/packet_checksum.h:370-388 | the loop computes the weighted-sum closed form modulo 65521 |
| Checksum.AdlerHalves | socks5udpf/utils/packet_checksum.h:370-388 | both packed halves stay below 65521 |
| Checksum.AdlerByByte | socks5udpf/utils/packet_checksum.h:381-385 | each byte adds to the low half, and the low half to the high half, modulo 65521 |
| Checksum.AdlerStreams | socks5udpf/utils/packet_checksum.h:370-388 | chained calls equal one call on the concatenation |
| Sessions.PairSessionMgr.HandleGameServerClose | socks5udpf/src/pair_session_mgr.cpp:1801-1817 | the session loses its socket and its place in the socket index; the indexes still agree |
| Sessions.PairSessionMgr.GetGameClientPairSession | socks5udpf/src/pair_session_mgr.cpp:819-883 | a session that fits is found and nothing changes; otherwise the old one leaves both indexes and a new one with the packet's traits enters both, exactly unless there is no such user, no socket or no bind; other clients keep their sessions |
| Sessions.PairSessionMgr.HandleGameClientData | socks5udpf/src/pair_session_mgr.cpp:535-549 | the index after a client's packet is the one the plain map says |
| Sessions.ServedExactly | socks5udpf/src/pair_session_mgr.cpp:885-974 | a session serves a business packet exactly if it still has its socket and a new one would get the same traits |
| Sessions.SweptExactly | socks5udpf/src/pair_session_mgr.cpp:314-405 | a sweep keeps exactly the sessions without a socket and those with traffic less than the timeout ago whose password still belongs to their user |
| Sessions.SameAgain | socks5udpf/src/pair_session_mgr.cpp:819-883 | a client that sends the same packet again keeps its session |
| Sessions.UndisturbedStays | socks5udpf/src/pair_session_mgr.cpp:314-1817 | in any run a session whose client sends what fits, whose socket stays open and that is good at every sweep stays the same |
| Sessions.PairSessionMgr.CreatePairSession | socks5udpf/src/pair_session_mgr.cpp:983-1117 | fails if and only if there is no such user, no socket or no bind, and then changes nothing; otherwise both indexes gain the session |
| Sessions.PairSessionMgr.ClearServers | socks5udpf/src/pair_session_mgr.cpp:320-360 | exactly the stale sessions with a socket leave both indexes and lose their sockets |
| Sessions.PairSessionMgr.ClearClients | socks5udpf/src/pair_session_mgr.cpp:362-405 | exactly the stale sessions with a socket leave the client index |
| Sessions.PairSessionMgr.ClearSocketTimeout | socks5udpf/src/pair_session_mgr.cpp:314-318 | after both sweeps the indexes agree, the second pass has erased nothing more, and every session with a socket is authorised and unexpired |
| Sessions.PairSessionMgr.Step | socks5udpf/src/pair_session_mgr.cpp:314-1817 | the index after every event is the one the plain map says, the two indexes agree, and a session without a socket leaves only when its client sends |
| Sessions.PairSessionMgr.Run | socks5udpf/src/pair_session_mgr.cpp:314-1817 | the same over every run, replaced sessions whose socket number is reused included; sessions that lost their socket stay as long as their clients send nothing |

## Left out

- NodePool.GtpMemPool.constructor: requires at least 64 blocks, because below that the bitmap has no word for the blocks (NodePool.BitmapCoversPool states exactly when); failure of the system allocator during Init is not modelled.
- PacketPool.TranMemPool.MallocTranBuf: only fresh requests; appending to an existing buffer and its retry are not modelled, because remalloc_flag is never set and the retry does not end without room.
- PacketPool.TranMemPool.constructor: requires pool sizes that are multiples of 64, as all configured ones are; smaller sizes are not rounded there.
- SizeClasses.SizeClass.constructor: requires a pool size that is a multiple of 64, because the bitmap has size >> 6 words and further buffers could never be handed out.
- PacketPool.TranMemPool.TranBufUseRefAddOne: requires the 16-bit count not to overflow, which the code leaves to its callers (SizeClasses.AddExactly states exactly when the state stays sound).
- Encoder.FecEncoder.Encode: which buffers an encoding asks for, shares and frees is a parameter.
- TimerLaws.TimerHandles: timeouts longer than the clock has run, which wrap around in 64 bits, are only in ArqSweep.Clock; a sweep's clones are followed until they are appended.
- FeedbackLaws.JudgesAsSaid: ranges that wrap past 2^32 are only in ArqModel.Span (ArqTheorems.SpanIsDistance).
- Arq.GtpArq.EncodeFrame: what the encoder draws from the pool is a parameter, as for Encoder.FecEncoder.Encode.
- ArqLosses.CounterIsSheltered: the counter is not followed through 2^32, nor below the head of the feedback's range.
- ArqLosses.RemovedExactly: not stated for new numbers the feedback asks for again at once, where the walk itself (ArqModel.RunWalk) is the description.
- Arq.GtpArq.ProcFeedback: requires ACK bitmaps as long as their range, which the code reads unchecked; the NACK's tail number is not modelled, because neither NACK walk uses it for a decision; the logs and the statistics of the timer (rto_resend, ack_err, ai_repair) are left out, ack_resend is kept inside.
- Sessions.PairSessionMgr.GetGameClientPairSession: the socket comes from the caller; it is none, or not in the index, or the one just closed with the client's old session, which the system may hand out again; per-packet fields outside the index (FEC flags, node address, queues) are left out.
- FecCache.Fec2Buffer.PushPack: max_cached_sn_ is kept, but its wrap-around rule, which uses 2^32 - 1, is not given a meaning.
- The contents of packets, copying into clones, and what PackRetransmit sends: the model follows buffers and references, not bytes.
- FEC encoding and decoding (src/fec2/goodtp_fec2.cpp): the encoder is any sequence of taking, sharing and freeing buffers, the decoder's references count as callers'; what they compute is left out.
- Canaries, running averages, timing statistics and status strings of the pools: diagnostics.
- TimeoutRecoveryBuf and the recovery ring: compiled out by TIMEOUT_FREE_SWITCH.
- Floating-point reporting of the loss rate (get_pkg_loss_rate) and clock reading: the time is a parameter.
- SCTP pseudo-headers, hash mixing, string helpers, address comparators: easy members only.
- Listener index, authentication files, sockets, epoll, threads, daemon setup, command line and logging.
- Order of iteration over the session indexes: any order, since std::unordered_map promises none.
