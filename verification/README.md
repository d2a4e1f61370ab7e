# A verified model of the satellite gateway

The gateway packs packets into GSE packets (ETSI TS 102 606) and DVB-S2 base-band
frames (EN 302 307), takes such frames apart again, reassembles fragmented
packets, and passes buffers between threads over a lock-free ring.  This project
models these parts in Dafny and proves what they promise.

`dafny verify dfyconfig.toml` checks everything.

## What is modelled

* **The ring** (`RingArith`, `RingMachine`, `RingSafety`, `RingRuns`, `RingCalls`, `RingSolo`,
  `RingOvertaken`, `RingBuffer`).
  Threads run enqueue and dequeue calls one memory access at a time, in any
  interleaving.  Decisions use wrapped 32-bit indices only; unbounded positions,
  the log of what was enqueued and what was taken are history.  A run is legal if
  fewer than 2^32 positions are reserved between a thread's load of a head and its
  compare-and-set.  `RingBuffer` is the same code for one thread, on arrays.
* **Packing** (`CircularQueue`, `Fragments`, `Packing`, `Packer`, `FrameWriter`).
  The class `Packer` has the fields of the source's packing state and its methods;
  ghost fields record what was accepted and how each packet was cut.
* **Formats** (`GseFormat`, `HeaderChain`, `Addresses`, `Framing`, `Wire`): the bytes
  written, and the parser with its address filter on arbitrary bytes.
* **Reassembly** (`Reassembly`, `ReassemblyRuns`, `ReassemblyPairs`, `ReassemblyUpsets`,
  `Decapsulator`): functions on slots, theorems about whole sequences of fragments, and
  a class that updates slots, their order and the deliveries in place.  The order is
  kept in the linked lists of `LinkedList`, one for each fragment ID.
* **The whole way** (`Receiver`, `Delivery`, `EndToEnd`): `EndToEnd.Gateway` runs the
  packing thread over any sequence of arrivals and any station's receiver over its
  frames, and delivers exactly what came in.
* **Checksums and block copy** (`Crc`, `CrcRemainder`, `Crc32Table`, `Crc8`, `Memcpy`): table-driven
  and vectorised forms against simple definitions.
* **Containers and ownership** (`LinkedList`, `MbufRefcount`).

## Conditions under which the packer works

They are requirements of the code, kept explicit:

* MODCOD is constant, 1 to 28; the padding threshold is at least 14 (exactly:
  `Packing.TwoMiddlesFlushExactly`) and at most the frame payload.
* Packets have at least 25 bytes (exactly: `Packing.CountFitsExactly`) and at most the
  8064 that a packet buffer holds.
* A packet that stays whole has at most 4093 bytes, one that is cut finds at most 4097
  bytes left, both because the length field has 12 bits, and the cut leaves at least
  four bytes for its last piece (exactly: `Packing.PlaceableExactly`, `GseFormat.EndFoundExactly`,
  `Fragments.CutIsExact`).  Whether all packets of a run meet this can be computed from
  their sizes and the polls (`Packing.RunsThrough`); with packets up to 1974 bytes all
  runs do.
* The payload type is no extension type (exactly: `GseFormat.TypeRecoveredExactly`);
  control messages are dropped by the receiver, so the end-to-end statement excludes
  them.
* Received fragments have at most 1518 bytes and there are at most six to a packet: the
  code copies them into buffers of that size and indexes tables of six with their number.
  The end-to-end statement therefore takes packets of at most 1517 bytes, which
  includes every Ethernet payload and every full frame of 1514 bytes.
* Buffers can be allocated and rings have room for the frames and packets handed on.

## Where code and documentation differ

The model follows the code.

* The ring's comment says that the number of free entries found is always between 0
  and the capacity.  With a stale head it can be larger (`RingOvertaken.FoundBeyondCapacity`;
  exactly when: `RingRuns.FoundExactly`); the compare-and-set fails then
  (`RingRuns.BeyondCapacityFails`), but a call that asked for more still hands the number
  back as free space (`RingRuns.FailedReport`).
* Middle and end fragments carry a protocol type and the sequence header, which clause
  4.2 of ETSI TS 102 606 gives to start packets only.
* The receiver treats stamp 0 like that of a free slot, so a packet stamped 0 is safe
  beside another one only in a certain state (`ReassemblyPairs.ZeroStampExactly`).
* The copy macro asks for 15 readable bytes before the source; when the destination is
  aligned already the code does not copy any first.  The loads then reach back within
  the same 16-byte unit, never further.
* Of a chain of extension headers only the last is taken off the payload's length
  (`HeaderChain.ChainParsed`), and behind a concatenation header the type is read with
  its bytes exchanged (`HeaderChain.ConcatenationExactly`).
* An end fragment that comes twice takes four bytes off the count, and a start that comes
  twice counts for none (`ReassemblyUpsets.RepeatedEnd`, `ReassemblyUpsets.RepeatedStart`).
* `mcs_get_crc32` returns 0 for an empty segment and so loses a running checksum
  (`Crc32Table.SegmentsCompose`).

## Model

| member | source | states |
|---|---|---|
| RingArith.SlotAtPosition | lib/include/rte_ring.h:230-289 | The slot that either copy loop reaches for its k-th element, from a wrapped and masked head, is the slot of the unbounded position. |
| RingSafety.CasIsCurrent | lib/include/rte_ring_generic.h:92-98 | When the compare-and-set on a head succeeds (fewer than 2^32 positions reserved since the load), the head is the one loaded and the block claimed fits what is really free, or really there. |
| RingSafety.ReadIsFresh | lib/include/rte_ring.h:367-387 | What a consumer is about to read is the element that was logged for that position, and nobody has taken it before. |
| RingSafety.StepKeepsInv | lib/include/rte_ring.h:324-387 | Every single memory access of every thread, in both memory-model variants, keeps the whole invariant: order of the four positions, contents of live slots, disjointness of the blocks in work. |
| RingRuns.RunIsFifo | lib/include/rte_ring.h:324-387 | After any interleaving of any number of producers and consumers: cons.tail <= cons.head <= prod.tail <= prod.head <= cons.tail + capacity, and what has been released is, in order, exactly a prefix of what was enqueued. |
| RingCalls.CountTaken | lib/include/rte_ring_generic.h:76-98 | A call that has loaded both indices takes as many as it asked for if the room and what was reserved since its load are enough; if not, a fixed call takes none and a variable one takes all there are; and it is finished at once exactly if that is none. |
| RingCalls.RunServes | lib/include/rte_ring.h:306-387 | Over any run a thread keeps the count, behavior and table of the call it was begun with until that call is finished. |
| RingCalls.FinishedCall | lib/include/rte_ring.h:306-387 | A finished call, after any run: it was granted all, or all there were, or nothing, as its behavior says, and has moved one block of that many consecutive elements: the first of the caller's table, or what the caller's table now holds. |
| RingSolo.FinishesAlone | lib/include/rte_ring.h:324-387 | A call that runs while nobody else moves finishes after a number of steps known ahead; an enqueue appends exactly the elements it was granted, a dequeue takes exactly the first ones of the queue, a burst as many as there are. |
| RingRuns.RunExtendsHistory | lib/include/rte_ring.h:324-387 | Later steps never change what was enqueued or taken earlier. |
| RingRuns.FixedFailure | lib/include/rte_ring_generic.h:84-90 | A fixed-count call gives up exactly if the room and what was reserved since it loaded the head are too little, and then the ring itself lacks room (or items) at that moment. |
| RingRuns.FoundExactly | lib/include/rte_ring_generic.h:76-82 | A call finds exactly the room (or entries) there is, plus what others have reserved since it loaded the head; so the promise of the comment, never more than the capacity, fails exactly if more has been reserved since than the ring holds (or lacks). |
| RingOvertaken.FoundBeyondCapacity | lib/include/rte_ring_generic.h:60-98 | A run of two threads from the new ring in which the promise fails: on a ring of capacity three a producer finds four free entries, and reports four if it asked for more. |
| RingRuns.BeyondCapacityFails | lib/include/rte_ring_generic.h:92-98 | A call that found more than the capacity fails at its compare-and-set. |
| RingRuns.CasSucceedsExactly | lib/include/rte_ring_generic.h:92-98 | The compare-and-set succeeds exactly if nobody has reserved anything on that side since the head was loaded. |
| RingRuns.FailedReport | lib/include/rte_ring.h:324-342 | A call that moves nothing reports exactly the room there is plus what was reserved since it loaded the head: never too little, too much exactly when overtaken, above the capacity exactly as in `FoundExactly`, and less than a fixed-count call asked for. |
| RingRuns.SuccessReport | lib/include/rte_ring.h:339-341 | A call that reserves a block reports at most the room left behind it, and exactly that if and only if the other side has released nothing since its tail was loaded. |
| RingRuns.ReportedSpace | lib/include/rte_ring.h:382-385 | After any run a finished call that moved something has reported the room behind its block up to a tail that has been reached, never more than the capacity less its block. |
| RingRuns.FrontCanPublish | lib/include/rte_ring_generic.h:13-31 | As long as a block is unpublished, the thread whose turn it is exists and finds its wait over. |
| RingRuns.RunKeepsCovered | lib/include/rte_ring_generic.h:13-31 | Every reserved and unpublished position belongs to a thread on its way to publish it, after any run. |
| RingRuns.C11RefinesGeneric | lib/include/rte_ring_c11_mem.h:13-179 | Every run of the C11 variant is a run of the generic variant with the same final state. |
| RingBuffer.StoreAppends | lib/include/rte_ring.h:230-256 | Storing a block from the masked head on, going round at the end, appends it to the queue and disturbs nothing in it. |
| RingBuffer.BlockIsQueuePrefix | lib/include/rte_ring.h:261-289 | The block read from the masked head on is the front of the queue. |
| RingBuffer.Ring.EnqueuePtrs | lib/include/rte_ring.h:230-256 | The store loops (groups of four and rest, or two stretches) lay down exactly the n objects. |
| RingBuffer.Ring.DequeuePtrs | lib/include/rte_ring.h:261-289 | The load loops fetch exactly the n elements and leave the rest of the table alone. |
| RingBuffer.Ring.DoEnqueue | lib/include/rte_ring.h:324-344 | Fixed: all or nothing; variable: as much as fits; the queue grows by exactly that, and the free space reported is what remains. |
| RingBuffer.Ring.DoDequeue | lib/include/rte_ring.h:366-387 | The front of the queue goes to the table and leaves the queue; the number still available is reported. |
| RingBuffer.Ring.CountIsLength | lib/include/rte_ring.h:686-740 | The count from masked 32-bit tails is the queue's length, and zero exactly for the empty queue. |
| MbufRefcount.StepKeepsInv | lib/include/rte_mbuf.h:365-382 | Adding references, handing them over and freeing them, with the non-atomic paths for a count of 1, keep the count equal to the references held until the last one goes. |
| MbufRefcount.ReleasedOnce | lib/include/rte_mbuf.h:1176-1224 | In every interleaving at most one call gets the buffer; then no reference is left, the count is 1 and the buffer is unchained; and when all threads are idle, one call has got it exactly if no reference is left. |
| MbufRefcount.HeldExactly | lib/include/rte_mbuf.h:365-382 | In every interleaving a thread with no update under way holds exactly what it began with, plus what it added and was handed, less what it released and handed on; while anybody holds a reference, the count is the number held. |
| MbufRefcount.NothingAfterReturn | lib/include/rte_mbuf.h:1176-1224 | After that call no thread has anything left to do with the buffer. |
| Memcpy.AlignrLoads | lib/include/rte_memcpy.h:575-622 | The unaligned sixteen bytes come out of the two loads around them, for every offset. |
| Memcpy.MoveUnaligned | lib/include/rte_memcpy.h:575-622 | The block loops end with 1 to 47 bytes left, the loads stay inside the source, and everything before the position is copied. |
| Memcpy.Back64 | lib/include/rte_memcpy.h:737-756 | The tail copies up to 64 bytes, stepping back over at most 15 bytes copied already. |
| Memcpy.CopyGeneric | lib/include/rte_memcpy.h:658-799 | For every length and alignment the destination range becomes the source range and no other byte changes. |
| Memcpy.CopyAligned | lib/include/rte_memcpy.h:803-861 | The same for the variant used when both ends are at a multiple of 16. |
| Memcpy.Copy | lib/include/rte_memcpy.h:863-870 | The dispatching copy is a byte copy: exactly `n` bytes, nothing before, nothing behind. |
| Crc.FeedIsSerial | src/general_module.c:115-137 | The byte step of the table is eight steps of the bit-serial reflected register. |
| Crc.ShiftIsReversedDivision | src/general_module.c:307-321 | The reflected step is, read backwards, one step of division by 0x04C11DB7. |
| CrcRemainder.ChecksumIsRemainder | src/general_module.c:355-368 | For every message: the checksum is the complement of the remainder that long division by 0x04C11DB7 leaves of the message's bits, low bit first, the first 32 of them complemented and 32 zeros behind, read from the other end. |
| CrcRemainder.CheckValue | src/general_module.c:355-368 | The nine characters 123456789 have checksum 0xCBF43926, and the empty message 0. |
| Crc.BurstDetected | src/general_module.c:355-368 | Two messages of equal length that differ only within four consecutive bytes have different CRC-32. |
| Crc.FeedAllAppend | src/general_module.c:170-186 | The running checksum over a concatenation continues from the one over the front. |
| Crc32Table.BitRev32 | src/general_module.c:307-321 | The loop reverses the 32 bits. |
| Crc32Table.InitTable | src/general_module.c:324-343 | Entry k of the table is the byte step of k, for the reversed generator. |
| Crc32Table.LookupTable | src/general_module.c:355-368 | The table-driven checksum is the CRC-32 of the bytes. |
| Crc32Table.GetCrc32 | src/general_module.c:170-186 | The segment form continues a checksum; an empty segment yields 0 and loses it. |
| Crc32Table.SegmentsCompose | src/general_module.c:161-186 | Checksumming in two segments is checksumming the whole exactly if both have bytes, both are empty, or the register that an empty one replaces by 0 was 0 already. |
| Crc32Table.ManySegments | src/general_module.c:161-186 | Any number of non-empty segments yields the checksum over their concatenation. |
| Crc8.WideIsNarrow | src/general_module.c:79-107 | The builder's unmasked 32-bit value has the right low byte after every shift. |
| Crc8.InitTable | src/general_module.c:79-107 | Entry k of the table is eight division steps of k by 0xD5. |
| Crc8.Lookup | src/general_module.c:145-159 | The table-driven checksum is the CRC-8 of the bytes. |
| Crc8.FeedIsSerial | src/general_module.c:79-107 | The byte step is eight steps of the bit-serial register, most significant bit first. |
| Crc8.NothingRemains | src/general_module.c:145-159 | A message followed by one byte leaves no remainder exactly if that byte is the message's checksum. |
| Crc8.CheckValue | src/general_module.c:145-159 | The nine characters 123456789 have checksum 0xBC, and the empty message 0. |
| Crc8.SingleByteDetected | src/general_module.c:145-159 | Changing one byte of a message changes its checksum. |
| GseFormat.Measured | src/encapsulate_gse.c:541-600 | The lengths the packer computes ahead are those of the bytes written later. |
| GseFormat.RoundTrip | src/decapsulate.c:1276-1370 | Whole, start, middle and end packets, with any label type and zero or one fragment-sequence header, are read back wherever they stand: indicators, label type, ID, total length, sequence value, type, payload and size. |
| GseFormat.FixedFields | src/encapsulate_gse.c:470-530 | The first sixteen bits from the high one down: start and end indicator, the label type (0 six bytes, 1 three bytes, 2 broadcast, 3 reuse), and the length. |
| HeaderChain.ChainPassed | src/decapsulate.c:1108-1149 | A chain of any number of time-stamp and sequence headers is passed to its end, with the type named last, the last sequence value, and only the last header's size. |
| HeaderChain.ChainParsed | src/decapsulate.c:1108-1155 | A packet with such a chain: end, type and sequence value come out right, and the payload from its first byte on; but only the last header is taken off its length, so the length is right exactly if there is one header, and else too long by the sizes of the others. |
| HeaderChain.ConcatenationExactly | src/decapsulate.c:1382-1467 | Behind a concatenation header the type is read with its bytes exchanged, right exactly if they are equal. |
| Wire.HeadBits | src/decapsulate.c:1276-1300 | Of any first two bytes, the parser reads start from the bit 0x80, end from 0x40, label type from the next two and length from the twelve low ones. |
| Wire.WholeOnTheWire | src/encapsulate_gse.c:470-600 | The bytes of a packet sent whole: 0xE and twelve bits of length, type, packet. |
| Wire.PieceOnTheWire | src/encapsulate_gse.c:226-321 | The bytes of a start, middle or end piece: 0xA, 0x2 or 0x6 and twelve bits of length, ID, in a start the total length, type 0x0202, stamp and number, type, the piece, and behind an end the checksum of the whole packet. |
| Wire.FrameOnTheWire | src/encapsulate_frame.c:591-708 | The bytes of a frame: address and layer headers with the lengths of what follows, the base-band header with the data length in bits and its checksum, the packets, and zeros. |
| Addresses.EqualMac | src/general_module.c:987-1002 | Whether two addresses agree in their first bytes. |
| Addresses.ScreenedExactly | src/decapsulate.c:2198-2262 | Read from its bytes, a packet passes the address filter exactly if its address is the station's (six bytes, or the first three), or it is broadcast, or it reuses a label and the packet before it in the frame has passed; what the filter remembers from earlier frames never matters. |
| Addresses.BroadcastPasses | src/decapsulate.c:2213-2218 | A broadcast packet passes always, as the first one of a frame too. |
| GseFormat.LengthRecovered | src/decapsulate.c:1799 | In a start packet, total length minus header length is the packet's own length. |
| GseFormat.TypeRecoveredExactly | src/decapsulate.c:1108-1155 | The payload type is recovered exactly if it is none of the three extension types. |
| GseFormat.EndFoundExactly | src/encapsulate_gse.c:525-526 | The parser finds the end of a packet exactly if its length fits the 12-bit field. |
| Framing.FrameExact | src/encapsulate_frame.c:591-708 | Header, packets and padding add up to the announced frame size, and the message fits the 7373-byte buffer. |
| Framing.HeaderAccepted | src/decapsulate.c:874-950 | The receiver takes the header of every frame that is built, and recovers frame size and padding from it; the length in bits loses nothing in 16 bits. |
| Framing.WalkVisits | src/decapsulate.c:1076-1253 | Of the packets written, with any labels, the parse loop takes exactly those for the station, in order, and stops behind the last. |
| Framing.ForEveryStation | src/encapsulate.c:123-134 | Packets that are all broadcast are taken by every station, all of them. |
| Framing.MessageReadBack | src/decapsulate.c:992-1260 | A frame with packets, parsed as a whole, shows a station those of the packets that are for it and nothing else, whatever frames came before. |
| Framing.AcceptedExactly | src/decapsulate.c:874-950 | A frame is taken apart exactly if it has Ethernet type 0x9101, one of the two message kinds, a generic stream and the right checksum; of any other nothing is shown. |
| Framing.HeaderChangeRejected | src/decapsulate.c:2145-2166 | Any change to one of the nine covered header bytes makes the receiver drop the frame. |
| FrameWriter.WritePacket | src/encapsulate_frame.c:338-446 | A packet's bytes are appended to the buffer; the packet's memory is given back for whole packets and end fragments only. |
| FrameWriter.WriteFrame | src/encapsulate_frame.c:290-498 | The message written is the frame of these packets, of exactly the announced size, and the buffers given back are those of its whole packets and end fragments, in order. |
| CircularQueue.Queue.Push | src/circular_queue.c:54-96 | Into a queue that is not full: the contents grow by the element at the end. |
| CircularQueue.Queue.Pop | src/circular_queue.c:99-127 | The first element goes; popping the empty queue leaves it empty. |
| CircularQueue.Queue.GetElement | src/circular_queue.c:148-164 | Element pos of the contents; of the empty queue, the slot that unsigned arithmetic reaches from head -1. |
| CircularQueue.Queue.SetElement | src/circular_queue.c:167-176 | Replaces element pos of the contents and nothing else; once round it is element 0; between the contents and the end it changes no element. |
| CircularQueue.Popped | src/circular_queue.c:99-127 | Moving the head on by one, around the end, drops the first element and keeps the tail right. |
| Fragments.CutIsExact | src/fragment.c:148-190 | The pieces cover the packet without gap or overlap exactly if the remainder behind the start leaves at least four bytes for the last piece. |
| Fragments.SixPiecesSuffice | src/fragment.c:148-169 | Packets up to 8064 bytes are cut into two to six pieces, at every MODCOD. |
| Fragments.TornPacket | src/fragment.c:162 | A packet for which the cut is not exact: 2961 bytes with 1000 bytes left at MODCOD 1. |
| Fragments.FragmentTable.AllocateId | src/fragment.c:205-234 | The first free ID behind the last one given out, going round; none exactly if all are in use. |
| Fragments.FragmentTable.DoFragment | src/fragment.c:253-265 | The cut packet is filed under the next free ID with the whole packet's checksum, and the ID is queued; with no ID free nothing changes; the queue is never full then. |
| Fragments.FragmentTable.Fetch | src/encapsulate.c:384-465 | The next piece of the first queued packet is handed out and counted, and the ID is free after the last; the empty queue never yields a piece. |
| Fragments.RoomForOneMore | src/circular_queue.c:54-73 | While an ID is free the queue of the distinct IDs in use is not full, so the branch for a full queue is never taken. |
| Packing.PieceLength | src/encapsulate_gse.c:226-321 | The GSE packet of a start, middle or end piece has 11, 9 or 13 bytes besides its data, and fits the 12-bit length. |
| Packing.ContinuationFits | src/fragment.c:153-160 | A middle or end piece always fits the frame it comes into, also as second middle piece of a frame above 4095 bytes. |
| Packing.TwoMiddlesFlushExactly | src/encapsulate.c:253-257 | After two middle pieces the frame is flushed, at every MODCOD, exactly if the threshold is at least 14. |
| Packing.CountFitsExactly | include/define_struct.h:254 | An 8-bit count of GSE packets is enough for every frame exactly if packets have at least 25 bytes. |
| Packing.CutIsGood | src/fragment.c:148-190 | A packet that does not fit gets pieces that cover it, of sizes every later step can carry, and a start that fills the frame to the last byte, exactly if it is placeable. |
| Packing.PlaceableExactly | src/fragment.c:148-190 | What comes next from a packet of 25 to 8064 bytes fits its 12-bit length and covers the packet exactly if: it fits the frame and has at most 4093 bytes, or it does not fit, at most 4097 bytes are left, and the cut leaves at least four bytes for the last piece. |
| Packing.ShortPacketsPlaceable | src/fragment.c:148-169 | Packets up to 1974 bytes are placeable at every room and every MODCOD. |
| Packing.ShortRunsThrough | src/encapsulate.c:1183-1263 | Any sequence of arrivals of such packets is placeable throughout. |
| Packing.ThreePieces | src/fragment.c:148-169 | A run in which a packet is cut in three: 4000 bytes on an empty frame of MODCOD 1. |
| Packing.PiecesLeave | src/encapsulate.c:242-257 | The room left when all pieces are sent is the one computed from the sizes of the cut alone. |
| Packing.TakenUpNext | src/encapsulate_gse.c:245-284 | One more cut packet: its ID is counted once more, modulo 8192 and not for the very first packet, and no other ID is. |
| Packing.StampsTellApart | src/encapsulate_gse.c:245-284 | Cut packets of one ID lie a multiple of 256 cut packets apart, and their stamps differ by that multiple modulo 8192: consecutive ones by 1, and any with fewer than 8192 uses of the ID from one to the other are told apart. |
| Packer.Packer.StampsOfRun | src/encapsulate_gse.c:245-284 | The same of every state that is reached: the IDs of the cut packets go round beginning with 1, and their stamps tell packets of one ID apart. |
| Packer.Packer.UpdatePduGroup | src/encapsulate_gse.c:226-321 | The GSE packet made of what is in hand, with length; a fragment is stamped with how often its ID was taken up, modulo 8192, the same for all its pieces. |
| Packer.Packer.MakeFrame | src/encapsulate.c:140-159 | The queued packets go out as one frame, their buffers are given back, and the next frame starts untouched. |
| Packer.Packer.GetFragPkt | src/encapsulate.c:190-206 | Takes the next piece of the packet being sent, exactly if there is one, and brings it in hand with the sequence number and stamp it must carry. |
| Packer.Packer.FragmentProcess | src/encapsulate.c:323-355 | The packet is cut and its start leaves in a frame filled to the last byte. |
| Packer.Packer.EncapsulatePacket | src/encapsulate.c:222-312 | A packet that fits stays whole and the frame goes out exactly if less than the threshold is left; one that does not fit is cut; branch 1.2.1 is never taken. |
| Packer.Packer.EncapsulatePiece | src/encapsulate.c:242-257 | A continuation piece is never cut again; the frame goes out exactly if less than the threshold is left. |
| Packer.Packer.EncapsulateIslBb | src/encapsulate.c:222-320 | Between any two calls used + usable is the payload, used is the sum of the queued lengths, at least the threshold is usable, and sent, queued and pending packets are in order all that the accepted packets require. |
| Packer.Packer.ForceSend | src/encapsulate.c:162-180 | A frame under construction goes out as it is; without one nothing happens. |
| Packer.Packer.Drain | src/encapsulate.c:1199-1215 | All pieces of the packet that was cut go out before anything else; the loop ends. |
| Packer.Packer.Round | src/encapsulate.c:1196-1263 | One round of the thread, for every packet that is placeable when it arrives, cut in however many pieces: it accepts exactly that packet, leaves the room predicted from sizes and polls alone, and after a hundred idle rounds nothing stays queued, and before that an idle round leaves the frame alone. |
| Packer.Packer.EncapsulateThread | src/encapsulate.c:1183-1263 | For every sequence of arrivals of 25 to 8064 bytes in which each packet is placeable when it arrives (decided ahead from sizes and polls), the packets are accepted in order and the packer's invariant holds throughout; and when a hundred polls in a row have brought no packet, everything accepted has been sent. |
| Packer.Packer.Flush | src/encapsulate.c:162-180 | After a final drain and forced send, the frames sent carry, in order, exactly what the accepted packets require, and every buffer has been given back once. |
| Packer.Packer.BuffersOwned | src/encapsulate_frame.c:405-446 | In every reachable state the buffers given back are those of the first k packets, once each; all pieces of these are in frames sent, and not all of the next packet's. |
| Packer.ClosersOfAll | src/encapsulate_frame.c:405-446 | Over a finished run each packet's buffer is given back exactly once. |
| Reassembly.StoreKeepsHolds | src/decapsulate.c:1712-1990 | Storing one more piece keeps a slot's counters, lengths and data those of the pieces received, and reports completeness exactly with the last one missing. |
| Reassembly.FinishYields | src/decapsulate.c:1998-2135 | A full slot yields the concatenation of its pieces exactly if the checksum matches. |
| ReassemblyRuns.OrderIndependent | src/decapsulate.c:1712-2135 | From free slots, any arrival order of any of a packet's 2 to 6 distinct pieces hands the packet out with the last missing one, exactly if the checksum matches, and nothing before. |
| ReassemblyRuns.AnyPermutationDelivers | src/decapsulate.c:1712-2135 | Every permutation of all pieces delivers the packet and leaves the slots free. |
| ReassemblyPairs.InterleavingIndependent | src/decapsulate.c:1738-1762 | Two packets that share an ID and have different non-zero stamps come out, for every interleaving, as two separate receivers would hand them out. |
| ReassemblyPairs.ZeroStampExactly | src/decapsulate.c:1739-1746 | With one stamp 0 this holds for every interleaving exactly if slot 1 is the next to be taken. |
| ReassemblyPairs.ZeroStampLoses | src/decapsulate.c:1768-1779 | Otherwise: an interleaving in which the packet stamped 0 is lost. |
| ReassemblyUpsets.StartTakesOver | src/decapsulate.c:1764-1789 | A start whose stamp is in neither slot takes over the slot whose turn it is; the slot then holds exactly the first piece, if and only if a piece that counts lay there or nothing at all; the other slot is as it was. |
| ReassemblyUpsets.TakeoverDelivers | src/decapsulate.c:1712-2135 | Whatever incomplete packets are in the slots, a packet of another stamp whose start comes first is handed out with its last piece, in every order of the rest, exactly if its checksum is right. |
| ReassemblyUpsets.RepeatedMiddle | src/decapsulate.c:1931-1971 | A middle piece that comes again changes nothing, exactly if it has any bytes. |
| ReassemblyUpsets.RepeatedEnd | src/decapsulate.c:1931-1966 | An end piece that comes again takes four bytes off the count of bytes and changes nothing else; below four, beside a start, the packet is refused. |
| ReassemblyUpsets.RepeatedStart | src/decapsulate.c:1780-1797 | A start that comes again drops the other pieces and counts for none itself. |
| ReassemblyUpsets.StartRefusedExactly | src/decapsulate.c:1799-1841 | A start is refused exactly if the length it announces and four bytes do not fit a packet buffer; the slot is free then. |
| ReassemblyUpsets.LaterRefusedExactly | src/decapsulate.c:1938-1966 | A new later piece is refused exactly if the start is there and the bytes received would be more than announced; the slot is free then. |
| Decapsulator.FillFirst | src/decapsulate.c:1766-1868 | The field-by-field updates for a start fragment are the storing function, return code included. |
| Decapsulator.FillLater | src/decapsulate.c:1930-1990 | The same for middle and end fragments. |
| Decapsulator.Assemble | src/decapsulate.c:1998-2135 | The assembly loop and its checks are the finishing function. |
| Decapsulator.Receiving.FindSlot | src/decapsulate.c:1738-1762 | The slot with the stamp; else the one in front of the linked list of this fragment ID, which goes to the back. The lists of all other IDs stay as they are. |
| Decapsulator.Receiving.StartReassemble | src/decapsulate.c:1712-1868 | Changes what is kept for this fragment ID as specified, and nothing kept for any other; a start that is not numbered 0 is refused and changes nothing. |
| Decapsulator.Receiving.KeepReassemble | src/decapsulate.c:1880-1990 | The same for later fragments. |
| Decapsulator.Receiving.HandlePacket | src/decapsulate.c:1151-1245 | One GSE packet changes state and deliveries as specified, whichever kind it is. |
| Decapsulator.Receiving.FilterAddress | src/decapsulate.c:2198-2262 | The filter's decision and what it remembers are those of the filter function, for every label. |
| Decapsulator.Receiving.Decapsulate | src/decapsulate.c:992-1260 | A frame's effect is that of its packets for this station one after the other; a rejected frame has none; the loop ends on every input. |
| Delivery.PiecesJoin | src/encapsulate.c:408-433 | The first t pieces fetched are the packet's bytes up to the offset of piece t. |
| Delivery.AllPiecesJoin | src/encapsulate.c:408-433 | All pieces, with the checksum behind the last, are the packet and its checksum. |
| Delivery.TwoPieces | src/fragment.c:148-190 | A packet of at most 1517 bytes is cut in two, and both pieces fit the receive buffers. |
| Delivery.PieceParsed | src/decapsulate.c:1108-1199 | Piece t, sent and parsed, is fragment t as the reassembly expects it, under the sender's ID, stamp and number. |
| Delivery.WholeExactly | src/decapsulate.c:1159-1178 | A packet sent whole is handed out as it is, exactly if it is no control message, and touches no slot. |
| Delivery.OneDelivered | src/decapsulate.c:992-1260 | The GSE packets of one packet make an idle receiver hand out that packet and be idle again. |
| Delivery.AllDelivered | src/decapsulate.c:992-1260 | Packets sent one behind the other come out one behind the other. |
| EndToEnd.FramesShow | src/decapsulate.c:992-1260 | The frames sent show the parser of every station the packets queued for them, frame boundaries and address filter notwithstanding. |
| EndToEnd.RunShown | src/decapsulate.c:992-1260 | Whatever such a run has sent, middle pieces included, the parser of every station meets exactly the GSE packets that the accepted packets require, in order. |
| EndToEnd.SendAll | src/encapsulate.c:1183-1263 | Packing thread, last drain and forced send over every such sequence: the frames carry exactly what the packets require, in order, and every buffer is given back once. |
| EndToEnd.FramesDeliver | src/encapsulate.c:162-357 | Whatever frames were sent for these packets, an idle receiver of any station hands out exactly the packets, in order. |
| EndToEnd.Gateway | src/encapsulate.c:1183-1263 | For every sequence of arrivals, every MODCOD, threshold and station: packing thread, final forced send and receiver together deliver exactly the packets that came in, in order, and give every buffer back once. |
| LinkedList.List.Push | src/list_template.c:453-479 | Appends a node to a list whose tail is null, the sentinel or the last node; all links stay right both ways. |
| LinkedList.List.Remove | src/list_template.c:185-221 | Takes a node out wherever it is; removing the only one leaves the sentinel as tail; size and bytes follow. |
| LinkedList.List.GetHeaderData | src/list_template.c:304-318 | The first node, or null. |
| LinkedList.List.TakeAndRequeue | src/decapsulate.c:1753-1760 | Taking the first slot and putting it back rotates the list, also with one node; size and bytes are conserved. |
| LinkedList.Append | src/list_template.c:482-525 | All nodes of one list go to the end of the other and the first is empty afterwards; an empty source is refused. |

## Left out

- `Packer.Packer.EncapsulateThread`: what becomes of a run after a packet that is not placeable is not modelled; the code goes on with a torn packet or a wrong length field (`Fragments.TornPacket`, `GseFormat.EndFoundExactly`).
- `Packer.Packer.UpdatePduGroup`: one packet per GSE packet and broadcast labels, as on the path in use; concatenation of packets and mandatory extension headers are never produced there.
- `EndToEnd.Gateway`: takes packets up to 1517 bytes, because longer ones may be cut into pieces that no receive buffer holds; up to the parser `EndToEnd.RunShown` covers them. The frames reach the receiver complete and in order; losses and reordering of frames are covered for one and two packets only, by the reassembly theorems.
- `Decapsulator.Receiving.Decapsulate`: packets inside a concatenation are dropped, as the code does after copying them; bytes behind the end of a message read as 0.
- `ReassemblyRuns.OrderIndependent`: takes distinct pieces; what one piece that comes twice does to a slot is stated by `ReassemblyUpsets`, whole runs with repeated pieces are not.
- `Decapsulator.FillLater`: a fragment numbered 6 or 7, or one longer than 1518 bytes, is written outside its table or buffer by the code; `Receiver.Receivable` excludes both.
- `Fragments.FragmentTable.Fetch`: the macro that recognises an invalid ID is in include/fragment.h, which is not part of this model; IDs below 0 are taken as invalid.
- `CircularQueue.Queue.Push`: the branch for a full queue is not modelled; it is never reached (`Fragments.RoomForOneMore`).
- `LinkedList.List.Remove`: removing the sentinel itself is not modelled; list nodes are the only ones passed.
- `MbufRefcount.StepKeepsInv`: detaching an indirect buffer and the return into the memory pool are not modelled.
- `Memcpy.MovBlocks`: the source's unrolled moves of 32 to 256 bytes, and the rounds of the unaligned loop, are loops here.
- `RingMachine`: atomics are indivisible and loads happen in program order; weaker hardware orderings are not modelled.
- Message header: two unset bytes, the port's own address and the physical-layer code are parameters; the Ethernet header is taken to have 14 bytes, its declaration is not part of this model.
- include/fragment.h, include/general_module.h, include/list_template.h and include/global_var.h are not part of this model.
- Timeouts of fragments, eviction of a slot that has received later pieces only, ARP and routing, tunnels, sockets, threads, statistics, logging and configuration.
- `encapsulate_pdu` and `decapsulate_pdu`, the multi-packet formats of other ports.
- AVX2 and AVX512 copies, the per-core cache of the memory pool, the pacing of the send loop.
