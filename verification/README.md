# Verified model of the ionic driver's protocols

ionic is a Linux network driver; pciesvc, in the same repository, emulates the
PCIe device behind it.  This project models the parts of the two whose
correctness is an argument rather than a formality, and proves that argument for
every input, every interleaving or every run:

| part | files | what is proved |
|---|---|---|
| descriptor and completion rings | `RingIndex`, `CompletionRing`, `TxCompletion` | the colour bit is set exactly on fresh completions, in every interleaving of driver and device |
| transmit books | `TxBooks`, `TxQueue`, `TxCompletion` | each DMA mapping is released once, each packet given back once, bytes sent minus bytes completed are the bytes in the ring |
| transmit flow control | `StopWake` | no lost wakeup, exactly when no packet asks for a whole ring; every granted packet is posted |
| segmentation | `TsoSpec`, `Tso`, `TsoPrescan` | the descriptors carry the packet's bytes in order, and the pre-scan agrees with the segmentation |
| receive pages | `RxPageSpec`, `RxPages` | the device never writes bytes an skb still holds; references and mappings are accounted for exactly |
| receive scatter and gather | `RxScatter` | the skb is the packet, for every MTU and page layout |
| receive filters | `FilterBuckets`, `FilterIndex`, `FilterReplay`, `FilterTable`, `FilterSpec`, `FilterRace`, `FilterRestart`, `FilterSync` | both hash tables index one set; after a sync the device receives exactly what was asked for, or everything on overflow; a delete racing with an add is not lost |
| firmware recovery | `FwRecovery` | the flag protocol, in every interleaving of watchdog, events, worker and queue starts |
| interrupt budget | `Interrupts` | every accepted channel layout finds its vectors, whatever RDMA holds |
| capability walks | `CfgSpace` | complete on every configuration space, cyclic lists included |
| interrupt moderation | `Dim` | ranges, parking and the apply handshake, for every measurement stream |
| clock scaling | `Phc` | smallest covering mask, exactly when the ratio is kept, and the exact product bounds |
| event queue | `EventQueue` | single producer, single consumer: in order, unmodified, no unannounced loss |

Code that changes state in place is modelled by classes and loops, each proved
against a function or state machine on values; the theorems are about those.
State machines take one read or write of a shared variable per step, so their
theorems hold for every sequentially consistent interleaving.  The device, the
firmware, the page allocator, the DMA layer and the network stack appear as
actors with their own steps or as parameters over which the theorems quantify.

`dafny verify dfyconfig.toml` checks the whole project.

## Where the code and its promises differ

- A DMA mapping at bus address 0 is taken for a failed one
  (`ionic_txrx.c:1267-1279`): it is never released.  `TxQueue.StopsAt` says
  exactly when, `TxQueue.ZeroAddressLeaks` gives the input; everything else is
  released once.
- A GSO packet that needs as many descriptors as the ring has slots stops an
  empty queue for good, and the driver sets no limit that excludes it.
  `StopWake.NoLostWakeupIff` proves that this is the only way to lose a wakeup.
- The pre-scan can be trusted if and only if the linear part is exactly the
  header: `TsoPrescan.ScanRightIff`.  With less in it, it accepts packets that do
  not fit.  With more, it reads fragment lengths past the last fragment, and what
  it finds there decides (`TsoPrescan.LongHeadDependsOnMemory`).
- Descriptor lengths are 16 bits wide (`ionic_txrx.c:1599`, `ionic_txrx.c:1687`):
  every packet of a given length, header and mss reaches the device whole if and
  only if its first segment, min(len, hdrlen + mss), is below 65536 bytes:
  `TsoSpec.WholeIff`, `Tso.Segment`, `TsoSpec.LinearTooLong`.
- A frame length is truncated to 16 bits before it is posted
  (`ionic_txrx.c:983`), so 65536 bytes post no room: `RxScatter.Capacity`,
  `RxScatter.FullLengthPostsNothing`.
- Copybreak copies from the first buffer on, past its end if need be, while
  ethtool accepts limits up to 65535.  `RxScatter.CopyBreakIff` gives the lengths
  it gets right, and `RxScatter.CopyBreakLimitIff` shows that every limit above a
  page split is too large.
- The comment above the clock scaling promises bounds that hold exactly when the
  quotient is 1 (`PhcSpec.CommentHoldsIff`, `PhcSpec.CommentFails`); the bounds that always hold are in
  `PhcSpec.ScaledProduct`.  Shifts in a narrow range wrap the 32-bit test and
  make the 64-bit shift undefined (`Phc.ScaleMult`).
- The ratio of multiplier and shift is kept if and only if the raised shift does
  not wrap at 32 bits (`Phc.RatioIff`); for the two largest device shifts it can,
  and then the clock runs at another rate (`Phc.RatioLost`).
- If firmware refuses the add of an address that is deleted meanwhile, the next
  delete takes filter id 0 from firmware, whosever it is, while the driver keeps
  that filter as installed: `FilterRace.RefusedRaceDeletesAnother`.
  `FilterRace.RaceIff` proves that this is the only way such a race upsets the
  books.
- A delete that lands after a sync has copied a NEW filter and before its turn to
  be added is lost: `FilterRace.StaleCopyIff`, `FilterRace.StaleCopyExample`.
- A LIF can be left under FW_RESET with nothing to restart it while firmware stays
  up with the same generation (`FwRecovery.StrandedForGood`).  `FwRecovery.StrandedBy`
  gives the two ways: a restart that fails (`FwRecovery.FailedRestartExample`), and
  a teardown that ends after the watchdog has already seen the new firmware
  (`FwRecovery.TeardownExample`).
- A replay after a restart posts NEW filters too and touches no counter.  The sync
  books survive it if and only if firmware accepts exactly the filters that were
  installed before: `FilterRestart.RestartExactIff`,
  `FilterRestart.RestartInstallsNew`.
- In a kdump kernel, which is limited to the two vectors the code calls the
  minimum, sizing always gives up on a device with an RDMA event queue:
  `LifSizing.KdumpFitsIff`.

## Model

| member | source | states |
|---|---|---|
| `RingIndex.MaskIsWrap` | drivers/linux/eth/ionic/ionic_txrx.c:1405 | masking an index advance with size - 1 is the wrap to 0, for every power-of-two ring size and every 32-bit index |
| `RingIndex.SpaceAvailExact` | drivers/linux/eth/ionic/ionic_dev.h:349-359 | the space computed from the two wrapped indices is the ring size less one less the entries in the ring, for every pair of absolute counts |
| `RingIndex.EmptyExact` | drivers/linux/eth/ionic/ionic_txrx.c:1475 | equal indices mean an empty ring, and only then, as long as a slot is kept free |
| `RingIndex.GrantedSpaceKeepsGap` | drivers/linux/eth/ionic/ionic_dev.h:361-364 | a space check is granted exactly when posting that many descriptors still leaves the head short of the tail |
| `CompletionRing.SanitizedInv` | drivers/linux/eth/ionic/ionic_lif.c:843-854 | a sanitized queue satisfies the protocol invariant |
| `CompletionRing.UnreadBounded` | drivers/linux/eth/ionic/ionic_txrx.c:1383-1418 | unread completions number at most the descriptors posted and not cleaned, so at most ring size less one: the completion ring is never overrun |
| `CompletionRing.ColorIffFresh` | drivers/common/ionic_if.h:199-202 | in every state of the protocol the colour test succeeds if and only if the slot holds a completion not read before |
| `CompletionRing.FreshCompletion` | drivers/linux/eth/ionic/ionic_txrx.c:1398-1412 | an accepted completion is the oldest unread one and names the last of a non-empty block of posted descriptors starting at the tail, so the cleaning loop stops and never passes the head |
| `CompletionRing.CompleteKeepsInv` | drivers/common/ionic_if.h:199-202 | a device that completes any number of posted descriptors with one colour-tagged entry keeps the invariant |
| `CompletionRing.ServiceKeepsInv` | drivers/linux/eth/ionic/ionic_dev.c:768-792 | so does a turn of the service loop, including the colour flip at the end of the ring |
| `CompletionRing.RunKeepsInv` | drivers/linux/eth/ionic/ionic_dev.c:768-792 | so does every interleaving of posts, completions and services |
| `CompletionRing.EveryInterleaving` | drivers/linux/eth/ionic/ionic_txrx.c:1383-1437 | from a sanitized queue, in every interleaving: accepted iff fresh, fewer than a ring of unread completions, tail not past completed not past head |
| `CompletionRing.EveryRxInterleaving` | drivers/linux/eth/ionic/ionic_txrx.c:894-919 | with one completion per descriptor, the extra checks of the receive service (ring not empty, index equals tail) and of the admin service never turn away a fresh completion and never accept a stale one |
| `TxBooks.PostedBalances` | drivers/linux/eth/ionic/ionic_txrx.c:1832-1872 | entering a packet into the ring keeps live mappings equal to those owed by ring entries plus leaks, and packets handed in equal to those given back plus those in the ring, in order |
| `TxBooks.CleanedBalances` | drivers/linux/eth/ionic/ionic_txrx.c:1344-1381 | so does cleaning the oldest entry, which releases its mappings and gives its packet back |
| `TxBooks.DrainedBooks` | drivers/linux/eth/ionic/ionic_txrx.c:1468-1493 | with the ring drained, only leaked mappings are live and every packet handed in has been given back, in order |
| `TxBooks.BytesInRing` | drivers/linux/eth/ionic/ionic_txrx.c:1468-1493 | in balanced books, bytes handed in minus bytes given back are the lengths of the packets in the ring |
| `TxCompletion.Create` | drivers/linux/eth/ionic/ionic_lif.c:843-854 | a fresh queue pair satisfies the books and the protocol |
| `TxQueue.StopsAt` | drivers/linux/eth/ionic/ionic_txrx.c:1266-1282 | mapping succeeds iff every result is usable; the only mapping a failed attempt can leave live is one at address 0 that was taken for an error |
| `TxQueue.ZeroAddressLeaks` | drivers/linux/eth/ionic/ionic_txrx.c:1267-1269 | a packet whose only buffer is mapped at address 0 is dropped and its mapping stays |
| `TxQueue.Queue.MapBufs` | drivers/linux/eth/ionic/ionic_txrx.c:1266-1283 | maps buffers in order up to the first result taken for an error, recording address and length of each |
| `TxQueue.Queue.UnwindBufs` | drivers/linux/eth/ionic/ionic_txrx.c:1289-1299 | the error path releases exactly the mappings made, each once |
| `TxQueue.Queue.MapSkb` | drivers/linux/eth/ionic/ionic_txrx.c:1256-1299 | all buffers of the packet are mapped and recorded, or nothing but the leak remains |
| `TxQueue.Queue.UnmapBufs` | drivers/linux/eth/ionic/ionic_txrx.c:1301-1319 | releases exactly the mappings recorded in the slot, each live at that point |
| `TxQueue.Queue.Tx` | drivers/linux/eth/ionic/ionic_txrx.c:1832-1872 | one packet in, one descriptor posted and its bytes reported, or a dropped packet and balanced books |
| `TxQueue.Queue.Tso` | drivers/linux/eth/ionic/ionic_txrx.c:1605-1714 | as Tx for a packet of k descriptors: mappings and packet sit in the first slot, later slots own nothing, a checksum failure undoes the mappings |
| `TxQueue.Queue.CleanOne` | drivers/linux/eth/ionic/ionic_txrx.c:1402-1411 | cleaning the tail slot releases its mappings, consumes its packet once and counts its bytes |
| `TxQueue.Queue.CleanThrough` | drivers/linux/eth/ionic/ionic_txrx.c:1401-1412 | the do-while over a completion cleans exactly the descriptors up to the one it names and returns the bytes of their packets |
| `TxQueue.Queue.Drain` | drivers/linux/eth/ionic/ionic_txrx.c:1475-1485 | the loop of ionic_tx_empty cleans every entry left |
| `TxQueue.Queue.Empty` | drivers/linux/eth/ionic/ionic_txrx.c:1468-1493 | leaves no packet in the ring, no mapping but leaked ones, and sent equal to completed bytes before the reset |
| `TxCompletion.Send` | drivers/linux/eth/ionic/ionic_txrx.c:1832-1872 | after a granted space check, ionic_tx keeps the books and the completion protocol, and posts one descriptor iff mapping succeeded |
| `TxCompletion.SendGso` | drivers/linux/eth/ionic/ionic_txrx.c:1662-1706 | likewise for a GSO packet and its k descriptors |
| `TxCompletion.DeviceComplete` | drivers/common/ionic_if.h:199-202 | the device writing one completion for k descriptors keeps the protocol |
| `TxCompletion.TxService` | drivers/linux/eth/ionic/ionic_txrx.c:1383-1418 | takes a completion iff one is unread, and then cleans exactly up to the descriptor it names |
| `TxCompletion.ServiceLoop` | drivers/linux/eth/ionic/ionic_txrx.c:1429-1437 | takes unread completions oldest first, until the budget or the last one |
| `TxCompletion.TxCqService` | drivers/linux/eth/ionic/ionic_txrx.c:1420-1457 | takes exactly min(budget, unread) completions; books, byte counts and protocol hold afterwards |
| `StopWake.StepKeepsInv` | drivers/linux/eth/ionic/ionic_txrx.c:1962-1985 | every read or write of the transmit and completion threads keeps the flow-control invariant |
| `StopWake.NoLostWakeup` | drivers/linux/eth/ionic/ionic_txrx.c:1962-1985 | with a ring of at least 64 and no packet asking for a whole ring, no interleaving ends stopped, idle and empty, and the ring never overflows |
| `StopWake.StoppedQueueWakes` | drivers/linux/eth/ionic/ionic_txrx.c:1439-1453 | in every reachable idle and stopped state completions are still due, and cleaning them wakes the queue |
| `StopWake.GrantedIsPosted` | drivers/linux/eth/ionic/ionic_txrx.c:1832-1869 | the transmitting thread left alone posts a granted packet in full, and stops the queue on the way iff the packet takes one descriptor and fewer than MAX_SKB_FRAGS + 1 were free |
| `StopWake.PacketAlone` | drivers/linux/eth/ionic/ionic_txrx.c:1962-1985 | an undisturbed call posts the packet iff there is room for it, and otherwise stops the queue and leaves the packet with the stack |
| `StopWake.WokenIff` | drivers/linux/eth/ionic/ionic_txrx.c:1439-1453 | an undisturbed completion call wakes a stopped queue iff there is room for a TSO packet |
| `StopWake.EveryGrantIsPosted` | drivers/linux/eth/ionic/ionic_txrx.c:1832-1869 | in every interleaving the ring holds exactly what was granted, less what was dropped, cleaned, or is still owed to the packet in hand |
| `StopWake.OversizePacketStalls` | drivers/linux/eth/ionic/ionic_txrx.c:1889-1893 | a packet asking for as many descriptors as the ring has slots leads to a stopped queue that nothing wakes |
| `StopWake.NoLostWakeupIff` | drivers/linux/eth/ionic/ionic_txrx.c:1962-1985 | the bound is exact: every run avoids the lost wakeup iff the largest packet asks for fewer descriptors than the ring has slots |
| `TsoSpec.SegmentCount` | drivers/linux/eth/ionic/ionic_txrx.c:1708 | a packet is cut into ceil((len - hdrlen) / mss) segments |
| `TsoSpec.SegmentShape` | drivers/linux/eth/ionic/ionic_txrx.c:1654-1655 | the first segment carries min(len, hdrlen + mss) bytes, every later one mss, except possibly the last |
| `Tso.FillDesc` | drivers/linux/eth/ionic/ionic_txrx.c:1669-1695 | the inner loop moves exactly one segment from the stream of mapped bytes to the pieces of a descriptor, in order |
| `Tso.Emit` | drivers/linux/eth/ionic/ionic_txrx.c:1699-1702 | the posted descriptor names those pieces, one as its own buffer and the rest as SG elements, with lengths stored in 16 bits |
| `Tso.Segment` | drivers/linux/eth/ionic/ionic_txrx.c:1654-1706 | the pieces concatenate to exactly the packet's bytes in order, for every header length and mss; lengths and piece counts are those of the specification; start and end flags are set; the device is handed those bytes iff the mapped lengths leave no piece of 65536 bytes or more, in particular whenever the first segment is shorter |
| `TsoSpec.WholeIff` | drivers/linux/eth/ionic/ionic_txrx.c:1654-1690 | every packet of this length, header and mss is cut into pieces that fit 16 bits, however it is laid out, iff its first segment does |
| `TsoSpec.LinearTooLong` | drivers/linux/eth/ionic/ionic_txrx.c:1682-1683 | otherwise the linear packet of that length has a piece that does not |
| `Tso.MatchesAt` | drivers/linux/eth/ionic/ionic_txrx.c:1696-1701 | reads off the pieces, the length and the SG count of any descriptor emitted |
| `Tso.FlaggedAt` | drivers/linux/eth/ionic/ionic_txrx.c:1697-1702 | SOT is on the first descriptor only, EOT on the last only |
| `TsoPrescan.ScanSeg` | drivers/linux/eth/ionic/ionic_txrx.c:1926-1946 | the scan of one segment rejects it iff the segmentation, given the missing bytes, needs more than max_sg_elems + 1 pieces for it; it reads past the last fragment only when bytes are missing, and otherwise leaves the fragments where the segmentation does |
| `TsoPrescan.PreScan` | drivers/linux/eth/ionic/ionic_txrx.c:1912-1949 | the whole scan, without its loops: too many iff some descriptor's piece count does not fit, had the missing bytes been there; past the end iff all fit and bytes are missing; accepted iff all fit and none are |
| `TsoPrescan.DescsNeeded` | drivers/linux/eth/ionic/ionic_txrx.c:1889-1959 | the exact answer in every case: gso_segs descriptors for an accepted packet, the same linearised for a rejected one, an error iff it is rejected and linearisation fails; a read past the end only when the linear part is longer than the header |
| `TsoPrescan.AcceptedFitsSg` | drivers/linux/eth/ionic/ionic_txrx.c:1929-1936 | when the linear part is the header, an accepted or linearised packet is sent with every SG list within its limit |
| `TsoPrescan.ScanAgrees` | drivers/linux/eth/ionic/ionic_txrx.c:1924-1949 | when the linear part is the header, the scan accepts a packet iff every descriptor of the mapped packet fits, whatever memory follows the fragments, and never reads there |
| `TsoPrescan.XmitGso` | drivers/linux/eth/ionic/ionic_txrx.c:1874-1960 | scan, linearise and cut together: exactly the reserved number of descriptors, each within its SG list, carrying the packet's bytes iff no piece outgrows 16 bits, in particular whenever the first segment does not |
| `TsoPrescan.AcceptedKeepsGap` | drivers/linux/eth/ionic/ionic_dev.h:349-364 | a granted space check for gso_segs keeps the head from catching the tail |
| `TsoPrescan.ScanRightIff` | drivers/linux/eth/ionic/ionic_txrx.c:1916-1949 | for a non-empty header, the scan of every packet agrees with its segmentation iff the linear part is exactly the header |
| `TsoPrescan.ShortHeadAcceptedWrongly` | drivers/linux/eth/ionic/ionic_txrx.c:1922 | for every linear part shorter than the header, some packet is accepted whose first descriptor does not fit |
| `TsoPrescan.LongHeadDependsOnMemory` | drivers/linux/eth/ionic/ionic_txrx.c:1938-1941 | for every longer one, the scan of some packet that fits reads past its fragments, and different lengths found there make it accept or reject that packet |
| `TxCommand.RoundTrip` | drivers/common/ionic_if.h:989-1009 | decoding an encoded command word gives back every field as far as the word has room for it |
| `TxCommand.NsgeSurvives` | drivers/common/ionic_if.h:1002-1009 | the SG count survives iff it is at most 15 |
| `RxPageSpec.AllocKeepsInv` | drivers/linux/eth/ionic/ionic_txrx.c:260-293 | taking a page from the cache, when only the cache references it, or from the allocator keeps every page invariant |
| `RxPageSpec.AllocOutcome` | drivers/linux/eth/ionic/ionic_txrx.c:260-293 | a slot gets the oldest cached page exactly when no skb references it, and only otherwise what the allocator returns |
| `RxPageSpec.AddFragKeepsInv` | drivers/linux/eth/ionic/ionic_txrx.c:216-258 | handing a fragment to an skb and then reusing, caching or unmapping the page keeps them, for reusable and non-reusable pages alike |
| `RxPageSpec.AddFragKeepsPage` | drivers/linux/eth/ionic/ionic_txrx.c:216-240 | a reusable page whose fragment ends within three splits stays in its slot, at the first split boundary after the fragment; cache, mappings and other slots are unchanged |
| `RxPageSpec.AddFragGivesUpPage` | drivers/linux/eth/ionic/ionic_txrx.c:216-258 | a page that is not reusable, or is used into its last split, leaves the slot for the end of the cache, or is unmapped iff the cache is full |
| `RxPageSpec.ReuseOutcome` | drivers/linux/eth/ionic/ionic_txrx.c:216-240 | a buffer is kept iff its page is reusable and the bytes used end within three splits |
| `RxPageSpec.FreeKeepsInv` | drivers/linux/eth/ionic/ionic_txrx.c:167-191 | so does the stack freeing any fragment at any time |
| `RxPageSpec.ReleaseKeepsInv` | drivers/linux/eth/ionic/ionic_txrx.c:295-315 | so does releasing a slot's page |
| `RxPageSpec.InvMeansSafe` | drivers/linux/eth/ionic/ionic_txrx.c:335-384 | under the invariants no range handed to the device overlaps an skb fragment or shares a page with another range, its page is mapped, and each page has its skb references plus one if mapped |
| `RxPageSpec.EveryRun` | drivers/linux/eth/ionic/ionic_txrx.c:145-293 | after every run of driver, device and stack steps from a fresh queue: no overlap, no page with two owners, references and mappings exactly those of the slots, the cache and the skbs |
| `PageCache.PutAppends` | drivers/linux/eth/ionic/ionic_txrx.c:145-165 | the cache ring refuses exactly at size less one entries and otherwise appends at its end |
| `PageCache.GetPops` | drivers/linux/eth/ionic/ionic_txrx.c:167-191 | advancing its head removes the oldest entry; equal indices mean empty |
| `RxPages.RxQueue.CachePut` | drivers/linux/eth/ionic/ionic_txrx.c:145-165 | the entry is cached with a reference, or the page is unmapped when the ring is full |
| `RxPages.RxQueue.CacheGet` | drivers/linux/eth/ionic/ionic_txrx.c:167-191 | the oldest entry moves to the slot iff only the cache references its page |
| `RxPages.RxQueue.PageAlloc` | drivers/linux/eth/ionic/ionic_txrx.c:260-293 | implements the allocation step, failing only without changing anything |
| `RxPages.RxQueue.BufReuse` | drivers/linux/eth/ionic/ionic_txrx.c:216-240 | advances the offset by the used bytes rounded up to a split, and keeps the page iff it is reusable and not exhausted |
| `RxPages.RxQueue.BufComplete` | drivers/linux/eth/ionic/ionic_txrx.c:242-258 | implements the reuse, cache or unmap step |
| `RxPages.RxQueue.AddSkbFrag` | drivers/linux/eth/ionic/ionic_txrx.c:317-333 | implements the hand-over of one fragment |
| `RxPages.RxQueue.FillDesc` | drivers/linux/eth/ionic/ionic_txrx.c:960-1008 | on success the device is handed exactly the scatter list of RxScatter on the slots' pages; on failure nothing else changed |
| `RxPages.RxQueue.DeviceDone` | drivers/linux/eth/ionic/ionic_txrx.c:911-916 | a completed descriptor hands its buffers back to the driver and no others |
| `RxPages.RxQueue.BuildSkb` | drivers/linux/eth/ionic/ionic_txrx.c:335-384 | the skb gets one fragment per buffer, of the lengths the page offsets give; a missing page frees all of them again |
| `RxPages.FragsAreWritten` | drivers/linux/eth/ionic/ionic_txrx.c:362-376 | each fragment has exactly the length an in-order device wrote into that buffer under the posted lengths |
| `RxPages.RxQueue.CacheDrain` | drivers/linux/eth/ionic/ionic_txrx.c:193-214 | empties the cache, unmapping and releasing each page once |
| `RxPages.RxQueue.Empty` | drivers/linux/eth/ionic/ionic_txrx.c:1030-1052 | afterwards no page is mapped, no slot or cache entry holds one, and pages are referenced by unfreed skbs only |
| `RxPages.RxQueue.Safe` | drivers/linux/eth/ionic/ionic_txrx.c:145-293 | the queue object, in every state its methods reach, has the properties of EveryRun |
| `RxScatter.FillDesc` | drivers/linux/eth/ionic/ionic_txrx.c:982-1008 | the fill loop posts the specified list of truncated lengths |
| `RxScatter.BuildSkb` | drivers/linux/eth/ionic/ionic_txrx.c:362-376 | the gather loop takes what the buffer sizes alone prescribe |
| `RxScatter.PostedTapered` | drivers/linux/eth/ionic/ionic_txrx.c:983-1008 | for every frame length, posted lengths fill their buffers up to one partial buffer, after which nothing is posted |
| `RxScatter.GatherUndoesScatter` | drivers/linux/eth/ionic/ionic_txrx.c:335-384 | under such lengths gathering as many buffers as the device used gives back the packet |
| `RxScatter.SkbReproducesPacket` | drivers/linux/eth/ionic/ionic_txrx.c:931-1021 | for every MTU, page-offset layout and packet up to the posted capacity, the skb is the packet |
| `RxScatter.Capacity` | drivers/linux/eth/ionic/ionic_txrx.c:983-1005 | the posted capacity is the low 16 bits of the frame length, as far as the buffers reach |
| `RxScatter.FullFrameFits` | drivers/linux/eth/ionic/ionic_txrx.c:956-1008 | on fresh pages the longest frame an MTU allows, with its header and a VLAN tag, finds room whenever the pages can hold it and 16 bits can count it |
| `RxScatter.FullLengthPostsNothing` | drivers/linux/eth/ionic/ionic_txrx.c:983-1005 | a frame length of 65536 posts no room at all, whatever the buffers |
| `RxScatter.CopyBreakIff` | drivers/linux/eth/ionic/ionic_txrx.c:386-423 | every packet of a given length is copied right iff that length does not spill into an SG buffer, whatever follows the buffer in memory |
| `RxScatter.CopyBreakExact` | drivers/linux/eth/ionic/ionic_txrx.c:415 | a packet is copied right iff it does not spill or memory happens to hold the rest of it |
| `RxScatter.CopyBreakLimitIff` | drivers/linux/eth/ionic/ionic_ethtool.c:1157 | with frames longer than a page split and SG buffers to spill into, packets up to the copybreak limit stay in the first buffer at every split offset iff the limit is at most a split |
| `RxScatter.SplitCopyBreakFits` | drivers/linux/eth/ionic/ionic_txrx.c:800-806 | with a limit of at most a page split no packet copied spills, at any split offset |
| `FilterBuckets.UnlinkIndexes` | drivers/linux/eth/ionic/ionic_rx_filter.c:13-20 | unlinking a filter leaves every other filter in its bucket, once |
| `FilterBuckets.LinkIndexes` | drivers/linux/eth/ionic/ionic_rx_filter.c:174-180 | linking a filter at the head of a bucket indexes it there and nowhere else |
| `FilterIndex.DropIndexed` | drivers/linux/eth/ionic/ionic_rx_filter.c:13-20 | after freeing, both tables index the same filters, each in its bucket, with at most one per VLAN id and MAC |
| `FilterIndex.InsertIndexed` | drivers/linux/eth/ionic/ionic_rx_filter.c:171-180 | likewise after linking a filter whose VLAN id or address is new |
| `FilterIndex.RefreshIndexed` | drivers/linux/eth/ionic/ionic_rx_filter.c:154-180 | likewise after unlinking, rewriting and relinking a stored filter |
| `FilterIndex.FindsIsLookup` | drivers/linux/eth/ionic/ionic_rx_filter.c:204-222 | finding an address in the table is finding it in the map the sync logic works on, with its state and id |
| `FilterIndex.StoreIsUpdate` | drivers/linux/eth/ionic/ionic_rx_filter.c:123-183 | storing a MAC filter is an update of that map |
| `FilterIndex.DropIsRemoval` | drivers/linux/eth/ionic/ionic_rx_filter.c:13-20 | freeing one is a removal |
| `FilterTable.RxFilters.Search` | drivers/linux/eth/ionic/ionic_rx_filter.c:185-240 | searching one bucket finds what a search of all filters would |
| `FilterTable.RxFilters.ByVlan` | drivers/linux/eth/ionic/ionic_rx_filter.c:185-202 | the same for VLAN ids |
| `FilterTable.RxFilters.ByAddr` | drivers/linux/eth/ionic/ionic_rx_filter.c:204-222 | the same for addresses, and it agrees with the map |
| `FilterTable.RxFilters.Free` | drivers/linux/eth/ionic/ionic_rx_filter.c:13-20 | both tables stay in step |
| `FilterTable.RxFilters.Save` | drivers/linux/eth/ionic/ionic_rx_filter.c:123-183 | VLAN and MAC filters replace the stored one, others are new; the two errors occur exactly when the match is unsupported or memory runs out, and change nothing |
| `FilterReplay.ReplayRefused` | drivers/linux/eth/ionic/ionic_rx_filter.c:46-70 | in the middle of a replay, freeing a refused filter keeps the invariant between the two tables and the temporary list |
| `FilterReplay.ReplayAccepted` | drivers/linux/eth/ionic/ionic_rx_filter.c:72-77 | so does moving an accepted one to the temporary list under its new id |
| `FilterReplay.ReplayEnds` | drivers/linux/eth/ionic/ionic_rx_filter.c:37-79 | when the lists are empty, every filter has been posted and exactly the accepted ones are stored |
| `FilterTable.RxFilters.Replay` | drivers/linux/eth/ionic/ionic_rx_filter.c:22-89 | posts each stored filter once, keeps exactly those firmware accepts, under their new ids, and leaves both tables in step |
| `FilterRestart.ReplayIsRestart` | drivers/linux/eth/ionic/ionic_rx_filter.c:22-89 | seen as the map of the sync logic, the replay keeps exactly the accepted addresses, with their phases and new ids |
| `FilterRestart.RestartExactIff` | drivers/linux/eth/ionic/ionic_rx_filter.c:37-79 | from exact books, after a replay into an empty firmware table the books are exact iff firmware accepts exactly the filters that were SYNCED or OLD |
| `FilterRestart.RestartInstallsNew` | drivers/linux/eth/ionic/ionic_rx_filter.c:37-79 | a NEW filter that firmware accepts in a replay is installed without being counted |
| `FilterSpec.DeleteNeverLost` | drivers/linux/eth/ionic/ionic_rx_filter.c:318-334 | whatever list updates land between the two locked sections of an accepted add, the filter ends with firmware's id, and OLD iff its last update was a delete |
| `FilterSpec.NextSyncDeletes` | drivers/linux/eth/ionic/ionic_rx_filter.c:427-441 | and then the delete commands of the next sync, in whatever order it walks, include the one for that id |
| `FilterSpec.RefusedAdd` | drivers/linux/eth/ionic/ionic_rx_filter.c:364-377 | after a refused add the filter is NEW again, or OLD under its old id iff its last update was a delete |
| `FilterSpec.RefusedDeleteIsStale` | drivers/linux/eth/ionic/ionic_rx_filter.c:364-377 | in that case, for a newly listed address, the delete commands of the next sync include one for id 0 |
| `FilterRace.RaceIff` | drivers/linux/eth/ionic/ionic_rx_filter.c:318-441 | from exact books with m NEW, after both locked sections of its add and any list updates between them, the books are exact iff firmware accepted or the last update of m was not a delete |
| `FilterRace.RacedDeleteReachesFirmware` | drivers/linux/eth/ionic/ionic_rx_filter.c:427-441 | a delete that raced with an accepted add: the next sync starts from exact books, sends the delete for the id firmware returned, and leaves m neither in the driver nor in firmware |
| `FilterRace.RefusedRaceDeletesAnother` | drivers/linux/eth/ionic/ionic_rx_filter.c:504-511 | a delete that raced with a refused add of a newly listed address: the next delete takes id 0 from firmware, while the driver keeps its holder as installed, and the books are no longer exact |
| `FilterRace.DeletesAnotherExample` | drivers/linux/eth/ionic/ionic_rx_filter.c:354-377 | the smallest such run, with room for one filter: firmware and the counter end up empty, the driver does not |
| `FilterRace.StaleCopyIff` | drivers/linux/eth/ionic/ionic_rx_filter.c:578-618 | with updates before and during the add of a NEW filter copied by the sync walk, an accepted add leaves it as its last update asks iff that update is not a delete before the add began |
| `FilterRace.StaleCopyExample` | drivers/linux/eth/ionic/ionic_rx_filter.c:578-618 | a copied filter unlisted before its turn comes ends installed and SYNCED |
| `FilterSpec.ListAddrKeepsExact` | drivers/linux/eth/ionic/ionic_rx_filter.c:257-302 | list updates keep the counters and firmware's table exact, and the listed set is what the stack asked for |
| `FilterSpec.RemoveKeepsExact` | drivers/linux/eth/ionic/ionic_rx_filter.c:467-530 | deleting an installed filter keeps the books exact |
| `FilterSpec.AddAllKeepsExact` | drivers/linux/eth/ionic/ionic_rx_filter.c:613-618 | adding NEW filters keeps the books exact |
| `FilterSpec.AddAllInstalls` | drivers/linux/eth/ionic/ionic_rx_filter.c:613-618 | and installs all of them, or uses up the advertised room |
| `FilterSpec.SyncSettles` | drivers/linux/eth/ionic/ionic_rx_filter.c:558-619 | after a sync in any walking order: books exact, listed set unchanged, no OLD filter, every listed address installed or the room used up |
| `FilterSpec.SyncCovers` | drivers/linux/eth/ionic/ionic_rx_filter.c:558-619 | hence the counters count firmware's filters within the limit and every listed address is in firmware or the room is used up |
| `FilterSpec.EveryRun` | drivers/linux/eth/ionic/ionic_rx_filter.c:257-444 | after every sequence of list updates and syncs the books are exact and the filters wanted are those the calls list |
| `FilterSpec.EveryListedIsReceived` | drivers/linux/eth/ionic/ionic_rx_filter.c:558-619 | after every such run that ends with a sync, every listed address is installed or the room is used up, and no OLD filter is left |
| `FilterSync.Lif.ListAddr` | drivers/linux/eth/ionic/ionic_rx_filter.c:257-302 | implements the list transitions; fails iff an unknown address is deleted |
| `FilterSync.Lif.FilterAdd` | drivers/linux/eth/ionic/ionic_rx_filter.c:304-444 | implements the two-section add, with no firmware command when the room is known to be used up |
| `FilterSync.Lif.FilterDel` | drivers/linux/eth/ionic/ionic_rx_filter.c:467-530 | implements the delete; a command is sent iff the filter was not NEW |
| `FilterSync.Lif.Collect` | drivers/linux/eth/ionic/ionic_rx_filter.c:578-597 | the walk lists exactly the NEW and the OLD filters |
| `FilterSync.Lif.SyncFilters` | drivers/linux/eth/ionic/ionic_rx_filter.c:558-619 | implements the sync and sends one delete per OLD filter, with its id |
| `FilterSync.Lif.RxMode` | drivers/linux/eth/ionic/ionic_lif.c:1370-1449 | the device receives exactly the addresses the stack asked for by its flags and its list, or everything if the filters overflowed; broadcast likewise; no OLD filter; counters equal firmware's filters and stay within the limit |
| `FilterSync.ReceivesWhatWasAsked` | drivers/linux/eth/ionic/ionic_lif.c:1385-1414 | what a device with this mode word and filter table passes up is what was asked for, address by address, unless the filters overflowed |
| `FilterSpec.SyncInstallsExactly` | drivers/linux/eth/ionic/ionic_rx_filter.c:558-619 | with room to spare, firmware holds exactly the listed addresses after a sync |
| `FwRecovery.StepKeepsInv` | drivers/linux/eth/ionic/ionic_dev.c:336-403 | every step of watchdog, reset event, worker and queue starter keeps the recovery invariant |
| `FwRecovery.EveryInterleaving` | drivers/linux/eth/ionic/ionic_lif.c:3592-3622 | in every interleaving FW_STOPPING is set exactly while one teardown is queued or running, and queues are not up while FW_RESET is set and the teardown's locked section is done |
| `FwRecovery.StartIff` | drivers/linux/eth/ionic/ionic_lif.c:2349-2373 | however the other actors interleave until the lock is released, a start that meets no failure ends with the queues up iff its test found FW_RESET clear or they were up already |
| `FwRecovery.StartComesUp` | drivers/linux/eth/ionic/ionic_lif.c:2362-2370 | a start past its test ends with the queues up |
| `FwRecovery.UpChangesIff` | drivers/linux/eth/ionic/ionic_lif.c:2362-2368 | the exact steps at which the queues come up and go down, in every reachable state |
| `FwRecovery.UpDownUp` | drivers/linux/eth/ionic/ionic_lif.c:3592-3664 | one run brings the queues up, loses them to a teardown, and brings them up again after the restart |
| `FwRecovery.RestartAfterTeardown` | drivers/linux/eth/ionic/ionic_dev.c:371-402 | a restart is queued only when no teardown is queued or running and the queues are down |
| `FwRecovery.RestartQueuedIff` | drivers/linux/eth/ionic/ionic_dev.c:336-403 | the watchdog queues a restart iff FW_RESET is set, no teardown is under way, firmware runs, and it has a new generation or was last seen down |
| `FwRecovery.TeardownQueuedIff` | drivers/linux/eth/ionic/ionic_dev.c:336-403 | and a teardown iff neither FW_RESET nor FW_STOPPING is set, firmware was last seen up, and it is down or has a new generation |
| `FwRecovery.ResetEventIff` | drivers/linux/eth/ionic/ionic_main.c:317-330 | a reset event queues a teardown iff firmware counts as running and neither FW_RESET nor FW_STOPPING is set, and otherwise changes nothing |
| `FwRecovery.SecondCheckIff` | drivers/linux/eth/ionic/ionic_dev.c:336-403 | a second check with the same reading changes nothing, iff the first did not merely note a new generation of a firmware that was down with no reset under way |
| `FwRecovery.FailedRestartStrands` | drivers/linux/eth/ionic/ionic_lif.c:3680-3719 | a failed restart with nothing else queued leaves the LIF under FW_RESET with nothing to retry it, iff firmware was not seen down meanwhile |
| `FwRecovery.TeardownStrands` | drivers/linux/eth/ionic/ionic_lif.c:3604-3620 | so does a teardown that ends with nothing queued, iff firmware counts as running by then |
| `FwRecovery.StrandedBy` | drivers/linux/eth/ionic/ionic_dev.c:336-403 | and no other step of any actor does: the exact steps and conditions that strand a LIF |
| `FwRecovery.FailedRestartExample` | drivers/linux/eth/ionic/ionic_lif.c:3680-3719 | a run to a state in which a restart can fail and strand the LIF |
| `FwRecovery.TeardownExample` | drivers/linux/eth/ionic/ionic_main.c:317-330 | a run that strands it without any failure: reset event, watchdog check that sees the new generation, teardown |
| `FwRecovery.StrandedForGood` | drivers/linux/eth/ionic/ionic_dev.c:371-402 | and there it stays in every run in which firmware stays up with the same generation |
| `FwRecovery.DownAndUpRecovers` | drivers/linux/eth/ionic/ionic_dev.c:371-402 | until firmware is seen down and up again |
| `FwRecovery.TeardownCompletes` | drivers/linux/eth/ionic/ionic_lif.c:3592-3622 | however the other actors interleave, the last worker step of a teardown leaves FW_RESET set, FW_STOPPING clear and the queues down |
| `FwRecovery.RestartCompletes` | drivers/linux/eth/ionic/ionic_lif.c:3624-3664 | likewise the last worker step of a restart that meets no error leaves FW_RESET and FW_STOPPING clear and the queues down |
| `LifSizing.LifSize` | drivers/linux/eth/ionic/ionic_lif.c:4278-4390 | the sizing loop terminates; every layout tried halves one count of the one before, notify queues first, then RDMA event queues, then queue pairs; it asks about exactly those within the device limit; on success the last one was granted after all earlier ones were refused, with a vector for each queue and at least one of each kind of queue there is; it gives up whenever one of each does not fit, and otherwise only after all its attempts, the last for one of each, were refused |
| `LifSizing.QueuePairsExact` | drivers/linux/eth/ionic/ionic_lif.c:4301-4334 | the queue pairs to begin with are as many as processors, queues and the pair reserved for time stamps allow |
| `LifSizing.KdumpFitsIff` | drivers/linux/eth/ionic/ionic_lif.c:4301-4307 | in a kdump kernel one of each fits the two vectors allowed iff the device has no RDMA event queue |
| `Interrupts.IntrAlloc` | drivers/linux/eth/ionic/ionic_lif.c:255-270 | finds the first free vector, or reports none iff all are taken |
| `Interrupts.Pigeonhole` | drivers/linux/eth/ionic/ionic_lif.c:255-270 | holding every one of n vectors takes n owners |
| `Interrupts.RoomLeft` | drivers/linux/eth/ionic/ionic_lif.c:255-270 | with fewer vectors owned than exist, allocation succeeds |
| `Interrupts.AcceptedFits` | drivers/linux/eth/ionic/ionic_ethtool.c:938-970 | every accepted combined or split layout needs at most the vectors budgeted for combined queue pairs |
| `Interrupts.AcceptedIff` | drivers/linux/eth/ionic/ionic_ethtool.c:920-970 | a request is accepted iff it names a single kind of channel, its layout fits and differs from the present one |
| `Interrupts.Lif.Alloc` | drivers/linux/eth/ionic/ionic_lif.c:255-270 | always finds a vector that nobody owns |
| `Interrupts.Lif.Free` | drivers/linux/eth/ionic/ionic_lif.c:272-276 | gives one back |
| `Interrupts.Lif.AllocAdmin` | drivers/linux/eth/ionic/ionic_lif.c:518-530 | the admin queue gets its own vector |
| `Interrupts.Lif.AssignQueues` | drivers/linux/eth/ionic/ionic_lif.c:3285-3308 | every queue of the layout gets a distinct vector |
| `Interrupts.Lif.AllocQueues` | drivers/linux/eth/ionic/ionic_lif.c:2163-2245 | the same when the queues are created |
| `Interrupts.Lif.Open` | drivers/linux/eth/ionic/ionic_lif.c:2375-2424 | opening the interface gives every queue of the layout its vector |
| `Interrupts.Lif.Stop` | drivers/linux/eth/ionic/ionic_lif.c:2435-2451 | stopping it gives them all back |
| `Interrupts.Lif.SetChannels` | drivers/linux/eth/ionic/ionic_ethtool.c:895-997 | follows the acceptance rules exactly and keeps ownership exact, running or not |
| `Interrupts.Lif.RdmaGet` | drivers/linux/eth/ionic/ionic_api.c:138-169 | while its budget lasts, RDMA gets a vector nobody owns; a failed allocation or a bus error changes nothing |
| `Interrupts.Lif.RdmaPut` | drivers/linux/eth/ionic/ionic_api.c:171-178 | gives it back |
| `ListWalk.ReachedSoon` | drivers/linux/pciesvc/pciesvc/src/cfgspace.c:343-363 | however the links are arranged, every address a list reaches is reached within as many steps as there are possible addresses |
| `CfgSpace.FindCap` | drivers/linux/pciesvc/pciesvc/src/cfgspace.c:343-363 | the first capability with the id, and 0 iff none is reachable, for every content including cyclic lists |
| `CfgSpace.CapsFound` | drivers/linux/pciesvc/pciesvc/src/cfgspace.c:343-363 | on a capability list laid out in bytes, the answer is the address of the first capability with the id, or 0 |
| `CfgSpace.FindExtCap` | drivers/linux/pciesvc/pciesvc/src/cfgspace.c:384-401 | the same for extended capabilities, for every size |
| `CfgSpace.ExtCapsFound` | drivers/linux/pciesvc/pciesvc/src/cfgspace.c:367-401 | likewise on a list of extended capability headers, low bytes first |
| `CfgSpace.CapListEndsOutside` | drivers/linux/pciesvc/pciesvc/src/cfgspace.c:150-168 | a link beyond the implemented space ends the list |
| `DimSpec.DecisionKeepsInv` | drivers/linux/eth/ionic/net_dim.c:166-217 | every decision keeps the profile index in its table, moves it by at most one, and keeps the counters in range without underflow |
| `DimSpec.SearchParks` | drivers/linux/eth/ionic/net_dim.c:187-210 | every search parks within 11 less its tired count decisions, so within 10, whatever is measured |
| `DimSpec.TiredParkingEnds` | drivers/linux/eth/ionic/net_dim.c:181-185 | tired parking ends after exactly its remaining count of decisions and stays on its profile until then |
| `DimSpec.ImprovementReachesEdge` | drivers/linux/eth/ionic/net_dim.c:187-210 | while every measurement improves, a search goes on in its direction to the end of the profile table and parks there |
| `DimSpec.PeakIsKept` | drivers/linux/eth/ionic/dim.c:9-38 | a search that overshoots a peak steps back onto it and, when that measures better, parks on it |
| `DimSpec.CompareOrder` | drivers/linux/eth/ionic/net_dim.c:138-164 | more bytes are better; failing a difference of eleven percent there, more packets; failing that too, fewer events |
| `DimSpec.CompareFromIdle` | drivers/linux/eth/ionic/net_dim.c:141-142 | after no traffic any traffic is better, and none is no change |
| `DimSpec.ExhaustedSearch` | drivers/linux/eth/ionic/net_dim.c:194-207 | a search that has taken all its steps parks on top if it is there, and tired for ten decisions otherwise |
| `DimSpec.ParkedUntilChange` | drivers/linux/eth/ionic/net_dim.c:174-179 | parked on top, nothing changes until a measurement differs from the one at parking, which starts a search towards the lower profiles |
| `DimSpec.EveryStream` | drivers/linux/eth/ionic/net_dim.c:166-217 | from a zeroed instance every stream of measurements keeps profile_ix in 0..4 and tired in 0..10 |
| `Dim.Dim.Step` | drivers/linux/eth/ionic/net_dim.c:105-130 | implements the step, refusing at either edge and when too tired |
| `Dim.Dim.Turn` | drivers/linux/eth/ionic/dim.c:23-38 | implements the change of direction |
| `Dim.Dim.ExitParking` | drivers/linux/eth/ionic/net_dim.c:132-136 | implements the first step of a new search |
| `Dim.Dim.Search` | drivers/linux/eth/ionic/net_dim.c:187-210 | implements the search arm |
| `Dim.Dim.Decide` | drivers/linux/eth/ionic/net_dim.c:166-217 | implements a decision and says whether the profile changed |
| `Dim.Dim.NetDim` | drivers/linux/eth/ionic/net_dim.c:219-246 | a decision is made iff a measurement is in progress and at least 64 events, counted across a wrap, have passed; otherwise nothing is tuned; the profile never changes while an apply is pending |
| `Dim.Dim.Work` | drivers/linux/eth/ionic/ionic_lif.c:59-89 | applies the profile and allows the next measurement |
| `PhcSpec.SmearAllOnes` | drivers/linux/eth/ionic/ionic_phc.c:636-642 | the smeared value is an all-ones mask |
| `PhcSpec.SmearCovers` | drivers/linux/eth/ionic/ionic_phc.c:636-642 | it covers the value |
| `PhcSpec.SmearLeast` | drivers/linux/eth/ionic/ionic_phc.c:636-642 | no smaller all-ones mask does |
| `PhcSpec.ScaledProduct` | drivers/linux/eth/ionic/ionic_phc.c:664-672 | whenever scaling fires the new multiplier fits 32 bits and its product with max(diff / 2, SCALED_PPM) fits 64 bits but not 63 |
| `PhcSpec.CommentHoldsIff` | drivers/linux/eth/ionic/ionic_phc.c:655-662 | the bounds promised in the comment hold iff the quotient is 1 |
| `PhcSpec.CommentFails` | drivers/linux/eth/ionic/ionic_phc.c:655-662 | a device multiplier of 1 is scaled beyond them |
| `Phc.TicksPerPeriod` | drivers/linux/eth/ionic/ionic_phc.c:624-634 | the shifted update period does not overflow 64 bits where the shift is defined |
| `Phc.TicksExact` | drivers/linux/eth/ionic/ionic_phc.c:624-634 | up to shift 28 the ticks are the least number that lasts four update periods; above, the largest that does not overflow with a doubled multiplier |
| `Phc.WrapMaskAbove` | drivers/linux/eth/ionic/ionic_phc.c:636-645 | the wrap mask has no bit above the ticks |
| `Phc.WrapMaskWithin` | drivers/linux/eth/ionic/ionic_phc.c:636-645 | and of the others exactly those of the hardware's mask |
| `Phc.Rescale` | drivers/linux/eth/ionic/ionic_phc.c:664-672 | the exact new multiplier and 32-bit shift; their ratio is kept iff nothing is scaled or the raised shift does not wrap |
| `Phc.RatioIff` | drivers/linux/eth/ionic/ionic_phc.c:666-672 | multiplier and shift keep their ratio iff the quotient is below 2 or the raised shift fits 32 bits, which it does for every device shift below 2^32 - 35 |
| `Phc.RatioLost` | drivers/linux/eth/ionic/ionic_phc.c:671 | with multiplier 1 and shift 2^32 - 1 the multiplier grows and the shift wraps below its old value |
| `Phc.EmptyMask` | drivers/linux/eth/ionic/ionic_phc.c:645-664 | a device with an empty counter mask is scaled for SCALED_PPM alone, so that input is reached |
| `Phc.ScaleMult` | drivers/linux/eth/ionic/ionic_phc.c:605-672 | the whole computation: disabled iff the multiplier is 0, undefined exactly for the shifts whose 32-bit sum wraps, otherwise mask, multiplier and shift as specified, with the ratio kept iff the raised shift does not wrap |
| `EventQueue.StepKeepsInv` | drivers/linux/pciesvc/kpcinterface.c:449-495 | every read or write of handler and reader keeps the queue invariant |
| `EventQueue.EveryInterleaving` | drivers/linux/pciesvc/kpcinterface.c:465-495 | in every interleaving, what was delivered is a prefix of what was accepted or marked, in order and unmodified; the rest is intact in its slots; a refusal follows only a QFULL marker or another refusal |
| `EventQueue.RefusedIff` | drivers/linux/pciesvc/kpcinterface.c:476-481 | an event is refused iff exactly n - 1 entries are unread |
| `EventQueue.MarkedIff` | drivers/linux/pciesvc/kpcinterface.c:484-488 | its entry becomes a marker iff exactly n - 2 entries are unread at the test |
| `EventQueue.RefusalFollowsMarker` | drivers/linux/pciesvc/kpcinterface.c:476-488 | whenever an event is refused, the newest entry in the queue, in its slot, is a QFULL marker |
| `EventQueue.EveryEventHandled` | drivers/linux/pciesvc/kpcinterface.c:465-495 | in every interleaving each event handed over has exactly one outcome, in order, but for the one being handled |
| `EventQueue.RoomyRunAcceptsAll` | drivers/linux/pciesvc/kpcinterface.c:465-495 | if fewer than n - 2 entries are unread whenever an event is handed over, every event is accepted, and the queue receives exactly the events handed over, in order |
| `EventQueue.ReaderDeliversAll` | drivers/linux/pciesvc/kpcinterface.c:465-495 | left alone, the reader delivers everything that was written |

## Left out

- XDP, hardware-timestamp queues and CMB rings: other slot and completion layouts, and kernel types that are not visible.
- The admin queue's timeout flush and the retry of device commands: driven by time, and outside the ring protocol modelled here.
- Weak memory: all interleavings are sequentially consistent, and a locked section is one step.
- Function-level reset, shutdown, remove and devlink paths of firmware recovery; `FwRecovery` takes the watchdog check and the reset event as single steps and lets their work items be allocated.
- Rings of fewer than 64 descriptors in `StopWake`: the driver does not configure them for data queues.
- The non-GSO half of `ionic_tx_descs_needed`, checksum offload words and the doorbell.
- Statistics, tracing and debug counters everywhere, and `dim_calc_stats`: a decision takes arbitrary measured stats.
- Masked configuration-space reads and writes: easy members beside the capability walks.
- `ionic_rx_filters_deinit`, RSS and the classification steering filter beyond its place in the table.
- VLAN filters in the sync logic, and counters under direct `ionic_lif_addr_add` and `ionic_lif_addr_del` calls: the code adjusts them whatever the filter's state, so they are exact only under list updates and sync.
- Allocation failure inside `ionic_rx_filter_sync`, which ends the walk early and leaves the rest to the next sync.
- A wrong event size in `pciesvc_event_handler`, which only returns an error.
- FilterSpec.SyncSettles: firmware refuses adds only for lack of the advertised room and obeys deletes; other failures are retried by the next sync and are not modelled.
- FilterSpec.DeleteNeverLost: considers list updates between the two locked sections; those before them are in `FilterRace.StaleCopyIff`, a second add of the same address in that window is not modelled.
- FwRecovery.RestartCompletes: considers a restart that meets no error; what a failed one leads to is in `FwRecovery.FailedRestartStrands`.
- TxCompletion.DeviceComplete: the device is assumed to complete posted descriptors in order and never more than were posted.
- RxPages.RxQueue.FillDesc: covers one descriptor; the fill threshold and the loop over descriptors only repeat it.
- RxPageSpec.EveryRun: page identity stands for its DMA address; a mapping error after an allocation is an allocation that failed.
