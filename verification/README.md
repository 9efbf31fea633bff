# A model of the txgbe driver's algorithms

The txgbe driver runs a 10 gigabit Ethernet controller. Most of it talks to registers and to the
kernel. This project models the parts that are algorithms, and proves what they are for:

- **FCoE direct data placement** (`FcoeFlatten`, `FcoeContexts`): a DMA scatter list is flattened in
  place into at most 256 page-sized buffers, and the contexts that hold such a list are set up, fed
  frames, put and freed over whole runs.
- **PF/VF mailbox** (`Mailbox`, `MailboxSafety`, `MailboxDelivery`, `MailboxPf`): two processes that take one
  register access per step over a shared buffer with ownership bits and status bits that clear on read.
- **PLDM firmware packages** (`PldmFormat`, `PldmParser`, `PldmEngine`, `PldmUpdate`, `PldmErrors`): the
  format of section 7 of DMTF DSP0267 1.0.0, what the parser computes and which errors it reports, the parser as one cursor with pointer
  walks beside it, and the ordered callbacks of an update.
- **Queues and vectors** (`QueueShares`, `QueueVectors`, `RingRegisters`): rings dealt to interrupt
  vectors, unwinding of a failed allocation, and the ring-to-register maps.
- **PCIe error recovery** (`BusWalk`, `PcieRecovery`): the stackless walk of a bus tree and the phases
  driven by merged votes.
- **DCB** (`DcbCredits`, `DcbFlow`, `DcbRegisters`): credits of the traffic classes, port control, flow control
  and the packed arbiter words.
- **Two kernel backports** (`Div64`, `Ipv6Walk`): shift-subtract division and the IPv6
  extension-header walk.

`Bits` defines and, or, shifts and fields on natural numbers. `Wrappers` has the option type. Code that
updates state in place is written as methods and classes proved against specification functions; the
mailbox is a step relation, because its properties are about interleavings.

The device's part of the mailbox is stated in the step relation (`Mailbox.Step`): an ownership bit is
granted only while the other side's is clear, a write without it releases it, RSTD, PFSTS and PFACK
clear when the VF reads its register, MBVFICR and VFLREC are write-one-to-clear.

Where the code does less than its comments say, the model follows the code and states exactly when the
intended property holds:

- Setting up an exchange that FCP_RSP finished but nobody put forgets its pool block
  (`FcoeContexts.SetupLoses`, `ReuseLosesABlock`); no other sequence of calls ever loses one
  (`LossExactlyOnReuse`).
- A layout of 256 buffers is written to an 8-bit count field as 0 (`FcoeContexts.FcbufDecodes`,
  `FullLayoutCountsAsNone`).
- Freeing vectors with several VMDq pools clears slots by queue index, so exactly the slots past the first
  pool keep dangling pointers (`QueueVectors.FreeReaches`, `AllocThenFree`, `PointerLeft`).
- The END mark of the component tables is missing when a set bit of the bitmap names no component, or when a
  component beyond the bitmap applies (`PldmUpdate.TableMarks`, `EndMarkMissing`). The header-size test subtracts below zero for small stated sizes and the
  wrapped value wraps back (`PldmParser.RoomIsTotal`).
- Votes with both CAN_RECOVER and RECOVERED and nothing worse give a status that depends on the order of
  the devices (`PcieRecovery.DetectionOrderMatters`).
- The IEEE calculator gives a class a maximum below half a frame, or below its refill, when its share is
  small (`DcbCredits.IeeeMaxReaches`, `IeeeRefillWithinMax`, `SmallShareStarves`).
- A CEE class rounded up to one percent is not refilled in proportion, because the smallest share is
  searched before rounding (`DcbCredits.RoundedShare`, `RoundedOutOfProportion`).
- The low-water word of a class with priority flow control is written to its high-water register and lost, and
  the routine always reports an error (`DcbFlow.FlowControl.ConfigPfc`).

## Model

| member | source | states |
|---|---|---|
| FcoeFlatten.Flatten | src/txgbe_fcoe.c:210-265 | succeeds exactly for lists whose interior boundaries are page aligned and that need at most 256 buffers, counting the extra one; on success every byte of the list is found through the buffers, the first offset and the last size; on refusal the reason is true of the list |
| FcoeFlatten.FillEntry | src/txgbe_fcoe.c:214-246 | the inner buffer loop keeps the placement of all bytes so far, or meets a list that cannot be laid out |
| FcoeFlatten.FillStep | src/txgbe_fcoe.c:222-245 | one buffer that passes the three tests extends the placed bytes by exactly those it holds |
| FcoeFlatten.RejectStep | src/txgbe_fcoe.c:216-237 | each test in the loop refuses only a list that is misaligned or needs too many buffers |
| FcoeFlatten.PlaceBuffer | src/txgbe_fcoe.c:239-245 | appending a page makes its bytes reachable and moves none placed before |
| FcoeFlatten.Finish | src/txgbe_fcoe.c:249-265 | buffer count, last size and total fit together, and a full last page needs the extra buffer |
| FcoeFlatten.FinishExtra | src/txgbe_fcoe.c:256-265 | with the extra buffer the layout is sound and backs no data with it |
| FcoeContexts.StepAccounts | src/txgbe_fcoe.c:67-126 | setup, frame, put and free-all each keep outstanding blocks and mappings equal to what contexts hold, up to the block a reuse forgets, and never release what is not outstanding |
| FcoeContexts.RunAccounts | src/txgbe_fcoe.c:67-468 | the same over every sequence of events |
| FcoeContexts.LedgerOfEveryRun | src/txgbe_fcoe.c:67-468 | from the initial state every outstanding mapping and block is held by a context or was lost to a reuse without put |
| FcoeContexts.LossExactlyOnReuse | src/txgbe_fcoe.c:137-208 | over every list of calls: a block is lost if and only if some setup call with a list and a count, on a permitted id of a device that is up, follows a setup of that id that could open it and an error-free FCP_RSP for it, with no put of the id and no free-all between |
| FcoeContexts.CallsTell | src/txgbe_fcoe.c:67-468 | as long as nothing is lost the calls alone tell, for every id, whether its context holds a block and whether its list is still mapped |
| FcoeContexts.LengthsTell | src/txgbe_fcoe.c:378-468 | as long as nothing is lost a context keeps the length of the last error-free DDP, FCP_RSP or NODDP frame since its exchange was opened, else 0 |
| FcoeContexts.CallsAnswer | src/txgbe_fcoe.c:67-468 | from the list of calls alone: setup succeeds iff the request can open the exchange and its list is not in use; put returns the length the calls tell and forces the device's context invalid iff the exchange is open and unanswered; receive answers 0 for an error-free DDP frame of an open exchange, the length for FCP_RSP or NODDP with one, otherwise -22 |
| FcoeContexts.OneBlockPerContext | src/txgbe_fcoe.c:173-320 | in runs without such a reuse a context has a block iff exactly one copy of it is outstanding, no two contexts share a block, and each list is mapped exactly as often as contexts hold it |
| FcoeContexts.FreeAllDrains | src/txgbe_fcoe.c:702-717 | after the free loop no context is in use and no mapping is outstanding; only lost blocks remain |
| FcoeContexts.SetupLoses | src/txgbe_fcoe.c:173-208 | a context whose list FCP_RSP unmapped loses its block to the next setup |
| FcoeContexts.ReuseLosesABlock | src/txgbe_fcoe.c:432-438 | setup, FCP_RSP, setup, free-all ends with the first block outstanding |
| FcoeContexts.PutValue | src/txgbe_fcoe.c:67-126 | putting a context in use releases exactly its block and its mapping, without a fault |
| FcoeContexts.Fcoe.SetUp | src/txgbe_fcoe.c:137-321 | the object stays where its calls lead, so the ledger holds of it; the call succeeds iff the request can open the exchange and its list is not in use; the layout is written to the block |
| FcoeContexts.Fcoe.MapAndFill | src/txgbe_fcoe.c:182-320 | map, allocate and lay out; every failure path releases what was taken, once |
| FcoeContexts.Fcoe.Put | src/txgbe_fcoe.c:67-126 | the object stays where its calls lead; returns the length of the last frame that carried one since the exchange was opened, else 0, and forces invalidation iff the exchange is open and unanswered |
| FcoeContexts.Fcoe.Receive | src/txgbe_fcoe.c:378-468 | the object stays where its calls lead; 0 for an error-free DDP frame of an open exchange, the length for FCP_RSP or NODDP with one, otherwise -22 |
| FcoeContexts.Fcoe.FreeResources | src/txgbe_fcoe.c:702-717 | puts every exchange id: no context stays in use, nothing stays mapped, and the blocks outstanding are exactly those lost to reuse |
| FcoeContexts.FcbufDecodes | src/txgbe_fcoe.c:268-271 | the buffer register decodes to valid, size, first offset and count, the count exactly unless it is 256 |
| FcoeContexts.FullLayoutCountsAsNone | src/txgbe_fcoe.c:268-271 | 255 pages and one byte are accepted with 256 buffers, which the register holds as 0 |
| FcoeContexts.FcrwDecodes | src/txgbe_fcoe.c:278-279 | the write register decodes to exchange id, write enable and last size |
| MailboxSafety.StepKeepsOwnership | src/txgbe_mbx.c:367-459 | every step of either side keeps ownership exclusive, covering the critical sections, and the shadow and mirror within their bits |
| MailboxSafety.StepKeepsContents | src/txgbe_mbx.c:395-459 | every step keeps the buffer equal to the completed writes overlaid with the unfinished message |
| MailboxSafety.StepKeepsSignals | src/txgbe_mbx.c:266-294 | every step keeps raised status bits in hardware, shadow or the word just read, and all reports right |
| MailboxSafety.RunKeepsSafe | src/txgbe_mbx.c:266-688 | all three over every interleaving, from any safe state |
| MailboxSafety.EveryRunIsSafe | src/txgbe_mbx.c:266-688 | every run from the start state is safe, for any initial buffer |
| MailboxSafety.TransfersAreNotTorn | src/txgbe_mbx.c:582-688 | the copy loops are never active together and every completed read returned as many words as it was asked for, those left by the writes completed before it |
| MailboxSafety.NoStatusBitIsLost | src/txgbe_mbx.c:266-294 | a bit raised at any moment and not asked for since is still in the register, the shadow or the word just read |
| MailboxSafety.PendingBitIsReported | src/txgbe_mbx.c:287-359 | a check that samples a pending bit of its mask reports success, whatever is raised meanwhile |
| MailboxSafety.VfLockIsReal | src/txgbe_mbx.c:367-384 | the shadow holds only RSTD, PFSTS, PFACK and the mirror only two flags, so a VF that sees VFU was granted it |
| MailboxSafety.StaysPending | src/txgbe_mbx.c:266-294 | a raised bit stays pending while no sampling asks for it |
| MailboxDelivery.IdleIsQuiet | src/txgbe_mbx.c:367-459 | in every run a state with both sides idle has the mailbox owned by nobody |
| MailboxDelivery.PfDelivers | src/txgbe_mbx.c:620-650 | from every such state a PF write of any message that fits is reported by the VF's next check for a message, once, the VF's read returns it word for word, and the PF's check finds it acknowledged |
| MailboxDelivery.VfDelivers | src/txgbe_mbx.c:395-424 | the same from VF to PF |
| MailboxDelivery.PfWrites | src/txgbe_mbx.c:620-650 | message in the buffer, PFSTS raised, the VF's request and acknowledgement flushed, mailbox released |
| MailboxDelivery.PfReads | src/txgbe_mbx.c:663-688 | as many words as asked, at most fifteen, PFACK raised, mailbox released |
| MailboxDelivery.VfWrites | src/txgbe_mbx.c:395-424 | message in the buffer, request raised, message and acknowledgement bits flushed and no other, mailbox released |
| MailboxDelivery.VfReads | src/txgbe_mbx.c:435-459 | as many words as asked, at most fifteen, acknowledgement raised, nothing owed to the VF lost |
| MailboxDelivery.VfChecks | src/txgbe_mbx.c:287-359 | a check for a message, an acknowledgement or a reset reports PFSTS, PFACK, or RSTD or RSTI, and takes that bit and no other |
| MailboxDelivery.PfChecks | src/txgbe_mbx.c:493-548 | the PF's check reports whether the VF's event is set, and takes it |
| MailboxDelivery.ResetIsReported | src/txgbe_mbx.c:347-359 | a reset done or in progress is reported, and nothing else is |
| MailboxDelivery.PfGivesUp | src/txgbe_mbx.c:582-609 | against a VF that keeps the mailbox the PF gives up after its tries with nothing changed |
| MailboxDelivery.PfTriesLeft | src/txgbe_mbx.c:582-609 | a call has as many tries as its timeout says |
| MailboxDelivery.VfGivesUp | src/txgbe_mbx.c:367-384 | against a PF that owns the mailbox the VF gives up at once and loses nothing it was owed |
| MailboxDelivery.ReadReturnsLastWrite | src/txgbe_mbx.c:435-688 | in every interleaving a read completed after a write and before the next returns the words of that write |
| MailboxDelivery.ReleaseAnnounces | src/txgbe_mbx.c:395-688 | in every interleaving releasing the mailbox raises PFSTS for a PF write, PFACK for a PF read, a request for a VF write, an acknowledgement for a VF read, and nothing else |
| MailboxDelivery.EventsStay | src/txgbe_mbx.c:493-548 | requests and acknowledgements stay until the PF takes them |
| MailboxPf.EventBitsAreDistinct | src/txgbe_mbx.c:513-573 | no two of the 192 events of 64 VFs share a register bit |
| MailboxPf.EventPlaces | src/txgbe_mbx.c:513-573 | sixteen VFs share a word with requests in the lower and acknowledgements in the upper half, thirty-two a word of resets; the VF is read back from register and bit |
| MailboxPf.EventMasks | src/txgbe_mbx.h:63-67 | request bits lie in the request mask of the header, acknowledgement bits outside it |
| MailboxPf.PfEvents.CheckForBit | src/txgbe_mbx.c:493-504 | reports whether the event was pending at the read and clears it; every other event is pending afterwards iff it was before or was raised, even between the read and the clearing write |
| MailboxPf.PfEvents.CheckForMsg | src/txgbe_mbx.c:513-526 | the same for a VF's request |
| MailboxPf.PfEvents.CheckForAck | src/txgbe_mbx.c:535-548 | the same for a VF's acknowledgement |
| MailboxPf.PfEvents.CheckForRst | src/txgbe_mbx.c:557-573 | the same for a VF's reset |
| PldmParser.ParseEncoded | src/kcompat_pldmfw.c:840-860 | every image that begins with the encoding of a well-formed package parses to that package's records, versions, package data, bitmaps and components |
| PldmParser.AcceptedIsEncoded | src/kcompat_pldmfw.c:379-790 | every accepted image begins with such an encoding, tiled without gap or overlap up to its stated header size |
| PldmParser.AcceptedIffEncoded | src/kcompat_pldmfw.c:379-790 | the parser accepts exactly the images that begin with an encoded package |
| PldmParser.RoundTrip | src/kcompat_pldmfw.c:379-790 | building an image around any payload and parsing it returns the package |
| PldmParser.ParseDescCorrect | src/kcompat_pldmfw.c:515-558 | a descriptor parses exactly when a well-formed one stands at the offset, and to it |
| PldmParser.ParseRecordSound | src/kcompat_pldmfw.c:576-645 | a parsed record stands encoded at its offset and the cursor ends behind it |
| PldmParser.ParseRecordComplete | src/kcompat_pldmfw.c:576-645 | an encoded record parses, and the cursor moves by its stated length |
| PldmParser.ParseComponentSound | src/kcompat_pldmfw.c:697-741 | a parsed component entry stands encoded at its offset and its image lies within the file |
| PldmParser.ParseComponentsSound | src/kcompat_pldmfw.c:697-741 | an accepted component area is the encoding of its components, numbered in order |
| PldmParser.TooManyComponents | src/kcompat_pldmfw.c:697-741 | with more than 255 components the 8-bit counter never reaches the count and the scan ends in an error on every image |
| PldmParser.AcceptedComponents | src/kcompat_pldmfw.c:697-759 | every accepted image has at most 255 components with distinct consecutive indices |
| PldmParser.RoomIsTotal | src/kcompat_pldmfw.c:406-411 | the wrapped subtraction and addition of the header-size test amount to the stated size |
| PldmErrors.HeaderErrors | src/kcompat_pldmfw.c:379-420 | the code for no image, a short one, another identifier, another revision, a stated size beyond the image, and a bitmap of broken bytes |
| PldmErrors.WrongChecksum | src/kcompat_pldmfw.c:770-790 | a well-formed package with any other checksum is a bad message |
| PldmErrors.WrongSize | src/kcompat_pldmfw.c:697-759 | a package that states any other size than its own is refused |
| PldmErrors.Truncated | src/kcompat_pldmfw.c:379-442 | a package cut off anywhere before its end is refused |
| PldmErrors.DescErrors | src/kcompat_pldmfw.c:459-558 | a descriptor is invalid iff its type has a standard size and this is another, out of bounds iff it is cut off |
| PldmErrors.ComponentErrors | src/kcompat_pldmfw.c:697-741 | a component entry is refused iff it, its version or its image is out of bounds |
| PldmErrors.RecordErrors | src/kcompat_pldmfw.c:576-645 | a record is invalid only through a descriptor, otherwise out of bounds |
| PldmEngine.Priv.Move | src/kcompat_pldmfw.c:346-358 | the cursor moves iff the bytes are there, and never leaves the image |
| PldmEngine.Priv.ParseDescTlvs | src/kcompat_pldmfw.c:514-558 | cursor and descriptor pointer agree in every round; result and error are those of the descriptor list at the cursor; out of memory exactly at the first refused of the attempts the list calls for |
| PldmEngine.Priv.ParseOneRecord | src/kcompat_pldmfw.c:575-645 | result, error and cursor are those of the record at the pointer, allocations are on the list on every exit, and out of memory is reported exactly at the first refused attempt |
| PldmEngine.Priv.ParseHeaderArea | src/kcompat_pldmfw.c:379-442 | the header fields and the cursor are those of the package header |
| PldmEngine.Priv.ParseRecordList | src/kcompat_pldmfw.c:656-683 | record pointer and cursor agree at the head of every round although one moves by stated and the other by parsed lengths |
| PldmEngine.Priv.ParseComponentList | src/kcompat_pldmfw.c:697-741 | the scan with an 8-bit counter terminates and yields the component list or its error |
| PldmEngine.Priv.Parse | src/kcompat_pldmfw.c:840-860 | the object's lists hold exactly what the image parses to; every error is the image's, except out of memory, reported exactly when one of the allocations the image calls for is refused, at the first such; every attempt made was granted and is on the lists, but for the one refused |
| PldmEngine.NoMemoryExactly | src/kcompat_pldmfw.c:379-860 | out of memory is reported iff one of the attempts called for is refused |
| PldmEngine.ReadBitmap | src/kcompat_pldmfw.c:616-617 | bit k of the bitmap is bit k of the little-endian bytes |
| PldmErrors.BitmapBits | src/kcompat.h:7220-7229 | component k stands in byte k/8 at the value 2^(k mod 8) |
| PldmEngine.Priv.Free | src/kcompat_pldmfw.c:799-824 | every allocation on the lists, which the parser's contracts tie to every one granted, is released exactly once |
| PldmEngine.FreedIsAllocated | src/kcompat_pldmfw.c:799-824 | the order of release is a permutation of the allocations |
| PldmUpdate.MatchRecord | src/kcompat_pldmfw.c:884-936 | true iff for each of the four ids the last descriptor of its kind, if any, is 0 or the device's id |
| PldmErrors.MatchesWhatIsSaid | src/kcompat_pldmfw.c:884-936 | on the encoding: a record matches iff the last descriptors of types 0x0000, 0x0100, 0x0101 and 0x0102 are each missing, 0, or the device's number in two bytes, low byte first |
| PldmErrors.SaysSomething | src/kcompat_pldmfw.c:884-936 | every well-formed record says such a number or nothing of each type |
| PldmErrors.ForeignPackage | src/kcompat_pldmfw.c:949-1129 | an image whose records all name another vendor gives ENOENT and no callback |
| PldmUpdate.FindRecord | src/kcompat_pldmfw.c:949-961 | the first matching record, or none matches |
| PldmUpdate.AttemptIsPrefix | src/kcompat_pldmfw.c:1087-1129 | for every pattern of failures the calls made are a prefix of the plan, complete iff none failed, ending at the first failure |
| PldmUpdate.TablesInOrder | src/kcompat_pldmfw.c:992-1023 | for every bitmap, one table per applicable component, in increasing index order |
| PldmUpdate.FlashesFollowTables | src/kcompat_pldmfw.c:992-1053 | the flash calls are those of the tables' components, one each, in the same order |
| PldmUpdate.TableMarks | src/kcompat_pldmfw.c:992-1023 | for every bitmap and whatever is read beyond it: exactly the first table carries START iff a bit is set or the bit right behind the bitmap reads as set; exactly the last carries END iff every set bit names a component and nothing beyond the bitmap applies, save the one right behind an empty bitmap |
| PldmUpdate.EndMarkMissing | src/kcompat_pldmfw.c:992-1023 | two set bits and one component: START without END |
| PldmErrors.FlagValues | src/kcompat_pldmfw.c:1005-1013 | the transfer flags as numbers: 1 first, 2 between, 4 last, 5 only |
| PldmUpdate.SendTables | src/kcompat_pldmfw.c:992-1023 | makes the planned table calls until one fails |
| PldmUpdate.FlashComponents | src/kcompat_pldmfw.c:1034-1053 | makes the planned flash calls until one fails |
| PldmUpdate.RunUpdate | src/kcompat_pldmfw.c:1087-1129 | package data, tables, flashes and finalize in this order, until one fails |
| PldmUpdate.FlashImage | src/kcompat_pldmfw.c:1087-1129 | out of memory exactly at the first refused allocation of those the image calls for, without any callback; otherwise the image's parse error, no match, or the update of the first matching record as far as the callbacks let it, with the code of the last call; on every path each allocation attempted and not refused is freed exactly once |
| PldmUpdate.UpdateTrace | src/kcompat_pldmfw.c:840-1129 | for every image, failure pattern and device with a matching record the calls made are a prefix of package data, one table per applicable component in index order, one flash per table in the same order, and finalize; complete on success, else ending at the first failure whose code is returned; first and last table marked when the bitmap covers the components |
| QueueShares.DealStep | src/txgbe_lib.c:1134-1152 | repeated rounded-up division gives vector u the number of indices congruent to u |
| QueueShares.StrideInRange | src/txgbe_lib.c:964-992 | strided indices stay in range and determine their vector and position |
| QueueShares.StrideCovers | src/txgbe_lib.c:964-992 | every index in range is a position of the vector it is congruent to |
| QueueShares.SharesAreEven | src/txgbe_lib.c:1134-1152 | loads of any two vectors differ by at most one |
| QueueVectors.DealRings | src/txgbe_lib.c:964-992 | exactly the slots on the stride get the vector, others keep their pointer, and the list holds their queue indices newest first |
| QueueVectors.DealKeepsLinked | src/txgbe_lib.c:964-1062 | dealing keeps ring arrays and vectors' lists in agreement |
| QueueVectors.ClearRings | src/txgbe_lib.c:1081-1093 | exactly the slots named on the list are nulled |
| QueueVectors.StrideIsResidue | src/txgbe_lib.c:1134-1153 | the stride of a vector is its residue class, also where the step exceeds the number of vectors because nobody gets two rings |
| QueueVectors.XdpOwnerUnique | src/txgbe_lib.c:1134-1153 | no XDP ring has two owners |
| QueueVectors.XdpOwnerExists | src/txgbe_lib.c:1134-1153 | every XDP ring in range is in the run of some vector |
| QueueVectors.OwnersByCounts | src/txgbe_lib.c:1121-1153 | with a vector for every ring each Rx and each Tx ring has its own; with fewer, ring i of either kind goes to vector i modulo their number |
| QueueVectors.XdpOwnersByCounts | src/txgbe_lib.c:1121-1153 | XDP rings stay in range and behind the separate Rx vectors |
| QueueVectors.FreeReaches | src/txgbe_lib.c:1076-1103 | freeing empties exactly the slots of the first pool, or all without extra pools; every other slot keeps its pointer |
| QueueVectors.FreeRestores | src/txgbe_lib.c:1076-1103 | freeing an array whose first n slots are filled empties it iff there are no extra pools or n fits the first |
| QueueVectors.Adapter.AllocVector | src/txgbe_lib.c:835-1065 | the three ring arrays and lists of a new vector, nothing else changed; nothing at all on refusal |
| QueueVectors.Adapter.AllocRxOnly | src/txgbe_lib.c:1121-1132 | one vector per Rx ring, up to the first refused |
| QueueVectors.Adapter.DealVector | src/txgbe_lib.c:1135-1152 | one round deals each kind its share and moves the running counts on |
| QueueVectors.Adapter.AllocShared | src/txgbe_lib.c:1134-1153 | the loop deals every ring and all remaining counts end at zero, or it stops at the first refused vector with the rings of those before it dealt |
| QueueVectors.Adapter.DealAll | src/txgbe_lib.c:1121-1153 | succeeds iff every vector is granted; at any stop the arrays hold exactly the rings of the vectors made, each with its owner |
| QueueVectors.Adapter.AllocVectors | src/txgbe_lib.c:1112-1167 | succeeds iff every vector is granted; then each Tx, Rx and XDP ring in range has exactly one owner and, without separate Rx vectors, loads differ by at most one; on failure the refused vector is the first refused, no vector and no count is left, and the arrays are empty but for slots past the first pool that were already dealt |
| QueueVectors.Adapter.FreeVector | src/txgbe_lib.c:1076-1103 | nulls the slots its rings name and its own |
| QueueVectors.Adapter.FreeVectors | src/txgbe_lib.c:1177-1188 | no vector and no count remains, and slots are nulled exactly where a ring's queue index names them |
| QueueVectors.Adapter.AllocThenFree | src/txgbe_lib.c:1112-1188 | succeeds iff every vector is granted; then freeing restores the empty adapter iff there are no extra pools or the rings fit the first, and names the owner every slot that stays still points to |
| QueueVectors.PointerLeft | src/txgbe_lib.c:1112-1188 | two pools of one queue with two rings each: after allocation and freeing the second slots still point to the vector |
| RingRegisters.PlaceInPool | src/txgbe_lib.c:58-71 | the inverted VMDq mask and the RSS mask both give the place of a register in its pool |
| RingRegisters.AlignRoundsUp | src/txgbe_lib.c:58-63 | aligning with the VMDq mask in 32-bit arithmetic rounds up to the next pool |
| RingRegisters.NextReg | src/txgbe_lib.c:203-232 | one step of the loop goes from the register of a ring to that of the next |
| RingRegisters.CachePools | src/txgbe_lib.c:203-232 | ring i gets register (offset + i/n)*Q + i%n |
| RingRegisters.CacheVmdq | src/txgbe_lib.c:187-232 | Rx and Tx rings get the same map although they test different masks |
| RingRegisters.PoolRegsDistinct | src/txgbe_lib.c:38-71 | the map is injective and below 128 |
| RingRegisters.CappedPools | src/txgbe_lib.c:326-348 | adding the pool offset to the limit and taking it away again in 16 bits leaves a count within the cap iff the sum does not wrap and the offset is within the cap |
| RingRegisters.DcbVmdqFits | src/txgbe_lib.c:309-361 | for all 16-bit limits and offsets the queue counts of the DCB mode fit the device iff the pool offset is within the cap and the sum does not wrap |
| RingRegisters.VmdqFits | src/txgbe_lib.c:501-556 | the same for the VMDq mode |
| RingRegisters.PoolsFillDevice | src/txgbe_lib.c:329-337 | pools of 8, 4 and 2 queues fill 128 queues and the mask selects the pool |
| RingRegisters.DcbVmdqUses | src/txgbe_lib.c:309-361 | a queue per class in pools of 8 or 4, as many pools as limit and device allow |
| RingRegisters.VmdqUses | src/txgbe_lib.c:501-556 | pools of 2 queues above 32 pools, else of 4 with the largest power of two the limit allows |
| RingRegisters.VmdqMapsAreInjective | src/txgbe_lib.c:187-232 | plan and map together are injective and below 128 |
| RingRegisters.ClassRangesApart | src/txgbe_lib.c:107-143 | under the queue caps the register ranges of traffic classes never overlap |
| RingRegisters.ClassRangesTile | src/txgbe_lib.c:107-143 | the ranges tile the device's queues: sizes 32,32,16,16,8,8,8,8 or 64,32,16,16 for Tx and 16 or 32 for Rx, each ending where the next begins, the last at 128 |
| RingRegisters.CacheDcb | src/txgbe_lib.c:152-175 | ring i of class tc gets the i-th register of the class's range in both directions |
| RingRegisters.RingInItsClass | src/txgbe_lib.c:107-175 | the registers of ring k lie in the ranges of class k/q, at place k mod q |
| RingRegisters.CapIsSmallestShare | src/txgbe_lib.c:435-443 | the cap of queues per class is the smallest share any class has |
| RingRegisters.DcbQueuesAreMost | src/txgbe_lib.c:433-448 | the queues per class are the most that device, mode and user all allow |
| RingRegisters.DcbMapsAreInjective | src/txgbe_lib.c:107-175 | both maps are injective and below 128 |
| RingRegisters.DcbModeIsInjective | src/txgbe_lib.c:417-475 | the same for the queue count the driver chooses, whatever device and user allow |
| RingRegisters.CacheRss | src/txgbe_lib.c:250-263 | Rx rings are numbered from 0, Tx and XDP rings together from 0 |
| RingRegisters.RssUses | src/txgbe_lib.c:481-490 | sampling raises the rings to the flow director's limit, never without RSS; one XDP ring per CPU, at most 32 |
| RingRegisters.RssRegisters | src/txgbe_lib.c:614-676 | no two Tx or XDP rings share a register, all registers exist iff Tx and XDP rings together are at most 128, and they do under the driver's limits |
| BusWalk.Walk | src/txgbe_pcierr.c:83-116 | terminates on every finite bus tree and calls back on its devices in recursive pre-order, up to the first that asks to stop |
| BusWalk.NoDeviceTwice | src/txgbe_pcierr.c:83-116 | no device occurs twice in that order |
| BusWalk.ShowsUnique | src/txgbe_pcierr.c:83-116 | the pointers determine the tree |
| PcieRecovery.FoldIsVerdict | src/txgbe_pcierr.c:119-139 | merging any votes gives the worst severe one in the order NO_AER_DRIVER, NEED_RESET, DISCONNECT, otherwise the last mild one |
| PcieRecovery.DetectionOrderFree | src/txgbe_pcierr.c:119-139 | votes that do not mix RECOVERED and CAN_RECOVER below the severe ones merge the same in every order |
| PcieRecovery.DetectionOrderMatters | src/txgbe_pcierr.c:119-139 | all other votes have two orders with different results |
| PcieRecovery.VetoSilences | src/txgbe_pcierr.c:141-171 | one NO_AER_DRIVER vote in detection suppresses every later callback of every device |
| PcieRecovery.HandlerlessVetoes | src/txgbe_pcierr.c:141-171 | a device that is no bridge and has no error_detected handler silences every later callback |
| PcieRecovery.BareBridgeIgnored | src/txgbe_pcierr.c:141-233 | a bridge without any handler changes neither status nor events |
| PcieRecovery.MissingHandlerIgnored | src/txgbe_pcierr.c:178-214 | a missing mmio_enabled or slot_reset handler leaves status and events of its phase alone |
| PcieRecovery.TraceByOpinions | src/txgbe_pcierr.c:236-344 | the whole trace from the devices' opinions: mmio runs iff nobody objected and the last opinion is CAN_RECOVER, slot iff the phase before asked for a reset without veto, resume iff the last phase ended at RECOVERED; a dead link ends after the reset |
| PcieRecovery.PolledExactly | src/txgbe_pcierr.c:141-214 | a walk calls exactly the devices with a handler for its phase, once each, in order |
| PcieRecovery.ResumedExactly | src/txgbe_pcierr.c:216-233 | the broadcast resumes exactly the devices with a resume handler, once each, in order |
| PcieRecovery.ResumeExactly | src/txgbe_pcierr.c:319-340 | resume is broadcast iff the last phase run had no severe vote and ended at RECOVERED |
| PcieRecovery.ResumeNeedsConsent | src/txgbe_pcierr.c:319-340 | then every device's vote in that phase was NONE, CAN_RECOVER or RECOVERED |
| PcieRecovery.Poll | src/txgbe_pcierr.c:141-214 | a walk with a reporting callback calls the devices with a handler in pre-order and merges all votes |
| PcieRecovery.WaitReady | src/txgbe_pcierr.c:285-301 | the doubling wait gives up after exactly 65535 ms, iff none of 17 reads succeeds |
| PcieRecovery.DoRecovery | src/txgbe_pcierr.c:236-344 | the events of a recovery are the trace determined by the votes and the link |
| DcbCredits.LeastMultiplier | src/txgbe_dcb.c:113-121 | the multiplier is the smallest that lifts the smallest share above half a frame |
| DcbCredits.CreditHoldsHalfFrame | src/txgbe_dcb.c:42-43 | the least credit is the fewest units of 64 bytes that hold half a frame |
| DcbCredits.RefillRange | src/txgbe_dcb.c:54-58 | refill is at least the least credit, and at most 200 iff the frame is at most 25601 bytes |
| DcbCredits.RefillExact | src/txgbe_dcb.c:54-58 | a class with a share gets share times multiplier or the cap; the least credit never binds |
| DcbCredits.RefillKeepsRatio | src/txgbe_dcb.c:50-58 | classes below the cap are refilled in the ratio of their shares |
| DcbCredits.NoOverflow | src/txgbe_dcb.c:54-54 | the signed product does not overflow for any frame up to 2^30 |
| DcbCredits.CreditsIeee | src/txgbe_dcb.c:35-64 | both arrays hold the credits of each class, cut to 16 bits |
| DcbCredits.IeeeCredits | src/txgbe_dcb.c:35-64 | for frames up to 25601 nothing is cut, refills lie between the least credit and 200, are monotone in the share and proportional below the cap |
| DcbCredits.IeeeMaxReaches | src/txgbe_dcb.c:60-60 | the maximum reaches the least credit iff the share is 0 or four times the share does |
| DcbCredits.IeeeRefillWithinMax | src/txgbe_dcb.c:54-60 | refill stays within the maximum iff the share is 0 or at least 50, or the least credit is below four times the smallest share |
| DcbCredits.SmallShareStarves | src/txgbe_dcb.c:54-60 | a share of 1 under frames of 9432 bytes: maximum 4 and refill 75 where half a frame is 74 |
| DcbCredits.CreditsCee | src/txgbe_dcb.c:75-175 | error for a missing configuration; otherwise every class of the direction gets its credits and nothing else changes |
| DcbCredits.RawIsShareOfGroup | src/txgbe_dcb.c:128-132 | the link share is the class's percentage of its group's, rounded down, but at least one if asked for |
| DcbCredits.CeeCredits | src/txgbe_dcb.c:124-171 | for percentages refill lies between the least credit and 200, maximum between it and 400, and classes with a share before rounding are in proportion |
| DcbCredits.CeeMonotone | src/txgbe_dcb.c:128-145 | a larger link percentage never gets a smaller refill |
| DcbCredits.RoundedShare | src/txgbe_dcb.c:105-132 | a class rounded up to one percent is in proportion only in named corner cases |
| DcbCredits.RoundedOutOfProportion | src/txgbe_dcb.c:105-145 | one percent of half the link under multiplier 1 is refilled 74 credits |
| DcbRegisters.WordsDecode | src/txgbe_dcb.c:463-475 | the words of all three arbiters decode to refill, group, maximum and flags iff the refill is below 512 and the group below 8 |
| DcbRegisters.MapDecodes | src/txgbe_dcb.c:456-460 | nibble i of the packed map is entry i for all i iff all entries are below 16 |
| DcbRegisters.PackMap | src/txgbe_dcb.c:456-458 | the loop builds that word |
| DcbRegisters.GetTcFromUp | src/txgbe_dcb.c:242-263 | the highest class above 0 whose bitmap names the priority, else 0 |
| DcbRegisters.LookupInverts | src/txgbe_dcb.c:242-272 | if the bitmaps partition the priorities, the lookup gives a class iff its bitmap names the priority |
| DcbRegisters.UnpackPfc | src/txgbe_dcb.c:188-201 | bit up is set iff the class of that priority has flow control |
| DcbFlow.Port.DcbConfig | src/txgbe_dcb.c:597-650 | every field of the port control word says how many classes and pools there are, every other bit stays, and no queue drops; nothing is written to a device that is gone |
| DcbFlow.PoolCodeMeans | src/txgbe_dcb.c:610-626 | the pools of a code and the queues of a pool fill the 128 queues |
| DcbFlow.PortBitsMean | src/txgbe_dcb.c:610-646 | which bit of the port word says what |
| DcbFlow.FlowControl.ConfigPfc | src/txgbe_dcb.c:341-411 | a class gets its high-water mark iff some priority mapped to it has its bit set; its low-water register is never written, those of all other classes are cleared; pause time and refresh threshold in all registers; the result is always an error |
| DcbFlow.MarkDecodes | src/txgbe_dcb.c:377-380 | a water mark word decodes to mark and enable bit iff the mark is below 2^21 |
| DcbFlow.PauseDecodes | src/txgbe_dcb.c:402-405 | both halves of a pause word hold the pause time |
| DcbRegisters.UnpackCee | src/txgbe_dcb.c:203-240 | the four unpacking loops yield refill, maximum, group and arbitration of every class |
| DcbRegisters.Arbiters.ConfigRx | src/txgbe_dcb.c:433-485 | words, map and control of the receive arbiter, nothing else |
| DcbRegisters.Arbiters.ConfigDesc | src/txgbe_dcb.c:494-529 | words and control of the descriptor arbiter, and zero in all 128 per-queue credits |
| DcbRegisters.Arbiters.ConfigData | src/txgbe_dcb.c:538-588 | words, map and control of the data arbiter |
| DcbRegisters.HwConfigCee | src/txgbe_dcb.c:305-338 | the port word, all arbiters, both priority maps and flow control hold what the configuration asks: exactly the classes that ask for flow control and have a priority get their high-water mark; the result is the flow control error iff flow control is on |
| DcbRegisters.HwConfig | src/txgbe_dcb.c:413-424 | the three arbiters hold the settings of every class and both maps decode to the priority map |
| DcbRegisters.BothPasses | src/txgbe_main.c:5954-5961 | each direction gets the credits of its own settings, flow control settings stay, and the transmit credits fit the arbiter words |
| DcbRegisters.ConfigureDcb | src/txgbe_main.c:5954-5962 | end to end: for percentages and frames up to 25601 the arbiters decode to the credits computed for each class, both directions hold the credits of their own settings, and maps, port word and flow control follow the configuration |
| Div64.Reduce | src/kcompat.c:611-622 | dividing the upper half first loses no bit of the 32-bit product and keeps quotient times base plus remainder |
| Div64.Double | src/kcompat.c:624-627 | the doubling loop with its signed test loses no bit, terminates, and ends above half the remainder |
| Div64.Div | src/kcompat.c:609-640 | exact quotient and remainder for every 64-bit number and nonzero 32-bit base |
| Ipv6Walk.FindHdr | src/kcompat.c:1919-2020 | terminates on every packet; return value, offset, fragment offset and flags are those of the first accepted header of the chain |
| Ipv6Walk.ChainIsChain | src/kcompat.c:1951-2017 | the chain is linked by header lengths and cannot be extended |
| Ipv6Walk.ChainUnique | src/kcompat.c:1951-2017 | no other path from the first header is |
| Ipv6Walk.AskIsFirst | src/kcompat.c:1951-2020 | the answer is the first accepted header, or what the last header says |
| Ipv6Walk.FoundIsAccepted | src/kcompat.c:1951-2020 | whatever is found is accepted and nothing before it is |
| Ipv6Walk.TargetIsFirst | src/kcompat.c:1951-2020 | a requested type is found at its first header in the chain, where every earlier header of that type is a routing header with no segments left that the caller asked to skip |
| Ipv6Walk.LaterFragmentHides | src/kcompat.c:1979-2003 | a nonzero fragment offset ends the chain: neither it nor anything beyond it is found |
| Ipv6Walk.SawExactly | src/kcompat.c:1979-1984 | the fragment flag is raised iff a fragment header stands at or before the answer |
| Ipv6Walk.ChainOfWritten | src/kcompat.c:1951-2017 | the chain of a packet written by RFC 8200 is its list of headers, each at the sum of the lengths before it |
| Ipv6Walk.FoundWhereWritten | src/kcompat.c:1951-2020 | a requested type is found at its first header in the list |
| Ipv6Walk.EndOfWritten | src/kcompat.c:1951-2020 | without a type the walk ends at the upper-layer header, or at the first authentication header if asked |
| Ipv6Walk.LaterFragmentAnswers | src/kcompat.c:1979-2003 | a fragment header with an offset answers type and offset of the fragment to a caller without a type, nothing to others |
| Ipv6Walk.RoutingExhausted | src/kcompat.c:1966-1977 | a routing header is exhausted iff its segments-left octet is zero and the caller asked |
| Ipv6Walk.StartsAtFixed | src/kcompat.c:1922-1949 | a walk from a fixed header goes on with the type it names, 40 octets further |
| Ipv6Walk.OtherVersionRefused | src/kcompat.c:1936-1945 | any other version is refused where the caller pointed |
| Ipv6Walk.ChainedTypes | src/kcompat.c:1956-1960 | exactly types 0, 43, 44, 51 and 60 are followed by another header |

## Left out

- Register access, DMA mapping, memory pools, locks, delays, the checksum function and firmware callbacks are parameters or counters.
- FcoeFlatten.Flatten: DMA addresses are natural numbers, so wrap-around at 2^64 is not modelled.
- FCoE statistics counters, frame header parsing, segmentation offload and pool creation.
- The mirrored mailbox word as a delivery channel: it is read and zeroed in two accesses, so only its contents are bounded.
- The mailbox has one VF and one thread per side; the 64 VFs appear in the PF's event registers. Statistics and the polling loops are not modelled.
- PldmUpdate.FlashImage: the allocation of the engine's own structure is not modelled.
- PldmUpdate.Applies: with a bitmap shorter than the component list `test_bit` reads beyond it; what it finds there is an arbitrary function of the index.
- PldmParser.ParseComponent: the sum of a component's location and size does not wrap, which holds for 64-bit `size_t`; on a 32-bit kernel it can wrap and the test of src/kcompat_pldmfw.c:321-333 then passes for an image outside the file.
- The word layout of kernel bitmaps and `find_next_bit`.
- FCoE variants of the ring maps and queue counts, and CPU and interrupt affinity.
- PcieRecovery.DoRecovery: choosing the upstream port and masking its error interrupts are not modelled; a device's answers do not change between phases other than by phase.
- DcbRegisters.ConfigureDcb: the order of disabling and enabling an arbiter around the writes is kept in the bodies but not stated.
- Ipv6Walk.FindHdr: packets and offsets are below 2^31, where the kernel's signed offsets agree with unsigned ones.
- The rest of the driver and of the kernel backports.
