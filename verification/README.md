# Boot firmware: verified models

Dafny models of the parts of this firmware tree that carry protocols, in-place algorithms and
one-way hardware state, with machine-checked proofs of what they promise. The tree bundles the
Armada 3700 WTMI firmware, ARM Trusted Firmware and U-Boot; the models cover:

- **Firmware update in BL1** (`FwuModel`, `FwuAnswers`, `FwuWorlds`, `FwuImages`, `FwuExamples`, `FwuHandlers`). Normal and
  secure world copy images in blocks, authenticate, execute, resume and finish them through SMCs. The five
  handlers are methods of a class, each proved equal to a step function on values; the theorems are
  about every run of steps. The world invariant needs no assumption about callers. The memory
  theorems are about runs (`CleanRun`) in which the 32-bit sum of a continued copy does not wrap, a
  fresh copy does not declare memory that another image holds, a source that passed the memory check
  exists, and the running world does not itself write to images that BL1 is copying or holding. Sums of
  an address and a size (`bl1_fwu.c`, line 215) are unbounded here: on a 32-bit build they are taken not
  to wrap.
- **Boot memory and chain of trust** (`MemLayout`, `BootLoad`, `BootAuth`, `BootLoader`). One shrinking free
  region in 64-bit arithmetic; image loading with its silent failures; parent-first authentication
  by recursion over any parent relation without a cycle.
- **Hand-off lists** (`HandOff`). Linked lists threaded through an array of descriptors by a loop
  bounded by the table size.
- **EFI memory map table** (`EfiMap`). Shell sort, then a merge that writes over the array it reads.
- **Fuses** (`EfuseBits`, `EfuseDevice`, `EfuseFields`, `EfuseDriver`). Register sequences against a
  model of the one-time-programmable device, which burns the addressed cell on a rise of SCLK only in
  write mode, with the master enable set and the unlock code matched.
- **Flash sector ranges** (`FlashRanges`), **EEPROM transfers** (`Eeprom`), **storage enumeration**
  (`StorageSpec`, `StorageEnum`), **device tree values** (`StrTo`, `FdtText`, `FdtLimits`, `FdtValue`), **SMC dispatch**
  (`RuntimeSvc`) and the **ARM flash footer checksum** (`AfsChecksum`).
- `Machine` holds the bytes, machine words and permutation facts that the models share.

Code that updates state in place is a class or a method over arrays, proved against functions on
values; the properties are proved about those functions. What lies outside the modelled code is a
parameter of each call: whether a source range is mapped and an image accepted (firmware update), the
I/O layer's answers and the verification verdict (boot loading), what a status bit shows at each poll
(fuses), the driver's answer to an erase (flash), and the byte behind a property value (device tree).

Some promises hold only under a condition. Each is stated as an equivalence with that condition, most
with a concrete input where it fails:

- A continued copy stays inside its image: `ContinuedCopyInsideIff`, `WrappedCopy` (32-bit size sum).
- A fresh copy leaves the images that BL1 holds alone: `FreshCopySparesIff`, `CopiedOver` (the declared size is
  checked against the free trusted RAM only, so an accepted image can be executed with other bytes).
- RESUME finds an interrupted image: `ResumeRefusedIff`, `ResumeRefused` (below).
- An authenticated load leaves reserved images alone: `AuthHitsIff`, `SafeForEveryVerifierIff` and, over
  sequences of calls, `AuthLoadsKeepReservedIff`; `RejectionErasesReserved`. A load of an empty image, or
  a short read that the I/O layer calls successful, returns 0 and leaves the caller's description of the
  image as it was, and a rejection then erases what that description names.
- A rejected image is erased, and a successful call has loaded its image: `RejectionErasesIff` and
  `ErasedForEveryVerifierIff` with `ShortReadSurvivesRejection`, `SuccessMeansLoadedIff` with `EmptyImageSucceeds`.
- The comparator orders regions: `CmpEntryOrdersIff`, `CmpEntryWraps`. The table
  conserves coverage for regions that end below 2^64, and a join does exactly then: `JoinConservesIff`,
  `TopPageTakesInBottom`.
- A fuse write stays below the row limit: `StaysBelowLimitIff`; a field of 33 to 63 bits reads back as written:
  `MiddleFieldRoundTripIff`.
- Erase ranges are accepted: `FillSectRanges` (ranges off the sector boundaries).
- EEPROM transfers stay in a page, writes are linear copies and reads deliver their range:
  `TransfersStayInPageIff`, `WriteIsCopyIff`, `ReadIsSliceIff` with `CrossesPage`, `WriteWraps`, `ReadWraps`
  (pages over 256 bytes).
- A client sees every device: `SeesAllIff`, `NetworkHidesDisk` (inactive slots, network devices).
- A printed string list can be set again: `PrintedStringsParseIff`, `BracketedString`; and the parser stays
  inside its arguments and its buffer: `FaultIff`, `UnclosedCells`; `StoredIsLength`, `LongString`.
- Every dispatched SMC has a handler: `DispatchHasHandlerIff`, `HandlerMissing`.
- A zero checksum singles out the inverse: `ZeroIff`, `AllOnesSumToZero`.

Where code and documentation disagree the models follow the code. The firmware update document
(`atf-marvell/docs/firmware-update.md`, line 301) refuses RESUME in the normal world only when no
secure image is INTERRUPTED. The code consults the last executed image: once another image has been
executed, an interrupted one is never resumed (`StrandedForever`), and RESUME is refused exactly when
every interrupted image is of that kind (`ResumeRefusedIff`).

`dafny verify dfyconfig.toml` checks the whole project.

## Model

| member | source | states |
|---|---|---|
| `FwuWorlds.WorldInvStep` | atf-marvell/bl1/bl1_fwu.c:356-492 | Every SMC and every stretch of work keeps the world invariant, and no assertion of RESUME or DONE fails in a state that has it. |
| `FwuWorlds.WorldInvRun` | atf-marvell/bl1/bl1_fwu.c:76-112 | The world invariant holds in every state of every run, whatever the callers ask for. |
| `FwuWorlds.WorldsAgree` | atf-marvell/bl1/bl1_fwu.c:399-492 | In every run the secure world runs if and only if exactly one secure image is EXECUTED, and it is the last executed one; in the normal world a valid last image is secure, executable and INTERRUPTED; no handler assertion fails. |
| `FwuWorlds.ExecuteStrands` | atf-marvell/bl1/bl1_fwu.c:356-393 | Executing another image strands the interrupted one. |
| `FwuWorlds.StrandedForever` | atf-marvell/bl1/bl1_fwu.c:356-492 | An interrupted image left behind by another EXECUTE keeps its whole descriptor in every later state. |
| `FwuWorlds.ResumeRefusedIff` | atf-marvell/bl1/bl1_fwu.c:399-435 | From the normal world RESUME is refused if and only if every interrupted secure image is stranded. |
| `FwuWorlds.NormalContextKept` | atf-marvell/bl1/bl1_fwu.c:382-391 | While the secure world runs, the saved normal-world context stays the registers the normal world left with. |
| `FwuWorlds.NormalRegistersRestored` | atf-marvell/bl1/bl1_fwu.c:437-490 | Whenever control returns to the normal world, by RESUME or DONE, its EL1 registers are those it had when it last left. |
| `FwuWorlds.SecureContextKept` | atf-marvell/bl1/bl1_fwu.c:437-449 | While the normal world runs, the interrupted image and its saved context stay as they were; after DONE no image is left to resume. |
| `FwuWorlds.SecureRegistersRestored` | atf-marvell/bl1/bl1_fwu.c:437-449 | A resumed image is the one that was interrupted and gets its own registers back; an executed one gets fresh ones. |
| `FwuModel.MemCopied` | atf-marvell/bl1/bl1_fwu.c:224-226 | A block copy puts each source byte in its place and changes no byte outside its destination. |
| `FwuAnswers.StateDiagram` | atf-marvell/bl1/bl1_fwu.c:117-492 | Every state change of every image is a move of the design guide's diagram, by the right request from the right world, and only the descriptor of the request's image changes. |
| `FwuAnswers.CopyAnswer` | atf-marvell/bl1/bl1_fwu.c:129-241 | COPY answers -EPERM, -ENOMEM or 0 under exactly the design guide's conditions, and changes nothing unless it answers 0. |
| `FwuAnswers.AuthAnswer` | atf-marvell/bl1/bl1_fwu.c:256-351 | In every state and for every caller AUTH answers 0 if and only if it makes the image AUTHENTICATED, if and only if the verifier was asked and accepted; -EAUTH if and only if it was asked and rejected, and then the image is in RESET and only a copied image costs memory; -ENOMEM and -EPERM exactly under their conditions, with nothing changed. |
| `FwuAnswers.ExecuteAnswer` | atf-marvell/bl1/bl1_fwu.c:356-393 | To the normal world EXECUTE answers 0 if and only if it enters the secure world, exactly for an AUTHENTICATED secure executable image; otherwise -EPERM and nothing changes. |
| `FwuAnswers.WrongWorld` | atf-marvell/bl1/bl1_fwu.c:368-463 | EXECUTE from the secure world and DONE from the normal world are refused and change nothing. |
| `FwuAnswers.ResumeAnswer` | atf-marvell/bl1/bl1_fwu.c:399-451 | RESUME switches worlds, moves the last image between EXECUTED and INTERRUPTED and hands its parameter over; without a last image the normal world gets -EPERM and nothing changes. |
| `FwuAnswers.DoneAnswer` | atf-marvell/bl1/bl1_fwu.c:456-492 | After DONE the normal world runs, RESUME is refused, and a fresh copy of the finished image that has a source and room is accepted. |
| `FwuImages.ContinuedCopyInsideIff` | atf-marvell/bl1/bl1_fwu.c:154-165 | A continued copy stays inside its image if and only if its 32-bit size sum does not wrap. |
| `FwuImages.CopyKeepsIff` | atf-marvell/bl1/bl1_fwu.c:224-226 | A block copy leaves an address alone for every memory if and only if the address is outside the block. |
| `FwuImages.FreshCopySparesIff` | atf-marvell/bl1/bl1_fwu.c:190-226 | For every memory and block size a fresh copy spares the images that BL1 holds if and only if the declared size is clear of them; the code compares it with the free trusted RAM alone. |
| `FwuImages.DescsStep` | atf-marvell/bl1/bl1_fwu.c:117-492 | No step adds or removes a descriptor or changes a base, world or executability. |
| `FwuImages.BlockInvStep` | atf-marvell/bl1/bl1_fwu.c:117-241 | The meaning of COPYING and COPIED (0 < copied < size, and copied = size, inside free trusted RAM) is kept for each image by every clean step. |
| `FwuImages.UndisturbedStep` | atf-marvell/bl1/bl1_fwu.c:117-351 | A clean step brings no image that is being copied over one that is held. |
| `FwuImages.ImageInvRun` | atf-marvell/bl1/bl1_fwu.c:117-492 | That meaning, the disjointness of the images being copied and the key set hold in every state of every clean run. |
| `FwuImages.WritesStayInside` | atf-marvell/bl1/bl1_fwu.c:117-351 | Every byte a handler changes lies in the free trusted RAM and inside the image named in the call. |
| `FwuImages.RejectedImageErased` | atf-marvell/bl1/bl1_fwu.c:317-336 | A copied image that fails authentication is zeroed in full, nothing else changes, and it is back in RESET. |
| `FwuImages.BlockProgress` | atf-marvell/bl1/bl1_fwu.c:154-237 | Each accepted block strictly shrinks what is left, and completes the image exactly when it is at least as long as what was left. |
| `FwuImages.HeldMemoryKept` | atf-marvell/bl1/bl1_fwu.c:117-351 | A step that works on another image leaves every byte of a held image alone. |
| `FwuImages.PlacedCopy` | atf-marvell/bl1/bl1_fwu.c:154-237 | The clipped block that an accepted call writes is the block the transfer gains, at the next place. |
| `FwuImages.InPlaceRun` | atf-marvell/bl1/bl1_fwu.c:117-241 | Throughout every clean run the first copied bytes at an image's base are the concatenation of its accepted clipped blocks. |
| `FwuImages.CopyInBlocks` | atf-marvell/bl1/bl1_fwu.c:117-241 | Block copying refines a one-shot copy: COPYING means some but not all declared bytes are in place, COPIED means all of them are. |
| `FwuImages.BecomesAuthenticated` | atf-marvell/bl1/bl1_fwu.c:246-351 | An image becomes AUTHENTICATED only by an accepted authentication, which for a copied image changes nothing but its state. |
| `FwuImages.LastAuthentication` | atf-marvell/bl1/bl1_fwu.c:246-351 | An AUTHENTICATED image has a latest accepting step, since when its descriptor and, when authenticated from the normal world, its bytes are unchanged. |
| `FwuImages.ExecutedImageIsAuthentic` | atf-marvell/bl1/bl1_fwu.c:117-393 | At EXECUTE an image authenticated from the normal world holds exactly the accepted bytes, which are the bytes received in blocks, over all interleavings of other calls. |
| `FwuExamples.WrappedCopy` | atf-marvell/bl1/bl1_fwu.c:154-165 | A run in which a continued copy wraps its sum, is accepted and changes a byte outside the free RAM. |
| `FwuExamples.ResumeRefused` | atf-marvell/bl1/bl1_fwu.c:399-435 | A run after which RESUME is refused although a secure image is INTERRUPTED. |
| `FwuExamples.UncheckedBase` | atf-marvell/bl1/bl1_fwu.c:246-393 | A run in which an image authenticated at its source by a secure caller is executed with other bytes at its base. |
| `FwuExamples.CopiedOver` | atf-marvell/bl1/bl1_fwu.c:117-393 | A run in which an image accepted from the normal world is copied over by another image and executed with another byte than the one accepted. |
| `FwuHandlers.Bl1.constructor` | atf-marvell/bl1/bl1_main.c:155-166 | Firmware update starts in the normal world with every secure image in RESET, which has the world invariant. |
| `FwuHandlers.Bl1.ImageCopy` | atf-marvell/bl1/bl1_fwu.c:117-241 | The handler's new state and return code are the copy step's, in all branches. |
| `FwuHandlers.Bl1.ImageAuth` | atf-marvell/bl1/bl1_fwu.c:246-351 | The handler's new state and return code are the authentication step's. |
| `FwuHandlers.Bl1.ImageExecute` | atf-marvell/bl1/bl1_fwu.c:356-393 | The handler's new state and return code are the execute step's. |
| `FwuHandlers.Bl1.ImageResume` | atf-marvell/bl1/bl1_fwu.c:399-451 | Under the world invariant all assertions hold and the result is the resume step's. |
| `FwuHandlers.Bl1.SecImageDone` | atf-marvell/bl1/bl1_fwu.c:456-492 | Under the world invariant all assertions hold and the result is the done step's. |
| `FwuHandlers.Bl1.SmcHandler` | atf-marvell/bl1/bl1_fwu.c:76-112 | Every SMC is one step of the state machine and hands the world invariant on. |
| `MemLayout.IsMemFreeIff` | atf-marvell/common/bl_common.c:63-98 | The overflow-free test decides exactly whether a request is empty or lies byte for byte in an addressable free region. |
| `MemLayout.ReserveSplits` | atf-marvell/common/bl_common.c:106-165 | Old free size = new free size + request + discarded chunk, the larger side is kept, the upper one of equals, and what is left is inside the old region and disjoint from the request, up to the top of the address space. |
| `BootLoad.LoadKeeps` | atf-marvell/common/bl_common.c:391-495 | A load keeps reserved regions pairwise disjoint, disjoint from free memory and inside the initial region, and changes no reserved byte. |
| `BootLoad.LoadWritesFreeMemory` | atf-marvell/common/bl_common.c:391-495 | A load changes memory only inside the free region and the requested range. |
| `BootLoad.LoadReturns` | atf-marvell/common/bl_common.c:391-495 | A load returns the first failing result, or -ENOMEM for an image that does not fit, and only a read changes memory. |
| `BootLoad.LoadsNeverOverwrite` | atf-marvell/common/bl_common.c:391-495 | Over any sequence of loads, every region reserved earlier keeps its bytes to the end. |
| `BootLoad.AcyclicRanked` | atf-marvell/drivers/auth/auth_mod.c:321-344 | Every parent relation without a cycle has a rank that decreases towards the root. |
| `BootLoad.ChainShape` | atf-marvell/common/bl_common.c:504-521 | The chain of a call links each image to its parent, back to the first authenticated parent or the root, and what comes before its end is not authenticated yet. |
| `BootLoad.AuthenticatesRootFirst` | atf-marvell/common/bl_common.c:504-554 | The call loads and accepts exactly the not yet authenticated ancestors, root first, and then the image; or it stops at the first that cannot be loaded or is rejected, and nothing below is attempted. |
| `BootLoad.SuccessMeansAuthentic` | atf-marvell/common/bl_common.c:504-554 | On success the image is authenticated and the memory described was accepted; after a rejection the memory described is zero; authenticated images keep having authenticated parents. |
| `BootLoad.AncestorsAuthenticated` | atf-marvell/drivers/auth/auth_mod.c:366-438 | Every ancestor of an authenticated image is authenticated. |
| `BootAuth.LoadedIff` | atf-marvell/common/bl_common.c:391-495 | A load that returns 0 has loaded and described the image if and only if the image is not empty and was read in full; otherwise description and layout are as before. |
| `BootAuth.RejectionErasesIff` | atf-marvell/common/bl_common.c:535-542 | A rejection erases every byte its load delivered if and only if the load was complete or the delivered bytes outside the old description were zero. |
| `BootAuth.VerifyHitsIff` | atf-marvell/common/bl_common.c:523-542 | One load and verification changes a reserved byte if and only if the image is rejected after a silent load and the old description names a reserved byte that is not zero. |
| `BootAuth.AuthKeepsLayout` | atf-marvell/common/bl_common.c:504-554 | Whatever fails, an authenticated load keeps reservations disjoint and inside the layout, reserves at most the range it describes, and describes memory that was free unless it described nothing. |
| `BootAuth.AuthHitsIff` | atf-marvell/common/bl_common.c:504-554 | The whole call changes a reserved byte if and only if it ends in a rejection, every load up to it was silent, and the caller's description names a reserved byte that is not zero. |
| `BootAuth.SuccessMeansLoadedIff` | atf-marvell/common/bl_common.c:504-554 | A successful call has loaded and reserved the image if and only if the image is not empty and was read in full. |
| `BootAuth.AuthRejectionErasesIff` | atf-marvell/common/bl_common.c:504-554 | The erasure equivalence for the last load of a whole call. |
| `BootAuth.GetsTo` | atf-marvell/common/bl_common.c:504-554 | Every call gets to a position of its chain: the images before it are loaded and the bytes verified for each accepted; there the load fails, or the bytes verified are rejected and what is described is erased; memory and description are those of the reads. |
| `BootAuth.CheckedIsDelivered` | atf-marvell/common/bl_common.c:523-540 | For an image that is read in full the bytes verified are those that the storage delivers. |
| `BootAuth.SucceedsIff` | atf-marvell/common/bl_common.c:504-554 | A call succeeds if and only if every image of its chain can be loaded and the bytes then verified are accepted, and ends in a rejection if and only if the first image of which that is not so can be loaded. |
| `BootAuth.GoodImagesSucceedIff` | atf-marvell/common/bl_common.c:504-554 | When every image of the chain is read in full, the call succeeds if and only if each fits the free region and the verifier accepts what the storage delivers for it. |
| `BootAuth.RejectionMeansRejected` | atf-marvell/common/bl_common.c:535-542 | After a rejection at an image that was read in full, the verifier rejects what the storage delivered for it. |
| `BootAuth.ErasedForEveryVerifierIff` | atf-marvell/common/bl_common.c:504-554 | Before the call: every rejection erases all that its last load delivered, whatever the verifier, if and only if for each image that the call can get to the bytes stored outside the description then in force are zero. |
| `BootAuth.SafeForEveryVerifierIff` | atf-marvell/common/bl_common.c:504-554 | Before the call: no verifier makes it change a reserved byte if and only if the first image of its chain is not loaded silently or the description names no reserved byte but zeros. |
| `BootAuth.AuthLoadsKeepLayout` | atf-marvell/common/bl_common.c:504-554 | Over any sequence of authenticated loads reservations stay pairwise disjoint, disjoint from free memory and inside the initial region, and are only added to. |
| `BootAuth.AuthLoadsNeverOverwrite` | atf-marvell/common/bl_common.c:504-554 | What some calls have reserved keeps its bytes through all later calls that do no damage. |
| `BootAuth.AuthLoadsKeepReservedIff` | atf-marvell/common/bl_common.c:504-554 | Over a whole sequence everything reserved keeps its bytes from then on if and only if no call does damage. |
| `BootAuth.CarefulCallIsSafe` | atf-marvell/common/bl_common.c:504-554 | A call does no damage if its description is empty at the start or none of its images is loaded silently. |
| `BootAuth.RejectionErasesReserved` | atf-marvell/common/bl_common.c:535-542 | A concrete rejected empty image that costs a reserved image its first byte. |
| `BootAuth.ShortReadSurvivesRejection` | atf-marvell/common/bl_common.c:448-451 | A concrete short read whose bytes survive the rejection. |
| `BootAuth.EmptyImageSucceeds` | atf-marvell/common/bl_common.c:429-433 | A concrete empty image that is accepted with nothing loaded or reserved. |
| `BootLoader.Loader.ReserveMem` | atf-marvell/common/bl_common.c:136-165 | The free region in place becomes the larger side of the request. |
| `BootLoader.Loader.LoadImageAt` | atf-marvell/common/bl_common.c:391-495 | Layout, memory, description and return code are the load function's; the entry point is set exactly when the image is reserved for execution. |
| `BootLoader.Loader.LoadAuthImage` | atf-marvell/common/bl_common.c:504-554 | The recursion over mutable memory computes the authenticated load on values, and ends. |
| `BootLoader.Loader.LoadAndAuthenticate` | atf-marvell/common/bl_common.c:504-554 | The same for any parent relation without a cycle, with no rank given. |
| `HandOff.PathPrefixOfChain` | atf-marvell/common/desc_image_load.c:172-207 | Hand-offs are deterministic: any path from the head is a prefix of the complete chain. |
| `HandOff.ChainDistinct` | atf-marvell/common/desc_image_load.c:136-220 | A chain that ends visits no image twice. |
| `HandOff.RevisitHasNoChain` | atf-marvell/common/desc_image_load.c:172-207 | Hand-offs that revisit an image have no complete chain. |
| `HandOff.LongPathHasNoChain` | atf-marvell/common/desc_image_load.c:168-210 | A path as long as the table that can still go on never ends (pigeonhole). |
| `HandOff.StuckPathHasNoChain` | atf-marvell/common/desc_image_load.c:198-210 | A path whose last hand-off has no executable target other than index 0 has no complete chain. |
| `HandOff.RefusedLinkHasNoChain` | atf-marvell/common/desc_image_load.c:187-193 | The loop-detection assertion fails only on a revisit. |
| `HandOff.DistinctFits` | atf-marvell/common/desc_image_load.c:168-210 | Distinct indices of a table of n descriptors are at most n. |
| `HandOff.BlParams.GetBlParamsNodeIndex` | atf-marvell/common/desc_image_load.c:59-70 | The first descriptor with the id, or -1 exactly when there is none. |
| `HandOff.BlParams.GetBlLoadInfo` | atf-marvell/common/desc_image_load.c:96-127 | The load list visits every descriptor in table order, and is refused only for an empty table. |
| `HandOff.BlParams.FindHead` | atf-marvell/common/desc_image_load.c:149-163 | The head is the first image marked executable and first to execute, or stays null. |
| `HandOff.BlParams.LinkChain` | atf-marvell/common/desc_image_load.c:168-210 | The bounded loop gets to its end if and only if a complete chain exists. |
| `HandOff.BlParams.GetNextBlParams` | atf-marvell/common/desc_image_load.c:136-220 | The call returns normally if and only if a complete chain exists; then the list is that chain, without repeats, and all other nodes are untouched. |
| `EfiMap.CmpEntryOrdersIff` | u-boot-marvell/cmd/efi.c:56-67 | The signed 64-bit comparator orders by address exactly for pairs less than half the address space apart. |
| `EfiMap.CmpEntryWraps` | u-boot-marvell/cmd/efi.c:56-67 | A concrete pair half the address space apart is put in the wrong order. |
| `EfiMap.MergeOne` | u-boot-marvell/cmd/efi.c:88-114 | One turn appends one descriptor to the merged list in place, in 64-bit arithmetic, and touches nothing after the write position. |
| `EfiMap.JoinEnd` | u-boot-marvell/cmd/efi.c:106-113 | A joined region ends where the region it took in ends, also when page counts and addresses wrap. |
| `EfiMap.MergeInPlace` | u-boot-marvell/cmd/efi.c:69-120 | The in-place merge is the merge on values of the original contents, so no unread descriptor is overwritten, with an end mark after it. |
| `EfiMap.Sink` | u-boot-marvell/lib/qsort.c:43-60 | An element sinks by swaps that only rearrange the array; with gap 1 and starts below 2^63 the sorted prefix grows. |
| `EfiMap.Qsort` | u-boot-marvell/lib/qsort.c:22-66 | The Shell sort always permutes and leaves the rest of the array alone; it sorts by start address when all starts lie below 2^63. |
| `EfiMap.MergeConserves` | u-boot-marvell/cmd/efi.c:88-114 | For regions that end below 2^64 and every address and type, the number of covering descriptors is conserved (boot services counting as conventional when skipped), and so is the number of pages. |
| `EfiMap.JoinConservesIff` | u-boot-marvell/cmd/efi.c:99-107 | Joining two regions conserves coverage at every address if and only if the first does not run up to the top of the address space. |
| `EfiMap.MergeSorted` | u-boot-marvell/cmd/efi.c:88-114 | Merging a sorted list gives a sorted list. |
| `EfiMap.MergeMaximal` | u-boot-marvell/cmd/efi.c:88-114 | When boot services are skipped no two neighbours of the result are still mergeable, for any list. |
| `EfiMap.MaximalIsSeparate` | u-boot-marvell/cmd/efi.c:99-113 | In the table no conventional region ends where the next conventional one starts. |
| `EfiMap.SkippedKinds` | u-boot-marvell/cmd/efi.c:49-54 | With boot services skipped, types 1 to 4 count as type 7 and every other type as itself, at every address. |
| `EfiMap.MergeOrigins` | u-boot-marvell/cmd/efi.c:88-114 | Every entry is a descriptor of the map; conventional ones keep its start and other fields and may have grown. |
| `EfiMap.MergeHidesServices` | u-boot-marvell/cmd/efi.c:88-96 | With boot services skipped no entry of types 1 to 4 is left. |
| `EfiMap.SkippedTable` | u-boot-marvell/cmd/efi.c:69-120 | All of this for the table of any map, with coverage type by type for regions that end below 2^64. |
| `EfiMap.MergeAllIsIdentity` | u-boot-marvell/cmd/efi.c:92-104 | With boot services shown nothing is merged. |
| `EfiMap.CoverageOfPermutation` | u-boot-marvell/cmd/efi.c:82-83 | Coverage and pages do not depend on the order of the map. |
| `EfiMap.BuildMemTable` | u-boot-marvell/cmd/efi.c:69-120 | For every map the table is the merge of a permutation of it with an end mark, fully merged; it conserves coverage and pages for regions ending below 2^64, is sorted for starts below 2^63, when skipping has only entries from the map and none of types 1 to 4, and without skipping holds the same descriptors. |
| `EfiMap.TableConserves` | u-boot-marvell/cmd/efi.c:69-120 | Coverage and pages of the merged sort are those of the firmware's map. |
| `EfiMap.TopPageTakesInBottom` | u-boot-marvell/cmd/efi.c:97-113 | A page ending exactly at 2^64 sorts before a page at 0 and takes it in, so that the table no longer shows address 0. |
| `EfuseBits.HalvesShiftTheRow` | A3700-utils-marvell/wtmi/efuse.c:205-214 | Both shifts on 32-bit halves are the 64-bit shifts at every offset, across the word boundary. |
| `EfuseDevice.FusesOnlyBurn` | A3700-utils-marvell/wtmi/efuse.c:26-176 | No control write clears a fuse, and one that changes a fuse is a burn pulse in write mode with programming enabled. |
| `EfuseFields.WrittenBit` | A3700-utils-marvell/wtmi/efuse.c:277-344 | After one write a cell is set if and only if it was set or the call got to it and asked for it. |
| `EfuseFields.WrittenCell` | A3700-utils-marvell/wtmi/efuse.c:247-334 | Cell by cell and for every field size: a cell is set if and only if it was or the field asks for it, with three cells for a single bit, as many as the field has up to 32 bits, and both words otherwise. |
| `EfuseFields.OutsideFieldKept` | A3700-utils-marvell/wtmi/efuse.c:260-310 | Writing a field of up to 32 bits leaves every cell outside it as it was. |
| `EfuseFields.ReadFieldBit` | A3700-utils-marvell/wtmi/efuse.c:205-229 | A short field read is, bit by bit, its cells and nothing else; a single bit is what two of its three cells say. |
| `EfuseFields.LoopsFill` | A3700-utils-marvell/wtmi/efuse.h:24 | A field of 64 bits and more takes as many rows as it fills. |
| `EfuseFields.FuseSetIff` | A3700-utils-marvell/wtmi/efuse.c:247-362 | After any sequence of writes, completed, timed out or refused, a fuse is set if and only if it was set before or some write got to it and asked for it. |
| `EfuseFields.StaysBelowLimitIff` | A3700-utils-marvell/wtmi/efuse.c:255-258 | No value makes a write change a row at or above the limit if and only if the whole field lies below it; the code checks its first row. |
| `EfuseFields.ShortFieldRoundTrip` | A3700-utils-marvell/wtmi/efuse.c:183-334 | Fields of 1 to 32 bits written to blank cells read back as written at every offset where they fit. |
| `EfuseFields.MiddleFieldRoundTripIff` | A3700-utils-marvell/wtmi/efuse.c:183-334 | A field of 33 to 63 bits is not cut: it reads back as written to a blank row if and only if no bit is moved out of the row. |
| `EfuseFields.SingleBitSurvivesOneFault` | A3700-utils-marvell/wtmi/efuse.c:217-226 | A single bit reads back as written even if any one of its three cells is wrong. |
| `EfuseFields.WholeRowsRoundTrip` | A3700-utils-marvell/wtmi/efuse.c:277-344 | Fields of 64 bits and more written to blank rows hold exactly the words written. |
| `EfuseFields.FieldRoundTrip` | A3700-utils-marvell/wtmi/efuse.c:183-362 | A field of 1 to 32 bits or of whole rows written to blank cells reads back as it was meant. |
| `EfuseDriver.Efuse.WriteEnable` | A3700-utils-marvell/wtmi/efuse.c:43-104 | The unlock sequence burns nothing and unlocks programming; it succeeds exactly when the code match shows in one of its polls. |
| `EfuseDriver.Efuse.WriteDisable` | A3700-utils-marvell/wtmi/efuse.c:49-64 | The extra code clock spoils the match and the master enable is cleared, with no fuse changed. |
| `EfuseDriver.Efuse.ReadRow` | A3700-utils-marvell/wtmi/efuse.c:111-176 | Reading a row burns nothing and, when the device reports in time, returns the two halves of the row. |
| `EfuseDriver.Efuse.BurnRow` | A3700-utils-marvell/wtmi/efuse.c:313-334 | The column loop turns the row into its old value OR the two words, and no other row or word changes. |
| `EfuseDriver.Efuse.Read` | A3700-utils-marvell/wtmi/efuse.c:183-241 | Nothing is burned; success exactly when arguments are valid and every row reports; short fields come back shifted, cut or voted, whole rows word by word. |
| `EfuseDriver.Efuse.WriteRow` | A3700-utils-marvell/wtmi/efuse.c:277-344 | One turn reads the row, moves the field to its offset and burns it in; a time-out leaves the fuses alone. |
| `EfuseDriver.Efuse.WriteRows` | A3700-utils-marvell/wtmi/efuse.c:277-344 | The rows written are exactly those before the first whose read times out. |
| `EfuseDriver.Efuse.Write` | A3700-utils-marvell/wtmi/efuse.c:247-362 | On success each addressed row is its old value OR the requested one, cell by cell, no other cell differs, and programming is locked; on a time-out the rows before it are written in full, the others not at all, and programming stays unlocked; a refused call touches nothing. |
| `EfuseDriver.Efuse.WriteAll` | A3700-utils-marvell/wtmi/efuse.c:247-362 | A sequence of write calls on the device: a fuse is set afterwards if and only if it was set before or a call got to it and asked for it, with each call's progress and status. |
| `EfuseDriver.Efuse.WriteThenRead` | A3700-utils-marvell/wtmi/efuse.c:183-362 | A write to blank cells followed by a read, when both succeed, gives the field back as it was meant. |
| `FlashRanges.ScanBank` | u-boot-marvell/cmd/flash.c:222-237 | The last sector of the bank that begins at the start address and the last that ends at the end address, among those meeting the range, or -1. |
| `FlashRanges.FillBank` | u-boot-marvell/cmd/flash.c:211-269 | What one bank contributes, which error it gives, and when it is passed over. |
| `FlashRanges.FillSectRanges` | u-boot-marvell/cmd/flash.c:192-273 | Banks that are not there are passed over with nothing chosen. If the others are contiguous, the result is success with sectors if and only if the range begins with a sector and ends with one or beyond the flash; then exactly the sectors meeting it are chosen and counted; and each of the boundary and order errors is reported under exactly its condition. |
| `FlashRanges.ChosenIff` | u-boot-marvell/cmd/flash.c:192-273 | After success a sector is chosen if and only if its bank is there and it meets the range. |
| `FlashRanges.UnionIsTheRange` | u-boot-marvell/cmd/flash.c:192-273 | The sectors that meet such a range cover exactly its addresses, up to the end of the flash. |
| `FlashRanges.RoundB` | u-boot-marvell/cmd/flash.c:96-132 | An address inside flash moves to the end of its sector; any other address is refused unchanged. |
| `FlashRanges.SectErase` | u-boot-marvell/cmd/flash.c:402-438 | If the banks that are there are contiguous, a successful erase covers exactly their sectors meeting the range, and succeeds for exactly the ranges on boundaries when the driver does. |
| `FlashRanges.EraseLength` | u-boot-marvell/cmd/flash.c:172-190 | Erasing by length: on contiguous banks the rounded end never gives the end-boundary error, the call succeeds exactly for ranges that begin with a sector, and exactly the sectors meeting the unrounded range are erased. |
| `FlashRanges.RoundingAddsNothing` | u-boot-marvell/cmd/flash.c:172-190 | Rounding the end of a range to the end of its sector adds no sector. |
| `Eeprom.Len` | u-boot-marvell/cmd/eeprom.c:107-128 | A transfer is never empty, never longer than the bus allows and never passes the end of the range. |
| `Eeprom.LenExact` | u-boot-marvell/cmd/eeprom.c:107-128 | A transfer is as long as the bus, the range and, for pages of at most 256 bytes, the page allow; larger pages do not limit it. |
| `Eeprom.TransfersStayInPageIff` | u-boot-marvell/cmd/eeprom.c:107-128 | Every transfer stays inside one page, for all offsets and lengths, if and only if pages have at most 256 bytes. |
| `Eeprom.CrossesPage` | u-boot-marvell/cmd/eeprom.c:107-128 | For every larger page size a concrete transfer that crosses a page, and the byte of it that comes out at the page's start. |
| `Eeprom.PlanTiles` | u-boot-marvell/cmd/eeprom.c:158-181 | The transfers of a call tile its range exactly once, in order, each within the bus limit. |
| `Eeprom.PlanWithinPages` | u-boot-marvell/cmd/eeprom.c:158-181 | With pages of at most 256 bytes each transfer of a call stays in one page. |
| `Eeprom.WriteIsCopy` | u-boot-marvell/cmd/eeprom.c:193-209 | On a device whose address counter wraps within a page, the write transfers amount to one linear copy. |
| `Eeprom.WriteWraps` | u-boot-marvell/cmd/eeprom.c:158-209 | For every larger page size a concrete write that changes the first byte of the device instead of copying. |
| `Eeprom.WriteIsCopyIff` | u-boot-marvell/cmd/eeprom.c:158-209 | Every write inside the device is one linear copy if and only if pages have at most 256 bytes. |
| `Eeprom.ReadIsSlice` | u-boot-marvell/cmd/eeprom.c:183-191 | The read transfers deliver the range as it is in memory. |
| `Eeprom.ReadWraps` | u-boot-marvell/cmd/eeprom.c:158-191 | For every larger page size a concrete read that delivers a byte of another page. |
| `Eeprom.ReadIsSliceIff` | u-boot-marvell/cmd/eeprom.c:158-191 | Every read inside the device delivers its range if and only if pages have at most 256 bytes. |
| `Eeprom.ReadAfterWrite` | u-boot-marvell/cmd/eeprom.c:183-209 | A read after a write returns what was written and every other byte is as before. |
| `Eeprom.Device.Write` | u-boot-marvell/cmd/eeprom.c:158-181 | The write loop makes exactly the planned transfers; they tile the range asked for, or there are none when it ends past 2^32; for pages of at most 256 bytes and a range inside the device, memory is the old memory with the buffer copied in. |
| `Eeprom.Device.Read` | u-boot-marvell/cmd/eeprom.c:158-181 | The read loop delivers exactly the planned transfers; they tile the range asked for; for pages of at most 256 bytes and a range inside the device, the buffer is that range. |
| `StorageSpec.VisibleDistinct` | u-boot-marvell/api/api_storage.c:96-284 | No client sees a device twice, whatever slots are inactive: storage devices come in strictly increasing (group, index) order. |
| `StorageSpec.UsableIff` | u-boot-marvell/api/api_storage.c:96-147 | The reference list holds exactly the active slots. |
| `StorageSpec.SeesAllIff` | u-boot-marvell/api/api_storage.c:173-284 | A client sees every usable device exactly once if and only if none follows an inactive one in its group and no group skipped for a foreign cookie has any. |
| `StorageSpec.SeesEverything` | u-boot-marvell/api/api_storage.c:96-284 | Without a network device and inactive slots every device is seen exactly once. |
| `StorageSpec.NetworkHidesDisk` | u-boot-marvell/api/api.c:197-227 | A concrete machine with a network device and one disk whose disk is never seen. |
| `StorageEnum.NextSlot` | u-boot-marvell/api/api_storage.c:96-147 | The first slot at or after an index that holds a device. |
| `StorageEnum.RestAtNext` | u-boot-marvell/api/api_storage.c:173-261 | What is still to come depends only on the next occupied slot. |
| `StorageEnum.WalkOne` | u-boot-marvell/api/api_storage.c:173-261 | One group's turn either returns the first device still to come or leaves all of them to come. |
| `StorageEnum.Enumerator.DevStorGet` | u-boot-marvell/api/api_storage.c:96-147 | The search loop returns the next device after the cookie's and whether more follow. |
| `StorageEnum.Enumerator.DevStorType` | u-boot-marvell/api/api_storage.c:152-162 | The group of a device, or the number of groups for a foreign cookie. |
| `StorageEnum.Enumerator.DevEnumStor` | u-boot-marvell/api/api_storage.c:173-261 | Flags and cookie after one group's turn are the turn function's. |
| `StorageEnum.Enumerator.DevEnumReset` | u-boot-marvell/api/api_storage.c:263-271 | All groups start afresh. |
| `StorageEnum.Enumerator.DevEnumStorage` | u-boot-marvell/api/api_storage.c:273-284 | For any flags and cookie the loop takes the groups in turn up to the first that finds a device. |
| `StorageEnum.Enumerator.ApiDevEnum` | u-boot-marvell/api/api.c:197-227 | For any flags and cookie the call is the enumeration function: from a null cookie it starts over with the network device, otherwise it goes on. |
| `StorageEnum.StorageFinds` | u-boot-marvell/api/api_storage.c:273-284 | With the flags that go with a cookie, the groups return the first device still to come, if any. |
| `StorageEnum.DevEnumFinds` | u-boot-marvell/api/api.c:197-227 | With a null cookie or one handed out, a call returns the next visible device and leaves the flags that go with it. |
| `StorageEnum.Enumerator.NextDevice` | u-boot-marvell/api/api.c:197-227 | The same on the live flags and cookie. |
| `StorageEnum.Enumerator.EnumerateAll` | u-boot-marvell/api/api.c:180-227 | A client that feeds each cookie back sees exactly the visible devices, in order, and then stops. |
| `StrTo.ScanHex` | u-boot-marvell/lib/strto.c:36-40 | Scanning printed hexadecimal digits gives the number back. |
| `StrTo.ScanDigitsOf` | u-boot-marvell/lib/strto.c:36-40 | For every base from 2 to 16, scanning the digits of a number gives the number. |
| `StrTo.DigitsConvert` | u-boot-marvell/lib/strto.c:16-46 | The digits of a number convert to it, in 64 bits, in the given base or, without one, in base ten, and the conversion ends at the first character that is no digit of the base. |
| `StrTo.HexValIff` | u-boot-marvell/lib/strto.c:36-37 | A character has a digit's value if and only if it is that digit in lower or upper case. |
| `StrTo.TimesIsProduct` | u-boot-marvell/lib/strto.c:38 | The repeated addition that the specification of the digit loop uses is the product that the loop computes. |
| `FdtText.CellToken` | u-boot-marvell/lib/strto.c:16-46 | A cell printed with its 0x prefix converts back with base detection, whatever ends it. |
| `FdtText.ByteToken` | u-boot-marvell/lib/strto.c:16-46 | A two-digit byte converts back in base 16, leading zero or not. |
| `FdtText.NumeralConverts` | u-boot-marvell/lib/strto.c:16-46 | Without a given base, a number converts back from its decimal, its octal (after 0) and its hexadecimal (after 0x) digits, and from a printed cell. |
| `FdtText.WordBytes` | u-boot-marvell/cmd/fdt.c:768-773 | Storing a printed cell big-endian gives back its four bytes. |
| `FdtText.Be32Value` | u-boot-marvell/cmd/fdt.c:768-773 | The four bytes stored for a number below 2^32 are the number. |
| `FdtText.CellsParse` | u-boot-marvell/cmd/fdt.c:756-789 | The cell loop reads cells in any notation from any position, however the text is cut into arguments. |
| `FdtText.BytesParse` | u-boot-marvell/cmd/fdt.c:790-811 | The byte loop reads printed bytes back in the same way. |
| `FdtText.CellListParses` | u-boot-marvell/cmd/fdt.c:746-789 | A list of cells in decimal, octal, hexadecimal or printed form is set to the low 32 bits of its numbers, however the text is cut at its spaces. |
| `FdtText.ReadHexNumber` | u-boot-marvell/cmd/fdt.c:795-806 | The byte loop sets the low eight bits of a hexadecimal number of any length. |
| `FdtText.PrintedValueParses` | u-boot-marvell/cmd/fdt.c:746-927 | Every non-empty value of at most 64 bytes that is not text is read back unchanged from its printed text, however that is cut at its spaces. |
| `FdtText.WordsForm` | u-boot-marvell/cmd/fdt.c:903-914 | A value of whole words, up to 64 bytes and not text, prints as a 0x number of eight digits for each word, at its place. |
| `FdtText.BytesForm` | u-boot-marvell/cmd/fdt.c:915-926 | Any other value up to 64 bytes that is not text prints as two digits for each byte, at its place. |
| `FdtText.LongValueForm` | u-boot-marvell/cmd/fdt.c:903-927 | A longer value that is not text prints as its address and a number that converts back to its length. |
| `FdtText.TextualIff` | u-boot-marvell/cmd/fdt.c:835-870 | Which bytes count as text. |
| `FdtText.PiecesParse` | u-boot-marvell/cmd/fdt.c:812-825 | The strings a value prints as, given as arguments, are the value and a terminator if it had none. |
| `FdtLimits.PrintedStringsParseIff` | u-boot-marvell/cmd/fdt.c:746-901 | A value that prints as quoted strings is read back from them if and only if it ends in a terminator and its first string does not open a bracket. |
| `FdtLimits.CellsNeedText` | u-boot-marvell/cmd/fdt.c:756-789 | Cells that do not begin with two zero bytes need more characters than they give bytes. |
| `FdtLimits.BracketedString` | u-boot-marvell/cmd/fdt.c:746-789 | A concrete bracketed string that is not read back. |
| `FdtLimits.CellsFaultIff` | u-boot-marvell/cmd/fdt.c:759-767 | The cell loop reads past the last argument if and only if there is nothing but numbers up to its end. |
| `FdtLimits.BytesFaultIff` | u-boot-marvell/cmd/fdt.c:795-801 | The byte loop reads past the last argument if and only if there is nothing but hexadecimal numbers and spaces up to its end. |
| `FdtLimits.FaultIff` | u-boot-marvell/cmd/fdt.c:746-827 | The parser reads past the last argument if and only if the arguments open a bracket and nothing but numbers follows. |
| `FdtLimits.UnclosedCells` | u-boot-marvell/cmd/fdt.c:759-767 | A concrete argument that makes the parser read past its end. |
| `FdtLimits.CellConverts` | u-boot-marvell/cmd/fdt.c:770-780 | A cell converts if and only if it starts with a decimal digit. |
| `FdtLimits.StoredIsLength` | u-boot-marvell/cmd/fdt.c:746-827 | An accepted value has four bytes for each number, one for each byte, or one for each character and terminator; it exceeds the buffer if and only if those do. |
| `FdtLimits.LongString` | u-boot-marvell/cmd/fdt.c:261-261 | A string of 1024 characters gives a value longer than the buffer. |
| `StrTo.SimpleStrToUl` | u-boot-marvell/lib/strto.c:16-46 | Value in 64 bits and end position of the number, for the detected and for every given base. |
| `FdtValue.FdtParseProp` | u-boot-marvell/cmd/fdt.c:746-827 | The pointer-walking loops compute the parse function: bytes, refusal, or a read past the last argument; and how many bytes they store, also when they refuse. |
| `FdtValue.IsPrintableString` | u-boot-marvell/cmd/fdt.c:835-870 | True exactly for text without empty strings inside that ends in a terminator, or in a newline followed by a zero byte. |
| `FdtValue.PrintData` | u-boot-marvell/cmd/fdt.c:878-927 | The loops print the text function: nothing, quoted strings, an address for long values, cells or bytes. |
| `RuntimeSvc.EntryIsScan` | atf-marvell/common/runtime_svc.c:113-175 | The table entry of a function identifier is the last descriptor that claims it, as a last-to-first scan finds it. |
| `RuntimeSvc.FidFields` | atf-marvell/common/runtime_svc.c:40-46 | Call type and OEN of a function identifier built from its fields. |
| `RuntimeSvc.ValidIff` | atf-marvell/common/runtime_svc.c:83-104 | A descriptor is valid if and only if its range is not empty, every call type and OEN it names occurs in a function identifier, and it can initialise or handle. |
| `RuntimeSvc.DispatchIff` | atf-marvell/common/runtime_svc.c:57-175 | A call goes to a descriptor if and only if that is the last whose initialisation did not fail, whose type is the call's and whose range holds its OEN. |
| `RuntimeSvc.RuntimeSvcInit` | atf-marvell/common/runtime_svc.c:85-175 | Initialisation panics exactly when a descriptor is invalid; otherwise indexed dispatch selects, for every function identifier, what a last-to-first scan would, also when there are no descriptors. |
| `RuntimeSvc.ScanIsLast` | atf-marvell/common/runtime_svc.c:113-175 | The scan finds a descriptor if and only if it answers and no later one does. |
| `RuntimeSvc.DispatchHasHandlerIff` | atf-marvell/common/runtime_svc.c:57-104 | Every dispatched call has a handler if and only if descriptors without one are shadowed by later ones wherever they would answer. |
| `RuntimeSvc.HandlerMissing` | atf-marvell/common/runtime_svc.c:99-101 | A concrete valid descriptor that answers calls without a handler. |
| `AfsChecksum.SumIsFolded` | u-boot-marvell/cmd/armflash.c:38-57 | The end-around-carry sum depends on the words only through their plain sum. |
| `AfsChecksum.ComputeCrc` | u-boot-marvell/cmd/armflash.c:38-57 | The loop computes the inverse of the end-around-carry sum, or 0 for a length that is not a multiple of four. |
| `AfsChecksum.OrderIrrelevant` | u-boot-marvell/cmd/armflash.c:38-57 | The checksum does not depend on the order of the words. |
| `AfsChecksum.ZeroIff` | u-boot-marvell/cmd/armflash.c:137-145 | With a word anywhere among the others the checksum is 0 if and only if the word is the inverse of their sum, or both are all ones. |
| `AfsChecksum.AllOnesSumToZero` | u-boot-marvell/cmd/armflash.c:38-57 | Two words of all ones have checksum 0 although neither is the inverse of the other. |

## Left out

- Memory check, signature verification, I/O storage, cache maintenance, interrupts and timing: outside the modelled code; their answers are parameters or are not represented.
- SMC return registers, `bl1_fwu_done` and the entry-point fields set by `bl1_prepare_next_image`: the model keeps the EXECUTED state, the fresh secure context and the saved EL1 registers.
- FwuImages.ExecutedImageIsAuthentic: gives no bytes for an image authenticated by a secure caller, because that image is authenticated at its source and not at its base address (`FwuExamples.UncheckedBase`).
- MemLayout.ReserveSplits: an empty request reserves nothing and is not covered; `load_image` never reserves one.
- BootLoader.Loader.LoadImageAt: models the loader with a memory layout; the descriptor-based variant (`LOAD_IMAGE_V2`), which checks a maximum size instead of the free region and reserves nothing, is left out.
- HandOff.BlParams.GetNextBlParams: the argument that passes the list on to the next image is not represented.
- EfiMap.BuildMemTable: the descriptor stride is the size of the structure and allocation succeeds; attributes of absorbed descriptors are dropped, as in the code.
- EfuseDriver.Efuse.Write: a field has at least one bit and ends at a row that the device has (the mailbox uses 1, 8, 32, 64 and 256 bits), a 32-bit shift by 32 gives 0, and a null argument pointer is not represented.
- FlashRanges.FillSectRanges: for known banks that are not contiguous only the absence of the erase error and of choices in other banks is stated; protection and the command line parser are left out.
- Eeprom.Device.Write: bus failures, device addressing octets and the variant without a page limit are left out.
- StorageEnum.Enumerator.ApiDevEnum: device details other than the cookie are left out.
- FdtValue.FdtParseProp: the result is a sequence of any length and `len` says how many bytes the code stores; what a store past the buffer of 1024 bytes overwrites is not represented.
- FdtValue.PrintData: how the address of a long value is shown is a parameter; quoting by the command line parser is left out.
- RuntimeSvc.RuntimeSvcInit: the descriptor section holds fewer than 128 descriptors, as the code asserts.
- AfsChecksum.ComputeCrc: works on words; footers and image tables are left out.
- Other U-Boot commands, the WTMI mailbox and clock code, and the console printing code: user interface, polling and register access without a property of comparable depth.
