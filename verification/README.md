# Remanence, modelled

Remanence reads and writes the disk images of old machines. This project models, in Dafny, the parts of
it whose correctness is a protocol or an algebra rather than a lookup, and proves what those parts are
relied on for. Nothing here runs the original program.

- **Checksums** (`Gf2`, `Lfsr`, `Order`, `Errors`, `Bytes`, `Crc16`, `Crc16Order`, `Crc16Guarantees`,
  `Crc32`, `Crc32Order`, `Crc32Guarantees`). The loops of the forward CRC-16/CCITT and of the reflected,
  table-driven CRC-32 run on bit-vectors; what they compute is stated on bit sequences as polynomials over
  two elements. The generator of the first is the one in section 2 of ITU-T V.41; the second is the check
  of section 8 of RFC 1952 and section 8.1.1.6.2 of ITU-T V.42.
- **The leak probe** (`LeakProbe`). The counting allocator as threads interleaving between the system's
  allocation or free and the atomic counter.
- **The loss account** (`Losses`) and **the generator's directory name** (`Slug`).
- **Owned handles** (`OwnedHandles`) in the C++ header and **consume-once sources** (`MediaSources`) in the
  Python binding.
- **The session** (`Devices`, `Pools`, `PoolRuns`, `PoolFrames`, `PoolAnswers`): devices, pooled media and the links
  between them, as the core keeps them; and **its views across the C surface** (`Views`, `ViewRuns`,
  `ViewAnswers`, `Sessions`): the tables of borrowed views as a state machine, and as a class over boxed objects whose
  every method is one step of it.
- **The load doors** (`Doors`, `DoorAnswers`): who owns each file handle, discovery, source and source list.
- **The durable commit** (`Journal`, `JournalRuns`, `Commits`, `JournalAnswers`, `Recovery`): the sealed undo journal, the
  commit over it with everything the host may refuse, the streaming code of both, and a commit lost
  anywhere.

`Wrappers` holds what they share: the datatypes of absence and refusal, and the numbers of 64 bits.

How the larger results are built: each protocol is a set of steps over a state, `Run` is any sequence of
them, and the main lemmas quantify over every run. Where the original changes state in place there is a
class or a method with loops, and its `ensures` ties it to the step or the function the lemmas speak of.

Seven promises turn out to have a condition; the model states it exactly, with an input that fails.

- A loss account depends on the order of discovery in its details alone, and only where one code is given
  two details (`Losses.SameAccountIff`, `Losses.DiscoveryOrderShows`).
- Its sum is kept only while no code's total reaches 2^64 (`Losses.SumConserved`, `Losses.SumWrapsAway`).
- A handle named twice in one collection past the checks becomes two files over it
  (`Doors.HandlesHaveOneOwnerIff`, `Doors.ClosedTwice`).
- A journal cut short never harms the image, but is refused rather than discarded where its last eight bytes
  are the seal of those before them (`JournalRuns.CutJournalIsHarmless`, `JournalRuns.SomeCutSealsItself`).
- A commit that fails puts the old image back unless what failed was the flush of the emptied sidecar: then
  the undo finds nothing to undo, reports success, and the new image stays (`Commits.FailedKeepsOldIff`,
  `Commits.SomeFailedYetLanded`).
- The sidecar is gone when reconciling succeeds exactly where there was none or it could be removed, since the
  code ignores a failed retirement (`JournalRuns.SidecarGoneIff`, `JournalRuns.SidecarStays`);
  `JournalRuns.CrashAtomic` and `Commits.HistoryIsWhole` hold either way.
- The Python load consumes every file source it is given, refused or not, exactly when it is given one object,
  or a list that a source leads and that names no live source for the first time past the member it is refused
  at, or a list with no live source (`MediaSources.AllConsumed`, `MediaSources.ThirdNotReached`,
  `MediaSources.NoneReached`).

What each operation answers is said apart from how it computes it (`PoolAnswers`, `ViewAnswers`, `DoorAnswers`,
`JournalAnswers`): when it stands, which refusal it is otherwise, and everything it changes.

Where code and comment differ the model follows the code.

## Model

| member | source | states |
|---|---|---|
| `Crc16.Crc16Ccitt.Update` | crates/remanence/src/checksum.rs:79-90 | the nested byte and bit loops take the register to `Fed` of the data, however long |
| `Crc16.Crc16Of` | crates/remanence/src/checksum.rs:97-101 | one call is the seed fed the whole message |
| `Crc16.FedRuns` | crates/remanence/src/checksum.rs:79-90 | the register after any message is the shift register of the generator run over the message bits, high bit first |
| `Crc16Guarantees.CrcIsRemainder` | crates/remanence/src/checksum.rs:74-101 | the checksum, and no other value, is the remainder of message·x^16 + (x^15 + ... + 1)·x^(8n) modulo x^16 + x^12 + x^5 + 1 |
| `Crc16Guarantees.FirstSixteenInverted` | crates/remanence/src/checksum.rs:70-101 | of two bytes or more it is the register an empty one comes to over the message with its first sixteen bits inverted |
| `Crc16Guarantees.CheckValue` | crates/remanence/src/checksum.rs:106-112 | 0xffff of nothing, and the published 0x29b1 of the digits one to nine |
| `Crc16Guarantees.Pieces` | crates/remanence/src/checksum.rs:79-101 | feeding any number of pieces in order, from any register, is feeding what they join to |
| `Crc16Guarantees.Affine` | crates/remanence/src/checksum.rs:79-101 | three equally long messages xored have the xor of their checksums |
| `Crc16Guarantees.BurstCaught` | crates/remanence/src/checksum.rs:79-101 | distinct messages differing only inside sixteen consecutive bits never share a checksum, anywhere and at any length |
| `Crc16Guarantees.ParityLaw` | crates/remanence/src/checksum.rs:79-94 | the parity of the checksum is the parity of the message |
| `Crc16Guarantees.OrderIs32767` | crates/remanence/src/checksum.rs:79-101 | x has order exactly 32767 modulo the generator |
| `Crc16Guarantees.TwoErrorsMissedIff` | crates/remanence/src/checksum.rs:79-101 | two bit errors are missed exactly when their distance is a multiple of 32767 |
| `Crc16Guarantees.MinimumDistance` | crates/remanence/src/checksum.rs:79-101 | messages sharing a checksum and differing within 32767 consecutive bits differ in at least four |
| `Crc16Guarantees.DistanceIsFour` | crates/remanence/src/checksum.rs:79-101 | and four is the distance: every message of three bytes or more has another with its checksum, differing in four of the first seventeen bits |
| `Crc16Guarantees.FedByteBijective` | crates/remanence/src/checksum.rs:80-88 | each byte is a bijection on registers, with its inverse given |
| `Crc16Guarantees.SuffixUnique` | crates/remanence/src/checksum.rs:79-94 | after any message exactly one two-byte suffix reaches each register |
| `Crc16Guarantees.ResidueIff` | crates/remanence/src/checksum.rs:133-138 | a stored checksum, high byte first, empties the register exactly when it is the checksum of what came before |
| `Crc32.BuildTable` | crates/remanence/src/checksum.rs:19-37 | the nested loops fill 256 entries, each eight turns of its index |
| `Crc32.LookupIsEightTurns` | crates/remanence/src/checksum.rs:47-51 | one lookup and shift is eight turns of the reflected register, from any register and byte |
| `Crc32.Crc32Stream.Update` | crates/remanence/src/checksum.rs:47-51 | the lookup loop takes the register to `Fed` of the data |
| `Crc32.Crc32Of` | crates/remanence/src/checksum.rs:58-62 | one call is the complement of the all-ones seed fed the whole message |
| `Crc32.FedRuns` | crates/remanence/src/checksum.rs:47-51 | the register after any message is the shift register of the generator run over the message bits, low bit first |
| `Crc32Guarantees.CrcIsRemainder` | crates/remanence/src/checksum.rs:39-62 | the complement of the checksum, and of no other value, is the remainder modulo the CRC-32 generator with the all-ones seed |
| `Crc32Guarantees.FirstThirtyTwoInverted` | crates/remanence/src/checksum.rs:39-62 | of four bytes or more its complement is the register an empty one comes to over the message with its first thirty-two bits inverted |
| `Crc32Guarantees.CheckValue` | crates/remanence/src/archive/sevenzip.rs:1194-1197 | 0 of nothing, and the published 0xcbf43926 of the digits one to nine |
| `Crc32Guarantees.Pieces` | crates/remanence/src/checksum.rs:47-62 | any cutting into `update` calls, however many, gives the one-shot register |
| `Crc32Guarantees.Affine` | crates/remanence/src/checksum.rs:47-62 | three equally long messages xored have the xor of their checksums, complement included |
| `Crc32Guarantees.BurstCaught` | crates/remanence/src/checksum.rs:47-62 | distinct messages differing only inside thirty-two consecutive bits never share a checksum |
| `Crc32Order.OrderIsFull` | crates/remanence/src/checksum.rs:19-37 | x has order exactly 2^32 - 1 modulo the generator |
| `Crc32Guarantees.TwoErrorsMissedIff` | crates/remanence/src/checksum.rs:47-62 | two bit errors are missed exactly when their distance is a multiple of 2^32 - 1 |
| `Crc32Guarantees.MinimumDistance` | crates/remanence/src/checksum.rs:47-62 | distinct messages sharing a checksum and differing within 2^32 - 1 consecutive bits differ in at least three |
| `Crc32Guarantees.ThreeErrorsMissedIff` | crates/remanence/src/checksum.rs:47-62 | three bit errors are missed exactly when x to the distance of the first from the last is x to that of the second, plus 1 |
| `Crc32Guarantees.DistanceIsThree` | crates/remanence/src/checksum.rs:47-62 | and three is the distance: every message of 11455 bytes or more has another with its checksum, differing in three of the first 91640 bits |
| `Crc32Guarantees.FedByteBijective` | crates/remanence/src/checksum.rs:47-51 | each byte is a bijection on registers, with its inverse given |
| `Crc32Guarantees.SuffixUnique` | crates/remanence/src/checksum.rs:47-62 | after any message exactly one four-byte suffix reaches each register |
| `Crc32Guarantees.ResidueIff` | crates/remanence/src/checksum.rs:47-62 | a stored checksum, low byte first, gives 0x2144df1c exactly when it is the checksum of what came before |
| `LeakProbe.CounterExactly` | crates/remanence-ffi/src/lib.rs:88-114 | over every interleaving the counter is the live blocks less the threads between a system call and its counter update, and it never owes more than there is |
| `LeakProbe.ReadingBounds` | crates/remanence-ffi/src/lib.rs:88-118 | a reading is never negative, never above the truth, and the truth exactly when no thread is between the two halves of a call |
| `LeakProbe.LeakCheck` | crates/remanence-ffi/src/lib.rs:77-118 | between two quiet moments the counter moves by exactly the change in what callers hold |
| `LeakProbe.ReallocNetsToZero` | crates/remanence-ffi/src/lib.rs:105-113 | however interleaved, a block grown by the default realloc adds nothing to the counter |
| `LeakProbe.ReallocHandsOver` | crates/remanence-ffi/src/lib.rs:105-113 | however interleaved, a realloc ends with the caller holding the new block, the old one freed by the thread's own last step, and neither usable before |
| `LeakProbe.AllocHandsOver` | crates/remanence-ffi/src/lib.rs:89-103 | an allocation hands over the very block the system gave, once it is counted |
| `LeakProbe.DeallocGivesBack` | crates/remanence-ffi/src/lib.rs:105-108 | a deallocation gives the system back the very block given up |
| `LeakProbe.HeldMoves` | crates/remanence-ffi/src/lib.rs:88-114 | no other step gives a caller a block, takes one from it, or frees one |
| `LeakProbe.RunKeeps` | crates/remanence-ffi/src/lib.rs:88-114 | the step invariant: separate owners, no lost block, exact count |
| `Losses.LossAccount.Add` | crates/remanence/src/evidence.rs:87-97 | the table stays one entry a code, with the first detail and the wrapped total of every addition so far |
| `Losses.LossAccount.SortByCode` | crates/remanence/src/evidence.rs:101-104 | the entries end in strict code order and are the entries there were |
| `Losses.LossAccount.IntoEntries` | crates/remanence/src/evidence.rs:101-105 | what is handed out is the report of every addition |
| `Losses.BeforeIff` | crates/remanence/src/evidence.rs:101-104 | the code order is the strings' own, decided at the first place they part |
| `Losses.FirstDetailIs` | crates/remanence/src/evidence.rs:87-97 | the detail reported is that of the first addition with the code |
| `Losses.TotalConcat` | crates/remanence/src/evidence.rs:87-97 | a code's total adds up over any cutting of the additions |
| `Losses.TotalPermuted` | crates/remanence/src/evidence.rs:87-97 | a code's total is a function of the multiset of additions |
| `Losses.OrderDoesNotMatter` | crates/remanence/src/evidence.rs:87-105 | permuted additions give the same codes, order and totals; the reports are equal exactly when the first details are |
| `Losses.SameAccountIff` | crates/remanence/src/evidence.rs:87-105 | the report is the same for every order of its additions exactly when no code is added with two details |
| `Losses.DiscoveryOrderShows` | crates/remanence/src/evidence.rs:87-105 | two additions with one code and two details, reported differently in their two orders |
| `Losses.SumConserved` | crates/remanence/src/evidence.rs:87-97 | the counts add up to what was added exactly when no code's total reaches 2^64; otherwise they are too small by a multiple of it |
| `Losses.SumWrapsAway` | crates/remanence/src/evidence.rs:87-97 | two additions that come to 2^64 and are reported as none |
| `Slug.GeneratorSlug` | xtask/src/ffi.rs:193-211 | the look-back loop and the trimming give the lower-cased maximal alphanumeric runs joined by hyphens, or `default` |
| `Slug.RunsAppend` | xtask/src/ffi.rs:198-204 | one more character extends the last run, starts one, or changes nothing |
| `Slug.SlugIsClean` | xtask/src/ffi.rs:205-210 | the name is never empty, has no edge or doubled hyphen, and is lower-case letters, digits and hyphens |
| `Slug.LeftAloneIff` | xtask/src/ffi.rs:193-211 | a name is left alone exactly when it is clean, so naming twice is naming once |
| `Slug.CharactersKept` | xtask/src/ffi.rs:198-200 | the letters and digits of ASCII are kept, capitals as their small letters, and no other character is |
| `Slug.LettersInOrder` | xtask/src/ffi.rs:193-211 | the name is the text's letters and digits in order, with nothing among them but hyphens |
| `Slug.WordsApart` | xtask/src/ffi.rs:198-204 | whatever stands between two words, however much, is one break between them |
| `OwnedHandles.Owned.MoveAssign` | crates/remanence-ffi/c/include/remanence.hpp:543-551 | in any program the assignment, self-move included, is exactly the step: free what was held, take, null the source |
| `OwnedHandles.Owned.MoveFrom` | crates/remanence-ffi/c/include/remanence.hpp:542 | the moved-to holder has the handle and the moved-from holder null |
| `OwnedHandles.Owned.Release` | crates/remanence-ffi/c/include/remanence.hpp:558-563 | the handle goes to the caller and the holder keeps null |
| `OwnedHandles.Owned.Destroy` | crates/remanence-ffi/c/include/remanence.hpp:540 | the handle is freed, null being ignored |
| `OwnedHandles.LinearOwnership` | crates/remanence-ffi/c/include/remanence.hpp:535-567 | over every program no live handle has two holders and each handle is freed once at most, exactly once where no one has it |
| `OwnedHandles.HeldGoes` | crates/remanence-ffi/c/include/remanence.hpp:535-567 | where each held handle goes at each step: moved, given up, freed, or kept where it is |
| `OwnedHandles.LooseGoes` | crates/remanence-ffi/c/include/remanence.hpp:535-567 | and each loose one |
| `OwnedHandles.FreedOnlyThen` | crates/remanence-ffi/c/include/remanence.hpp:535-567 | and nothing else is freed |
| `OwnedHandles.NothingLeaks` | crates/remanence-ffi/c/include/remanence.hpp:535-567 | when no holder is left and no caller has a handle in hand, each handle issued was freed exactly once |
| `OwnedHandles.ConsumedByValue` | crates/remanence-ffi/c/include/remanence.hpp:4110-4142 | a wrapper passed by value to a consuming door is freed once, by the door, and leaves the caller's wrapper empty |
| `MediaSources.FileSource.Take` | crates/remanence-py/src/lib.rs:3448-3454 | a source is given up once and refuses afterwards |
| `MediaSources.TakeEach` | crates/remanence-py/src/lib.rs:2799-2817 | a list led by a file source is taken member by member up to the first offending one, which decides the refusal |
| `MediaSources.SourcesListed` | crates/remanence-py/src/lib.rs:2799-2832 | a list is one kind of source throughout: what it is accepted as, at which member and why it is refused, and what that consumes |
| `MediaSources.AcceptedIff` | crates/remanence-py/src/lib.rs:2799-2817 | such a list is accepted exactly when its members are distinct file sources, none consumed |
| `MediaSources.DuplicateEach` | crates/remanence-py/src/lib.rs:2819-2832 | any other list is duplicated in order; a refusal closes the duplicates made so far and consumes no source |
| `MediaSources.MediaSourceOf` | crates/remanence-py/src/lib.rs:2792-2833 | which of the four shapes comes back, exactly when it is refused, and exactly which sources are consumed |
| `MediaSources.ConsumesAllIff` | crates/remanence-py/src/lib.rs:2785-2833 | a list consumes every live source in it exactly when none is named for the first time past the member it is refused at, or in a list no source leads |
| `MediaSources.AllConsumed` | crates/remanence-py/src/lib.rs:2785-2833 | so a load leaves none of its argument's sources live exactly when that, or the argument is one object |
| `MediaSources.ThirdNotReached` | crates/remanence-py/src/lib.rs:2799-2817 | a source, an opened file and a source: refused, the first consumed and the last not |
| `MediaSources.NoneReached` | crates/remanence-py/src/lib.rs:2819-2832 | an opened file and a source: refused, and the source not consumed |
| `Devices.SlotFromIdIff` | crates/remanence/src/model/device_type.rs:616-712 | a spelling resolves to the one slot spelled so, and every slot's spelling resolves |
| `Devices.Spelled` | crates/remanence/src/model/device_type.rs:241-741 | every spelling a caller may write, the slot it is, and the bay that goes in |
| `Devices.ParseIff` | crates/remanence/src/model/storage_device.rs:97-117 | a text names an attachment exactly when it is the claimed bay followed by digits worth a 32-bit index |
| `Devices.DisplayParses` | crates/remanence/src/model/storage_device.rs:97-124 | an attachment's own text names it |
| `Devices.DisplayIsShortest` | crates/remanence/src/model/storage_device.rs:97-124 | and it is the shortest of the texts that name it |
| `Devices.DecimalDigit` | crates/remanence/src/model/storage_device.rs:120-124 | its digits stand in the order they are read |
| `PoolRuns.LowestFreeIndex` | crates/remanence/src/model/pools.rs:512-529 | the sorted walk finds the least index not taken in the bay |
| `PoolRuns.LowestFreeIsFree` | crates/remanence/src/model/pools.rs:359-363 | adding without naming an index takes the lowest free one and is never refused |
| `PoolRuns.LinksAgree` | crates/remanence/src/model/pools.rs:482-495 | a slot holds a medium exactly when the pool's medium names that slot |
| `PoolRuns.InsertKeepsSound` | crates/remanence/src/model/storage_device.rs:244-289 | inserting keeps every link two-ended and between equal device types |
| `PoolRuns.EjectUndoesInsert` | crates/remanence/src/model/storage_device.rs:300-312 | ejecting undoes inserting exactly |
| `PoolRuns.InsertUndoesEject` | crates/remanence/src/model/storage_device.rs:244-312 | an ejected medium goes back: the slot cannot refuse it, and the session is as before |
| `PoolRuns.RecordAsKeepsSound` | crates/remanence/src/model/authored.rs:430-462 | recording a layout onto a blank breaks no link, since a blank is in no slot |
| `PoolRuns.ReleaseDeviceKeepsMedia` | crates/remanence/src/model/pools.rs:459-468 | the slot is freed and every medium stays pooled, in order, with its state; only its own link is severed |
| `PoolRuns.ReleaseMediaLeavesMedia` | crates/remanence/src/model/pools.rs:334-347 | the medium is out of the pool and every other answers as before |
| `PoolRuns.ReleaseMediaLeavesDevices` | crates/remanence/src/model/pools.rs:334-347 | its slot is empty and no other slot is touched |
| `PoolRuns.AddDeviceForIsOneAct` | crates/remanence/src/model/pools.rs:410-445 | the convenience leaves the session exactly as it was or adds one device holding one new medium, refused exactly where the artifact is or the bay is full |
| `PoolAnswers.AddDeviceForRefusals` | crates/remanence/src/model/pools.rs:410-445 | and which refusal it is: the artifact's, the bay's or the partitions' |
| `PoolAnswers.ReadingsGoIn` | crates/remanence/src/model/media.rs:876-948 | which device each reading says recorded it, and which slot it goes in |
| `PoolAnswers.PlaceAnswers` | crates/remanence/src/model/pools.rs:533-544 | a device is placed exactly where its place is free, last and empty |
| `PoolAnswers.InsertAnswers` | crates/remanence/src/model/storage_device.rs:244-289 | when an insertion stands, which refusal it is otherwise, and all it changes |
| `PoolAnswers.EjectAnswers` | crates/remanence/src/model/storage_device.rs:300-312 | when an ejection stands, and all it changes |
| `PoolAnswers.ReleaseDeviceAnswers` | crates/remanence/src/model/pools.rs:459-468 | a device is released exactly where there is one, occupied or not; every other is as it was |
| `PoolAnswers.ReleaseMediaAnswers` | crates/remanence/src/model/pools.rs:334-347 | a medium is released exactly where there is one |
| `PoolAnswers.LoadAnswers` | crates/remanence/src/model/pools.rs:276-308 | when a load stands, which refusal it is otherwise, and the one medium it pools |
| `PoolAnswers.LoadAsAnswers` | crates/remanence/src/model/pools.rs:189-217 | the same of the declared load, and the device a space is then recorded by |
| `PoolAnswers.RecordAsAnswers` | crates/remanence/src/model/authored.rs:430-462 | when a layout is recorded, which refusal it is otherwise, and all it changes |
| `PoolFrames.ReleaseDevicePreserves` | crates/remanence/src/model/pools.rs:459-468 | every other device keeps its slot, every medium its state, and no identity is revived |
| `PoolFrames.ReleaseMediaPreserves` | crates/remanence/src/model/pools.rs:334-347 | every device keeps its slot, every other medium its state, and no identity is revived |
| `PoolFrames.AdmitPreserves` | crates/remanence/src/model/media.rs:1467-1483 | the medium pooled has a new identity and every other keeps its own |
| `ViewRuns.ViewsAgree` | crates/remanence-ffi/src/device.rs:595-632 | in every reachable state: one view an attachment, one an identity, each of something live and saying what it is |
| `ViewRuns.DeviceLookupIsCurrent` | crates/remanence-ffi/src/device.rs:608-632 | a cached view with no liveness check answers as a new lookup would |
| `ViewRuns.MediumLookupIsCurrent` | crates/remanence-ffi/src/session.rs:95-115 | a medium view looked up says what its medium says |
| `ViewRuns.LinkedMediumIsPooled` | crates/remanence-ffi/src/device.rs:80-90 | through a link no absent medium is ever viewed |
| `ViewRuns.SameDeviceView` | crates/remanence-ffi/src/device.rs:608-614 | until a device is released, every lookup by any text naming it answers with the same object |
| `ViewRuns.SameMediumView` | crates/remanence-ffi/src/session.rs:100-103 | until a medium is released, every lookup answers with the same object |
| `ViewRuns.ReaddedIsCurrent` | crates/remanence-ffi/src/device.rs:581-584 | after a release, a device of another type in its place is answered by a new object that says what it is |
| `ViewRuns.NeverRevived` | crates/remanence/src/model/media.rs:1460-1483 | a released medium's identity never names anything again, and no view ever names it |
| `ViewAnswers.AddDeviceAnswers` | crates/remanence-ffi/src/device.rs:478-516 | in every reachable state, when adding by a spelling is answered, where the device is put, and what its view says |
| `ViewAnswers.AddDeviceForAnswers` | crates/remanence-ffi/src/device.rs:521-551 | the same of the one-act addition |
| `ViewAnswers.FindDeviceAnswers` | crates/remanence-ffi/src/device.rs:608-632 | a text is answered exactly where it names a configured device, with a view that says what it is |
| `ViewAnswers.ReleaseDeviceAnswers` | crates/remanence-ffi/src/device.rs:556-591 | a release is answered true exactly where the text names a configured device; neither it nor a view of it is left |
| `ViewAnswers.InsertAnswers` | crates/remanence-ffi/src/device.rs:102-127 | when an insertion is answered true, and the link it makes |
| `ViewAnswers.EjectAnswers` | crates/remanence/src/model/storage_device.rs:300-312 | when an ejection is answered true, and the link it severs |
| `ViewAnswers.DeviceMediumAnswers` | crates/remanence-ffi/src/device.rs:80-90 | the view answered is of the very medium in the slot |
| `ViewAnswers.LoadAnswers` | crates/remanence-ffi/src/session.rs:220-268 | when a load is answered with a view, and that it says what the artifact came to, fact by fact |
| `ViewAnswers.LoadAsAnswers` | crates/remanence-ffi/src/session.rs:597-646 | the same of the declared reading |
| `ViewAnswers.FindMediumAnswers` | crates/remanence-ffi/src/session.rs:674-687 | an identity is answered exactly where the pool holds it |
| `ViewAnswers.ReleaseMediaAnswers` | crates/remanence-ffi/src/session.rs:697-722 | a release is answered true exactly where the pool holds the medium; neither it nor a view of it is left |
| `ViewAnswers.RecordAsAnswers` | crates/remanence-ffi/src/storage/partition.rs:650-660 | when a layout is recorded, and that a view then names the device |
| `Sessions.RemanenceMedium.Refresh` | crates/remanence-ffi/src/session.rs:75-91 | the cached facts become the medium's, or absent where it is gone |
| `Sessions.RemanenceSession.DeviceViewAt` | crates/remanence-ffi/src/device.rs:608-632 | the search and the mint are the table's lookup, view for view |
| `Sessions.RemanenceSession.AddDevice` | crates/remanence-ffi/src/device.rs:478-516 | adding is the step of the same name, answered through the identity's own text |
| `Sessions.RemanenceSession.AddDeviceFor` | crates/remanence-ffi/src/device.rs:521-551 | the one-act addition is the step of the same name |
| `Sessions.RemanenceSession.ReleaseDevice` | crates/remanence-ffi/src/device.rs:556-591 | a release that stands drops every view of the device, and one that does not changes nothing |
| `Sessions.RemanenceSession.DeviceMedium` | crates/remanence-ffi/src/device.rs:80-90 | the view answered is the linked medium's, or none |
| `Sessions.RemanenceSession.Insert` | crates/remanence-ffi/src/device.rs:102-127 | the device is found again by identity and the link made or refused |
| `Sessions.RemanenceSession.MediumView` | crates/remanence-ffi/src/session.rs:95-115 | re-use restates the one view of the identity; otherwise one is minted |
| `Sessions.RemanenceSession.Load` | crates/remanence-ffi/src/session.rs:220-268 | a pooled medium is answered with its view, a refusal with nothing changed |
| `Sessions.RemanenceSession.LoadAs` | crates/remanence-ffi/src/session.rs:597-646 | the declared reading of a discovery, answered or refused the same way |
| `Sessions.RemanenceSession.FindMedium` | crates/remanence-ffi/src/session.rs:674-687 | a view exactly where the pool holds the identity |
| `Sessions.RemanenceSession.ReleaseMedia` | crates/remanence-ffi/src/session.rs:697-722 | a release that stands drops every view of the medium, and one that does not changes nothing |
| `Sessions.RemanenceSession.RecordAs` | crates/remanence-ffi/src/storage/partition.rs:650-660 | the layout recorded and the view restated in one step |
| `Doors.Binding.LoadMedia` | crates/remanence-ffi/src/session.rs:220-268 | the checks in their order, the handle adopted only past the last |
| `Doors.Binding.LoadCollection` | crates/remanence-ffi/src/session.rs:289-351 | every member is checked before any is adopted |
| `Doors.Binding.LoadBox` | crates/remanence-ffi/src/session.rs:366-476 | the box is consumed before anything can fail |
| `Doors.CollectionIsAllOrNone` | crates/remanence-ffi/src/session.rs:318-351 | refused before the last check nothing has changed; past it every member is the library's, kept or closed |
| `Doors.HandlesHaveOneOwnerIff` | crates/remanence-ffi/src/session.rs:220-351 | over every run each handle has one owner and is closed once at most, exactly when no step is a collection past every check that names a handle at two places |
| `Doors.NoSurplusIff` | crates/remanence-ffi/src/session.rs:323-340 | a run counts no file too many exactly when it has no such step |
| `Doors.ClosedTwice` | crates/remanence-ffi/src/session.rs:318-351 | one open handle, named twice to a collection that is then refused, is closed twice |
| `Doors.FreedOrKeptIff` | crates/remanence-ffi/src/session.rs:734-742 | once the session is freed each handle ever opened is still the caller's or was closed exactly once, exactly when no call handed one over twice |
| `Doors.SurplusIff` | crates/remanence-ffi/src/session.rs:323-340 | a step makes a file too many exactly when it is a collection past every check with a handle at two places |
| `Doors.BoxesConsumedOnce` | crates/remanence-ffi/src/session.rs:366-646 | over every run each box handed to a door is consumed exactly once, whatever the outcome |
| `DoorAnswers.MediaAnswers` | crates/remanence-ffi/src/session.rs:220-284 | which answer each call gets; a load keeps its handle open under the identity answered and closes none, a refusal past the checks closes it, an earlier one touches nothing |
| `DoorAnswers.CollectionAnswers` | crates/remanence-ffi/src/session.rs:289-351 | the same for all members together |
| `DoorAnswers.BoxAnswers` | crates/remanence-ffi/src/session.rs:366-646 | which answer a box gets; no handle is opened or closed |
| `DoorAnswers.BoxRefusals` | crates/remanence-ffi/src/session.rs:366-646 | and which of the door's own refusals it is |
| `DoorAnswers.ReleaseCloses` | crates/remanence-ffi/src/session.rs:697-722 | a release closes exactly the files its medium keeps, in order, and no other medium loses any |
| `DoorAnswers.FreeCloses` | crates/remanence-ffi/src/session.rs:734-742 | freeing the session closes every file of every medium |
| `DoorAnswers.StepCloses` | crates/remanence-ffi/src/session.rs:220-646 | no other step closes a file that is kept |
| `DoorAnswers.KeptIsOpen` | crates/remanence-ffi/src/session.rs:220-351 | over every run, what a medium keeps is open and the library's until it is released or the session freed |
| `DoorAnswers.ReleasedOnce` | crates/remanence-ffi/src/session.rs:697-722 | and is then closed, once |
| `JournalRuns.SaysIff` | crates/remanence/src/io/journal.rs:106-248 | a file is armed and says these records exactly when it is, byte for byte, what recording them writes |
| `JournalRuns.WalkIff` | crates/remanence/src/io/journal.rs:206-248 | the walk finds exactly the records the body is made of, each within the old image |
| `JournalRuns.OneByteDisarms` | crates/remanence/src/io/journal.rs:42-48 | a journal with any one byte changed, the seal included, is not armed |
| `JournalRuns.OnePrefix` | crates/remanence/src/io/journal.rs:106-157 | a journal that begins as another is that other, whole |
| `JournalRuns.CutJournalIsHarmless` | crates/remanence/src/io/journal.rs:162-199 | recording interrupted anywhere leaves a sidecar from which reconciling never touches the image; it is refused exactly where its last eight bytes are the seal of those before them |
| `JournalRuns.CutSealsItself` | crates/remanence/src/io/journal.rs:162-248 | for every length of eight bytes or more and every capture that overwrites the front, an image whose journal, cut at 56 bytes, seals itself and is refused at every opening |
| `JournalRuns.SomeCutSealsItself` | crates/remanence/src/io/journal.rs:162-248 | such an image, under one whole extent of the cache |
| `JournalRuns.ReconcileRollsBack` | crates/remanence/src/io/journal.rs:287-324 | with the journal armed, reconciling gives back the old image from any torn one |
| `JournalRuns.SidecarGoneIff` | crates/remanence/src/io/journal.rs:280-324 | a reconciliation that succeeds leaves no sidecar exactly where there was none or it could be removed; one that does not leaves it as it is |
| `JournalRuns.SidecarStays` | crates/remanence/src/io/journal.rs:318-321 | any image rolled back and answered so, with the journal still beside it |
| `JournalRuns.SettledStays` | crates/remanence/src/io/journal.rs:287-324 | from a disk whose sidecar says nothing but what the image is, reconciling changes no byte, however far it gets |
| `JournalAnswers.ReconciledIff` | crates/remanence/src/io/journal.rs:287-324 | reconciling stands exactly where there is no sidecar, or it was torn, or what it says is of an image between whose two lengths this one is |
| `JournalAnswers.FittingRollsBack` | crates/remanence/src/io/journal.rs:300-322 | where it fits, the image is as long as it says and every byte what the last record over it holds, or as it was |
| `JournalAnswers.FittingInterrupted` | crates/remanence/src/io/journal.rs:300-322 | stopped on the way it has written what it began of the records, and the sidecar is still there |
| `JournalAnswers.OtherwiseUntouched` | crates/remanence/src/io/journal.rs:287-324 | nowhere else is a byte of the image touched, and where it is refused nothing is |
| `JournalAnswers.MismatchIff` | crates/remanence/src/io/journal.rs:304-315 | a sealed sidecar is refused for another image exactly where its two lengths are in order and the image is not between them |
| `JournalAnswers.LongerImageRefused` | crates/remanence/src/io/journal.rs:304-315 | such an image, longer than the journal covers |
| `JournalAnswers.RecordedIff` | crates/remanence/src/io/journal.rs:106-147 | the journal holds the image's own bytes, those a commit will overwrite and no others |
| `JournalAnswers.OneRecorded` | crates/remanence/src/io/journal.rs:134-147 | one record an extent, as far as the image reaches it |
| `JournalAnswers.RecordedInOrder` | crates/remanence/src/io/journal.rs:134-147 | in the extents' order |
| `JournalAnswers.Layout` | crates/remanence/src/io/journal.rs:106-150 | a journal of two records, byte by byte |
| `JournalAnswers.SealLayout` | crates/remanence/src/io/journal.rs:91-99 | a sealed file is what it seals and then the hash of that, low byte first |
| `JournalAnswers.SealCheckValues` | crates/remanence/src/io/journal.rs:42-48 | two published values of the hash |
| `JournalAnswers.AfterIs` | crates/remanence/src/io/device.rs:525-536 | the new image, byte for byte: each extent in order as far as the staged length, over the old one |
| `JournalAnswers.PartlyAppliedIs` | crates/remanence/src/io/device.rs:525-536 | and as much of it as an interrupted apply has written |
| `JournalRuns.CrashAtomic` | crates/remanence/src/io/journal.rs:280-324 | stop a commit, its undoing or its recovery anywhere, as often as you like: the next reconciliation leaves wholly the old image or, once the sidecar was emptied, wholly the new |
| `Commits.CommitIsWhole` | crates/remanence/src/model/disk/commit.rs:42-135 | however a commit fails, the image is wholly the new one where the apply was through and the sidecar emptied and wholly the old one otherwise, at once or at the next opening, and the next commit may begin; `Done` means the new one |
| `Commits.FailedKeepsOldIff` | crates/remanence/src/model/disk/commit.rs:98-131 | a failed commit gives the old image back exactly when it did not fail at flushing the emptied sidecar, or had nothing to change |
| `JournalAnswers.CommitAnswersIff` | crates/remanence/src/model/disk/commit.rs:42-135 | when a commit is answered done, and when its session is lost |
| `JournalAnswers.DoneRetires` | crates/remanence/src/model/disk/commit.rs:104-135 | one answered done leaves nothing beside the image, or an empty file |
| `JournalAnswers.FailureClears` | crates/remanence/src/model/disk/commit.rs:88-131 | one that fails with its session usable leaves there what clearing it away came to |
| `Commits.FailedYetLanded` | crates/remanence/src/model/disk/commit.rs:98-131 | any commit of any extents may be answered with an error, its session usable, and the new image in the file |
| `Commits.SomeFailedYetLanded` | crates/remanence/src/model/disk/commit.rs:98-131 | such a commit of one whole extent of the cache, the image changed |
| `Commits.HistoryIsWhole` | crates/remanence/src/model/disk/commit.rs:42-135 | after any number of commits, each answered or lost partway, the image is the first one with the captures that landed applied in order |
| `Commits.UndoKeepsTorn` | crates/remanence/src/io/journal.rs:287-324 | undoing that stops anywhere leaves the journal armed over an image no worse than torn |
| `Commits.CommitRuns` | crates/remanence/src/model/disk/commit.rs:42-135 | everything a commit does to the disk, however it goes, is a run of the crash model |
| `Commits.ReconcilingRuns` | crates/remanence/src/io/journal.rs:287-324 | and so is reconciling whatever a crash left, however far it gets |
| `Commits.PartlyAppliedRuns` | crates/remanence/src/io/device.rs:525-536 | and applying, as far as any byte of any extent |
| `Commits.RecordingRuns` | crates/remanence/src/io/journal.rs:106-157 | and recording, as far as any byte of the journal |
| `Commits.PuttingBackRuns` | crates/remanence/src/io/journal.rs:206-248 | and putting original bytes back, as far as any byte of any record |
| `Commits.AppliedIsTorn` | crates/remanence/src/io/device.rs:525-536 | every prefix of the apply leaves a torn image the journal rolls back |
| `Recovery.Host.Record` | crates/remanence/src/io/journal.rs:106-157 | the streamed sidecar is the sealed journal of the image and the staged writes, or as much of it as was written |
| `Recovery.VerifySealed` | crates/remanence/src/io/journal.rs:162-199 | hashing buffer by buffer decides exactly as the whole-file reading does |
| `Recovery.Host.PutAllBack` | crates/remanence/src/io/journal.rs:206-248 | the applying walk restores the records in order, buffer by buffer, as far as it gets |
| `Recovery.Host.Apply` | crates/remanence/src/io/device.rs:525-536 | the extents written through in order, each clamped to the staged length, as far as it gets |
| `Recovery.Host.Reconcile` | crates/remanence/src/io/journal.rs:287-324 | reconciling the disk is the reading, the check against the image, the whole validation, the restoring, the length, the retirement, wherever the host stops it |
| `Recovery.Host.Retire` | crates/remanence/src/io/journal.rs:254-262 | the sidecar emptied, flushed and removed, and which of these failing is an error |
| `Recovery.Host.Commit` | crates/remanence/src/model/disk/commit.rs:42-135 | record, apply, retire, and the undo where one fails, is the commit the lemmas speak of, answer and disk |

## Left out

- Building a medium's state from an artifact: the format adapters, the partition scheme and the geometry are one parameter, `Pools.Build`, saying what the building came to.
- Capability of the format declaration: whether a declared format stands is one flag of `Doors.Request`, and the messages of every refusal are not modelled, only which refusal it is.
- File sources ride the claim of the medium they came from; the doors' ledger follows their boxes and not that shared claim.
- Identities and `next` are unbounded numbers: a pool that issued 2^64 identities is not modelled.
- `u64` addition in the loss account wraps, as it does without overflow checks; a build with them stops instead.
- The system sort in the loss account is written out as a stable insertion; codes being distinct, any sort gives the same list.
- Losses.SumConserved: speaks of the sum of the counts as they are handed out; a sum taken in 64 bits by a reader could wrap again.
- Allocation sizes and layouts, and memory orders weaker than one atomic step on the counter.
- Raw handle duplication is a fresh number, and text across the surfaces is taken as given: conversion, null bytes and encodings are not modelled.
- A pointer used after its view, box or handle was given up; the callers modelled keep the documented contract.
- A torn journal is a prefix of what was being written: a sidecar whose pages reached the disk out of order is not modelled, nor is an image changed by anyone else between a crash and its recovery.
- Staging itself: the session cache, its spilling and the virtual disk that turns content writes into host writes. A commit begins here with the staged extents, past the refusals that come before them (a session already failed, one opened for reading, a file with no name), and the putting back of in-memory caches after a failure is not modelled.
- Durability short of a flush: what a step writes is there after a crash; the flush of a directory, which the code attempts and does not heed, is no step.
- `Journal.Disk` holds a file as one sequence: the system's short writes are covered by any prefix of a write, not by a write that fails and is retried elsewhere.
- Two sessions over one file: the claim that keeps them apart is a lock of the operating system.
- The catalogues, indexed accessors, report conversions and error spellings of the three bindings, each of which is read off one branch.
- The filesystems, codecs and image formats of the core, which the parts modelled here do not depend on.
