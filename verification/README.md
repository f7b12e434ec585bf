# A verified model of the smart card OS

A Dafny model of two state machines and of the byte codecs under them.

**The card filesystem.** EEPROM holds a CRC-protected superblock and 32
serialised descriptors, FLASH holds file contents handed out by a bump
allocator, RAM holds a mirror of the superblock and the current selection. Five
commands (SELECT, READ BINARY, UPDATE BINARY, CREATE FILE, DELETE FILE) arrive as
byte strings.

**The boot loader.** ERASE, LOAD, VERIFY, ACTIVATE and RESTART over NOR flash,
where programming only clears bits, driven by the script the host tool writes.

Every layer is stated twice: as functions of values, and as classes and
methods that update arrays and fields in place and are proved equal to those
functions. A write to NVM is a value too (`FsStore.Write`), so a power cut is a
prefix of a list, and the class `FsStore.Nvm` keeps a ghost log that ties the
list to the writes the code really makes, in order.

| layer | modules |
|---|---|
| bytes, CRC-16/CCITT-FALSE | `Bytes`, `Crc16`, `CrcWords`, `CrcMasking` |
| boot loader | `CodeFlash`, `BootHeader`, `BootLoader`, `BootHistory`, `BootForgery`, `BootTearing`, `TornHeaders`, `BootReplies` |
| host tool | `LoaderScript`, `HostTool` |
| command and data codecs | `StatusWords`, `Apdu`, `Response`, `Tlv`, `Fcp`, `FcpRepeats`, `FcpExactly` |
| chip format and physical layer | `FsTypes`, `NvmLayout`, `SlotSearch`, `FsStore` |
| logical filesystem | `FileTree` (functions), `FileSystem` (methods), `Factory`, `Personalisation` |
| invariants and file map | `TreeInvariant`, `FileMap`, `FileOps` |
| commands and kernel | `Commands` (functions), `Kernel` (class), `CardMachine` |
| whole card | `CardRuns`, `CardSurface`, `AbstractCard`, `CommandMeaning`, `CommandAgreement`, `CardSimulation`, `Navigation`, `CardNavigation`, `TreeDepth`, `FsErrorCard` |

## Main results

1. `CardRuns.EveryRun`: from any blank chip, through any sequence of command
   strings, resets and power cuts, the card keeps one tree, disjoint extents,
   erased flash above the bump pointer, a mirror equal to what a mount would
   load and a selection on live files.
2. `CardSimulation.RunSimulates`: through any such run the card behaves as a
   closed abstract machine, a map from slot to descriptor and own bytes with a
   bump pointer and a selection: same states, same response bytes. The machine
   is `CommandMeaning`, which tells every status word, response byte, selection
   and change of the five commands over that map alone, without any function of
   the handlers; `CommandAgreement.CommandAgrees` is the agreement for one
   command.
3. `CardMachine.DispatchSettled`: a command stopped after any prefix of its NVM
   writes leaves the file map of before or of after, nothing in between.
4. `BootHistory.OfferedWasVerified`: what a LOADED or ACTIVE slot means after
   any run of loader commands, resets and power cuts between byte stores.
5. `LoaderScript.LoadedEqualsSlot`: loading any plausible image, blocks in any
   order and repeated at will, ends byte for byte in the slot written offline.
6. `BootForgery.RunExactly`: over whole runs, what keeps the slot from offering
   an image that is not plausible.
7. `BootReplies.VerifyExactly` and its companions: the answer of the loader to
   every command string at any point of a run, told over what has been sent.
8. `FcpExactly.AcceptedExactly`: which data fields CREATE FILE takes, and as
   what, told over the list of their data objects.
9. `Personalisation.CutPersonalisation`: what a power cut leaves of a first
   start: a clean retry before the superblock, an error right after it, a card
   with every invariant and fewer files later.
10. `Crc16.BurstDetected` and what it gives for images, headers and descriptors.

## Where the code does not do what its text says

The model follows the code. Each line names the proof of the difference and of
the exact condition.

- A slot that reads ACTIVE need not hold a plausible image, contrary to
  tests/fuzz/fuzz_boot.c:107-121, because LOAD stays allowed after ACTIVATE.
  `BootForgery.ActiveNeedNotBePlausible` does it with one LOAD,
  `BootForgery.BlockOneCanForge` with two, the last of them not of block 0, and
  `BootForgery.AnyOfferCanBeForged` with three for any image that still has two
  adjacent erased bytes after its vectors.
  `BootForgery.RunExactly` is the condition: every LOAD of block 0 leaves
  vectors that fit the length in the header.
- A half-written header need not read BLANK, contrary to
  src/boot/boot_loader.c:57-61. `BootTearing.TornVerifyReads` says exactly what
  it reads as; `TornHeaders.HalfHeaderReadsDamaged` is an image on this part
  whose cut VERIFY leaves DAMAGED. With a larger flash a cut VERIFY can even
  offer more than was verified: `TornHeaders.CutVerifyOffersMore`.
- A LOAD of a block that was already sent is not always refused, contrary to
  src/boot/boot_loader.c:188-192. `BootHistory.RepeatedLoadExactly`.
- The host's check before ERASE (tools/mkldr.py:255-291) is weaker than the
  card's: it lacks the alignment of the stack pointer and the size of the slot,
  so the card can still end up wiped. `HostTool.HostCheckIsTooWeak` gives both
  images, `HostTool.HostAcceptedOutcome` the condition.
- A card whose filesystem did not come up does not answer 6581 to everything
  for good, contrary to include/os/kernel.h:43: a warm reset
  (src/kernel/card_loop.c:41) makes it operational.
  `FsErrorCard.DamagedFactoryCardIsServed` is such a card, and
  `FsErrorCard.ServesExactly` the condition over all command strings: slot 0
  reads as a live descriptor, or something that names it as its parent can be
  selected, deleted or read by short identifier. Before the reset, and without
  that, nothing is served or changed (`FsErrorCard.SixFiveEightOne`,
  `FsErrorCard.UnservableStays`).
- A repeated tag in a creation template is not always refused, contrary to
  src/filesystem/cmd_create.c:166-168. `FcpRepeats.RepeatsExactly`.
- Parent chains are not bounded by eight links, contrary to
  tests/fuzz/fuzz_fcp.c:30-31. `TreeDepth.NineLevelsDeep` gives the commands,
  `TreeDepth.DepthExactly` the condition; `TreeInvariant.ChainsAreShort` is the
  bound that does hold.
- A superblock write always claims 32 slots (src/filesystem/fs_store.c:114), so
  the mirror stays equal to the chip exactly on 32-slot images.
  `FsStore.MirrorKept`.
- A path whose only component is the starting DF's own identifier keeps the
  current EF (src/filesystem/fs.c:308-314). `Navigation.PathExactly`.
- `tlv_put` accepts tags that `tlv_next` never returns.
  `Tlv.PutReadsBackExactly`.

## Model

| member | source | states |
|---|---|---|
| Crc16.Compute | src/kernel/crc16.c:4-23 | the nested byte and bit loops compute the CRC function, for every prefix of every array |
| Crc16.CrcIsFeed | src/kernel/crc16.c:4-23 | taking in a byte at a time equals feeding the message bit by bit to the shift register |
| Crc16.BurstDetected | src/kernel/crc16.c:4-23 | two messages of equal length that differ only inside one window of 16 bits have different CRCs |
| Crc16.PairDetected | src/kernel/crc16.c:4-23 | the same for damage confined to two adjacent bytes |
| Crc16.Residue | src/kernel/crc16.c:4-23 | a message followed by two bytes has CRC 0 exactly when they are its big-endian CRC |
| CrcWords.MessageIs | src/kernel/crc16.c:4-23 | for every message, the 16-bit shifts and exclusive-ors of the source, folded over its bytes from FFFF, hold bit for bit the register of the CRC function |
| CrcWords.CrcIsMessageWord | src/kernel/crc16.c:4-23 | the number that word stands for is the CRC of the message |
| CrcMasking.TwoBytesMask | src/kernel/crc16.c:4-23 | after any message there are two bytes that give it the CRC of any other message |
| CrcMasking.SameTail | src/kernel/crc16.c:4-23 | messages with equal CRCs keep equal CRCs under any common tail |
| CodeFlash.ErasePage | src/boot/cflash.c:16-31 | the error order, nothing touched on error, exactly one page erased on success, and every state between the byte stores |
| CodeFlash.EraseAll | src/boot/cflash.c:33-48 | a region of whole pages becomes all ones, byte by byte from the start; any other is refused untouched |
| CodeFlash.Program | src/boot/cflash.c:50-72 | all or nothing: refused untouched if any byte would need a set bit, else exactly that block is stored |
| CodeFlash.CheckProgrammable | src/boot/cflash.c:50-72 | the checking loop finds exactly the writes that need no bit to be set |
| CodeFlash.IsErased | src/boot/cflash.c:74-85 | true exactly for a region of all ones |
| CodeFlash.ProgrammingOnlyClears | src/boot/cflash.c:50-72 | whatever is asked for and whatever is answered, no bit of the memory goes from 0 to 1 |
| BootHeader.Serialise | src/boot/boot_hdr.c:46-62 | in-place stores give the sealed header with an erased state word |
| BootHeader.ParseExactly | src/boot/boot_hdr.c:24-44 | a header parses to a length and CRC exactly when its first 14 bytes are their sealed serialisation; the state word is reported as it is |
| BootHeader.DamagedHeaderIsBlank | src/boot/boot_hdr.c:24-44 | two damaged adjacent bytes among the first 14 never parse |
| BootLoader.Rom.CheckSlot | src/boot/boot_loader.c:48-73 | the decision over the two arrays is the slot state function of their contents |
| BootLoader.Rom.EraseSlot | src/boot/boot_loader.c:151-166 | header first, then image; the byte-store states of the header whenever it was erased, also if the image region is then refused, and of the image exactly on success |
| BootLoader.Rom.Load | src/boot/boot_loader.c:168-200 | refusals in order, block placement and high-water mark, on the arrays as on the values; every state between the byte stores, and no store when refused |
| BootLoader.Rom.Verify | src/boot/boot_loader.c:202-245 | length, CRC and plausibility checks before the only write, that write's byte-store states, and no store when refused |
| BootReplies.VerifyExactly | src/boot/boot_loader.c:202-245 | at any point of any run, over the log of what was sent and the bytes in flash: 6700 unless six bytes; 6985 without a session; 6A84 for a length of none or too many; 6A80 when nothing was sent up to the last byte or beyond, or for another CRC; 6984 unless the image boots; 6581 if the header cannot take it; otherwise 9000 and a header that describes exactly those bytes |
| BootReplies.PlausibleIsBoots | src/boot/boot_loader.c:75-113 | an image is plausible exactly when its stack starts above one to all bytes of SRAM, aligned, and execution starts in Thumb state at a byte of the image itself |
| BootReplies.LoadExactly | src/boot/boot_loader.c:168-200 | at any point of any run: 6985, 6700, 6A84 and 6985 for no session, a long block, one beyond the region and one that needs a cleared bit set; otherwise 9000, exactly those cells, header untouched, high-water mark the larger of both ends |
| BootReplies.SlotExactly | src/boot/boot_loader.c:48-73 | BLANK exactly when no length and CRC are sealed in the header; an image is offered exactly when the header seals its length and CRC; ACTIVE exactly when its state word is then zero |
| BootReplies.GateExactly | src/boot/boot_loader.c:284-365 | every string either reaches one of the six instructions in its proper form or is refused unchanged by the first thing wrong with it: 6700, 6E00, 6700, 6D00, 6700, 6A86 |
| BootReplies.GateOpens | src/boot/boot_loader.c:284-365 | a string in proper form is dispatched with exactly its fields |
| BootReplies.EraseExactly | src/boot/boot_loader.c:151-166 | 9000, all ones and an open session exactly when both regions are whole pages; 6581 otherwise, the header gone if it was whole pages |
| BootLoader.Rom.Activate | src/boot/boot_loader.c:247-269 | only a LOADED slot is written, at its two state bytes and nowhere else |
| BootReplies.ActivateExactly | src/boot/boot_loader.c:247-269 | 6A82 for BLANK, 6984 for DAMAGED, 9000 unchanged for ACTIVE, 9000 with exactly the state word cleared for LOADED |
| BootReplies.RestartExactly | src/boot/boot_loader.c:284-365 | granted with 9000 exactly for ACTIVE, 6A82 otherwise, nothing changed |
| BootLoader.Rom.BuildStatus | src/boot/boot_loader.c:117-147 | a short buffer is refused, otherwise it holds the status record of the present state |
| BootReplies.StatusExactly | src/boot/boot_loader.c:117-147 | sixteen bytes by offset: version 1; 0, 1, 2 or 3 exactly for BLANK, LOADED, ACTIVE, DAMAGED; region size; length and CRC of the offered image, zero when none is; block size 128; session flag; high-water mark in sixteen bits; 6700 without room |
| BootReplies.SessionReported | src/boot/boot_loader.c:117-147 | over any run from power-on the session fields are zero after a reset or power cut, and otherwise the end of what was sent since the ERASE |
| BootReplies.ScriptStatus | tools/mkldr.py:86-140 | after the host's script the status line reads ACTIVE with the image's length and CRC |
| BootLoader.Rom.Run | src/boot/boot_loader.c:284-365 | the whole handler on arrays answers, and changes state, as the value-level step |
| BootHistory.HandleIsExec | src/boot/boot_loader.c:284-365 | only four requests reach the flash, and each is answered as itself |
| BootHistory.RefusalIsHarmless | src/boot/boot_loader.c:284-365 | an answer other than 9000 changes nothing, except exactly when ERASE finds a written header on whole pages and an image region that is not; data and restart come only with 9000, restart only for an ACTIVE slot |
| BootHistory.StepKeeps | src/boot/boot_loader.c:151-269 | every command, reset and power cut between byte stores keeps the relation between flash and history of accepted commands |
| BootHistory.RunConsistent | src/boot/boot_loader.c:151-269 | the relation holds after any sequence of commands, resets and power cuts, from any flash contents |
| BootHistory.OfferedWasVerified | src/boot/boot_loader.c:48-73 | after the first ERASE, LOADED or ACTIVE implies an accepted VERIFY of a plausible image of exactly that length and CRC; the flash is that image with at most bits cleared, and identical if no later LOAD changed a byte of it; after a VERIFY cut before its tenth store the verified image is at least a prefix of what is offered |
| BootHistory.CellsAreAnds | src/boot/cflash.c:50-72 | each flash byte is both the latest value programmed there since it was erased and the AND of all of them, cut LOADs and ERASEs included; in a session bytes above the high-water mark are erased |
| BootHistory.RepeatedLoadExactly | src/boot/boot_loader.c:168-200 | at any point of a session and for any block in range: accepted exactly when every byte only clears bits of the last one programmed there, refused with 6985 and nothing changed otherwise; repeating what is there changes no byte |
| BootForgery.SafeIsHonest | tests/fuzz/fuzz_boot.c:107-125 | if whatever a sealed header describes has plausible vectors, then whatever the slot offers is plausible |
| BootForgery.StepExactly | src/boot/boot_loader.c:151-269 | from such a state a command, reset or power cut leads to such a state exactly when it is not a LOAD of block 0, whole or cut, that leaves vectors unfit for the length in the header |
| BootForgery.RunExactly | tests/fuzz/fuzz_boot.c:107-125 | every state of a run is such a state, and so keeps the promise, exactly when the first was and every LOAD of block 0 left fitting vectors |
| BootForgery.EraseMakesSafe | src/boot/boot_loader.c:151-166 | an accepted ERASE makes any slot such a state |
| BootForgery.OthersStayHonest | src/boot/boot_loader.c:284-365 | no command but LOAD can break the promise |
| BootForgery.ActiveNeedNotBePlausible | tests/fuzz/fuzz_boot.c:107-125 | a concrete accepted sequence after which the slot is ACTIVE and its image not plausible |
| BootForgery.BlockOneCanForge | tests/fuzz/fuzz_boot.c:107-125 | another one in which a LOAD of block 0 makes the slot DAMAGED and a LOAD of block 1 brings it back ACTIVE and not plausible |
| BootForgery.AnyOfferCanBeForged | tests/fuzz/fuzz_boot.c:107-125 | in an open session, for every plausible image a slot offers that has two adjacent erased bytes after its vectors within reach of a LOAD, three accepted LOADs leave the slot state as it was and its image not plausible |
| BootTearing.CutsAreStores | src/boot/cflash.c:16-72 | the state after a power cut is one that the storing loops pass through, for ERASE, LOAD, VERIFY and ACTIVATE |
| BootTearing.TornEraseIsBlank | src/boot/boot_loader.c:151-166 | ERASE cut after any number of byte stores leaves the slot as it was or BLANK |
| BootTearing.TornVerifyNotActive | src/boot/boot_loader.c:233-245 | VERIFY only writes over an erased state word, and cut after any number of byte stores never reads ACTIVE |
| BootTearing.TornVerifyReads | src/boot/boot_loader.c:48-73 | any accepted VERIFY, over an erased or an already sealed header, cut after any number of byte stores: BLANK exactly when magic, version or CRC of the twelve bytes is not in place; otherwise LOADED for the finished header, LOADED before the tenth store exactly if the length and CRC made up so far fit the flash, DAMAGED in every other case |
| TornHeaders.HalfHeaderReadsDamaged | src/boot/boot_loader.c:57-61 | on this part, from any state, an image of 0x847A bytes whose VERIFY cut after ten stores leaves DAMAGED |
| TornHeaders.CutVerifyOffersMore | src/boot/boot_loader.c:202-245 | with room for 0x27D0FF bytes, a VERIFY of one byte less cut after nine stores leaves all of them LOADED |
| BootTearing.TornActivateReads | src/boot/boot_loader.c:247-269 | for any LOADED slot ACTIVATE succeeds and reads ACTIVE; after its first byte store alone the slot reads ACTIVE exactly if the second state byte was zero before |
| BootTearing.ReachableStateWord | src/boot/boot_loader.c:202-269 | after an ERASE and any commands, resets and power cuts, a LOADED slot has state word FFFF or 00FF, so one more cut ACTIVATE still reads LOADED |
| BootTearing.DamagedImageIsSeen | src/boot/boot_loader.c:57-71 | two damaged adjacent bytes in an offered image give DAMAGED |
| BootTearing.DamagedHeaderIsSeen | src/boot/boot_loader.c:48-56 | two damaged adjacent bytes in an offered header give BLANK |
| LoaderScript.LoadPhase | tools/mkldr.py:86-140 | ERASE and LOADs that cover the image, in any order with any repeats, are all accepted and leave exactly the image over erased flash |
| LoaderScript.VerifyAnswers | src/boot/boot_loader.c:202-245 | after such loads VERIFY answers 9000 exactly for a plausible image, and 6984 with nothing written otherwise |
| LoaderScript.LoadedEqualsSlot | tools/mkldr.py:86-181 | for every plausible image that fits, from any flash contents, the whole sequence is accepted and ends ACTIVE with both regions equal to the offline slot |
| HostTool.GenOs | tools/mkldr.py:86-140 | the list-building loop emits the script: erase, blocks in order, verify, activate, status, optional restart |
| HostTool.WriteSlot | tools/mkldr.py:143-181 | the offline slot is refused exactly when too long, and otherwise image over ones plus the sealed header |
| HostTool.HostAcceptedOutcome | tools/mkldr.py:255-291 | for every image that passes the host's check and every state of the card, the whole script ends ACTIVE exactly when the image fits and its stack pointer is a multiple of four, and BLANK otherwise |
| HostTool.HostCheckIsTooWeak | tools/mkldr.py:255-291 | a misaligned image and an oversized one that the host accepts |
| HostTool.ScriptBoots | tools/mkldr.py:86-140 | every line of the generated script for a plausible image is accepted on this chip, and its RESTART is granted |
| Apdu.ParseOfEncode | src/apdu/apdu_parse.c:20-102 | every short command of cases 1 to 4 is accepted and read back as itself |
| Apdu.EncodeOfParse | src/apdu/apdu_parse.c:20-102 | whatever is accepted is such a command, and encoding it again gives the input |
| Apdu.OnlyClassZero | src/apdu/apdu_parse.c:137-156 | of all 256 class bytes only 00 is served |
| Response.Builder.Append | src/apdu/apdu_resp.c:26-56 | an append that would reach the two reserved bytes is refused and remembered |
| Response.Builder.Close | src/apdu/apdu_resp.c:69-90 | between two bytes and the capacity; an overflowed payload is dropped for 6F00 |
| Tlv.Reader.Advance | src/apdu/tlv.c:42-138 | the reader's position and result follow the decoding function on every buffer |
| Tlv.Next | src/apdu/tlv.c:42-138 | an object strictly advances the position, anything else exhausts the reader |
| Tlv.Find | src/apdu/tlv.c:140-166 | the first object with the tag, or the way the buffer ended and no such object |
| Tlv.DecodeUint | src/apdu/tlv.c:168-186 | the shifting loop computes the big-endian number of a value of one to four bytes |
| Tlv.Put | src/apdu/tlv.c:188-224 | all or nothing, and exactly the encoding at the position |
| Tlv.ReadOfPrint | src/apdu/tlv.c:20-138 | any list of encoded objects, with any filler before, between and after, reads back as the same list and then END |
| Tlv.PutReadsBackExactly | src/apdu/tlv.c:188-224 | what the writer puts is read back exactly for the representable tags |
| Tlv.ReadTagsAreRepresentable | src/apdu/tlv.c:42-138 | the reader returns no other tags |
| Tlv.NextExactly | src/apdu/tlv.c:42-138 | an object is read exactly where one lies: filler, a representable tag, a length in any of its three forms, and that many bytes |
| Tlv.LengthExactly | src/apdu/tlv.c:84-124 | a length is read exactly from one byte below 80, from 81 and a byte, or from 82 and two |
| Fcp.BuildFcp | src/filesystem/fs.c:435-486 | filling the buffer tag by tag gives the control parameters of the file |
| Fcp.Parse | src/filesystem/cmd_create.c:116-261 | the flag-updating loop accepts, and refuses with the same word, as the fold over the objects read |
| FcpExactly.AcceptedExactly | src/filesystem/cmd_create.c:116-261 | for every data field, accepted as a request exactly when nothing but filler follows tag 62, reading ends with END, and the objects ask for it: known tags only, one 82 of a supported byte, one 83 of two bytes, one 80 in 1 to 32767 for an EF and none for a DF, the last of good 8A and 88 or the defaults, no short identifier for a DF |
| FcpExactly.RefusedExactly | src/filesystem/cmd_create.c:116-261 | refused with the word of the first bad object, 6A80, 6A81 or 6A84, and with 6A80 when there is none |
| Fcp.ParseOfFcp | src/filesystem/cmd_create.c:116-261 | for every file creation would accept, its control parameters, bare or in tag 62, parse back to identifier, type, size, life cycle and short identifier |
| Fcp.ParsedRequestIsValid | src/filesystem/fs.c:645-688 | a parsed template passes every check of creation except a reserved identifier |
| FcpRepeats.RepeatsExactly | src/filesystem/cmd_create.c:166-234 | every data field that repeats a tag is refused, exactly for tags other than 8A and 88 |
| FcpRepeats.LastLifeCycleWins | src/filesystem/cmd_create.c:204-220 | thirteen bytes with two life cycles that are accepted with the second |
| FcpRepeats.LastShortIdWins | src/filesystem/cmd_create.c:222-233 | seventeen bytes with two short identifiers that are accepted with the second |
| NvmLayout.DescRoundTrip | src/filesystem/fs_store.c:256-350 | a stored descriptor reads back in every field, or as corrupt exactly when its type or extent is invalid |
| NvmLayout.DecodeExactly | src/filesystem/fs_store.c:256-308 | for every twenty bytes: file d exactly when they are the sealed image of d, reserved bytes free, and d is storable; free exactly by the type byte |
| NvmLayout.MountExactly | src/filesystem/fs_store.c:130-183 | a superblock mounts exactly when it is a sealed one of version 1 with 1 to 32 slots that fit EEPROM and a bump pointer inside FLASH |
| NvmLayout.MountFailsExactly | src/filesystem/fs_store.c:130-183 | the error of every other: unformatted exactly without the magic, wrong version exactly for a sealed superblock of another version, corrupt otherwise |
| NvmLayout.DamagedSbIsSeen | src/filesystem/fs_store.c:130-183 | two damaged adjacent bytes of a superblock never mount |
| NvmLayout.DamagedDescIsSeen | src/filesystem/fs_store.c:269-277 | two damaged adjacent bytes of a descriptor never read as a file |
| NvmLayout.SbRoundTrip | src/filesystem/fs_store.c:104-183 | a written superblock mounts with the bump pointer it was written with |
| SlotSearch.FirstIsUnique | src/filesystem/fs.c:30-84 | a scan returns the only slot that answers, whatever the order of slots |
| FsStore.ExecTable | src/filesystem/fs_store.c:310-372 | each NVM write changes the one slot it names, to what was written, and no other |
| FsStore.MirrorKept | src/filesystem/fs_store.c:104-128 | every write keeps the mirror equal to a fresh mount, a superblock write exactly on images of 32 slots |
| FsStore.FormatTable | src/filesystem/fs_store.c:185-218 | a formatted chip has 32 free slots and mounts as mirrored |
| FsStore.Nvm.Mount | src/filesystem/fs_store.c:130-183 | the checks in order; the mirror is replaced on success and unmounted on failure |
| FsStore.Nvm.Format | src/filesystem/fs_store.c:185-218 | slot by slot erasure and then the superblock, 33 logged writes in that order, or too small and untouched |
| FsStore.Nvm.ReadDesc | src/filesystem/fs_store.c:256-308 | the slot as the table function decodes it, with the error of the first failing check |
| FsStore.Nvm.FindFreeSlot | src/filesystem/fs_store.c:374-385 | the lowest free slot, or none exactly when there is none |
| FsStore.Nvm.StoreDesc | src/filesystem/fs_store.c:310-350 | one descriptor write, logged, or an error and nothing changed |
| FsStore.Nvm.ReleaseDesc | src/filesystem/fs_store.c:352-372 | one slot erased, logged, or an error and nothing changed |
| FsStore.Nvm.AllocData | src/filesystem/fs_store.c:389-414 | the old bump pointer, raised on chip and mirror alike, or no space and nothing changed |
| FsStore.Nvm.ReadData | src/filesystem/fs_store.c:416-431 | the bytes of the range, or the error for an unmounted or out-of-range read |
| FsStore.Nvm.StoreData | src/filesystem/fs_store.c:433-451 | exactly that range of FLASH, logged, or an error and nothing changed |
| FileSystem.FindChild | src/filesystem/fs.c:30-60 | the scan loop finds the lowest live child with the identifier |
| FileSystem.FindBySfi | src/filesystem/fs.c:62-84 | the same for an EF by short identifier 1 to 30 |
| FileSystem.ChildCount | src/filesystem/fs.c:86-100 | the number of live children, positive exactly when one exists |
| FileSystem.SelectFid | src/filesystem/fs.c:154-210 | search order MF, child, current DF, parent; only an activated target moves the selection |
| FileSystem.SelectTypedChild | src/filesystem/fs.c:215-247 | an activated child of the wanted type, with each failure's own error |
| FileSystem.SelectParentDf | src/filesystem/fs.c:249-272 | the parent DF, refused at the MF |
| FileSystem.SelectPath | src/filesystem/fs.c:274-336 | the loop on a scratch selection equals the recursive walk of the path |
| FileSystem.ReadEf | src/filesystem/fs.c:340-377 | the slice of FLASH clamped to the file's end |
| FileSystem.WriteEf | src/filesystem/fs.c:379-407 | one data write inside the file, or an error and nothing changed |
| FileSystem.CreateFile | src/filesystem/fs.c:622-741 | every check before the first write; the writes made, in order, are those of the plan |
| FileSystem.DeleteFile | src/filesystem/fs.c:743-794 | one write that frees the slot, and the selection moved off it |
| Factory.Init | src/filesystem/fs.c:574-606 | mount, or personalise a chip that was never formatted, or report what is wrong; the NVM writes made are those of the plan, in order |
| Factory.Personalise | src/filesystem/fs.c:508-572 | the loop over the layout table stores the factory files in turn, after the format, each by its logged writes |
| Factory.BlankChipBecomesFactoryCard | src/filesystem/fs.c:508-606 | a blank chip of sufficient size comes up with exactly the five factory files, all erased, and every invariant |
| Factory.InitPreservesFormattedChips | src/filesystem/fs.c:574-606 | no byte of a chip that carries the magic is changed, corrupt or not |
| Personalisation.CutFormatStartsCleanly | src/filesystem/fs_store.c:185-218 | a format cut before its superblock write: the next power-up gives exactly the card an undisturbed one would have given |
| Personalisation.CutPersonalisation | src/filesystem/fs.c:508-606 | a blank chip's 41 writes cut after any number of them, at the next power-up: up to 32 a blank chip again that gives the same card; after 33 a filesystem error; from 34 on an operational card with every invariant and exactly the files whose descriptors were written |
| Personalisation.StartsExactly | src/kernel/kernel.c:13-39 | over any memories a cold start is operational exactly when a chip with the magic mounts and has a sealed MF in slot 0, or one without it has 656 bytes of EEPROM and 112 of FLASH; a filesystem error otherwise |
| TreeInvariant.CreateKeepsTree | src/filesystem/fs.c:622-741 | a file put into a free slot under an open DF without a clash keeps root, parents, chains and unique identifiers, whatever its slot number |
| TreeInvariant.DeleteKeepsTree | src/filesystem/fs.c:743-794 | freeing a childless slot keeps them too |
| TreeInvariant.ChainsAreShort | tests/fuzz/fuzz_fcp.c:27-40 | every parent chain is shorter than the table, so there is no cycle |
| TreeInvariant.CreateKeepsExtents | src/filesystem/fs_store.c:389-414 | an EF at the bump pointer overlaps no live EF and lies below the raised pointer |
| TreeInvariant.SelectByFidFits | src/filesystem/fs.c:154-210 | a successful selection by identifier ends on a live activated DF, and its EF if any is an activated child of it |
| TreeInvariant.WalkFits | src/filesystem/fs.c:274-336 | so does a successful path |
| TreeInvariant.DeleteKeepsSelection | src/filesystem/fs.c:743-794 | after a delete the selection is still on live files and the current DF never falls back to the root |
| FileMap.ViewExecAll | src/filesystem/fs_store.c:310-451 | any sequence of byte-level writes acts on the decoded disk as its table-level counterpart |
| FileMap.MirrorKeptAll | src/filesystem/fs_store.c:104-128 | no sequence of writes separates the mirror of a 32-slot image from the chip |
| FileMap.FilesUpdated | src/filesystem/fs.c:379-407 | a write inside one file patches that slice of it and leaves every other file's bytes |
| FileOps.CreateStopped | src/filesystem/fs.c:717-736 | creation stopped after any number of its writes: the files of before, or those and one new erased file, on a good disk |
| FileOps.DeleteStopped | src/filesystem/fs.c:743-794 | deletion stopped before or after its write: all files, or all but the named child of the current DF |
| FileOps.UpdateStopped | src/filesystem/fs.c:379-407 | update stopped before or after its write: all files as they were, or one of them patched in exactly that slice |
| FileOps.ReadIsSlice | src/filesystem/fs.c:340-377 | a read succeeds exactly inside an activated EF and returns that slice of the file's own bytes |
| Commands.StatusSwProper | src/filesystem/cmd_select.c:42-62 | 9000 for success and for no error |
| Commands.DispatchProper | src/apdu/apdu_dispatch.c:22-35 | for every command on every disk: a valid status word, data within Le and the buffer and only with 9000 or 6282, nothing changed unless 9000 |
| Kernel.Scos.Select | src/filesystem/cmd_select.c:123-233 | resolve, emit, then commit: the selection moves only with 9000 |
| Kernel.Scos.EmitControlInfo | src/filesystem/cmd_select.c:68-121 | the template asked for, 6Cxx with the exact length when Le is short |
| Kernel.Scos.ResolveTarget | src/filesystem/cmd_binary.c:40-79 | the offset form on the current EF and the short form under the current DF, as the target function |
| Kernel.Scos.ReadBinary | src/filesystem/cmd_binary.c:81-136 | the handler on the chip and buffer gives the answer of the value-level command |
| Kernel.Scos.UpdateBinary | src/filesystem/cmd_binary.c:138-179 | the same, with exactly the planned write on the chip and in the log |
| Kernel.Scos.CreateFile | src/filesystem/cmd_create.c:265-310 | the same for creation, both writes in order |
| Kernel.Scos.DeleteFile | src/filesystem/cmd_create.c:314-349 | the same for deletion, selection included |
| Kernel.Scos.Init | src/kernel/kernel.c:13-39 | cold boot over any two memories, coming up operational exactly when the filesystem does |
| Kernel.Scos.Restart | src/kernel/kernel.c:41-62 | back to the MF and operational whatever came before, the counter wrapping at 32 bits |
| Kernel.Scos.Handle | src/kernel/kernel.c:64-121 | the whole path from command bytes to response bytes on arrays equals the card's step, and the NVM writes it makes are those the step lists |
| CardMachine.DispatchSettled | src/filesystem/fs.c:622-794 | every command, stopped after any number of its NVM writes, leaves a good disk with the files of before or with its full effect, and a fitting selection |
| CardRuns.PowerUpGood | src/kernel/kernel.c:13-39 | a cold boot over a good chip changes no byte and comes up operational at the MF |
| CardRuns.StepKeeps | src/kernel/kernel.c:13-121 | one command, reset or power cut keeps every invariant, never lowers the bump pointer, and changes the files exactly as it means |
| CardRuns.RunRefines | src/filesystem/fs_store.c:256-451 | after any sequence of events the decoded files are the fold of its changes |
| CardRuns.EveryRun | src/kernel/kernel.c:13-121 | all of this from any blank chip |
| CardRuns.UntouchedFile | src/filesystem/fs.c:379-407 | a file that no change names keeps its descriptor and every byte through any history |
| CardSurface.EveryByteString | src/kernel/kernel.c:64-121 | for every byte string and buffer of two or more bytes: an answer that fits and ends in a 6x or 9x word, data only with 9000 or 6282 and never more than Le, and the whole card unchanged unless 9000 |
| CardSurface.ServedOnlyWhenOperational | src/kernel/kernel.c:77-111 | 9000 implies an operational card, class 00 and one of the five instructions |
| FsErrorCard.SixFiveEightOne | src/kernel/kernel.c:84-91 | after a failed start every command, however many came before, is answered 6581 and changes nothing |
| FsErrorCard.UnmountedServesNothing | src/kernel/kernel.c:41-62 | a card without a mounted superblock answers nothing with 9000 and stays as it is, after any reset too |
| FsErrorCard.ServesExactly | src/kernel/kernel.c:41-111 | a card that failed to start, mounted or not, answers no command string with 9000 before a warm reset, and answers some string with 9000 after it exactly when slot 0 is a live descriptor, or its lowest child of some identifier is activated or deletable, or its lowest EF of some short identifier is activated and not empty |
| FsErrorCard.UnservableStays | src/kernel/kernel.c:64-121 | a card just reset without any of that is left as it is by every sequence of commands |
| FsErrorCard.LostRootIsServed | include/os/kernel.h:43 | any good chip whose slot 0 stops reading as a file starts with 6581, and after one warm reset any activated file of the MF can be selected |
| FsErrorCard.DamagedFactoryCardIsServed | include/os/kernel.h:43 | a factory card with any two adjacent damaged bytes in slot 0 does so with EF 2F00 |
| AbstractCard.UpdateExactly | src/filesystem/cmd_binary.c:138-179 | 9000 exactly when the file map has an activated EF with room at the addressed place; it patches that slice |
| AbstractCard.ReadExactly | src/filesystem/cmd_binary.c:81-136 | data exactly when the file map has an activated EF there; it is that slice, 9000 if whole and 6282 if the file ended |
| AbstractCard.DeleteExactly | src/filesystem/cmd_create.c:314-349 | 9000 exactly for a childless file of the current DF; it removes that file, keeps the current DF, and drops the current EF exactly when it was that file; a refusal keeps the selection |
| AbstractCard.CreateExactly | src/filesystem/cmd_create.c:265-310 | 9000 exactly for a well-formed request with free identifiers while slots and space last; it adds that file, erased, in the lowest free slot |
| AbstractCard.CreateNeverBlamesParameters | src/filesystem/fs.c:645-688 | a parsed request is refused only because it exists already or does not fit |
| AbstractCard.MeaningExactly | src/filesystem/fs.c:340-794 | the change the bytes make is exactly the one the abstract card makes, in both directions |
| CommandAgreement.SelectByIdExactly | src/filesystem/fs.c:154-210 | SELECT by identifier ends with 9000 at a selection exactly when the identifier means an activated file there: the MF for 3F00, else the file of the current DF, else that DF, else its parent; an EF with its DF, a DF with no EF |
| CommandAgreement.WantedTold | src/filesystem/cmd_select.c:123-233 | every P1 form, by identifier, typed child, parent, path from the MF or from the current DF, goes where the file map says or stays for the reason it says |
| CommandAgreement.SelectAgrees | src/filesystem/cmd_select.c:68-233 | status word, template 62 or 6F with the file's parameters, 6Cxx with the exact length, and new selection of every SELECT, told over the file map |
| CommandAgreement.ReadAgrees | src/filesystem/cmd_binary.c:40-136 | the same for READ BINARY, every refusal word included |
| CommandAgreement.UpdateAgrees | src/filesystem/cmd_binary.c:138-179 | the same for UPDATE BINARY and its one change |
| CommandAgreement.CreateAgrees | src/filesystem/cmd_create.c:265-310 | the same for CREATE FILE over the description of accepted templates |
| CommandAgreement.DeleteAgrees | src/filesystem/cmd_create.c:314-349 | the same for DELETE FILE, selection included |
| CommandAgreement.CommandAgrees | src/apdu/apdu_dispatch.c:22-35 | any command on any good disk: response bytes, selection, change and number of NVM writes are the ones told over the file map |
| CommandAgreement.DeleteSparesReads | src/filesystem/fs.c:743-794 | after an accepted DELETE a READ that does not name the deleted file is answered as before |
| CardSimulation.StepSimulates | src/kernel/kernel.c:13-121 | one command, reset or power cut takes the card to the state, and gives the response bytes, that the abstract card goes to and gives |
| CardSimulation.RunSimulates | src/kernel/kernel.c:13-121 | the same for whole runs: final state and every response |
| CardSimulation.BlankChipSimulates | src/filesystem/fs.c:508-606 | from any blank chip the card is the abstract card that starts with the five factory files |
| Navigation.FileIsReached | src/filesystem/fs.c:215-247 | every activated file is reached from the MF by one typed child selection per link of its chain |
| Navigation.DescentReaches | src/filesystem/fs.c:215-247 | a descent that succeeds ends on an activated file whose chain is exactly the identifiers given |
| Navigation.PathExactly | src/filesystem/fs.c:274-336 | a path of one to eight components succeeds with a selection exactly when the descent by its components does, a leading own identifier of the starting DF being dropped |
| Navigation.FileByPath | src/filesystem/fs.c:274-336 | a file at most eight links deep is reached by its own path |
| CardNavigation.SelectSent | src/filesystem/cmd_select.c:123-233 | a SELECT string that resolves is answered 9000, moves the selection there and changes nothing else |
| CardNavigation.EveryFileIsReached | src/filesystem/fs.c:154-247 | on any reachable card and from any selection, SELECT 3F00 and fewer than 32 child SELECTs select any given activated file |
| TreeDepth.DepthExactly | tests/fuzz/fuzz_fcp.c:80-94 | a command keeps all chains within eight links unless it creates a file in a current DF that is eight links down |
| TreeDepth.NineLevelsDeep | tests/fuzz/fuzz_fcp.c:80-94 | on every blank chip, nine CREATE and SELECT pairs leave a DF nine links down |

## Left out

- HAL failures and torn writes inside one NVM write of the filesystem: an in-range access succeeds as a whole, which is all the code relies on.
- The jump into the image on RESTART and on reset, the boot-select pin, and persistence of the slot on the arm-scv1 board: hardware; a reset is the clearing of the session fields.
- Kernel.Scos.Handle: a response buffer of 64 KiB or more is not modelled, the source giving its length in 16 bits; null arguments are not modelled.
- Hex text, comments and file writing of the loader script, the recycle and inspect commands of the host tool, and its force option: formatting and input or output.
- Simulator, transport, card loop, ATR, instruction names and the Samsung stub: input and output, tables, or not implemented.
- Access conditions, authentication, transactions, extended commands and GET RESPONSE: not implemented by the source; the access bytes of a descriptor are stored and read back only.
- The constant-time claim of the memory comparison: not a functional property.
