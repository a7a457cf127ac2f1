# Verified model of the Programmer tools

The repository holds the tools of a network bootloader: readers that turn a firmware file into
memory sections, a scheduler that turns the sections into page erases and sector writes, a
programmer that sends requests over UDP and retries them, and an emulated target that serves
them from its flash. This project models these parts in Dafny and proves what they guarantee
together.

| module | models |
|---|---|
| `Bytes`, `Wire` | integer encodings, protocol codes, message layout |
| `Flash`, `Canonical` | effect of erases and writes; the action sequence a memory map calls for, defined without the scheduler |
| `Blocks`, `Image` | sections that grow in place, their sorting, and the one-pass scheduler |
| `Server`, `Target` | the target's reaction to one request and runs with many senders; the packet loop over its one frame buffer and its flash array |
| `Packets`, `Answers` | runs over the bytes of packets; what each packet makes the target send and store, byte by byte |
| `Client`, `Exchanges` | transmit buffer, judgement of received frames, the three-try exchange; which received frame ends it and how, byte by byte |
| `Protocol`, `Runs`, `Progress` | programmer and target over channels that lose and repeat messages but keep their order; theorems over every run, and runs that succeed |
| `Elf` | the ELF loader over a byte sequence |
| `Firmware` | blocks or an ELF file to flash |
| `Landing`, `Programming` | where the writes of a trace really go; the programmer's calls from the bytes of its buffer through the protocol to the flash |

## How it is built

Code that updates state is imperative here: classes with the source's fields, arrays for its
fixed buffers, loops with invariants. Each method is proved against a function of the old state;
the lemmas prove what the source promises about those functions.

The central results:

* **Scheduler.** For every image, `Program` emits exactly `CanonicalTrace` of the image's memory
  map, so neither the order nor the cutting of disjoint blocks can change it. That trace puts
  every image byte in place, erases the rest of each touched page, changes nothing else, erases
  each touched page and writes each touched sector exactly once, and stays inside the device. All
  of it holds for cells that are overwritten and for cells whose bits can only be cleared.
* **Protocol.** In every run, the target's flash is what an atomic flash holds after the effective
  calls, each counted once and in call order, although one call can be executed three times. A
  failed call took effect as if once or not at all, and a later effective call settles which.
  A call that returned has taken effect, and a READ returns the flash as of its call, unless the
  call was ended by a reply that answers a transmission a multiple of 256 back.
* **One exchange, one packet.** Stated over the bytes alone: the first frame that does not belong to
  another transmission or report progress ends an exchange, in the try it arrives in, with a result
  fixed by its first four bytes; without one the message goes out three times and the call times out
  (`FrameEnds`, `NoResponseExactly`). For every packet, when the target is silent and what it sends
  and stores otherwise (`Answers`). A call the target refuses ends with its status (`PromptRefused`,
  `ReplyEndsCall`), and a call inside a run is such an exchange (`CallIsExchange`).
* **End to end.** The programmer's WRITE message carries the address of the erase before it, not its
  own, and the target may read its data from behind padding. So when a session request and the
  calls of an image's schedule all return, each touched page holds, at its start, the shifted
  content of its last touched sector and is erased elsewhere (`ProgrammedOverNetwork`,
  `LandedEffect`). The requests are the scheduled ones exactly when every touched sector is the
  first of its page and the padding shifts no other byte in (`RequestsScheduledExactly`). The device
  holds the image exactly when each image byte is the one that lands in its place (`HeldExactly`):
  0xFF outside the first sector of a page, the byte behind the message in the padding's share of that
  sector, and otherwise the image byte that many places on. Without padding this says that a page
  with an image byte outside its first sector has nothing but 0xFF (`HeldUnpadded`).
  `TwoSectorsLost` and, with padding, `OneByteLost` are images that are lost although every call
  returns. Runs in which all the calls return exist for every image that fits
  (`ImageCanBeProgrammed`).
* **Strangers.** Packets of senders that never open a session cannot be noticed by anyone else as
  long as every WRITE that is carried out brings all its data. Otherwise a dropped packet can decide
  what is stored, because the target stores its whole data field whatever the packet's length
  (`StrangersAreInvisible`, `InvisibleExactly`). What the programmer's own WRITE stores depends on
  earlier packets exactly when the record is padded (`ClientNoticedExactly`).

Assumptions of the protocol model: the channels keep their order, only `CLIENT` opens sessions, and
a READ's range does not pass 2^32. What a call reports to its caller is true unless a misleading
reply ended that very call (`Misleads`): its sequence number is the awaited one because a positive
multiple of 256 transmissions lies between. `ReturnedCall` and `FailedCall` assume this of the call
they are about, the end-to-end results of all calls; `StaleReplyAccepted` shows why. The other
theorems are about all runs. The target handles one packet in one step. A WRITE's 64 bytes are a
field of the request record; `CallPlaced` and `AskedMeansRequest` tie the record to the bytes. With
padding the record ends behind the message, so the calls are tied to a `tail`, the bytes that lie
there; `TailStays` says when they stay.

Where the code does less than its interface suggests, the model follows the code and the exact
condition is proved:

* `Image::process` looks only at the first joinable section, so some overlaps go unnoticed
  (`MissedOverlap`); accepting everything and ending with disjoint sections means the blocks were
  disjoint (`FeedExact`).
* `program()` on an image without bytes writes its unfilled buffer to address 0 (`Program`,
  `UnfilledWrite`).
* `NetworkProgrammer::write` puts the address into the payload while the target uses the header's,
  which still holds that of the last selected operation; it sends 64 bytes whatever the buffer's
  length; and on the target the Write record may start after padding (`WriteIsFaithful`,
  `WriteAfterErase`). `pad` is a parameter: 0 if the record follows the packed 10-byte header at
  once, 2 if it is 4-aligned. The Visual Studio project packs the header only and sets no struct
  alignment (`Programmer/include/Programmer/types.hpp:25-26`,
  `Programmer/include/Programmer/protocol.hpp:111-115`), so its build has `pad` 2.
* The READ range test is computed in 32 bits (`DefinedExactly`, `WrappedReadPasses`), as are the ELF
  range tests, which are skipped for offset 0 (`OutsideExactly`, `OutsideAccepted`).

The precondition `SectorMonotone` of `Program` is exactly what the copy into the sector buffer
needs: a section that starts below the current sector would be copied to a position before the
buffer (`MonotoneExactly`). Accepted blocks can violate it (`AcceptedNotMonotone`).
`Addressable` is needed because the alignment masks are 32 bits wide (`FillStartsInBuffer`).

## Model

| member | source | states |
|---|---|---|
| Bytes.BigEndianRoundTrip | Programmer/include/Programmer/protocol.hpp:19-38 | storing into a bigendian field and converting back is the identity, from values and from bytes |
| Bytes.ByteOrder | Programmer/include/Programmer/protocol.hpp:19-38 | the weight of each byte: most significant first in bigendian fields, last in native words |
| Wire.HeaderRoundTrip | Programmer/include/Programmer/protocol.hpp:70-79 | every request header field is decoded as it was encoded, whatever follows the header in the frame |
| Flash.ErasedCellTakesByte | Programmer/src/Target.cpp:169-185 | an erased cell takes any byte exactly, whether programming overwrites it or only clears bits |
| Flash.AndBits | Programmer/src/Target.cpp:169-185 | a bit of a cell whose bits are only cleared stays set exactly when it was and is written as set |
| Blocks.ProcessThrows | Programmer/src/Image.cpp:18-30 | process reports an overlap exactly when the first section whose addresses the block reaches or touches shares one with it; an empty section, exactly when it lies strictly inside |
| Blocks.ProcessInPlace | Programmer/src/Image.cpp:15-31 | an accepted block becomes a section of its own if no section reaches or touches it; else the first that does is extended in front if it starts where the block ends, or else behind, and all others stay |
| Blocks.SectionsGrow | Programmer/src/Image.cpp:21-30 | an accepted block adds a section if and only if it neither reaches nor touches one |
| Blocks.ProcessNothing | Programmer/src/Image.cpp:18-19 | a block without bytes changes nothing |
| Blocks.JoinCells | Programmer/src/Image.cpp:49-62 | prepending or appending keeps every byte of the section and of the block at its address |
| Blocks.ProcessApart | Programmer/src/Image.cpp:15-31 | a block disjoint from all sections is accepted, adds exactly its bytes and leaves the sections disjoint |
| Blocks.FeedConserves | Programmer/src/Image.cpp:15-31 | on every run without exception the sections hold as many bytes as were supplied and none is empty |
| Blocks.FeedDisjoint | Programmer/src/Image.cpp:15-31 | disjoint blocks in any order are all accepted and the sections are disjoint and hold exactly their memory map |
| Blocks.FeedExact | Programmer/src/Image.cpp:21-30 | no exception and disjoint sections at the end if and only if the blocks were pairwise disjoint |
| Blocks.MissedOverlap | Programmer/src/Image.cpp:23-27 | a block that touches the first joinable section and overlaps a later one is accepted |
| Blocks.SortMeaning | Programmer/src/Image.cpp:90 | sorting orders the sections by address and keeps them all |
| Blocks.SortStable | Programmer/src/Image.cpp:90 | sections that start at the same address keep their order |
| Blocks.SortDisjoint | Programmer/src/Image.cpp:90 | sorting disjoint sections changes neither their memory map nor their disjointness |
| Canonical.CanonicalEffect | Programmer/src/Image.cpp:84-128 | after the trace image addresses hold image bytes, other bytes of touched pages are 0xFF, all else is unchanged, for both kinds of cell |
| Canonical.CanonicalDiscipline | Programmer/src/Image.cpp:98-127 | erases and writes ascend, every write falls in a page erased earlier, nothing is erased or rewritten after being written |
| Canonical.CanonicalCost | Programmer/src/Image.cpp:100-127 | one write per distinct touched sector and one erase per distinct touched page |
| Canonical.CanonicalAcceptable | Programmer/src/Image.cpp:106-114 | every action is aligned and its whole update lies inside a flash of complete pages that contains the image |
| Image.FillStartsInBuffer | Programmer/src/Image.cpp:71-79 | with the 32-bit masks the buffer offset is below 64 if and only if the address is below 2^32 |
| Image.MonotoneExactly | Programmer/src/Image.cpp:98-120 | no section has a byte in a sector below the one an earlier section ended in if and only if every section starts at or after the sector then current |
| Image.AcceptedNotMonotone | Programmer/src/Image.cpp:118-122 | three accepted blocks give sections of which the second starts at 128 while the sector at 192 is current |
| Image.Section.Add | Programmer/src/Image.cpp:49-62 | the section becomes the joined block, or stays as it was when the block overlaps |
| Image.ImageProgrammer.Process | Programmer/src/Image.cpp:15-31 | the section list becomes what joining the first joinable section, or adding a new one, gives; an error changes nothing |
| Image.ImageProgrammer.Allocate | Programmer/src/Image.cpp:33-35 | a new zero-filled section is appended without any check and handed out |
| Image.ImageProgrammer.Sort | Programmer/src/Image.cpp:90 | the list becomes the stably sorted list, with the same section objects |
| Image.ImageProgrammer.StartSector | Programmer/src/Image.cpp:100-116 | the finished sector and the erase of a new page are emitted, cursors and buffer are set for the new sector |
| Image.ImageProgrammer.FillStep | Programmer/src/Image.cpp:98-125 | a non-empty chunk that fits into the current sector is copied and everything handled so far is accounted for |
| Image.ImageProgrammer.ProgramSection | Programmer/src/Image.cpp:91-126 | one section is handled, cursors and buffer carrying over from and to its neighbours |
| Image.ImageProgrammer.Program | Programmer/src/Image.cpp:84-128 | the emitted calls are exactly the canonical trace of the sections' memory map; without bytes, one write of an unfilled buffer to 0 |
| Image.SwitchSector | Programmer/src/Image.cpp:99-116 | starting a sector emits what the canonical trace has between the two sectors |
| Image.FillSector | Programmer/src/Image.cpp:118-124 | the copy starts inside the buffer and makes it the padded content of the sector so far |
| Image.UnfilledWrite | Programmer/src/Image.cpp:127 | the write for an image without bytes leaves the flash alone exactly when sector 0 already held those bytes |
| Server.DefinedExactly | Programmer/src/Target.cpp:192-200 | the READ test lets through a range outside the flash exactly when its end passes 2^32 and the wrapped end does not exceed the size |
| Server.WrappedReadPasses | Programmer/src/Target.cpp:192-200 | one byte at address 0xFFFFFFFF passes the READ test of every flash although it lies outside |
| Server.ApplyIdempotent | Programmer/src/Target.cpp:158-188 | executing a request again changes nothing more |
| Server.ErrorsChangeNothing | Programmer/src/Target.cpp:121-214 | a packet answered with an error status, or not answered, leaves the flash unchanged |
| Server.OwnerIsLastSession | Programmer/src/Target.cpp:148-156 | after every run the owner is the sender of the most recent session request |
| Server.FlashChangedByOwner | Programmer/src/Target.cpp:131-188 | every change of the flash in every run is an accepted ERASE or WRITE of the sender of the most recent session request |
| Target.AnswerOverlaid | Programmer/src/Target.cpp:84-99 | a payload stored over the request's address and length leaves the reply's version, sequence number and operation those of the request |
| Target.Target.constructor | Programmer/src/Target.cpp:16-20 | the flash is the given number of KiB of zeros, no sequence number seen, no owner |
| Target.Target.HandleErase | Programmer/src/Target.cpp:158-172 | an aligned address inside the flash erases its page between INPROGRESS and OK; any other is refused |
| Target.Target.HandleWrite | Programmer/src/Target.cpp:174-188 | an aligned address inside the flash stores the 64 data bytes of the frame; any other is refused |
| Target.Target.HandleRead | Programmer/src/Target.cpp:190-208 | the reply carries the flash bytes of the range, prepared in the request's own buffer |
| Target.Target.Receive | Programmer/src/Target.cpp:106-216 | flash, last sequence number, owner, frame buffer and datagrams sent after one packet are those of the server model, which the Answers rows state byte by byte |
| Packets.RunOverPackets | Programmer/src/Target.cpp:106-216 | a run over the bytes of packets is a run of the server model over the requests read from the frame buffer |
| Answers.SilentExactly | Programmer/src/Target.cpp:108-136 | nothing is sent if and only if the packet is shorter than 10 bytes, of another version, not a request, or repeats the last accepted number without opening a session; then nothing changes |
| Answers.StrangerAnswered | Programmer/src/Target.cpp:138-143 | any other packet of a sender without the session gets one frame: its own version, number and operation, status 3; nothing changes |
| Answers.SessionOpened | Programmer/src/Target.cpp:148-156 | a session request makes its sender the owner and is answered with version, bootloader address and device id |
| Answers.EraseAnswered | Programmer/src/Target.cpp:158-172 | the owner's ERASE: progress, 0xFF in the page, OK, if aligned and inside the flash; else status 5 |
| Answers.WriteAnswered | Programmer/src/Target.cpp:174-188 | the owner's WRITE: progress, 64 bytes from the packet or, beyond it, the frame buffer, OK, if aligned and inside the flash; else status 5 |
| Answers.ReadAnswered | Programmer/src/Target.cpp:190-208 | the owner's READ: progress and then the bytes, exactly if the range is inside the flash and at most 1496 bytes long; else status 5 |
| Answers.OthersRefused | Programmer/src/Target.cpp:210-214 | every other operation of the owner's is answered with status 4 |
| Answers.BufferHolds | Programmer/src/Target.cpp:84-99 | the frame buffer holds the last datagram sent, over the packet, over what was there |
| Packets.BufferIrrelevant | Programmer/src/Target.cpp:98-99 | only a WRITE that is carried out and is shorter than its record depends on what the frame buffer held before |
| Packets.StrangersAreInvisible | Programmer/src/Target.cpp:108-145 | if every WRITE carried out brings all its data, removing all packets of senders that never open a session changes neither the final state nor any reply to the others |
| Packets.NoticedExactly | Programmer/src/Target.cpp:174-188 | some dropped packet of a given stranger changes what a WRITE stores if and only if the WRITE is shorter than 78 bytes plus the padding |
| Packets.InvisibleExactly | Programmer/src/Target.cpp:108-188 | in a run every WRITE carried out brings all its data if and only if at no moment a dropped packet of a stranger changes what the next packet stores |
| Packets.StrangerStored | Programmer/src/Target.cpp:98-115 | after a stranger's 100 bytes of version 9 the owner's 10-byte WRITE to 0 stores the stranger's byte, and without them the buffer's |
| Packets.ClientNoticedExactly | Programmer/src/Programmer.cpp:399-408 | a stranger's dropped packet can change what the programmer's own WRITE message stores if and only if the record is padded |
| Packets.TailStays | Programmer/src/Target.cpp:84-99 | packets and replies no longer than a WRITE message leave the frame buffer behind it alone |
| Client.SelectArrives | Programmer/src/Programmer.cpp:445-452 | a selected operation reaches the target with its operation, address, length and sequence number |
| Client.WriteArrives | Programmer/src/Programmer.cpp:399-408 | a WRITE message reaches the target with the header's old address and the data shifted by the padding |
| Client.MessageBytes | Programmer/src/Programmer.cpp:399-408 | the bytes of a message: header, address, length; a WRITE keeps the header's address and carries the caller's address and data in its payload |
| Client.WriteIsFaithful | Programmer/src/Programmer.cpp:399-408 | the target stores the buffer at the address if and only if the header held that address, the buffer is 64 bytes long and the padding shifts no other byte in |
| Client.WriteAfterErase | Programmer/src/Main.cpp:102-106 | after erasing page 1024 and reading from it a write to 1152 is stored, shifted by the padding, at 1024, and nothing else changes |
| Client.DiscoveryExactly | Programmer/src/Programmer.cpp:324-334 | the target's discovery reply carries version, address and device id where they are read, and is accepted exactly when the device is in the table |
| Client.DiscoveredExactly | Programmer/src/DeviceDescriptor.cpp:15-33 | a final reply to a discovery is taken exactly when it has at least 12 bytes and its device id is one of the nine devices', in any revision |
| Client.ReturnedIsReply | Programmer/src/Programmer.cpp:251-304 | only a received OK reply with the last sequence number and the requested operation ends an exchange normally |
| Client.ConverseAdvances | Programmer/src/Programmer.cpp:463-466 | an exchange ends under the sequence number of its last transmission, one increment per transmission |
| Exchanges.FrameEnds | Programmer/src/Programmer.cpp:219-304 | the first frame that is not another transmission's and reports no progress ends the exchange in its try: status 1 returns it, any other status but 2 is reported, and a short frame, another version, another operation or progress out of place are errors of their own |
| Exchanges.NoResponseExactly | Programmer/src/Programmer.cpp:225-248 | the call times out, after three transmissions, if and only if no such frame arrives before the third deadline |
| Client.NetworkProgrammer.Process | Programmer/src/Programmer.cpp:252-304 | the verdict on a frame is the one of Judge, whose effect FrameEnds states byte by byte, and a final frame is kept in the receive buffer |
| Client.NetworkProgrammer.Communicate | Programmer/src/Programmer.cpp:219-249 | result, sequence number and the one to three frames sent are those of the exchange over the events, which FrameEnds and NoResponseExactly state byte by byte |
| Client.NetworkProgrammer.Connect | Programmer/src/Programmer.cpp:309-344 | the discovery frames are sent; the programmer is connected after a reply of sufficient length from a known device; the transmit buffer holds the discovery under the last sequence number |
| Client.NetworkProgrammer.Erase | Programmer/src/Programmer.cpp:411-416 | without a connection nothing is sent; otherwise the selected erase is exchanged and stays in the transmit buffer under the last sequence number |
| Client.NetworkProgrammer.Read | Programmer/src/Programmer.cpp:389-396 | the size is cut to 16 bits; the result is the final reply's payload, and a reply without payload is an error; the request stays in the transmit buffer under the last sequence number |
| Client.NetworkProgrammer.Write | Programmer/src/Programmer.cpp:399-408 | the first 64 bytes of the buffer are exchanged as a WRITE message, which stays in the transmit buffer under the last sequence number |
| Protocol.SequenceIdentifies | Programmer/src/Programmer.cpp:264-265 | sequence numbers agree exactly when a multiple of 256 transmissions lies between |
| Protocol.DeliverOutcome | Programmer/src/Programmer.cpp:264-302 | a frame that ends a call tells the truth about the atomic flash unless it misleads |
| Protocol.ReceiveServer | Programmer/src/Target.cpp:131-188 | handling a packet moves the flash to the atomic flash after the recorded effects, repeated executions included |
| Protocol.ReceiveCore | Programmer/src/Target.cpp:106-216 | handling the packet at the head of the queue keeps the invariant and the truth of every outcome |
| Protocol.ServeEnabled | Programmer/src/Target.cpp:190-208 | the target can handle every packet that can reach it in a run |
| Protocol.StepCore | Programmer/src/Programmer.cpp:219-304 | every step of the two-party system keeps the invariant of both parties and the truth of every outcome, the one it adds being true unless a misleading reply ends the call |
| Runs.AtomicFlash | Programmer/src/Target.cpp:131-208 | in every run, however late replies are, the flash is the atomic flash after the effective calls, each once, in call order |
| Runs.ReturnedCall | Programmer/src/Programmer.cpp:219-304 | a call that returned, unless a misleading reply ended it, took effect and was not refused; a READ returned the atomic flash as of its call |
| Runs.ReadSeesEarlier | Programmer/src/Programmer.cpp:389-396 | the flash a READ shows reflects exactly the effective calls up to it |
| Runs.ReadReturnsPresent | Programmer/src/Target.cpp:190-208 | in every run, when a READ is ended by an OK reply that does not mislead, its payload is the requested slice of the target's present flash |
| Runs.FailedCall | Programmer/src/Programmer.cpp:225-248 | a failed call, unless a misleading reply ended it, timed out or was refused; the refused ones changed nothing; no other exception occurs |
| Runs.Settled | Programmer/src/Programmer.cpp:225-248 | in every run, once a later call has taken effect, no copy of an earlier one in flight can take effect any more |
| Runs.DuplicateExactly | Programmer/src/Target.cpp:133-145 | in every run with a session open, a request is dropped as a duplicate exactly when a multiple of 256 transmissions separates it from the last accepted one |
| Runs.ReplyMatchesExactly | Programmer/src/Programmer.cpp:264-265 | in every run a reply is not ignored exactly when a multiple of 256 transmissions separates it from the current one |
| Runs.ReplyEndsCall | Programmer/src/Programmer.cpp:267-302 | in every run a reply to the current transmission ends the call, an OK one with its frame and any other but progress with its status |
| Runs.RepeatIgnored | Programmer/src/Target.cpp:133-136 | in every run an accepted request that is delivered again is ignored, unless it opens a session: no effect and no reply |
| Runs.CallIsExchange | Programmer/src/Programmer.cpp:219-249 | within a call the programmer of a run is in the exchange that the frames and deadlines it heard lead to |
| Runs.ExecutedThrice | Programmer/src/Programmer.cpp:225-248 | from every start there is a run in which one erase is executed three times and counts once |
| Runs.StaleReplyAccepted | Programmer/src/Programmer.cpp:463-466 | from every start there is a run in which a reply delayed by 256 transmissions ends another call, an erase reported done that never happened |
| Elf.ProgramRoundTrip | Programmer/include/Programmer/elf.h:415-424 | a program header laid out field by field is decoded to its fields |
| Elf.SectionRoundTrip | Programmer/include/Programmer/elf.h:397-409 | a section header laid out field by field is decoded to its fields |
| Elf.HeaderFileRoundTrip | Programmer/include/Programmer/elf.h:376-391 | a file header laid out field by field is decoded to its fields |
| Elf.OutsideExactly | Programmer/src/Elf.cpp:157-159 | an accepted program header lies outside the file exactly when its end does and the test was skipped for offset 0 or wrapped |
| Elf.OutsideAccepted | Programmer/src/Elf.cpp:157-159 | a segment at offset 0 that is longer than the file passes the header test |
| Elf.LaidOutExactly | Programmer/src/Elf.cpp:109-179 | a file with given headers laid out in it is accepted if and only if its tables lie inside it and the listed conditions hold of its segments, its sections and the section of names; its program table is then what was laid out |
| Elf.ReadableExactly | Programmer/src/Elf.cpp:182-195 | loading succeeds if and only if every entry of type 1 with bytes in the file lies inside it |
| Elf.SegmentsInOrder | Programmer/src/Elf.cpp:182-195 | the sections added correspond one for one, in table order, to the entries of type 1 with bytes in the file, each holding those bytes and then zeros |
| Elf.ElfFile.ReadHeader | Programmer/src/Elf.cpp:109-146 | the header is accepted exactly when every test passes; only a file shorter than a header is a read error |
| Elf.ElfFile.ReadSections | Programmer/src/Elf.cpp:165-179 | succeeds exactly when every strided entry is inside the file and passes the test; entry i is decoded from its own bytes |
| Elf.ElfFile.ReadPrograms | Programmer/src/Elf.cpp:148-163 | succeeds exactly when every strided entry is inside the file and passes the test; entry i is decoded from its own bytes |
| Elf.ElfFile.ReadStrings | Programmer/src/Elf.cpp:266-280 | succeeds exactly when the section of section names, located in 32-bit arithmetic, can be read |
| Elf.ElfFile.Open | Programmer/src/Elf.cpp:83-100 | the file is loaded exactly when it is acceptable, and then the program table is the file's, entry by entry |
| Elf.ElfFile.ReadImage | Programmer/src/Elf.cpp:182-195 | succeeds exactly when every loadable segment is inside the file, and then adds the sections that SegmentsInOrder describes |
| Firmware.DisjointIsSchedulable | Programmer/src/Image.cpp:90-127 | disjoint sections meet the scheduler's precondition and keep their memory map |
| Firmware.ProgramBlocks | Programmer/src/Image.cpp:15-31 | feeding disjoint blocks and programming emits the canonical trace of their memory map, whatever the order and the cuts |
| Firmware.ProgramElf | Programmer/src/Main.cpp:120-123 | opening, loading and programming a file succeeds exactly when it is accepted and its segments lie inside it, and emits the canonical trace of its sorted segments; without loadable segments, one write of an unfilled buffer to 0 |
| Firmware.BlockInFlash | Programmer/src/Image.cpp:84-128 | every byte of disjoint sections ends up at its address |
| Firmware.ElfInFlash | Programmer/src/Elf.cpp:182-195 | after programming, every entry of type 1 with bytes in the file is in the flash: those bytes, then zeros up to memsz |
| Firmware.FileInFlash | Programmer/src/Main.cpp:120-123 | for an accepted file with disjoint segments what is emitted puts every entry of type 1 with bytes in the file at its physical address: those bytes, then zeros up to memsz |
| Landing.ScheduledExactly | Programmer/src/Programmer.cpp:399-408 | the calls of an image's schedule do what the schedule says if and only if every touched sector is the first of its page and the padding shifts no other byte into it |
| Landing.ScheduledUnpadded | Programmer/src/Programmer.cpp:399-408 | without padding: if and only if every image byte lies in the first sector of its page |
| Landing.LandedEffect | Programmer/src/Programmer.cpp:399-408 | every byte of the flash after the calls of an image's schedule: the shifted content of the page's last touched sector at its start, 0xFF in the rest of the page, all else unchanged |
| Landing.HeldExactly | Programmer/src/Programmer.cpp:399-408 | for every padding the device holds the image after its schedule's calls if and only if every image byte is the one that lands at its address: 0xFF outside the first sector of its page, the byte behind the message in the padding's share of it, else the image byte shifted there (0xFF if the page goes on) |
| Landing.HeldUnpadded | Programmer/src/Programmer.cpp:399-408 | without padding: if and only if every image byte of a page with an image byte outside its first sector is 0xFF |
| Landing.AnyHeader | Programmer/src/Programmer.cpp:399-408 | what an image's calls do does not depend on the address the header held before |
| Landing.TwoSectorsLanded | Programmer/src/Programmer.cpp:399-408 | for bytes in the first two sectors of a page the second is missing from its place and the first overwritten, for every padding |
| Landing.OneByteLanded | Programmer/src/Programmer.cpp:399-408 | with padding a single byte at the start of a page is lost |
| Programming.PacketMeansRequest | Programmer/src/Programmer.cpp:445-466 | the bytes of a selected operation have on the target the effect and the replies of the protocol's request |
| Programming.WriteMeansRequest | Programmer/src/Programmer.cpp:399-408 | a WRITE message is the protocol's request for the address left in the header and the data shifted by the padding |
| Programming.AskedMeansRequest | Programmer/src/Target.cpp:147-214 | what the target does and sends depends only on the fields the operation uses |
| Programming.CallPlaced | Programmer/src/Programmer.cpp:399-416 | one call's message asks for its action, a write being moved to the header's address and shifted |
| Programming.TransmissionPlaced | Programmer/src/Programmer.cpp:219-233 | each frame a call puts on the wire asks for the same under its own sequence number |
| Programming.ClientOpsPlaced | Programmer/src/Programmer.cpp:399-416 | over a whole sequence of calls the requests are those of the actions, each write moved to the address of the erase before it |
| Programming.RequestsScheduledExactly | Programmer/src/Programmer.cpp:399-416 | the requests for an image's schedule are the scheduled ones if and only if every touched sector is the first of its page and the padding shifts no other byte into it |
| Programming.ApplyAction | Programmer/src/Target.cpp:158-188 | the target accepts exactly the acceptable actions and does to its flash what they mean |
| Progress.PromptCall | Programmer/src/Programmer.cpp:219-249 | from a quiet state every call the target does not refuse has a run in which it returns after one transmission |
| Progress.PromptRefused | Programmer/src/Programmer.cpp:301-302 | from a quiet state with a session, every call the target refuses has a run in which it ends after one transmission with the target's status, the flash unchanged |
| Progress.ImageCanBeProgrammed | Programmer/src/Programmer.cpp:219-304 | for every image that fits the device, padding and transmit buffer there is a run that opens a session and makes the programmer's own calls for it, each of which returns; the image is in the device exactly when every image byte is kept |
| Progress.TwoSectorsLost | Programmer/src/Programmer.cpp:399-408 | for bytes in the first two sectors of a page there is a run in which every call returns and the image is not in the device, for every padding |
| Progress.OneByteLost | Programmer/src/Programmer.cpp:399-408 | with padding there is a run in which every call returns and a single byte at the start of a page is lost |
| Programming.ProgrammedOverNetwork | Programmer/src/Programmer.cpp:219-304 | if a session request and the programmer's own calls for an image return, in any run in which none is misled, the flash is the one the placed actions leave; for every padding the image is held exactly when every image byte is kept, and programming is as scheduled when every write arrives as scheduled |
| Programming.CallsOverNetwork | Programmer/src/Programmer.cpp:219-304 | the same for any sequence of erases and writes, from any transmit buffer: the flash is the one the placed actions leave, and all of them were acceptable |

## Left out

- Sockets, polling and clocks: the socket and the clock are a list of events; a passed deadline is a step that can happen at any time.
- Sizes and addresses are unbounded except where a 32-bit mask or sum is written out; MSVC's 32-bit `off_t` and wrap-around of `size_t` are not modelled.
- The sort is the library's; it is modelled by a stable insertion sort.
- Sender addresses of replies: the client does not compare them, and the model's client hears only the target.
- Programmer's wrapper class: it forwards after alignment and size tests; `erase_write` forwards to `write`, so no erase is claimed for it.
- Packets longer than 1500 bytes: receiving one is a socket error on the target.
- RESET, CHECKSUM, CHIP_ERASE and ERASE_WRITE on the target: they take the branch of an unsupported operation, which is modelled.
- `configure_device`, broadcast addresses and the bootloader information printed after a discovery.
- `read_image2`: it loads sections instead of segments with the same reads.
- `ImageProgrammer::erase` and `write` only print; that a program makes the network programmer's calls for the same actions is a composition this project makes.
- Protocol's strangers act on the target's state, not on its frame buffer; `Packets` has both.
- Packets.StrangersAreInvisible: is about packets of at most 1500 bytes and READs whose range does not pass 2^32.
- Elf.ElfFile.Open: does not tell failed tests apart; they share the outcome `Invalid`.
- Target.Target.Receive: says nothing of a READ that escapes the range test because its end passes 2^32; what is copied then is undefined.
- Image.ImageProgrammer.Program: says nothing of sections that would be copied to a position before the sector buffer, or that end above 2^32.
- The section names of an ELF file, `Hex.cpp`, printing, exception texts, `TargetTester`.
