# gboot: a UART bootloader for the STM32F103 and its host flasher

gboot is a small bootloader. It sits at the bottom of an STM32F103's flash and
keeps the application at 0x08004000. The bootloader starts up and
checks backup register DR1. Without the magic key 0x5AA5DEAD in DR1 it tries
the application first. The application's stack pointer must pass a mask check
first. If the check passes, the bootloader tears down its peripherals and
branches to the reset vector. Otherwise it clears DR1 and listens on the UART,
one DMA frame at a time. Each frame carries a one-byte command:

- GET_INFO answers ACK (0x79) and then the version bytes 1, 2.
- ERASE_APP erases 48 pages.
- WRITE_PAGE takes a little-endian address and 1024 bytes. It programs the
  bytes word by word with the flash controller unlocked.
- RESET_DEV and JUMP_APP hand control away.
- Anything else answers NACK (0x1F).

The host script `gboot_flasher.py` queries the device, erases it, writes a
binary image one 1 KiB page per packet, and finally sends JUMP_APP. It stops
at the first step, or the first page, that is not acknowledged.

The model has one module per part of the system:

- `Protocol` holds the constants both sides share.
- `Hal` models the STM32 HAL as a value. It holds the flash words, the
  controller lock, DR1, an ordered log of the HAL calls that the commands
  and the startup path make (the clock and backup-domain enables are not
  logged, see below), and an oracle for
  the outcomes the bootloader cannot predict: whether an erase succeeds, and
  which word programs fail.
- `Bytes` handles little-endian packing, with both round trips.
- `Command` defines the reference functions of the firmware: `Dispatch`
  (gboot.c:90-194), `GetInfo`, `EraseApp` (107-129), `WritePage` (130-177)
  with its word loop `ProgramWords` (153-169), `ResetDevice`, `JumpApp`,
  `JumpToApp` (217-243) and `Startup` (34-56). They have no contracts of
  their own: the session methods are proved equal to them, and
  `CommandProps` and `BootProps` prove their properties.
- `GBoot` holds the `Session` class: the `GBoot_t` instance with its receive
  and transmit arrays, its flags and the hardware it drives. Each method is
  proved equal to the reference function for its operation.
- `CommandProps` and `BootProps` prove what the commands and the startup path
  promise.
- `Flasher` holds the host's paging and reply handling, with `WriteFlash` as
  a loop method.
- `FlasherProps` proves the paging properties.
- `Link` connects the two sides. The bytes the host sends pass the firmware's
  checks and end up in flash, and the firmware's replies decide what the
  host reports.
  `Link.GetInfoOnWire` splits the device's reply the way get_info's
  `read(1)` and `read(2)` do (gboot_flasher.py:53-55): the first byte is the
  ACK, the next two (fewer if fewer came) are the version.

DR1 is cleared only when the jump attempt returns: the clear at
gboot.c:52 comes after the jump at line 47, so an application that gets
control sees DR1 as it was (`BootProps.StartupJumps`).

## Model

| member | source | states |
|---|---|---|
| Bytes.DecodeEncode | Tools/gboot_flasher.py:107-110 | Decoding the four shifted-and-masked bytes of an integer gives the integer back modulo 2^32, and exactly when it is below 2^32 |
| Bytes.EncodeDecode | Core/Src/gboot.c:139-143 | Re-encoding a word assembled from four little-endian bytes gives back those four bytes |
| Bytes.Le32Injective | Core/Src/gboot.c:158-162 | Two byte quadruples that assemble to the same word are equal |
| Bytes.LeBytesShifts | Tools/gboot_flasher.py:107-110 | The host's four address bytes are the base-256 digits of the address, least significant first |
| Command.Truncate | Core/Src/gboot.c:196-203 | A response is cut to a prefix of at most 128 bytes; a shorter one is sent whole, a longer one as exactly 128 bytes |
| Command.FramePage | Core/Src/gboot.c:153 | The page data of a WRITE_PAGE frame is 1024 bytes |
| GBoot.Session.Create | Core/Src/gboot.c:19-30 | Flags cleared, receive buffer zeroed, and no hardware call made |
| GBoot.Session.Frame | Core/Src/gboot.c:92 | The frame is empty exactly when rx_len is 0, and is short of a WRITE_PAGE frame exactly when rx_len is |
| GBoot.Session.Init | Core/Src/gboot.c:34-56 | The hardware ends in the state `Command.Startup` gives: jump attempt without the key, then DR1 cleared and reception armed if control came back |
| GBoot.Session.OnRxEvent | Core/Src/gboot.c:81-88 | Records the received length and raises the command flag |
| GBoot.Session.RunStep | Core/Src/gboot.c:62-75 | With no frame pending nothing changes. A pending frame is dispatched; unless control left, the flag is cleared and reception re-armed |
| GBoot.Session.ProcessCommand | Core/Src/gboot.c:90-194 | The hardware ends exactly as `Command.Dispatch` of the received frame says |
| GBoot.Session.WritePage | Core/Src/gboot.c:130-177 | The hardware ends exactly as `Command.WritePage` of the received frame says |
| GBoot.Session.ProgramPage | Core/Src/gboot.c:151-169 | The loop's hardware state and status equal the reference word loop; status is 0 or 1 |
| GBoot.Session.DataWord | Core/Src/gboot.c:158-162 | The loop's word i/4 is the little-endian word of received bytes 5+i .. 5+i+3 |
| GBoot.Session.SendResponse | Core/Src/gboot.c:196-203 | The transmit buffer holds the truncated response, and exactly that is transmitted once |
| GBoot.Session.SendAck | Core/Src/gboot.c:205-209 | One transmission of the single byte ACK |
| GBoot.Session.SendNack | Core/Src/gboot.c:211-215 | One transmission of the single byte NACK |
| GBoot.Session.JumpToApp | Core/Src/gboot.c:217-243 | The hardware ends as `Command.JumpToApp` says: no action at all unless the stack pointer passes the mask check |
| CommandProps.FirstFailure | Core/Src/gboot.c:164-168 | The index of the first word the controller rejects: every earlier word is accepted and that one is rejected, or none is rejected |
| CommandProps.ProgramRun | Core/Src/gboot.c:156-169 | The program calls of a run of words, one per word |
| CommandProps.InRunAt | Core/Src/gboot.c:164 | Word j's 32-bit address is inside a run of words exactly when j is in the run, even across a wrap at 2^32 |
| CommandProps.InRunIsWritten | Core/Src/gboot.c:164 | The offset test and the address set of a run of words agree |
| CommandProps.WordAddressInjective | Core/Src/gboot.c:164 | Distinct words of a page are programmed at distinct addresses |
| CommandProps.ProgramWordsCalls | Core/Src/gboot.c:156-169 | The loop calls the controller for words in ascending order, at addr + 4j with the LE word of bytes 4j.., up to and including the first rejected word |
| CommandProps.ProgramWordsStatus | Core/Src/gboot.c:164-168 | The loop reports success exactly when no word from k on is rejected |
| CommandProps.ProgramWordsSucceeds | Core/Src/gboot.c:154-169 | The whole loop succeeds exactly when the controller accepts every word |
| CommandProps.NoFailureIff | Core/Src/gboot.c:164-168 | The scan finds no failure exactly when no word address of the page is rejected |
| CommandProps.ProgramWordsFrame | Core/Src/gboot.c:156-169 | The loop changes only the flash and the log |
| CommandProps.ProgramWordsFlash | Core/Src/gboot.c:156-169 | After the loop the flash holds exactly the words before the first rejected one, written over the old flash |
| CommandProps.WrittenElsewhere | Core/Src/gboot.c:164 | Programming a run of words leaves every address outside the run as it was |
| CommandProps.WrittenReadback | Core/Src/gboot.c:164 | Every word of a programmed run reads back as written |
| CommandProps.ProgramWordsReadback | Core/Src/gboot.c:156-169 | Every word before the first failure reads back as the page's word, with no rollback at the failure |
| CommandProps.ProgramWordsElsewhere | Core/Src/gboot.c:156-169 | No flash word outside the successfully programmed words changes |
| CommandProps.EmptyFrameIgnored | Core/Src/gboot.c:92 | An empty frame produces no response and no HAL call |
| CommandProps.GetInfoReply | Core/Src/gboot.c:98-105 | GET_INFO transmits ACK and then the bytes 1, 2, and does nothing else |
| CommandProps.EraseReply | Core/Src/gboot.c:107-129 | ERASE_APP: unlock, erase 48 pages from APP_START_ADDRESS, ACK exactly when the erase succeeded, then lock. On success the region reads erased; no word outside the region changes |
| CommandProps.WritePageRejected | Core/Src/gboot.c:133-149 | A short WRITE_PAGE frame, or one addressed below APP_START_ADDRESS, gets exactly one NACK and no flash call |
| CommandProps.WritePageAccepted | Core/Src/gboot.c:151-174 | Unlock, the word programs up to the first failure, lock, then ACK exactly when every word was accepted; only the flash and the log change besides |
| CommandProps.WritePageReadback | Core/Src/gboot.c:153-169 | The words before the first failure read back as the frame's data; there is no rollback |
| CommandProps.WritePageElsewhere | Core/Src/gboot.c:153-169 | An accepted frame changes no flash word except the ones it programmed |
| CommandProps.ResetReply | Core/Src/gboot.c:178-183 | RESET_DEV starts the transmission of ACK, then resets; control never returns |
| CommandProps.JumpReply | Core/Src/gboot.c:184-189 | JUMP_APP starts the transmission of ACK, then attempts the boot; a rejected image gets no NACK |
| CommandProps.UnknownOpcode | Core/Src/gboot.c:190-192 | Any other opcode gets exactly one NACK and nothing else |
| CommandProps.JumpOutcome | Core/Src/gboot.c:217-243 | An implausible stack pointer changes nothing. Otherwise the UART, DMA, RCC, HAL and SysTick teardown runs in order, then MSP is loaded and control branches to the reset vector, never to return |
| CommandProps.ReplayAppend | Core/Src/gboot.c:109-127 | Lock-state replay distributes over concatenated call traces |
| CommandProps.ProgramRunUnlocked | Core/Src/gboot.c:151-171 | The word programs neither lock nor unlock the controller, and all run unlocked |
| CommandProps.NoFlashCalls | Core/Src/gboot.c:98-105 | Calls that are not flash-controller calls leave the lock state alone |
| CommandProps.EraseDisciplined | Core/Src/gboot.c:109-127 | ERASE_APP erases only while unlocked and ends locked |
| CommandProps.WritePageDisciplined | Core/Src/gboot.c:151-171 | WRITE_PAGE programs only while unlocked and ends locked, on every path |
| CommandProps.JumpDisciplined | Core/Src/gboot.c:184-189 | JUMP_APP makes no flash-controller call at all (every call it adds is neither unlock, lock, erase nor program) and leaves the controller locked |
| CommandProps.LockDiscipline | Core/Src/gboot.c:90-194 | Starting from a locked controller, every command makes its erase and program calls only while unlocked and ends locked, on success and on failure; the log only grows |
| BootProps.StartupWithMagic | Core/Src/gboot.c:44-55 | With the magic key, DR1 is cleared, reception is armed, and nothing else happens |
| BootProps.StartupJumps | Core/Src/gboot.c:44-47 | Without the key and with a plausible image, control passes to the application before DR1 is written |
| BootProps.StartupStays | Core/Src/gboot.c:44-55 | Without the key and without a plausible image, startup ends as if the key had been present |
| BootProps.StartupStaysIff | Core/Src/gboot.c:44-55 | The bootloader keeps control exactly when the key was present or the image is implausible; it then reads DR1 as 0 with flash and lock unchanged |
| BootProps.SramStackAccepted | Core/Src/gboot.c:224 | Every address in the first 128 KiB of SRAM passes the mask check |
| BootProps.ErasedWordRejected | Core/Src/gboot.c:224 | The erased-flash word 0xFFFFFFFF fails the check |
| BootProps.CoarseCheck | Core/Src/gboot.c:224 | For every 32-bit value the check's outcome is unchanged by clearing bits 28, 30 and 31 |
| BootProps.CoarseSamples | Core/Src/gboot.c:224 | 0x30000000, 0xE0000000 (outside SRAM) and 0x2001FFFC pass the check, 0x20020000 fails it |
| BootProps.JumpAfterErase | Core/Src/gboot.c:184-189 | After a successful erase, JUMP_APP only acknowledges and the bootloader keeps control |
| BootProps.WordAddressNoWrap | Core/Src/gboot.c:164 | While the page fits below 2^32, word j goes to addr + 4j |
| BootProps.WriteWrapsAround | Core/Src/gboot.c:145-164 | The address check bounds only the start: a page at 0xFFFFFF00 passes, and its word 64 lands at address 0 |
| Flasher.NumPages | Tools/gboot_flasher.py:92 | The number of 1 KiB pages that holds n bytes and no more than needed; zero exactly for an empty image |
| Flasher.Slice | Tools/gboot_flasher.py:96 | The clamped slice is no longer than asked, and is the exact slice when it fits |
| Flasher.Padding | Tools/gboot_flasher.py:100 | n bytes, every one 0xFF |
| Flasher.GetInfo | Tools/gboot_flasher.py:49-60 | True exactly after an ACK with two version bytes, False exactly without an ACK; an ACK with fewer than two version bytes raises |
| Flasher.PagePacket | Tools/gboot_flasher.py:95-111 | The packet built for page i is the reference packet: opcode, LE page address, padded chunk |
| Flasher.PacketsAt | Tools/gboot_flasher.py:94-111 | The packet sequence for n pages lists page j's packet at position j |
| Flasher.WriteFlash | Tools/gboot_flasher.py:92-123 | Sends page j's packet as its j-th packet, never more than NumPages, and stops at the first empty or non-ACK reply. Returns True exactly when every page was sent and acknowledged |
| FlasherProps.ChunkLayout | Tools/gboot_flasher.py:95-100 | Page i covers the image from i*1024, holds at least one image byte, is padded with 0xFF to 1024 bytes, and is short only when it is the last page |
| FlasherProps.PacketLayout | Tools/gboot_flasher.py:105-111 | Every packet is 1029 bytes: 0x03, the LE page address, then the padded chunk |
| FlasherProps.AddressesIncrease | Tools/gboot_flasher.py:102 | Page addresses start at 0x08004000 and grow by at least a page per packet |
| FlasherProps.JoinedPrefix | Tools/gboot_flasher.py:94-96 | The first n unpadded chunks joined are the image's first n pages |
| FlasherProps.Reassembled | Tools/gboot_flasher.py:92-100 | All unpadded chunks joined are the image: each byte is sent once, in order |
| Link.TransmittedAppend | Core/Src/gboot.c:196-203 | The bytes handed to the UART for two traces are the bytes of each, in order |
| Link.TransmittedCons | Core/Src/gboot.c:196-203 | The same for one call followed by a trace |
| Link.ProgramRunSilent | Core/Src/gboot.c:156-169 | The word loop transmits nothing |
| Link.HostPacketFields | Tools/gboot_flasher.py:102-111 | Every packet the host sends below 2^32 passes the firmware's checks: length 1029, opcode 3, the decoded address equals the host's page address and is not below APP_START_ADDRESS, and the page data is the host's chunk |
| Link.HostPacketAccepted | Core/Src/gboot.c:130-177 | The firmware runs the word loop on the host's chunk at the host's page address |
| Link.AcceptedReply | Core/Src/gboot.c:171-174 | An accepted WRITE_PAGE frame hands exactly one byte to the UART: ACK when every word was programmed, NACK otherwise |
| Link.WriteTail | Core/Src/gboot.c:151-174 | The bytes of unlock, a silent run, lock and a one-byte answer are that answer |
| Link.HostPageReply | Tools/gboot_flasher.py:115-120 | The host reads exactly one reply byte per packet, an ACK exactly when no word of the page failed, so it moves on exactly when the page was written whole |
| Link.FrameStored | Core/Src/gboot.c:153-169 | When no word fails, each programmed word's LE bytes are the frame's data bytes 4j .. 4j+3 |
| Link.WordsAsBytes | Core/Src/gboot.c:158-164 | Words that read back as a page's LE words read back as its bytes |
| Link.HostPageStored | Tools/gboot_flasher.py:94-116 | When no word fails, the host's packet leaves the page's padded chunk in flash, four bytes per word, at the firmware's word addresses |
| Link.BelowPage | Core/Src/gboot.c:164 | A word below a non-wrapping page's start is not one of its words |
| Link.AbovePage | Core/Src/gboot.c:164 | A word at or past a page's end is not one of its words |
| Link.OtherPageKept | Tools/gboot_flasher.py:102 | The packet for page k leaves every word of any other page i as it was |
| Link.HostErase | Tools/gboot_flasher.py:62-79 | erase returns True exactly when the device's erase succeeded |
| Link.GetInfoAsWritten | Tools/gboot_flasher.py:12 | The host's GET_INFO byte 0x50 gets a single NACK and nothing else, so get_info returns False |
| Link.GetInfoCorrected | Core/Inc/gboot_protocol.h:11 | With opcode 0x01 the device sends ACK then 1, 2, and get_info returns True |

## Left out

- The HAL functions are modelled by their effect, not their internals. Each
  is an entry in the call log plus an update to the machine value. Whether an
  erase succeeds and which word programs fail come from an oracle in the
  machine, not from modelled hardware.
- A failed `HAL_FLASHEx_Erase` is taken to leave the flash unchanged. On real
  hardware it may have erased some pages first.
- Flash is modelled as independent 32-bit word slots keyed by byte address
  (`Hal.Machine.flash`). Words at overlapping addresses that are not a
  multiple of 4 apart do not see each other's writes. The firmware accepts a
  WRITE_PAGE at any address from the application start up (gboot.c:145 checks
  only that lower bound, not alignment), so after ERASE_APP a page written at 0x08004002 leaves the
  model's word at 0x08004000 erased, where byte-addressed flash would hold the
  page's first two bytes in its upper half.
- CommandProps.ProgramWordsElsewhere: "every other address keeps its word" is
  about word slots; on byte-addressed flash it holds only for addresses a
  multiple of 4 away from the page's start.
- CommandProps.WritePageElsewhere: the same restriction to word slots.
- CommandProps.EraseReply: its clause that words outside the erased region
  are kept is about word slots; a word starting up to 3 bytes below the
  region overlaps it on byte-addressed flash.
- CommandProps.WrittenElsewhere: the same restriction to word slots.
- CommandProps.JumpOutcome: the stack pointer JUMP_APP reads (gboot.c:224) is
  the word slot at the application start, which an unaligned WRITE_PAGE does
  not change in the model. The same holds for `CommandProps.JumpReply` and
  `BootProps.StartupJumps`.
- A failed `HAL_FLASH_Program` is taken to leave its word unchanged. On real
  hardware it may leave a partly programmed word. CommandProps.ProgramWordsElsewhere
  and CommandProps.WritePageElsewhere rely on this for the failing word.
- The reception interrupt runs concurrently with `GBoot_Run` on real
  hardware. Here `OnRxEvent` and `RunStep` are separate calls, and the
  `volatile` ordering is not modelled.
- DMA writes into `rx_buffer` are not modelled. The received bytes are
  whatever the array holds when a frame is processed.
- The endless `while (1)` of `GBoot_Run` is modelled as one pass, `RunStep`.
- The busy-wait on the UART state in `GBoot_SendResponse` is not modelled. A
  transmission is one call.
- A `Transmit` event records the start of a DMA transfer
  (`HAL_UART_Transmit_DMA` returns at once), not the delivery of its bytes.
  `Link.Transmitted` and the replies built from it are the bytes handed to
  the UART. In `CommandProps.ResetReply` and `CommandProps.JumpReply` the ACK
  is that call: the reset (gboot.c:181), or the UART and DMA de-init of a
  successful jump (gboot.c:230-232), follows at once and may cut the ACK
  short before it leaves the device.
- The peripheral clock enables and the backup-domain access enable at the
  start of `GBoot_Init` (gboot.c:39-41) are not logged. They have no effect
  the model observes besides making DR1 readable and writable (the clear at
  gboot.c:52 depends on the backup-domain access enable).
- The binding of `Init`, `Run` and `OnRxEvent` through function pointers is
  not modelled. The methods are called directly.
- The HAL callback wrapper `HAL_UARTEx_RxEventCallback`, with its USART3
  check, is not modelled.
- DR1 is modelled as a full 32-bit register (`Hal.Machine.backup`), as the
  comparison with the 32-bit key at gboot.c:44 reads it. Whether the
  device's backup data registers keep all 32 bits is a hardware fact outside
  this model; if they keep fewer, the key can never match and only the
  jump-first path of `BootProps.StartupStaysIff` can occur.
- `is_busy` is cleared at creation and never read, so it is a field with no
  behaviour.
- GBoot.Session.Create: the ensures that rx_len is 0 holds because the one
  `GBoot_t` instance is a zero-initialised global. `GBoot_Create`
  (gboot.c:19-30) does not write rx_len or tx_buffer itself.
- GBoot.Session.Frame: a reported length above the 2100-byte buffer is
  clamped to the buffer. No command looks at bytes past 1029, so no command's
  behaviour depends on the clamp.
- The shifts `b << 24` on a promoted `int` in the address and word assembly
  are modelled as a plain little-endian sum. The overflow of the C shift is
  not modelled.
- Host serial I/O is not modelled. Each `read` is the byte string it
  returned, given as a parameter, and a timeout is an empty string. Opening
  the port and the timeouts are not modelled.
- Also not modelled on the host: the file-existence check, reading the file,
  the progress printing, the `sync` method that sends CMD_SYNC (the firmware
  never reads it), `jump_to_app`, argument parsing and the main
  get_info / erase / write_flash / jump_to_app chain.
- Flasher.Erase carries no contract of its own. What erase returns is stated
  against the device's reply by `Link.HostErase`.
- Link.HostPageStored: the multi-page write is stated page by page, not as
  one lemma over the whole image. `Link.OtherPageKept` says that each page's
  packet leaves every other page alone.

## Findings

| source | as written | input that shows it | evidently intended | confidence | as-written member | corrected member |
|---|---|---|---|---|---|---|
| Tools/gboot_flasher.py:12 | The host sends 0x50 for GET_INFO, but the firmware's GET_INFO opcode is 0x01 (Core/Inc/gboot_protocol.h:11). The firmware answers 0x50 with one NACK, so get_info always reports that no device is connected, and the main flow never erases or flashes | get_info against any device state: the one-byte frame [0x50] | The host sends 0x01, gets ACK then the version 1, 2, and get_info returns True | not executed | Link.GetInfoAsWritten | Link.GetInfoCorrected |
