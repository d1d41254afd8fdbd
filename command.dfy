/** The bootloader's command handling (Core/Src/gboot.c) as functions from
    the received frame and the hardware state to the new hardware state.
    The session class in module GBoot is proved to behave exactly like these
    functions; module CommandProps proves what they promise. */
module Command {
  import opened Protocol
  import opened Hal
  import Bytes

  /** GBoot_SendResponse copies at most TX_BUF_SIZE bytes into the transmit buffer. */
  function Truncate(data: seq<byte>): (r: seq<byte>)
    ensures r <= data
    ensures |r| <= TX_BUF_SIZE
    ensures |data| <= TX_BUF_SIZE ==> r == data
    ensures |data| > TX_BUF_SIZE ==> |r| == TX_BUF_SIZE
  {
    if |data| > TX_BUF_SIZE then data[..TX_BUF_SIZE] else data
  }

  /** GBoot_SendResponse: one transmission of the (truncated) response. */
  function Respond(m: Machine, data: seq<byte>): Machine
  {
    Send(m, Truncate(data))
  }

  function SendAck(m: Machine): Machine
  {
    Respond(m, [ACK])
  }

  function SendNack(m: Machine): Machine
  {
    Respond(m, [NACK])
  }

  /** The stack-pointer sanity check of GBoot_JumpToApp: the first word of the
      application's vector table, masked with 0x2FFE0000, must be 0x20000000. */
  predicate StackPointerPlausible(sp: Word)
  {
    (sp as bv32) & 0x2FFE_0000 == 0x2000_0000
  }

  /** De-initialisation before the handoff: UART, its two DMA channels, the
      clock tree, the HAL, then the SysTick control, reload and counter registers. */
  function TearDown(m: Machine): Machine
  {
    var m1 := PeripheralDeInit(m, Uart);
    var m2 := PeripheralDeInit(m1, DmaRx);
    var m3 := PeripheralDeInit(m2, DmaTx);
    var m4 := PeripheralDeInit(m3, Rcc);
    var m5 := PeripheralDeInit(m4, HalCore);
    var m6 := WriteSysTick(m5, Ctrl, 0);
    var m7 := WriteSysTick(m6, Load, 0);
    WriteSysTick(m7, Val, 0)
  }

  /** GBoot_JumpToApp: hands control to the application when its initial stack
      pointer is plausible; otherwise does nothing and returns. */
  function JumpToApp(m: Machine): Machine
  {
    var sp := ReadWord(m, APP_START_ADDRESS);
    if !StackPointerPlausible(sp) then m
    else
      var pc := ReadWord(m, APP_START_ADDRESS + 4);
      BranchTo(SetStackPointer(TearDown(m), sp), pc)
  }

  /** GBoot_Init: without the magic key in DR1 an application boot is
      attempted first; if control comes back, DR1 is cleared and reception
      is armed. */
  function Startup(m: Machine): Machine
    requires !m.halted
  {
    var m1 := if m.backup != MAGIC_KEY then JumpToApp(m) else m;
    if m1.halted then m1 else ArmReception(WriteBackup(m1, 0))
  }

  /** Address of word j of a page programmed at addr: the uint32_t sum addr + 4*j. */
  function WordAddress(addr: Word, j: nat): Word
  {
    (addr + 4 * j) % WORD_MODULUS
  }

  /** Word j of a page, assembled little-endian from bytes 4j .. 4j+3. */
  function PageWord(page: seq<byte>, j: nat): Word
    requires |page| == FLASH_PAGE_SIZE && j < PAGE_WORDS
  {
    Bytes.Le32At(page, 4 * j)
  }

  /** The WRITE_PAGE loop from word k on: programs word after word and stops
      at the first one the controller rejects, reporting whether all succeeded. */
  function ProgramWords(m: Machine, addr: Word, page: seq<byte>, k: nat): (Machine, bool)
    requires |page| == FLASH_PAGE_SIZE && k <= PAGE_WORDS
    decreases PAGE_WORDS - k
  {
    if k == PAGE_WORDS then (m, true)
    else
      var (m1, ok) := Program(m, WordAddress(addr, k), PageWord(page, k));
      if !ok then (m1, false) else ProgramWords(m1, addr, page, k + 1)
  }

  /** One turn of the WRITE_PAGE loop, as the loop in GBoot.Session.ProgramPage takes it. */
  lemma ProgramWordsStep(m: Machine, addr: Word, page: seq<byte>, k: nat)
    requires |page| == FLASH_PAGE_SIZE && k < PAGE_WORDS
    ensures var p := Program(m, WordAddress(addr, k), PageWord(page, k));
            ProgramWords(m, addr, page, k) == if p.1 then ProgramWords(p.0, addr, page, k + 1) else (p.0, false)
  {
  }

  /** The destination address of a WRITE_PAGE frame (bytes 1 to 4, little-endian). */
  function FrameAddress(frame: seq<byte>): Word
    requires |frame| >= 5
  {
    Bytes.Le32At(frame, 1)
  }

  /** The page data of a WRITE_PAGE frame. */
  function FramePage(frame: seq<byte>): (page: seq<byte>)
    requires |frame| >= WRITE_FRAME_SIZE
    ensures |page| == FLASH_PAGE_SIZE
  {
    frame[5..WRITE_FRAME_SIZE]
  }

  /** GET_INFO: ACK followed by the version bytes. */
  function GetInfo(m: Machine): Machine
  {
    Respond(SendAck(m), VERSION)
  }

  /** ERASE_APP: unlock, erase the application pages, answer, lock. */
  function EraseApp(m: Machine): Machine
  {
    var (m2, ok) := Erase(Unlock(m), APP_START_ADDRESS, ERASE_PAGE_COUNT);
    Lock(if ok then SendAck(m2) else SendNack(m2))
  }

  /** The end of WRITE_PAGE once the word loop has run: lock, then ACK when
      every word was accepted and NACK otherwise. */
  function Conclude(programmed: (Machine, bool)): Machine
  {
    var m3 := Lock(programmed.0);
    if programmed.1 then SendAck(m3) else SendNack(m3)
  }

  /** WRITE_PAGE: length check, address check, unlock, word loop, lock, answer. */
  function WritePage(frame: seq<byte>, m: Machine): Machine
  {
    if |frame| < WRITE_FRAME_SIZE then SendNack(m)
    else if FrameAddress(frame) < APP_START_ADDRESS then SendNack(m)
    else Conclude(ProgramWords(Unlock(m), FrameAddress(frame), FramePage(frame), 0))
  }

  /** RESET_DEV: ACK, then a system reset. */
  function ResetDevice(m: Machine): Machine
  {
    Reset(SendAck(m))
  }

  /** JUMP_APP: ACK, then an attempted application boot. */
  function JumpApp(m: Machine): Machine
  {
    JumpToApp(SendAck(m))
  }

  /** GBoot_ProcessCommand on the frame rx_buffer[..rx_len]: the opcode is byte 0. */
  function Dispatch(frame: seq<byte>, m: Machine): Machine
  {
    if |frame| < 1 then m
    else if frame[0] == CMD_GET_INFO then GetInfo(m)
    else if frame[0] == CMD_ERASE_APP then EraseApp(m)
    else if frame[0] == CMD_WRITE_PAGE then WritePage(frame, m)
    else if frame[0] == CMD_RESET_DEV then ResetDevice(m)
    else if frame[0] == CMD_JUMP_APP then JumpApp(m)
    else SendNack(m)
  }
}
