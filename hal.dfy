/** The hardware abstraction layer the bootloader calls, as a value: the
    flash array, the flash controller's lock, backup register DR1, and the
    ordered log of the HAL calls the bootloader's commands and startup
    check make (the clock and backup-domain enables of GBoot_Init are not
    logged). Controller outcomes
    the bootloader cannot predict (whether an erase or a word program
    succeeds) are an oracle fixed in the machine value. */
module Hal {
  import opened Protocol

  datatype Peripheral = Uart | DmaRx | DmaTx | Rcc | HalCore

  datatype SysTickRegister = Ctrl | Load | Val

  /** One HAL call, in the order the bootloader makes them. */
  datatype Event =
    | ArmReceive(capacity: nat)                   // HAL_UARTEx_ReceiveToIdle_DMA
    | Transmit(bytes: seq<byte>)                  // HAL_UART_Transmit_DMA
    | FlashUnlock                                 // HAL_FLASH_Unlock
    | FlashLock                                   // HAL_FLASH_Lock
    | FlashErase(start: Word, pages: nat)         // HAL_FLASHEx_Erase (page erase)
    | FlashProgram(address: Word, value: Word)    // HAL_FLASH_Program (one word)
    | SystemReset                                 // NVIC_SystemReset
    | DeInit(peripheral: Peripheral)              // HAL_*_DeInit
    | SysTickWrite(register: SysTickRegister, value: Word)
    | SetMsp(sp: Word)                            // __set_MSP
    | Branch(pc: Word)                            // call through the reset vector

  datatype Machine = Machine(
    flash: map<Word, Word>,      // programmed words by address; absent means erased
    locked: bool,                // flash controller lock
    backup: Word,                // backup register DR1
    halted: bool,                // control has left the bootloader (reset or jump)
    log: seq<Event>,
    eraseSucceeds: bool,         // oracle: what HAL_FLASHEx_Erase reports
    programFails: set<Word>)     // oracle: addresses whose HAL_FLASH_Program reports an error

  /** The word at address a. */
  function ReadWord(m: Machine, a: Word): Word
  {
    if a in m.flash then m.flash[a] else ERASED_WORD
  }

  /** Appends one call to the log. */
  function Call(m: Machine, e: Event): Machine
  {
    m.(log := m.log + [e])
  }

  function ArmReception(m: Machine): Machine
  {
    Call(m, ArmReceive(RX_BUF_SIZE))
  }

  function Send(m: Machine, bytes: seq<byte>): Machine
  {
    Call(m, Transmit(bytes))
  }

  function Unlock(m: Machine): Machine
  {
    Call(m, FlashUnlock).(locked := false)
  }

  function Lock(m: Machine): Machine
  {
    Call(m, FlashLock).(locked := true)
  }

  /** Erases `pages` pages from `start`; reports the oracle's verdict. A failed
      erase is taken to leave the flash as it was. */
  function Erase(m: Machine, start: Word, pages: nat): (Machine, bool)
  {
    var m1 := Call(m, FlashErase(start, pages));
    if m.eraseSucceeds then
      (m1.(flash := map a | a in m.flash && !(start <= a < start + pages * FLASH_PAGE_SIZE) :: m.flash[a]), true)
    else
      (m1, false)
  }

  /** Programs one word; reports the oracle's verdict, and writes the word only on success. */
  function Program(m: Machine, a: Word, v: Word): (Machine, bool)
  {
    var m1 := Call(m, FlashProgram(a, v));
    if a in m.programFails then (m1, false) else (m1.(flash := m.flash[a := v]), true)
  }

  function Reset(m: Machine): Machine
  {
    Call(m, SystemReset).(halted := true)
  }

  function PeripheralDeInit(m: Machine, p: Peripheral): Machine
  {
    Call(m, DeInit(p))
  }

  function WriteSysTick(m: Machine, reg: SysTickRegister, v: Word): Machine
  {
    Call(m, SysTickWrite(reg, v))
  }

  function SetStackPointer(m: Machine, sp: Word): Machine
  {
    Call(m, SetMsp(sp))
  }

  /** Calls the application's reset handler; it never returns. */
  function BranchTo(m: Machine, pc: Word): Machine
  {
    Call(m, Branch(pc)).(halted := true)
  }

  function WriteBackup(m: Machine, v: Word): Machine
  {
    m.(backup := v)
  }
}
