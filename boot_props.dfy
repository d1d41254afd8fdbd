/** Properties of startup (GBoot_Init) and of the application-boot check
    (GBoot_JumpToApp), and of how the address arithmetic of WRITE_PAGE
    behaves at the top of the 32-bit address space. */
module BootProps {
  import opened Protocol
  import opened Hal
  import opened Command
  import CommandProps

  // ---------------------------------------------------------------------
  // Startup

  /** With the magic key in DR1 the bootloader stays: DR1 is cleared and
      reception is armed, and nothing else happens. */
  lemma StartupWithMagic(m: Machine)
    requires !m.halted && m.backup == MAGIC_KEY
    ensures Startup(m) == m.(backup := 0, log := m.log + [ArmReceive(RX_BUF_SIZE)])
  {
  }

  /** Without the key and with a plausible application, control passes to the
      application before DR1 is written, so DR1 keeps its value. */
  lemma StartupJumps(m: Machine)
    requires !m.halted && m.backup != MAGIC_KEY
    requires StackPointerPlausible(ReadWord(m, APP_START_ADDRESS))
    ensures var sp := ReadWord(m, APP_START_ADDRESS);
            Startup(m) == m.(log := m.log + CommandProps.Handoff(sp, ReadWord(m, APP_START_ADDRESS + 4)),
                             halted := true)
  {
    CommandProps.JumpOutcome(m);
  }

  /** Without the key and without a plausible application the bootloader stays,
      exactly as if the key had been present. */
  lemma StartupStays(m: Machine)
    requires !m.halted && m.backup != MAGIC_KEY
    requires !StackPointerPlausible(ReadWord(m, APP_START_ADDRESS))
    ensures Startup(m) == m.(backup := 0, log := m.log + [ArmReceive(RX_BUF_SIZE)])
  {
    CommandProps.JumpOutcome(m);
  }

  /** The bootloader keeps control after startup exactly when the key was
      present or the application is implausible; then DR1 reads 0, so the
      request is consumed once. */
  lemma StartupStaysIff(m: Machine)
    requires !m.halted
    ensures var r := Startup(m);
            && (!r.halted <==> m.backup == MAGIC_KEY || !StackPointerPlausible(ReadWord(m, APP_START_ADDRESS)))
            && (!r.halted ==> r.backup == 0 && r.locked == m.locked && r.flash == m.flash)
  {
    if m.backup == MAGIC_KEY {
      StartupWithMagic(m);
    } else if StackPointerPlausible(ReadWord(m, APP_START_ADDRESS)) {
      StartupJumps(m);
    } else {
      StartupStays(m);
    }
  }

  // ---------------------------------------------------------------------
  // The stack-pointer check

  /** Every address of the first 128 KiB of SRAM is accepted. */
  lemma SramStackAccepted(sp: bv32)
    requires 0x2000_0000 <= sp < 0x2002_0000
    ensures sp & 0x2FFE_0000 == 0x2000_0000
  {
  }

  /** The word of erased flash is rejected: an erased application region
      never gets control. */
  lemma ErasedWordRejected()
    ensures !StackPointerPlausible(ERASED_WORD)
  {
  }

  /** The check is coarse: for every value, its outcome does not depend on
      bits 28, 30 and 31 (clearing them, the AND with 0x2FFFFFFF, never
      changes it), so values outside SRAM such as 0x30000000 and 0xE0000000
      pass, while the first address past 128 KiB of SRAM (0x20020000) does not. */
  lemma CoarseCheck(sp: bv32)
    ensures (sp & 0x2FFE_0000 == 0x2000_0000) <==> ((sp & 0x2FFF_FFFF) & 0x2FFE_0000 == 0x2000_0000)
  {
  }

  /** Sample values of the coarse check, inside and outside SRAM. */
  lemma CoarseSamples()
    ensures StackPointerPlausible(0x3000_0000)
    ensures StackPointerPlausible(0xE000_0000)
    ensures StackPointerPlausible(0x2001_FFFC)
    ensures !StackPointerPlausible(0x2002_0000)
  {
  }

  /** After a successful ERASE_APP the vector table reads erased, so a
      following JUMP_APP only acknowledges and the bootloader keeps control. */
  lemma JumpAfterErase(m: Machine)
    requires m.eraseSucceeds
    ensures var r := EraseApp(m);
            JumpApp(r) == r.(log := r.log + [Transmit([ACK])])
  {
    var r := EraseApp(m);
    assert APP_START_ADDRESS !in r.flash;
    ErasedWordRejected();
  }

  // ---------------------------------------------------------------------
  // Address arithmetic

  /** While the page fits below 2^32, word j goes to addr + 4j. */
  lemma WordAddressNoWrap(addr: Word, j: nat)
    requires j < PAGE_WORDS && addr + FLASH_PAGE_SIZE <= WORD_MODULUS
    ensures WordAddress(addr, j) == addr + 4 * j
  {
  }

  /** The address check only bounds the start of the page from below: a page
      sent for 0xFFFFFF00 passes it, and its word 64 is programmed at address 0. */
  lemma WriteWrapsAround()
    ensures 0xFFFF_FF00 >= APP_START_ADDRESS
    ensures WordAddress(0xFFFF_FF00, 64) == 0
  {
  }
}
