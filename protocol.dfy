/** Protocol constants shared by the bootloader firmware and the host flasher,
    and the machine integer types they are carried in. */
module Protocol {
  /** An unsigned 8-bit value (uint8_t, one element of a Python bytes object). */
  type byte = x: int | 0 <= x < 0x100

  /** An unsigned 32-bit value (uint32_t). */
  type Word = x: int | 0 <= x < 0x1_0000_0000

  const WORD_MODULUS: int := 0x1_0000_0000

  // Response and framing bytes.
  const CMD_SYNC: byte := 0x5A
  const ACK: byte := 0x79
  const NACK: byte := 0x1F

  // Command opcodes, as the firmware's protocol header defines them.
  const CMD_GET_INFO: byte := 0x01
  const CMD_ERASE_APP: byte := 0x02
  const CMD_WRITE_PAGE: byte := 0x03
  const CMD_RESET_DEV: byte := 0x04
  const CMD_JUMP_APP: byte := 0x05

  /** Value of backup register DR1 that asks the bootloader to stay resident. */
  const MAGIC_KEY: Word := 0x5AA5_DEAD

  /** First address of the application's flash region (its vector table). */
  const APP_START_ADDRESS: Word := 0x0800_4000

  /** Flash page size; supplied by the device HAL (1 KiB on a medium-density STM32F103). */
  const FLASH_PAGE_SIZE: nat := 1024

  /** Words in one page (FLASH_PAGE_SIZE / 4): the WRITE_PAGE loop programs
      one word per iteration. */
  const PAGE_WORDS: nat := 256

  /** Pages erased by ERASE_APP, starting at APP_START_ADDRESS. */
  const ERASE_PAGE_COUNT: nat := 48

  /** Smallest WRITE_PAGE frame: opcode, 4 address bytes, one page of data. */
  const WRITE_FRAME_SIZE: nat := FLASH_PAGE_SIZE + 5

  /** Capacities of the session's receive and transmit buffers. */
  const RX_BUF_SIZE: nat := 2100
  const TX_BUF_SIZE: nat := 128

  /** Version payload that follows the ACK of GET_INFO (v1.2). */
  const VERSION: seq<byte> := [0x01, 0x02]

  /** What an erased flash word reads as. */
  const ERASED_WORD: Word := 0xFFFF_FFFF
}
