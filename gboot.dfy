/** The bootloader session of Core/Src/gboot.c: the GBoot_t instance with its
    receive and transmit buffers and its flags, and the methods that update
    them. The hardware the methods drive is the value `hw` (module Hal); each
    method is proved to change it exactly as the reference functions of
    module Command say, so the properties proved there hold of the session. */
module GBoot {
  import opened Protocol
  import opened Hal
  import Bytes
  import Command

  class Session {
    const rxBuffer: array<byte>    // rx_buffer, the DMA reception target
    const txBuffer: array<byte>    // tx_buffer, the DMA transmission source
    var cmdReceived: bool          // cmd_received, set by the reception interrupt
    var rxLen: nat                 // rx_len, a uint16_t
    var isBusy: bool               // is_busy, cleared at creation and never used
    var hw: Machine                // the hardware the session drives

    ghost predicate Valid()
      reads this`rxLen
    {
      && rxBuffer.Length == RX_BUF_SIZE
      && txBuffer.Length == TX_BUF_SIZE
      && rxBuffer != txBuffer
      && rxLen < 0x1_0000
    }

    /** The frame ProcessCommand works on: the first rx_len received bytes. No
        command examines a byte at or past index 1029, so a length the HAL
        reports beyond the buffer's end reads as the whole buffer. */
    function Frame(): (frame: seq<byte>)
      reads this`rxLen, rxBuffer
      requires Valid()
      ensures |frame| <= RX_BUF_SIZE
      ensures |frame| < 1 <==> rxLen < 1
      ensures |frame| < WRITE_FRAME_SIZE <==> rxLen < WRITE_FRAME_SIZE
    {
      rxBuffer[..if rxLen <= RX_BUF_SIZE then rxLen else RX_BUF_SIZE]
    }

    /** GBoot_Create: flags cleared, receive buffer zeroed; no hardware call. */
    constructor Create(hw0: Machine)
      ensures Valid() && fresh(rxBuffer) && fresh(txBuffer)
      ensures !cmdReceived && !isBusy && rxLen == 0
      ensures forall i | 0 <= i < RX_BUF_SIZE :: rxBuffer[i] == 0
      ensures hw == hw0
    {
      rxBuffer := new byte[RX_BUF_SIZE](_ => 0);
      txBuffer := new byte[TX_BUF_SIZE](_ => 0);
      cmdReceived := false;
      isBusy := false;
      rxLen := 0;
      hw := hw0;
    }

    /** GBoot_Init: without the magic key in DR1, try the application first;
        if control comes back, clear DR1 and arm reception. */
    method Init()
      requires Valid() && !hw.halted
      modifies this`hw
      ensures hw == Command.Startup(old(hw))
    {
      if hw.backup != MAGIC_KEY {
        JumpToApp();
        if hw.halted {
          return;
        }
      }
      hw := WriteBackup(hw, 0);
      hw := ArmReception(hw);
    }

    /** GBoot_OnRxEvent, called from the reception interrupt with the number
        of bytes received. */
    method OnRxEvent(size: nat)
      requires Valid() && size < 0x1_0000
      modifies this`rxLen, this`cmdReceived
      ensures Valid() && rxLen == size && cmdReceived
    {
      rxLen := size;
      cmdReceived := true;
    }

    /** One pass of the GBoot_Run loop: a pending frame is processed, then the
        flag is cleared and reception re-armed; a command that hands control
        away (reset, application boot) never comes back to do either. */
    method RunStep()
      requires Valid()
      modifies this`hw, this`cmdReceived, txBuffer
      ensures Valid()
      ensures !old(cmdReceived) ==> hw == old(hw) && !cmdReceived
      ensures old(cmdReceived) ==>
                var r := Command.Dispatch(old(Frame()), old(hw));
                if r.halted then hw == r && cmdReceived
                else hw == ArmReception(r) && !cmdReceived
    {
      if cmdReceived {
        ProcessCommand();
        if hw.halted {
          return;
        }
        cmdReceived := false;
        hw := ArmReception(hw);
      }
    }

    /** GBoot_ProcessCommand: dispatch on the opcode in byte 0. */
    method ProcessCommand()
      requires Valid()
      modifies this`hw, txBuffer
      ensures hw == Command.Dispatch(Frame(), old(hw))
    {
      if rxLen < 1 {
        return;
      }
      var cmd := rxBuffer[0];
      if cmd == CMD_GET_INFO {
        SendAck();
        SendResponse(VERSION);
      } else if cmd == CMD_ERASE_APP {
        hw := Unlock(hw);
        var erased := Erase(hw, APP_START_ADDRESS, ERASE_PAGE_COUNT);
        hw := erased.0;
        if erased.1 {
          SendAck();
        } else {
          SendNack();
        }
        hw := Lock(hw);
      } else if cmd == CMD_WRITE_PAGE {
        WritePage();
      } else if cmd == CMD_RESET_DEV {
        SendAck();
        hw := Reset(hw);
      } else if cmd == CMD_JUMP_APP {
        SendAck();
        JumpToApp();
      } else {
        SendNack();
      }
    }

    /** The WRITE_PAGE case: length and address checks, then the word loop. */
    method WritePage()
      requires Valid() && rxLen >= 1
      modifies this`hw, txBuffer
      ensures hw == Command.WritePage(Frame(), old(hw))
    {
      if rxLen < WRITE_FRAME_SIZE {
        SendNack();
        return;
      }
      var addr := Bytes.Le32(rxBuffer[1], rxBuffer[2], rxBuffer[3], rxBuffer[4]);
      assert addr == Command.FrameAddress(Frame());
      if addr < APP_START_ADDRESS {
        SendNack();
        return;
      }
      hw := Unlock(hw);
      assert Command.FramePage(Frame()) == rxBuffer[5..WRITE_FRAME_SIZE];
      var status := ProgramPage(addr);
      hw := Lock(hw);
      if status == 0 {
        SendAck();
      } else {
        SendNack();
      }
    }

    /** The word loop of WRITE_PAGE: word after word from the frame's data to
        addr + i (a uint32_t sum), stopping at the first word the controller
        rejects; status 0 means every word was accepted. */
    method ProgramPage(addr: Word) returns (status: nat)
      requires Valid() && rxLen >= WRITE_FRAME_SIZE
      modifies this`hw
      ensures (hw, status == 0) == Command.ProgramWords(old(hw), addr, rxBuffer[5..WRITE_FRAME_SIZE], 0)
      ensures status == 0 || status == 1
    {
      ghost var page := rxBuffer[5..WRITE_FRAME_SIZE];
      ghost var outcome := Command.ProgramWords(hw, addr, page, 0);
      ghost var k := 0;
      var i := 0;
      status := 0;
      while i < FLASH_PAGE_SIZE
        invariant 0 <= k <= PAGE_WORDS && i == 4 * k
        invariant status == 0
        invariant Command.ProgramWords(hw, addr, page, k) == outcome
        decreases FLASH_PAGE_SIZE - i
      {
        var val := DataWord(i, k);
        var programmed := Program(hw, (addr + i) % WORD_MODULUS, val);
        Command.ProgramWordsStep(hw, addr, page, k);
        hw := programmed.0;
        if !programmed.1 {
          status := 1;
          break;
        }
        i := i + 4;
        k := k + 1;
      }
    }

    /** The little-endian word of data bytes i .. i+3 of a WRITE_PAGE frame
        (rx_buffer[5 + i] onwards). */
    method DataWord(i: nat, ghost k: nat) returns (val: Word)
      requires Valid() && k < PAGE_WORDS && i == 4 * k
      ensures val == Command.PageWord(rxBuffer[5..WRITE_FRAME_SIZE], k)
    {
      val := Bytes.Le32(rxBuffer[5 + i], rxBuffer[5 + i + 1], rxBuffer[5 + i + 2], rxBuffer[5 + i + 3]);
      ghost var page := rxBuffer[5..WRITE_FRAME_SIZE];
      assert page[i] == rxBuffer[5 + i] && page[i + 1] == rxBuffer[5 + i + 1];
      assert page[i + 2] == rxBuffer[5 + i + 2] && page[i + 3] == rxBuffer[5 + i + 3];
    }

    /** GBoot_SendResponse: at most TX_BUF_SIZE bytes are copied into the
        transmit buffer and handed to the UART in one transmission. */
    method SendResponse(data: seq<byte>)
      requires Valid() && |data| < 0x1_0000
      modifies this`hw, txBuffer
      ensures txBuffer[..|Command.Truncate(data)|] == Command.Truncate(data)
      ensures hw == Send(old(hw), txBuffer[..|Command.Truncate(data)|])
    {
      var len := |data|;
      if len > TX_BUF_SIZE {
        len := TX_BUF_SIZE;
      }
      var j := 0;
      while j < len
        invariant 0 <= j <= len <= TX_BUF_SIZE
        invariant txBuffer[..j] == data[..j]
        invariant hw == old(hw)
      {
        txBuffer[j] := data[j];
        j := j + 1;
      }
      hw := Send(hw, txBuffer[..len]);
    }

    /** GBoot_SendAck. */
    method SendAck()
      requires Valid()
      modifies this`hw, txBuffer
      ensures hw == Command.SendAck(old(hw))
    {
      SendResponse([ACK]);
    }

    /** GBoot_SendNack. */
    method SendNack()
      requires Valid()
      modifies this`hw, txBuffer
      ensures hw == Command.SendNack(old(hw))
    {
      SendResponse([NACK]);
    }

    /** GBoot_JumpToApp: check the application's initial stack pointer; if it
        is plausible, tear down, load the stack pointer (read again from the
        vector table) and branch to the reset handler. */
    method JumpToApp()
      requires Valid()
      modifies this`hw
      ensures hw == Command.JumpToApp(old(hw))
    {
      if Command.StackPointerPlausible(ReadWord(hw, APP_START_ADDRESS)) {
        var jumpAddress := ReadWord(hw, APP_START_ADDRESS + 4);
        hw := PeripheralDeInit(hw, Uart);
        hw := PeripheralDeInit(hw, DmaRx);
        hw := PeripheralDeInit(hw, DmaTx);
        hw := PeripheralDeInit(hw, Rcc);
        hw := PeripheralDeInit(hw, HalCore);
        hw := WriteSysTick(hw, Ctrl, 0);
        hw := WriteSysTick(hw, Load, 0);
        hw := WriteSysTick(hw, Val, 0);
        hw := SetStackPointer(hw, ReadWord(hw, APP_START_ADDRESS));
        hw := BranchTo(hw, jumpAddress);
      }
    }
  }
}
