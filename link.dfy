/** The host and the bootloader together: the bytes write_flash sends for a
    page pass the firmware's checks and end up in flash, the replies the
    firmware sends decide what the host reports, and the GET_INFO opcode the
    host sends disagrees with the one the firmware expects. */
module Link {
  import opened Protocol
  import opened Hal
  import Bytes
  import Command
  import CommandProps
  import opened Flasher
  import FlasherProps
  import BootProps

  // ---------------------------------------------------------------------
  // What the host reads

  /** The bytes one HAL call hands to the UART for transmission. */
  function Sent(e: Event): seq<byte>
  {
    if e.Transmit? then e.bytes else []
  }

  /** The bytes the device handed to the UART, in order: the payloads of the
      Transmit calls in a trace. */
  function Transmitted(t: seq<Event>): seq<byte>
  {
    if |t| == 0 then [] else Transmitted(t[..|t| - 1]) + Sent(t[|t| - 1])
  }

  lemma {:induction false} TransmittedAppend(a: seq<Event>, b: seq<Event>)
    ensures Transmitted(a + b) == Transmitted(a) + Transmitted(b)
    decreases |b|
  {
    if |b| > 0 {
      var b' := b[..|b| - 1];
      assert (a + b)[..|a + b| - 1] == a + b';
      TransmittedAppend(a, b');
    } else {
      assert a + b == a;
    }
  }

  lemma TransmittedCons(e: Event, t: seq<Event>)
    ensures Transmitted([e] + t) == Sent(e) + Transmitted(t)
  {
    TransmittedAppend([e], t);
    assert [e][..0] == [];
  }

  /** The word loop transmits nothing. */
  lemma {:induction false} ProgramRunSilent(addr: Word, page: seq<byte>, lo: nat, hi: nat)
    requires |page| == FLASH_PAGE_SIZE && lo <= hi <= PAGE_WORDS
    ensures Transmitted(CommandProps.ProgramRun(addr, page, lo, hi)) == []
    decreases hi - lo
  {
    if lo < hi {
      var e := FlashProgram(Command.WordAddress(addr, lo), Command.PageWord(page, lo));
      TransmittedCons(e, CommandProps.ProgramRun(addr, page, lo + 1, hi));
      ProgramRunSilent(addr, page, lo + 1, hi);
    }
  }

  /** What the device sent while going from m to r. */
  function Reply(m: Machine, r: Machine): seq<byte>
    requires |m.log| <= |r.log|
  {
    Transmitted(r.log[|m.log|..])
  }

  /** get_info on the bytes the device sent: read(1) takes the first byte as
      the ACK, read(2) the next two (fewer if the device sent fewer). */
  function GetInfoOnWire(stream: seq<byte>): Outcome
  {
    var a := if |stream| < 1 then |stream| else 1;
    var b := if |stream| < 3 then |stream| else 3;
    GetInfo(stream[..a], stream[a..b])
  }

  // ---------------------------------------------------------------------
  // WRITE_PAGE from the host

  /** Every packet write_flash sends passes the firmware's checks, as long
      as the page lies below 2^32: it is long enough, its address decodes to
      the host's page address (the little-endian round trip) and is not below
      APP_START_ADDRESS, and its page data is the host's padded chunk. */
  lemma HostPacketFields(data: seq<byte>, i: nat)
    requires i < NumPages(|data|) && PageAddress(i) < WORD_MODULUS
    ensures var p := Packet(data, i);
            && |p| == WRITE_FRAME_SIZE && p[0] == CMD_WRITE_PAGE
            && Command.FrameAddress(p) == PageAddress(i) >= APP_START_ADDRESS
            && Command.FramePage(p) == Chunk(data, i)
  {
    var p := Packet(data, i);
    FlasherProps.PacketLayout(data, i);
    Bytes.DecodeEncode(PageAddress(i));
    assert Bytes.Le32At(p, 1) == Bytes.Le32At(p[1..5], 0);
  }

  /** So the firmware runs the word loop on the host's chunk at the host's
      page address. */
  lemma HostPacketAccepted(data: seq<byte>, i: nat, m: Machine)
    requires i < NumPages(|data|) && PageAddress(i) < WORD_MODULUS
    ensures Command.Dispatch(Packet(data, i), m)
              == Command.Conclude(Command.ProgramWords(Unlock(m), PageAddress(i), Chunk(data, i), 0))
  {
    HostPacketFields(data, i);
    CommandProps.AcceptedFrame(Packet(data, i), m);
  }

  /** An accepted WRITE_PAGE frame hands exactly one byte to the UART: ACK
      when every word was programmed, NACK otherwise. */
  lemma AcceptedReply(frame: seq<byte>, m: Machine)
    requires |frame| >= WRITE_FRAME_SIZE && frame[0] == CMD_WRITE_PAGE
    requires Command.FrameAddress(frame) >= APP_START_ADDRESS
    ensures var r := Command.Dispatch(frame, m);
            var f := CommandProps.FirstFailure(m.programFails, Command.FrameAddress(frame), 0);
            |m.log| <= |r.log| && Reply(m, r) == [if f == PAGE_WORDS then ACK else NACK]
  {
    var addr := Command.FrameAddress(frame);
    var page := Command.FramePage(frame);
    CommandProps.WritePageAccepted(frame, m);
    var f := CommandProps.FirstFailure(m.programFails, addr, 0);
    ProgramRunSilent(addr, page, 0, CommandProps.Attempted(f));
    WriteTail(m.log, CommandProps.ProgramRun(addr, page, 0, CommandProps.Attempted(f)), if f == PAGE_WORDS then ACK else NACK);
  }

  /** The bytes sent by a silent run between an unlock and a lock, followed by
      a one-byte answer, are that answer. */
  lemma WriteTail(before: seq<Event>, run: seq<Event>, x: byte)
    requires Transmitted(run) == []
    ensures var t := before + [FlashUnlock] + run + [FlashLock] + [Transmit([x])];
            |before| <= |t| && Transmitted(t[|before|..]) == [x]
  {
    var t := before + [FlashUnlock] + run + [FlashLock] + [Transmit([x])];
    assert t[|before|..] == [FlashUnlock] + (run + ([FlashLock] + ([Transmit([x])] + [])));
    TransmittedCons(FlashUnlock, run + ([FlashLock] + ([Transmit([x])] + [])));
    TransmittedAppend(run, [FlashLock] + ([Transmit([x])] + []));
    TransmittedCons(FlashLock, [Transmit([x])] + []);
    TransmittedCons(Transmit([x]), []);
  }

  /** The device answers a host packet with the single byte ACK exactly when
      every word of the page was programmed, and NACK otherwise; so the host
      goes on to the next page exactly when the page was written whole. */
  lemma HostPageReply(data: seq<byte>, i: nat, m: Machine)
    requires i < NumPages(|data|) && PageAddress(i) < WORD_MODULUS
    ensures var r := Command.Dispatch(Packet(data, i), m);
            && |m.log| <= |r.log| && |Reply(m, r)| == 1
            && (Acked(Reply(m, r)) <==>
                  forall j | 0 <= j < PAGE_WORDS :: Command.WordAddress(PageAddress(i), j) !in m.programFails)
  {
    HostPacketFields(data, i);
    AcceptedReply(Packet(data, i), m);
    CommandProps.NoFailureIff(m.programFails, PageAddress(i));
  }

  /** An accepted WRITE_PAGE frame whose words all program stores its data:
      word j, read back from the address the firmware programmed it at, has
      the frame's bytes 4j .. 4j+3 as its little-endian bytes. */
  lemma FrameStored(frame: seq<byte>, m: Machine)
    requires |frame| >= WRITE_FRAME_SIZE && frame[0] == CMD_WRITE_PAGE
    requires Command.FrameAddress(frame) >= APP_START_ADDRESS
    requires forall j | 0 <= j < PAGE_WORDS :: Command.WordAddress(Command.FrameAddress(frame), j) !in m.programFails
    ensures var r := Command.Dispatch(frame, m);
            var addr := Command.FrameAddress(frame);
            forall j | 0 <= j < PAGE_WORDS
              :: Bytes.LeBytes(ReadWord(r, Command.WordAddress(addr, j))) == Command.FramePage(frame)[4 * j .. 4 * j + 4]
  {
    CommandProps.NoFailureIff(m.programFails, Command.FrameAddress(frame));
    CommandProps.WritePageReadback(frame, m);
    WordsAsBytes(Command.Dispatch(frame, m), Command.FrameAddress(frame), Command.FramePage(frame));
  }

  /** Words that read back as a page's little-endian words read back as the
      page's bytes. */
  lemma WordsAsBytes(r: Machine, addr: Word, page: seq<byte>)
    requires |page| == FLASH_PAGE_SIZE
    requires forall j | 0 <= j < PAGE_WORDS :: ReadWord(r, Command.WordAddress(addr, j)) == Command.PageWord(page, j)
    ensures forall j | 0 <= j < PAGE_WORDS
              :: Bytes.LeBytes(ReadWord(r, Command.WordAddress(addr, j))) == page[4 * j .. 4 * j + 4]
  {
    forall j | 0 <= j < PAGE_WORDS
      ensures Bytes.LeBytes(ReadWord(r, Command.WordAddress(addr, j))) == page[4 * j .. 4 * j + 4]
    {
      Bytes.EncodeDecode(page, 4 * j);
    }
  }

  /** End to end for one page: when none of its words fails to program, the
      packet write_flash sends for page i leaves the page's padded chunk in
      flash, four bytes per word, at the addresses the firmware computes from
      the host's page address (PageAddress(i) + 4j while the page stays below
      2^32). */
  lemma HostPageStored(data: seq<byte>, i: nat, m: Machine)
    requires i < NumPages(|data|) && PageAddress(i) < WORD_MODULUS
    requires forall j | 0 <= j < PAGE_WORDS :: Command.WordAddress(PageAddress(i), j) !in m.programFails
    ensures var r := Command.Dispatch(Packet(data, i), m);
            forall j | 0 <= j < PAGE_WORDS
              :: Bytes.LeBytes(ReadWord(r, Command.WordAddress(PageAddress(i), j))) == Chunk(data, i)[4 * j .. 4 * j + 4]
  {
    HostPacketFields(data, i);
    FrameStored(Packet(data, i), m);
  }

  /** A word below a page's start address is not one of the page's words when
      the page does not reach past 2^32. */
  lemma BelowPage(addr: Word, b: Word)
    requires b < addr && addr + FLASH_PAGE_SIZE <= WORD_MODULUS
    ensures b !in CommandProps.WordAddresses(addr, 0, PAGE_WORDS)
  {
    Bytes.DivUnique(b - addr, WORD_MODULUS, -1, b - addr + WORD_MODULUS);
    CommandProps.InRunIsWritten(addr, 0, PAGE_WORDS, b);
  }

  /** The host's pages do not overlap: the packet for page k leaves every
      word of another page i as it was, so pages written one after the other
      do not disturb one another. */
  lemma OtherPageKept(data: seq<byte>, i: nat, k: nat, j: nat, m: Machine)
    requires i != k && k < NumPages(|data|) && j < PAGE_WORDS
    requires PageAddress(i) + FLASH_PAGE_SIZE <= WORD_MODULUS && PageAddress(k) + FLASH_PAGE_SIZE <= WORD_MODULUS
    ensures ReadWord(Command.Dispatch(Packet(data, k), m), PageAddress(i) + 4 * j) == ReadWord(m, PageAddress(i) + 4 * j)
  {
    var addr := PageAddress(k);
    var b: Word := PageAddress(i) + 4 * j;
    HostPacketFields(data, k);
    CommandProps.WritePageElsewhere(Packet(data, k), m);
    if i < k {
      BelowPage(addr, b);
    } else {
      AbovePage(addr, b);
    }
  }

  /** A word at or above the end of a page is not one of the page's words. */
  lemma AbovePage(addr: Word, b: Word)
    requires addr + FLASH_PAGE_SIZE <= b
    ensures b !in CommandProps.WordAddresses(addr, 0, PAGE_WORDS)
  {
    CommandProps.InRunIsWritten(addr, 0, PAGE_WORDS, b);
  }

  /** The device's reply to the host's erase decides erase's result: True
      exactly when the erase succeeded. */
  lemma HostErase(m: Machine)
    ensures var r := Command.Dispatch([CMD_ERASE_APP], m);
            |m.log| <= |r.log| && (Flasher.Erase(Reply(m, r)) <==> m.eraseSucceeds)
  {
    var r := Command.Dispatch([CMD_ERASE_APP], m);
    CommandProps.EraseReply([CMD_ERASE_APP], m);
    var reply := if m.eraseSucceeds then ACK else NACK;
    assert r.log[|m.log|..] == [FlashUnlock] + ([FlashErase(APP_START_ADDRESS, ERASE_PAGE_COUNT)] + ([Transmit([reply])] + [FlashLock]));
    TransmittedCons(FlashUnlock, [FlashErase(APP_START_ADDRESS, ERASE_PAGE_COUNT)] + ([Transmit([reply])] + [FlashLock]));
    TransmittedCons(FlashErase(APP_START_ADDRESS, ERASE_PAGE_COUNT), [Transmit([reply])] + [FlashLock]);
    TransmittedCons(Transmit([reply]), [FlashLock]);
    TransmittedCons(FlashLock, []);
  }

  // ---------------------------------------------------------------------
  // GET_INFO: the opcode the host sends

  /** As written, get_info sends 0x50, which the firmware does not know: it
      answers NACK, and get_info reports that the device is not connected. */
  lemma GetInfoAsWritten(m: Machine)
    ensures var r := Command.Dispatch(InfoRequest(CMD_GET_INFO_AS_WRITTEN), m);
            && r == m.(log := m.log + [Transmit([NACK])])
            && GetInfoOnWire(Reply(m, r)) == Returned(false)
  {
    var r := Command.Dispatch(InfoRequest(CMD_GET_INFO_AS_WRITTEN), m);
    CommandProps.UnknownOpcode(InfoRequest(CMD_GET_INFO_AS_WRITTEN), m);
    assert r.log[|m.log|..] == [Transmit([NACK])] + [];
    TransmittedCons(Transmit([NACK]), []);
  }

  /** With the firmware's opcode 0x01, the device answers ACK and the version
      bytes 0x01 0x02, and get_info reports success. */
  lemma GetInfoCorrected(m: Machine)
    ensures var r := Command.Dispatch(InfoRequest(CMD_GET_INFO), m);
            && Reply(m, r) == [ACK] + VERSION
            && GetInfoOnWire(Reply(m, r)) == Returned(true)
  {
    var r := Command.Dispatch(InfoRequest(CMD_GET_INFO), m);
    CommandProps.GetInfoReply(InfoRequest(CMD_GET_INFO), m);
    assert r.log[|m.log|..] == [Transmit([ACK])] + ([Transmit(VERSION)] + []);
    TransmittedCons(Transmit([ACK]), [Transmit(VERSION)] + []);
    TransmittedCons(Transmit(VERSION), []);
  }
}
