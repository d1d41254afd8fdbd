/** What the bootloader's command handling promises, proved about the
    reference functions of module Command. */
module CommandProps {
  import opened Protocol
  import opened Hal
  import opened Command
  import Bytes

  // ---------------------------------------------------------------------
  // The WRITE_PAGE word loop

  /** Index of the first word from k on whose program the controller rejects,
      or PAGE_WORDS when none is rejected. */
  function FirstFailure(fails: set<Word>, addr: Word, k: nat): (f: nat)
    requires k <= PAGE_WORDS
    ensures k <= f <= PAGE_WORDS
    ensures forall j | k <= j < f :: WordAddress(addr, j) !in fails
    ensures f < PAGE_WORDS ==> WordAddress(addr, f) in fails
    decreases PAGE_WORDS - k
  {
    if k == PAGE_WORDS || WordAddress(addr, k) in fails then k
    else FirstFailure(fails, addr, k + 1)
  }

  /** How many words end up being attempted when the first failure is at f:
      all words up to and including the failing one. */
  function Attempted(f: nat): nat
  {
    if f < PAGE_WORDS then f + 1 else f
  }

  /** Program calls for words lo .. hi-1 of a page written at addr, in ascending order. */
  function ProgramRun(addr: Word, page: seq<byte>, lo: nat, hi: nat): (t: seq<Event>)
    requires |page| == FLASH_PAGE_SIZE && lo <= hi <= PAGE_WORDS
    ensures |t| == hi - lo
    decreases hi - lo
  {
    if lo == hi then []
    else [FlashProgram(WordAddress(addr, lo), PageWord(page, lo))] + ProgramRun(addr, page, lo + 1, hi)
  }

  /** The flash addresses of words lo .. hi-1 of a page written at addr. */
  function WordAddresses(addr: Word, lo: nat, hi: nat): set<Word>
  {
    set j | lo <= j < hi :: WordAddress(addr, j)
  }

  /** Whether b is the address of one of words lo .. hi-1 of a page written
      at addr, by its 32-bit offset from addr. */
  predicate InRun(addr: Word, lo: nat, hi: nat, b: Word)
  {
    var d := (b - addr) % WORD_MODULUS;
    d % 4 == 0 && lo <= d / 4 < hi
  }

  /** The offset of word j from addr is 4j, even when addr + 4j wraps around. */
  lemma InRunAt(addr: Word, lo: nat, hi: nat, j: nat)
    requires j < PAGE_WORDS
    ensures InRun(addr, lo, hi, WordAddress(addr, j)) <==> lo <= j < hi
  {
    var x := addr + 4 * j;
    var b := WordAddress(addr, j);
    if x < WORD_MODULUS {
      assert b - addr == 4 * j;
    } else {
      assert b == x - WORD_MODULUS;
      assert b - addr == 4 * j - WORD_MODULUS;
      assert (4 * j - WORD_MODULUS) % WORD_MODULUS == 4 * j;
    }
    assert (b - addr) % WORD_MODULUS == 4 * j;
  }

  lemma InRunIsWritten(addr: Word, lo: nat, hi: nat, b: Word)
    requires hi <= PAGE_WORDS
    ensures InRun(addr, lo, hi, b) <==> b in WordAddresses(addr, lo, hi)
  {
    if InRun(addr, lo, hi, b) {
      var d := (b - addr) % WORD_MODULUS;
      var q := d / 4;
      if b >= addr {
        assert d == b - addr;
      } else {
        assert d == b - addr + WORD_MODULUS;
      }
      assert WordAddress(addr, q) == b;
    }
    if b in WordAddresses(addr, lo, hi) {
      var j :| lo <= j < hi && b == WordAddress(addr, j);
      InRunAt(addr, lo, hi, j);
    }
  }

  /** The words of a page land at pairwise distinct addresses. */
  lemma WordAddressInjective(addr: Word, i: nat, j: nat)
    requires i < PAGE_WORDS && j < PAGE_WORDS && i != j
    ensures WordAddress(addr, i) != WordAddress(addr, j)
  {
    InRunAt(addr, i, i + 1, i);
    InRunAt(addr, i, i + 1, j);
  }


  /** The loop from word k on calls the controller for words k, k+1, ... in
      ascending order, at addr + 4j with the little-endian word of page bytes
      4j..4j+3, up to and including the first word the controller rejects. */
  lemma {:induction false} ProgramWordsCalls(m: Machine, addr: Word, page: seq<byte>, k: nat)
    requires |page| == FLASH_PAGE_SIZE && k <= PAGE_WORDS
    ensures var f := FirstFailure(m.programFails, addr, k);
            ProgramWords(m, addr, page, k).0.log == m.log + ProgramRun(addr, page, k, Attempted(f))
    decreases PAGE_WORDS - k
  {
    if k < PAGE_WORDS {
      var a := WordAddress(addr, k);
      var v := PageWord(page, k);
      var m1 := Program(m, a, v).0;
      assert m1.log == m.log + [FlashProgram(a, v)];
      if a !in m.programFails {
        var f := FirstFailure(m.programFails, addr, k);
        assert f == FirstFailure(m1.programFails, addr, k + 1);
        assert ProgramWords(m, addr, page, k).0 == ProgramWords(m1, addr, page, k + 1).0;
        ProgramWordsCalls(m1, addr, page, k + 1);
        var rest := ProgramRun(addr, page, k + 1, Attempted(f));
        assert ProgramRun(addr, page, k, Attempted(f)) == [FlashProgram(a, v)] + rest;
        assert m.log + [FlashProgram(a, v)] + rest == m.log + ([FlashProgram(a, v)] + rest);
      }
    }
  }

  /** The loop from word k on reports success exactly when no word from k on is rejected. */
  lemma {:induction false} ProgramWordsStatus(m: Machine, addr: Word, page: seq<byte>, k: nat)
    requires |page| == FLASH_PAGE_SIZE && k <= PAGE_WORDS
    ensures ProgramWords(m, addr, page, k).1 <==> FirstFailure(m.programFails, addr, k) == PAGE_WORDS
    decreases PAGE_WORDS - k
  {
    if k < PAGE_WORDS {
      var m1 := Program(m, WordAddress(addr, k), PageWord(page, k)).0;
      if WordAddress(addr, k) !in m.programFails {
        ProgramWordsStatus(m1, addr, page, k + 1);
      }
    }
  }

  /** The WRITE_PAGE loop reports success exactly when the controller accepts
      every word of the page. */
  lemma ProgramWordsSucceeds(m: Machine, addr: Word, page: seq<byte>)
    requires |page| == FLASH_PAGE_SIZE
    ensures ProgramWords(m, addr, page, 0).1
        <==> forall j | 0 <= j < PAGE_WORDS :: WordAddress(addr, j) !in m.programFails
  {
    ProgramWordsStatus(m, addr, page, 0);
    NoFailureIff(m.programFails, addr);
  }

  /** The scan finds no rejected word exactly when no word of the page is rejected. */
  lemma NoFailureIff(fails: set<Word>, addr: Word)
    ensures FirstFailure(fails, addr, 0) == PAGE_WORDS
        <==> forall j | 0 <= j < PAGE_WORDS :: WordAddress(addr, j) !in fails
  {
  }

  /** The loop changes nothing but the flash and the log: the lock, DR1 and
      the oracle are as before. */
  lemma {:induction false} ProgramWordsFrame(m: Machine, addr: Word, page: seq<byte>, k: nat)
    requires |page| == FLASH_PAGE_SIZE && k <= PAGE_WORDS
    ensures var r := ProgramWords(m, addr, page, k).0; r == m.(flash := r.flash, log := r.log)
    decreases PAGE_WORDS - k
  {
    if k < PAGE_WORDS {
      var m1 := Program(m, WordAddress(addr, k), PageWord(page, k)).0;
      if WordAddress(addr, k) !in m.programFails {
        ProgramWordsFrame(m1, addr, page, k + 1);
      }
    }
  }

  /** The flash after words lo .. hi-1 of a page have been programmed at addr. */
  function Written(flash: map<Word, Word>, addr: Word, page: seq<byte>, lo: nat, hi: nat): map<Word, Word>
    requires |page| == FLASH_PAGE_SIZE && lo <= hi <= PAGE_WORDS
    decreases hi - lo
  {
    if lo == hi then flash
    else Written(flash[WordAddress(addr, lo) := PageWord(page, lo)], addr, page, lo + 1, hi)
  }

  /** The loop from word k on leaves exactly the words before the first
      rejected one programmed. */
  lemma {:induction false} ProgramWordsFlash(m: Machine, addr: Word, page: seq<byte>, k: nat)
    requires |page| == FLASH_PAGE_SIZE && k <= PAGE_WORDS
    ensures var f := FirstFailure(m.programFails, addr, k);
            ProgramWords(m, addr, page, k).0.flash == Written(m.flash, addr, page, k, f)
    decreases PAGE_WORDS - k
  {
    if k < PAGE_WORDS {
      var a := WordAddress(addr, k);
      var v := PageWord(page, k);
      var m1 := Program(m, a, v).0;
      if a !in m.programFails {
        var f := FirstFailure(m.programFails, addr, k);
        assert f == FirstFailure(m1.programFails, addr, k + 1);
        assert ProgramWords(m, addr, page, k).0 == ProgramWords(m1, addr, page, k + 1).0;
        assert m1.flash == m.flash[a := v];
        ProgramWordsFlash(m1, addr, page, k + 1);
      }
    }
  }

  /** Programming words lo .. hi-1 leaves every other address as it was. */
  lemma {:induction false} WrittenElsewhere(flash: map<Word, Word>, addr: Word, page: seq<byte>, lo: nat, hi: nat, b: Word)
    requires |page| == FLASH_PAGE_SIZE && lo <= hi <= PAGE_WORDS
    requires !InRun(addr, lo, hi, b)
    ensures var w := Written(flash, addr, page, lo, hi);
            (b in w <==> b in flash) && (b in flash ==> w[b] == flash[b])
    decreases hi - lo
  {
    if lo < hi {
      InRunAt(addr, lo, hi, lo);
      assert b != WordAddress(addr, lo);
      WrittenElsewhere(flash[WordAddress(addr, lo) := PageWord(page, lo)], addr, page, lo + 1, hi, b);
    }
  }

  /** After programming words lo .. hi-1, each of them reads back as written:
      no later word of the page lands on an earlier one's address. */
  lemma {:induction false} WrittenReadback(flash: map<Word, Word>, addr: Word, page: seq<byte>, lo: nat, hi: nat, j: nat)
    requires |page| == FLASH_PAGE_SIZE && lo <= j < hi <= PAGE_WORDS
    ensures var w := Written(flash, addr, page, lo, hi);
            WordAddress(addr, j) in w && w[WordAddress(addr, j)] == PageWord(page, j)
    decreases hi - lo
  {
    var flash1 := flash[WordAddress(addr, lo) := PageWord(page, lo)];
    if j == lo {
      InRunAt(addr, lo + 1, hi, lo);
      WrittenElsewhere(flash1, addr, page, lo + 1, hi, WordAddress(addr, lo));
    } else {
      WrittenReadback(flash1, addr, page, lo + 1, hi, j);
    }
  }

  /** After the loop from word k on, every word before the first rejected one
      reads back as written: a later failure rolls none of them back. */
  lemma ProgramWordsReadback(m: Machine, addr: Word, page: seq<byte>, k: nat)
    requires |page| == FLASH_PAGE_SIZE && k <= PAGE_WORDS
    ensures var r := ProgramWords(m, addr, page, k).0;
            var f := FirstFailure(m.programFails, addr, k);
            forall j | k <= j < f :: ReadWord(r, WordAddress(addr, j)) == PageWord(page, j)
  {
    var f := FirstFailure(m.programFails, addr, k);
    ProgramWordsFlash(m, addr, page, k);
    forall j | k <= j < f
      ensures ReadWord(ProgramWords(m, addr, page, k).0, WordAddress(addr, j)) == PageWord(page, j)
    {
      WrittenReadback(m.flash, addr, page, k, f, j);
    }
  }

  /** The loop from word k on changes no flash word outside the words it
      programmed successfully. */
  lemma ProgramWordsElsewhere(m: Machine, addr: Word, page: seq<byte>, k: nat)
    requires |page| == FLASH_PAGE_SIZE && k <= PAGE_WORDS
    ensures var r := ProgramWords(m, addr, page, k).0;
            var f := FirstFailure(m.programFails, addr, k);
            forall b | !InRun(addr, k, f, b) :: ReadWord(r, b) == ReadWord(m, b)
  {
    var f := FirstFailure(m.programFails, addr, k);
    ProgramWordsFlash(m, addr, page, k);
    forall b | !InRun(addr, k, f, b)
      ensures ReadWord(ProgramWords(m, addr, page, k).0, b) == ReadWord(m, b)
    {
      WrittenElsewhere(m.flash, addr, page, k, f, b);
    }
  }

  // ---------------------------------------------------------------------
  // Outcome of each command

  /** A frame with no bytes is ignored: no response, no HAL call. */
  lemma EmptyFrameIgnored(m: Machine)
    ensures Dispatch([], m) == m
  {
  }

  /** GET_INFO always answers ACK and then the two version bytes 0x01 0x02. */
  lemma GetInfoReply(frame: seq<byte>, m: Machine)
    requires |frame| >= 1 && frame[0] == CMD_GET_INFO
    ensures Dispatch(frame, m) == m.(log := m.log + [Transmit([ACK]), Transmit([0x01, 0x02])])
  {
  }

  /** ERASE_APP unlocks, erases the 48 pages from APP_START_ADDRESS, answers
      ACK exactly when the erase succeeded (NACK otherwise), then locks. A
      successful erase leaves every word of the region erased and touches
      no word outside it. */
  lemma EraseReply(frame: seq<byte>, m: Machine)
    requires |frame| >= 1 && frame[0] == CMD_ERASE_APP
    ensures var r := Dispatch(frame, m);
            && r.log == m.log + [FlashUnlock, FlashErase(APP_START_ADDRESS, ERASE_PAGE_COUNT),
                                 Transmit([if m.eraseSucceeds then ACK else NACK]), FlashLock]
            && r == m.(flash := r.flash, log := r.log, locked := true)
            && (m.eraseSucceeds ==>
                  forall a: Word | APP_START_ADDRESS <= a < APP_START_ADDRESS + ERASE_PAGE_COUNT * FLASH_PAGE_SIZE
                    :: ReadWord(r, a) == ERASED_WORD)
            && (forall a: Word | !(APP_START_ADDRESS <= a < APP_START_ADDRESS + ERASE_PAGE_COUNT * FLASH_PAGE_SIZE)
                  :: ReadWord(r, a) == ReadWord(m, a))
            && (!m.eraseSucceeds ==> r.flash == m.flash)
  {
  }

  /** WRITE_PAGE with fewer than FLASH_PAGE_SIZE + 5 bytes, or with an address
      below APP_START_ADDRESS, answers one NACK and touches neither the flash
      controller nor anything else. */
  lemma WritePageRejected(frame: seq<byte>, m: Machine)
    requires |frame| >= 1 && frame[0] == CMD_WRITE_PAGE
    requires |frame| < WRITE_FRAME_SIZE || FrameAddress(frame) < APP_START_ADDRESS
    ensures Dispatch(frame, m) == m.(log := m.log + [Transmit([NACK])])
  {
  }

  /** A WRITE_PAGE frame that passes both checks runs the word loop on the
      unlocked controller and concludes. */
  lemma AcceptedFrame(frame: seq<byte>, m: Machine)
    requires |frame| >= WRITE_FRAME_SIZE && frame[0] == CMD_WRITE_PAGE
    requires FrameAddress(frame) >= APP_START_ADDRESS
    ensures Dispatch(frame, m) == Conclude(ProgramWords(Unlock(m), FrameAddress(frame), FramePage(frame), 0))
  {
  }

  /** A WRITE_PAGE frame that passes both checks: unlock, the word programs
      up to and including the first rejected one, lock, then ACK exactly when
      every word was accepted and NACK otherwise; the controller ends locked
      and only the flash and the log change besides. */
  lemma WritePageAccepted(frame: seq<byte>, m: Machine)
    requires |frame| >= WRITE_FRAME_SIZE && frame[0] == CMD_WRITE_PAGE
    requires FrameAddress(frame) >= APP_START_ADDRESS
    ensures var r := Dispatch(frame, m);
            var addr := FrameAddress(frame);
            var f := FirstFailure(m.programFails, addr, 0);
            && r.log == m.log + [FlashUnlock] + ProgramRun(addr, FramePage(frame), 0, Attempted(f))
                              + [FlashLock] + [Transmit([if f == PAGE_WORDS then ACK else NACK])]
            && (f == PAGE_WORDS <==> forall j | 0 <= j < PAGE_WORDS :: WordAddress(addr, j) !in m.programFails)
            && r == m.(flash := r.flash, log := r.log, locked := true)
  {
    var addr := FrameAddress(frame);
    var page := FramePage(frame);
    var m1 := Unlock(m);
    var res := ProgramWords(m1, addr, page, 0);
    AcceptedFrame(frame, m);
    ProgramWordsCalls(m1, addr, page, 0);
    ProgramWordsStatus(m1, addr, page, 0);
    ProgramWordsFrame(m1, addr, page, 0);
    NoFailureIff(m.programFails, addr);
    var f := FirstFailure(m.programFails, addr, 0);
    assert res.0.log == m.log + [FlashUnlock] + ProgramRun(addr, page, 0, Attempted(f));
    assert res.1 <==> f == PAGE_WORDS;
    var r := Conclude(res);
    assert r.log == res.0.log + [FlashLock] + [Transmit([if res.1 then ACK else NACK])];
  }

  /** After an accepted WRITE_PAGE frame, the words before the first rejected
      one read back as the frame's data: a later failure rolls none of them back. */
  lemma WritePageReadback(frame: seq<byte>, m: Machine)
    requires |frame| >= WRITE_FRAME_SIZE && frame[0] == CMD_WRITE_PAGE
    requires FrameAddress(frame) >= APP_START_ADDRESS
    ensures var r := Dispatch(frame, m);
            var addr := FrameAddress(frame);
            forall j | 0 <= j < FirstFailure(m.programFails, addr, 0)
              :: ReadWord(r, WordAddress(addr, j)) == PageWord(FramePage(frame), j)
  {
    var m1 := Unlock(m);
    var res := ProgramWords(m1, FrameAddress(frame), FramePage(frame), 0);
    AcceptedFrame(frame, m);
    assert Dispatch(frame, m).flash == res.0.flash;
    ProgramWordsReadback(m1, FrameAddress(frame), FramePage(frame), 0);
  }

  /** An accepted WRITE_PAGE frame changes no flash word other than the ones
      it programmed successfully. */
  lemma WritePageElsewhere(frame: seq<byte>, m: Machine)
    requires |frame| >= WRITE_FRAME_SIZE && frame[0] == CMD_WRITE_PAGE
    requires FrameAddress(frame) >= APP_START_ADDRESS
    ensures var r := Dispatch(frame, m);
            var addr := FrameAddress(frame);
            forall b | b !in WordAddresses(addr, 0, FirstFailure(m.programFails, addr, 0))
              :: ReadWord(r, b) == ReadWord(m, b)
  {
    var addr := FrameAddress(frame);
    var m1 := Unlock(m);
    var res := ProgramWords(m1, addr, FramePage(frame), 0);
    var f := FirstFailure(m.programFails, addr, 0);
    AcceptedFrame(frame, m);
    assert Dispatch(frame, m).flash == res.0.flash;
    ProgramWordsElsewhere(m1, addr, FramePage(frame), 0);
    forall b | b !in WordAddresses(addr, 0, f)
      ensures ReadWord(res.0, b) == ReadWord(m, b)
    {
      InRunIsWritten(addr, 0, f, b);
    }
  }

  /** RESET_DEV answers ACK, then resets the device: control never comes back. */
  lemma ResetReply(frame: seq<byte>, m: Machine)
    requires |frame| >= 1 && frame[0] == CMD_RESET_DEV
    ensures Dispatch(frame, m) == m.(log := m.log + [Transmit([ACK]), SystemReset], halted := true)
  {
  }

  /** JUMP_APP answers ACK, then attempts the application boot; a rejected
      image is not reported (no NACK follows). */
  lemma JumpReply(frame: seq<byte>, m: Machine)
    requires |frame| >= 1 && frame[0] == CMD_JUMP_APP
    ensures Dispatch(frame, m) == JumpToApp(m.(log := m.log + [Transmit([ACK])]))
  {
  }

  /** Every opcode other than the five commands answers a single NACK and does nothing else. */
  lemma UnknownOpcode(frame: seq<byte>, m: Machine)
    requires |frame| >= 1
    requires frame[0] !in {CMD_GET_INFO, CMD_ERASE_APP, CMD_WRITE_PAGE, CMD_RESET_DEV, CMD_JUMP_APP}
    ensures Dispatch(frame, m) == m.(log := m.log + [Transmit([NACK])])
  {
  }

  // ---------------------------------------------------------------------
  // Application boot

  /** The calls of a handoff to an application with initial stack pointer sp
      and reset handler pc, in order. */
  function Handoff(sp: Word, pc: Word): seq<Event>
  {
    [DeInit(Uart), DeInit(DmaRx), DeInit(DmaTx), DeInit(Rcc), DeInit(HalCore),
     SysTickWrite(Ctrl, 0), SysTickWrite(Load, 0), SysTickWrite(Val, 0),
     SetMsp(sp), Branch(pc)]
  }

  /** GBoot_JumpToApp: with an implausible stack pointer nothing at all happens
      (no teardown); otherwise the full teardown runs in order, the stack
      pointer is loaded from the vector table and control passes to the reset
      handler stored after it, never to return. */
  lemma JumpOutcome(m: Machine)
    ensures var sp := ReadWord(m, APP_START_ADDRESS);
            JumpToApp(m) == if StackPointerPlausible(sp)
                            then m.(log := m.log + Handoff(sp, ReadWord(m, APP_START_ADDRESS + 4)), halted := true)
                            else m
  {
  }

  // ---------------------------------------------------------------------
  // Unlock / lock discipline

  function LockStep(locked: bool, e: Event): bool
  {
    if e.FlashUnlock? then false else if e.FlashLock? then true else locked
  }

  /** Whether the controller is locked after the calls of t, starting from `locked`. */
  function LockAfter(locked: bool, t: seq<Event>): bool
    decreases |t|
  {
    if t == [] then locked else LockAfter(LockStep(locked, t[0]), t[1..])
  }

  predicate IsFlashAccess(e: Event)
  {
    e.FlashErase? || e.FlashProgram?
  }

  /** Every erase and program call of t happens while the controller is unlocked. */
  predicate AccessesUnlocked(locked: bool, t: seq<Event>)
    decreases |t|
  {
    t == [] || ((IsFlashAccess(t[0]) ==> !locked) && AccessesUnlocked(LockStep(locked, t[0]), t[1..]))
  }

  lemma {:induction false} ReplayAppend(locked: bool, a: seq<Event>, b: seq<Event>)
    ensures LockAfter(locked, a + b) == LockAfter(LockAfter(locked, a), b)
    ensures AccessesUnlocked(locked, a + b) <==> AccessesUnlocked(locked, a) && AccessesUnlocked(LockAfter(locked, a), b)
    decreases |a|
  {
    if a == [] {
      assert a + b == b;
    } else {
      assert (a + b)[0] == a[0];
      assert (a + b)[1..] == a[1..] + b;
      ReplayAppend(LockStep(locked, a[0]), a[1..], b);
    }
  }

  /** The word programs of a page neither lock nor unlock the controller. */
  lemma {:induction false} ProgramRunUnlocked(addr: Word, page: seq<byte>, lo: nat, hi: nat)
    requires |page| == FLASH_PAGE_SIZE && lo <= hi <= PAGE_WORDS
    ensures !LockAfter(false, ProgramRun(addr, page, lo, hi))
    ensures AccessesUnlocked(false, ProgramRun(addr, page, lo, hi))
    decreases hi - lo
  {
    var t := ProgramRun(addr, page, lo, hi);
    if lo < hi {
      assert t[1..] == ProgramRun(addr, page, lo + 1, hi);
      ProgramRunUnlocked(addr, page, lo + 1, hi);
    }
  }

  predicate NoFlashCall(e: Event)
  {
    !e.FlashUnlock? && !e.FlashLock? && !IsFlashAccess(e)
  }

  /** Calls that are not flash-controller calls leave the lock state alone. */
  lemma {:induction false} NoFlashCalls(locked: bool, t: seq<Event>)
    requires forall i | 0 <= i < |t| :: NoFlashCall(t[i])
    ensures LockAfter(locked, t) == locked && AccessesUnlocked(locked, t)
    decreases |t|
  {
    if t != [] {
      assert NoFlashCall(t[0]);
      NoFlashCalls(locked, t[1..]);
    }
  }

  /** The unlock / lock discipline of one command that took the machine from
      m (controller locked) to r: the log only grew, every erase and program
      call in the new part was made while the controller was unlocked, and
      the controller is locked again at the end. */
  ghost predicate Disciplined(m: Machine, r: Machine)
  {
    && m.log <= r.log
    && AccessesUnlocked(true, r.log[|m.log|..])
    && LockAfter(true, r.log[|m.log|..])
    && r.locked
  }

  lemma DisciplinedTrace(m: Machine, r: Machine, t: seq<Event>)
    requires r.log == m.log + t && r.locked
    requires AccessesUnlocked(true, t) && LockAfter(true, t)
    ensures Disciplined(m, r)
  {
    assert r.log[|m.log|..] == t;
  }

  /** Traces of the commands that make no flash-controller call. */
  lemma NoFlashTrace(m: Machine, r: Machine, t: seq<Event>)
    requires m.locked && r.locked && r.log == m.log + t
    requires forall i | 0 <= i < |t| :: NoFlashCall(t[i])
    ensures Disciplined(m, r)
  {
    NoFlashCalls(true, t);
    DisciplinedTrace(m, r, t);
  }

  lemma EraseDisciplined(m: Machine)
    requires m.locked
    ensures Disciplined(m, EraseApp(m))
  {
    var t := [FlashUnlock, FlashErase(APP_START_ADDRESS, ERASE_PAGE_COUNT),
              Transmit([if m.eraseSucceeds then ACK else NACK]), FlashLock];
    assert EraseApp(m).log == m.log + t;
    var t2, t3, t4 := t[1..], t[2..], t[3..];
    assert t4[1..] == [] && t3[1..] == t4 && t2[1..] == t3;
    assert AccessesUnlocked(false, t4) && LockAfter(false, t4);
    assert AccessesUnlocked(false, t3) && LockAfter(false, t3);
    assert AccessesUnlocked(false, t2) && LockAfter(false, t2);
    DisciplinedTrace(m, EraseApp(m), t);
  }

  /** An unlock, word programs, a lock and a transmission keep the discipline. */
  lemma UnlockProgramLock(addr: Word, page: seq<byte>, n: nat, reply: seq<byte>)
    requires |page| == FLASH_PAGE_SIZE && n <= PAGE_WORDS
    ensures var t := [FlashUnlock] + ProgramRun(addr, page, 0, n) + [FlashLock] + [Transmit(reply)];
            AccessesUnlocked(true, t) && LockAfter(true, t)
  {
    var run := ProgramRun(addr, page, 0, n);
    var tail := [FlashLock] + [Transmit(reply)];
    ProgramRunUnlocked(addr, page, 0, n);
    assert [FlashUnlock][1..] == [];
    assert !LockAfter(true, [FlashUnlock]) && AccessesUnlocked(true, [FlashUnlock]);
    ReplayAppend(true, [FlashUnlock], run);
    assert tail[1..][1..] == [];
    assert LockAfter(false, tail) && AccessesUnlocked(false, tail);
    ReplayAppend(true, [FlashUnlock] + run, tail);
    assert [FlashUnlock] + run + [FlashLock] + [Transmit(reply)] == ([FlashUnlock] + run) + tail;
  }

  /** The end of an accepted WRITE_PAGE: whatever the loop reported, lock and answer. */
  lemma FinishDisciplined(m: Machine, m2: Machine, ok: bool, addr: Word, page: seq<byte>, n: nat)
    requires m.locked && |page| == FLASH_PAGE_SIZE && n <= PAGE_WORDS
    requires m2.log == m.log + [FlashUnlock] + ProgramRun(addr, page, 0, n)
    ensures Disciplined(m, if ok then SendAck(Lock(m2)) else SendNack(Lock(m2)))
  {
    var r := if ok then SendAck(Lock(m2)) else SendNack(Lock(m2));
    var reply := [if ok then ACK else NACK];
    var t := [FlashUnlock] + ProgramRun(addr, page, 0, n) + [FlashLock] + [Transmit(reply)];
    assert r.log == m.log + t;
    UnlockProgramLock(addr, page, n, reply);
    DisciplinedTrace(m, r, t);
  }

  lemma WritePageProgramDisciplined(frame: seq<byte>, m: Machine)
    requires m.locked && |frame| >= WRITE_FRAME_SIZE && FrameAddress(frame) >= APP_START_ADDRESS
    ensures Disciplined(m, WritePage(frame, m))
  {
    var addr := FrameAddress(frame);
    var page := FramePage(frame);
    var m1 := Unlock(m);
    var res := ProgramWords(m1, addr, page, 0);
    assert WritePage(frame, m) == Conclude(res);
    ProgramWordsCalls(m1, addr, page, 0);
    FinishDisciplined(m, res.0, res.1, addr, page, Attempted(FirstFailure(m1.programFails, addr, 0)));
  }

  lemma WritePageDisciplined(frame: seq<byte>, m: Machine)
    requires m.locked
    ensures Disciplined(m, WritePage(frame, m))
  {
    if |frame| < WRITE_FRAME_SIZE || FrameAddress(frame) < APP_START_ADDRESS {
      NoFlashTrace(m, WritePage(frame, m), [Transmit([NACK])]);
    } else {
      WritePageProgramDisciplined(frame, m);
    }
  }

  /** JUMP_APP makes no flash-controller call at all, so it keeps the discipline. */
  lemma JumpDisciplined(m: Machine)
    requires m.locked
    ensures Disciplined(m, JumpApp(m))
    ensures forall i | |m.log| <= i < |JumpApp(m).log| :: NoFlashCall(JumpApp(m).log[i])
  {
    var m1 := SendAck(m);
    var sp := ReadWord(m1, APP_START_ADDRESS);
    JumpOutcome(m1);
    var t := if StackPointerPlausible(sp)
             then [Transmit([ACK])] + Handoff(sp, ReadWord(m1, APP_START_ADDRESS + 4))
             else [Transmit([ACK])];
    assert JumpApp(m).log == m.log + t;
    NoFlashTrace(m, JumpApp(m), t);
  }

  /** On every command, starting from a locked controller, each erase and
      program call is made while it is unlocked, and the command leaves it
      locked again, on success and on failure; the log only grows. */
  lemma LockDiscipline(frame: seq<byte>, m: Machine)
    requires m.locked
    ensures var r := Dispatch(frame, m);
            && m.log <= r.log
            && AccessesUnlocked(true, r.log[|m.log|..])
            && LockAfter(true, r.log[|m.log|..])
            && r.locked
  {
    if |frame| < 1 {
      NoFlashTrace(m, m, []);
    } else if frame[0] == CMD_GET_INFO {
      NoFlashTrace(m, GetInfo(m), [Transmit([ACK]), Transmit(VERSION)]);
    } else if frame[0] == CMD_ERASE_APP {
      EraseDisciplined(m);
    } else if frame[0] == CMD_WRITE_PAGE {
      WritePageDisciplined(frame, m);
    } else if frame[0] == CMD_RESET_DEV {
      NoFlashTrace(m, ResetDevice(m), [Transmit([ACK]), SystemReset]);
    } else if frame[0] == CMD_JUMP_APP {
      JumpDisciplined(m);
    } else {
      NoFlashTrace(m, SendNack(m), [Transmit([NACK])]);
    }
  }
}
