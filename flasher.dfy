/** The host side of the protocol (Tools/gboot_flasher.py): how write_flash
    cuts a binary image into pages and frames them, and how get_info, erase
    and write_flash judge the bootloader's replies. Serial I/O is replaced by
    the bytes each read returned, given as parameters. */
module Flasher {
  import opened Protocol
  import Bytes

  /** The host's page size (PAGE_SIZE), the same 1 KiB as the firmware's. */
  const PAGE_SIZE: nat := 1024

  /** The host's application start address (APP_START_ADDR). */
  const APP_START_ADDR: nat := 0x0800_4000

  /** The byte the host script sends for GET_INFO. */
  const CMD_GET_INFO_AS_WRITTEN: byte := 0x50

  /** The padding byte of a short last page (erased flash). */
  const PAD: byte := 0xFF

  // ---------------------------------------------------------------------
  // Paging

  /** num_pages = (file_size + PAGE_SIZE - 1) // PAGE_SIZE: the number of
      pages needed to hold n bytes. */
  function NumPages(n: nat): (p: nat)
    ensures p * PAGE_SIZE >= n
    ensures p > 0 ==> (p - 1) * PAGE_SIZE < n
    ensures n == 0 <==> p == 0
  {
    (n + PAGE_SIZE - 1) / PAGE_SIZE
  }

  /** Python's s[lo:hi] for 0 <= lo <= hi: both ends clamped to the length. */
  function Slice(s: seq<byte>, lo: nat, hi: nat): (r: seq<byte>)
    requires lo <= hi
    ensures |r| <= hi - lo
    ensures hi <= |s| ==> r == s[lo..hi]
  {
    var a := if lo <= |s| then lo else |s|;
    var b := if hi <= |s| then hi else |s|;
    s[a..b]
  }

  /** data[offset : offset + PAGE_SIZE] for page i, before padding. */
  function Unpadded(data: seq<byte>, i: nat): seq<byte>
  {
    Slice(data, i * PAGE_SIZE, i * PAGE_SIZE + PAGE_SIZE)
  }

  /** The page-i chunk as sent, padded with 0xFF to PAGE_SIZE bytes. */
  function Chunk(data: seq<byte>, i: nat): seq<byte>
  {
    var c := Unpadded(data, i);
    (c + Padding(PAGE_SIZE))[..PAGE_SIZE]
  }

  /** b'\xFF' * n: n padding bytes. */
  function Padding(n: nat): (r: seq<byte>)
    ensures |r| == n
    ensures forall k | 0 <= k < n :: r[k] == PAD
  {
    if n == 0 then [] else [PAD] + Padding(n - 1)
  }

  /** current_addr for page i. */
  function PageAddress(i: nat): nat
  {
    APP_START_ADDR + i * PAGE_SIZE
  }

  /** The WRITE_PAGE packet for page i: opcode, address little-endian, chunk. */
  function Packet(data: seq<byte>, i: nat): seq<byte>
  {
    [CMD_WRITE_PAGE] + Bytes.LeBytes(PageAddress(i)) + Chunk(data, i)
  }

  // ---------------------------------------------------------------------
  // Replies

  /** A reply read with ser.read(1) is an ACK when it is not empty (no
      timeout) and its first byte is 0x79. */
  predicate Acked(reply: seq<byte>)
  {
    |reply| > 0 && reply[0] == ACK
  }

  /** The reply to page i, out of the replies the device gave; a page with
      no reply in the list timed out. */
  function ReplyAt(replies: seq<seq<byte>>, i: nat): seq<byte>
  {
    if i < |replies| then replies[i] else []
  }

  /** What a Python call did: returned a value, or raised an exception. */
  datatype Outcome = Returned(value: bool) | Raised

  /** The byte get_info sends for GET_INFO; see Link for its two values. */
  function InfoRequest(opcode: byte): seq<byte>
  {
    [opcode]
  }

  /** get_info, given the byte read as the ACK and the (up to two) bytes read
      as the version: True after an ACK, False otherwise; an ACK followed by
      fewer than two version bytes makes data[1] raise IndexError. */
  function GetInfo(ack: seq<byte>, version: seq<byte>): (r: Outcome)
    ensures r == Returned(true) <==> Acked(ack) && |version| >= 2
    ensures r == Returned(false) <==> !Acked(ack)
  {
    if Acked(ack) then
      if |version| >= 2 then Returned(true) else Raised
    else Returned(false)
  }

  /** erase: True exactly when the one reply byte is an ACK. */
  function Erase(ack: seq<byte>): bool
  {
    Acked(ack)
  }

  // ---------------------------------------------------------------------
  // write_flash

  /** One page of write_flash: slice the image at the page's offset, pad it
      with 0xFF, and frame it behind the opcode and the little-endian address. */
  method PagePacket(data: seq<byte>, i: nat) returns (packet: seq<byte>)
    ensures packet == Packet(data, i)
  {
    var offset := i * PAGE_SIZE;
    var chunk := Slice(data, offset, offset + PAGE_SIZE);
    if |chunk| < PAGE_SIZE {
      chunk := chunk + Padding(PAGE_SIZE - |chunk|);
    }
    assert chunk == Chunk(data, i);
    var currentAddr := APP_START_ADDR + offset;
    assert currentAddr == PageAddress(i);
    packet := [];
    packet := packet + [CMD_WRITE_PAGE];
    packet := packet + [currentAddr % 0x100];
    packet := packet + [(currentAddr / 0x100) % 0x100];
    packet := packet + [(currentAddr / 0x1_0000) % 0x100];
    packet := packet + [(currentAddr / 0x100_0000) % 0x100];
    packet := packet + chunk;
    Bytes.LeBytesShifts(currentAddr);
  }

  /** The packets of pages 0 .. n-1, in order. */
  ghost function Packets(data: seq<byte>, n: nat): (r: seq<seq<byte>>)
    ensures |r| == n
  {
    if n == 0 then [] else Packets(data, n - 1) + [Packet(data, n - 1)]
  }

  lemma {:induction false} PacketsAt(data: seq<byte>, n: nat)
    ensures forall j | 0 <= j < n :: Packets(data, n)[j] == Packet(data, j)
  {
    if n > 0 {
      PacketsAt(data, n - 1);
      assert Packets(data, n) == Packets(data, n - 1) + [Packet(data, n - 1)];
    }
  }

  /** write_flash after the image has been read: for each page, build the
      packet, send it, and read one reply byte; stop at the first page whose
      reply is not an ACK. `sent` lists the packets written to the port. */
  method WriteFlash(data: seq<byte>, replies: seq<seq<byte>>) returns (ok: bool, sent: seq<seq<byte>>)
    ensures |sent| <= NumPages(|data|)
    ensures forall j | 0 <= j < |sent| :: sent[j] == Packet(data, j)
    ensures forall j | 0 <= j < |sent| && (ok || j < |sent| - 1) :: Acked(ReplyAt(replies, j))
    ensures ok <==> |sent| == NumPages(|data|) && forall j | 0 <= j < |sent| :: Acked(ReplyAt(replies, j))
    ensures !ok ==> |sent| > 0 && !Acked(ReplyAt(replies, |sent| - 1))
  {
    var fileSize := |data|;
    var numPages := (fileSize + PAGE_SIZE - 1) / PAGE_SIZE;
    sent := [];
    var i := 0;
    while i < numPages
      invariant numPages == NumPages(|data|)
      invariant 0 <= i <= numPages && |sent| == i
      invariant sent == Packets(data, i)
      invariant forall j | 0 <= j < i :: Acked(ReplyAt(replies, j))
    {
      var packet := PagePacket(data, i);
      sent := sent + [packet];
      var ack := ReplyAt(replies, i);
      if |ack| == 0 || ack[0] != ACK {
        assert sent == Packets(data, i + 1) && !Acked(ReplyAt(replies, |sent| - 1));
        PacketsAt(data, i + 1);
        return false, sent;
      }
      i := i + 1;
    }
    PacketsAt(data, i);
    return true, sent;
  }
}
