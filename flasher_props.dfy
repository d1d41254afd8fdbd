/** What write_flash's paging promises: every page is a full 1 KiB chunk of
    the image, padded with 0xFF only at the end of the image, framed as a
    1029-byte WRITE_PAGE packet at an address that grows by one page per
    packet, and the unpadded chunks put back together are the image. */
module FlasherProps {
  import opened Protocol
  import Bytes
  import opened Flasher

  function Min(a: nat, b: nat): nat
  {
    if a <= b then a else b
  }

  /** Page i of the image covers data[i * PAGE_SIZE ..], holds at least one
      image byte, is padded with 0xFF to exactly PAGE_SIZE bytes, and is
      short of image bytes only when it is the last page. */
  lemma ChunkLayout(data: seq<byte>, i: nat)
    requires i < NumPages(|data|)
    ensures var u := Unpadded(data, i);
            && u == data[i * PAGE_SIZE .. Min(i * PAGE_SIZE + PAGE_SIZE, |data|)]
            && 0 < |u| <= PAGE_SIZE
            && |Chunk(data, i)| == PAGE_SIZE
            && Chunk(data, i)[..|u|] == u
            && (forall k | |u| <= k < PAGE_SIZE :: Chunk(data, i)[k] == PAD)
            && (|u| < PAGE_SIZE ==> i == NumPages(|data|) - 1)
  {
    var u := Unpadded(data, i);
    assert i * PAGE_SIZE < |data| by {
      assert i <= NumPages(|data|) - 1;
    }
    if |u| < PAGE_SIZE && i < NumPages(|data|) - 1 {
      assert false;
    }
  }

  /** The WRITE_PAGE packet of every page: 1029 bytes, opcode 0x03, the page
      address little-endian in bytes 1 to 4, then the padded chunk. */
  lemma PacketLayout(data: seq<byte>, i: nat)
    requires i < NumPages(|data|)
    ensures |Packet(data, i)| == WRITE_FRAME_SIZE
    ensures Packet(data, i)[0] == CMD_WRITE_PAGE
    ensures Packet(data, i)[1..5] == Bytes.LeBytes(PageAddress(i))
    ensures Packet(data, i)[5..] == Chunk(data, i)
  {
    ChunkLayout(data, i);
    var p := Packet(data, i);
    assert p == [CMD_WRITE_PAGE] + Bytes.LeBytes(PageAddress(i)) + Chunk(data, i);
  }

  /** Page addresses start at the application's area and grow by exactly one
      page per packet, so no two packets overlap. */
  lemma AddressesIncrease(i: nat, j: nat)
    requires i < j
    ensures APP_START_ADDR <= PageAddress(i) < PageAddress(j)
    ensures PageAddress(i) + PAGE_SIZE <= PageAddress(j)
  {
  }

  /** The unpadded chunks of pages 0 .. n-1, in order. */
  function Joined(data: seq<byte>, n: nat): seq<byte>
  {
    if n == 0 then [] else Joined(data, n - 1) + Unpadded(data, n - 1)
  }

  /** The first n unpadded chunks are the first n pages' worth of the image. */
  lemma {:induction false} JoinedPrefix(data: seq<byte>, n: nat)
    ensures Joined(data, n) == data[..Min(n * PAGE_SIZE, |data|)]
  {
    if n > 0 {
      JoinedPrefix(data, n - 1);
      var lo := Min((n - 1) * PAGE_SIZE, |data|);
      var hi := Min(n * PAGE_SIZE, |data|);
      assert Unpadded(data, n - 1) == data[lo..hi];
      assert data[..lo] + data[lo..hi] == data[..hi];
    }
  }

  /** Stripping the padding and putting the chunks of all pages together gives
      back the image: write_flash sends every byte once, in order. */
  lemma Reassembled(data: seq<byte>)
    ensures Joined(data, NumPages(|data|)) == data
  {
    JoinedPrefix(data, NumPages(|data|));
  }
}
