/**
  The sector layer: partial reads and streamed writes of 512-byte sectors on an SD card.
*/
module DiskIo {
  import opened Bytes

  lemma Middle(s: seq<byte>, a: seq<byte>, b: seq<byte>, c: seq<byte>)
    requires s == a + b + c
    ensures s[|a|..|a| + |b|] == b
  {
  }

  /**
    A card and the state of its driver. A fault may strike any transfer unless the card is healthy.
    The card is seen through its byte stream: a read command makes it send a 514-byte block (data and
    CRC); a write command makes it collect a block of the same shape.
  */
  class Disk {
    const healthy: bool
    var sectors: seq<Sector>
    // the block being sent, and how much of it has been taken
    var block: seq<byte>
    var pos: nat
    // the write in progress: its sector and the bytes received so far
    var writing: bool
    var target: nat
    var received: seq<byte>
    // the driver's count of data bytes still to be written
    var wc: nat

    constructor (sectors: seq<Sector>, healthy: bool)
      ensures this.sectors == sectors && this.healthy == healthy && !writing
    {
      this.sectors, this.healthy := sectors, healthy;
      block, pos, writing, target, received, wc := [], 0, false, 0, [], 0;
    }

    /** Takes one byte of the block that the card is sending. */
    method Receive() returns (b: byte)
      requires pos < |block|
      modifies this`pos
      ensures b == block[old(pos)] && pos == old(pos) + 1
    {
      b := block[pos];
      pos := pos + 1;
    }

    /** Stores the next `count` bytes of the block in `buff` from `at` on. */
    method ReceiveInto(buff: array<byte>, at: nat, count: nat)
      requires pos + count <= |block| && at + count <= buff.Length
      modifies buff, this`pos
      ensures pos == old(pos) + count
      ensures buff[..] == old(buff[..at]) + block[old(pos)..old(pos) + count] + old(buff[at + count..])
    {
      ghost var start, before := pos, buff[..];
      var n, left := 0, count;
      while left > 0
        invariant 0 <= left && n + left == count && pos == start + n
        invariant buff[..at] == before[..at] && buff[at + n..] == before[at + n..]
        invariant buff[at..at + n] == block[start..start + n]
        decreases left
      {
        var b := Receive();
        buff[at + n] := b;
        n, left := n + 1, left - 1;
      }
      assert buff[..] == buff[..at] + buff[at..at + count] + buff[at + count..];
    }

    /** Sends one byte to the card; it counts only while a block is being written. */
    method Send(b: byte)
      modifies this`received
      ensures received == old(received) + (if writing then [b] else [])
    {
      if writing {
        received := received + [b];
      }
    }

    /**
      Reads `count` bytes from `offset` of a sector into `buff` at `at`. A successful read takes the whole
      block from the card, so the next command finds an empty line.
    */
    method ReadP(buff: array<byte>, at: nat, sector: u32, offset: nat, count: nat) returns (ok: bool)
      requires !writing
      requires 1 <= count && offset + count <= SECTOR_SIZE && at + count <= buff.Length
      modifies buff, this`block, this`pos
      ensures ok ==> sector < |sectors| && pos == |block| == 514
      ensures ok ==> buff[..] == old(buff[..at]) + sectors[sector][offset..offset + count] + old(buff[at + count..])
      ensures ok ==> buff[at..at + count] == sectors[sector][offset..offset + count]
      ensures !ok ==> buff[..] == old(buff[..])
      ensures healthy && sector < |sectors| ==> ok
    {
      var fault := *;
      ok := false;
      if sector < |sectors| && (healthy || !fault) {
        block, pos := sectors[sector] + [0xFF, 0xFF], 0;
        ghost var piece := sectors[sector][offset..offset + count];
        assert block[offset..offset + count] == piece;
        var bc := 512 + 2 - offset - count;
        var skip := offset;
        while skip > 0
          invariant 0 <= skip && pos + skip == offset
          modifies this`pos
        {
          var _ := Receive();
          skip := skip - 1;
        }
        ReceiveInto(buff, at, count);
        Middle(buff[..], old(buff[..at]), piece, old(buff[at + count..]));
        while bc > 0
          invariant 0 <= bc && pos + bc == 514
          modifies this`pos
        {
          var _ := Receive();
          bc := bc - 1;
        }
        ok := true;
      }
    }

    /** What the sector being written becomes if the write is finished now: the rest of it is zero. */
    function Padded(): Sector
      requires |received| <= SECTOR_SIZE
      reads this`received
    {
      received + Zeros(SECTOR_SIZE - |received|)
    }

    /** The driver's counter and the card agree on how much of the block is missing. */
    predicate InStep()
      reads this`writing, this`target, this`sectors, this`received, this`wc
    {
      writing && target < |sectors| && |received| + wc == SECTOR_SIZE
    }

    /** Starts writing a sector (no data, a sector number). */
    method WriteStart(sector: u32) returns (ok: bool)
      requires !writing && sector != 0
      modifies this`writing, this`target, this`received, this`wc
      ensures ok ==> InStep() && target == sector && received == []
      ensures !ok ==> !writing
      ensures healthy && sector < |sectors| ==> ok
    {
      var fault := *;
      ok := false;
      if sector < |sectors| && (healthy || !fault) {
        writing, target, received, wc := true, sector, [], 512;
        ok := true;
      }
    }

    /** Sends data bytes; those that no longer fit in the sector are not sent. */
    method WriteData(buff: array<byte>, at: nat, sc: nat)
      requires at + sc <= buff.Length && InStep()
      modifies this`received, this`wc
      ensures InStep()
      ensures received == old(received) + buff[at..at + Min(sc, old(wc))]
      ensures wc == old(wc) - Min(sc, old(wc))
    {
      var bc, n := sc, 0;
      ghost var before, room := received, wc;
      while bc > 0 && wc > 0
        invariant 0 <= bc && 0 <= wc && n + bc == sc && n + wc == room
        invariant InStep() && received == before + buff[at..at + n]
      {
        Send(buff[at + n]);
        wc, bc, n := wc - 1, bc - 1, n + 1;
        assert buff[at..at + n] == buff[at..at + n - 1] + [buff[at + n - 1]];
      }
    }

    /** Finishes the write in progress (no data, no sector): the rest of the block is sent as zeros. */
    method WriteFinish() returns (ok: bool)
      requires InStep()
      modifies this`sectors, this`received, this`writing
      ensures !writing && |sectors| == |old(sectors)|
      ensures forall i | 0 <= i < |sectors| && i != target :: sectors[i] == old(sectors)[i]
      ensures ok ==> sectors == old(sectors)[target := old(Padded())]
      ensures healthy ==> ok
    {
      var bc := wc + 2;
      ghost var before := received;
      while bc > 0
        invariant 0 <= bc <= wc + 2
        invariant received == before + Zeros(wc + 2 - bc)
        modifies this`received
      {
        Send(0);
        bc := bc - 1;
        assert Zeros(wc + 2 - bc) == Zeros(wc + 1 - bc) + [0];
      }
      var fault := *;
      writing := false;
      ok := healthy || !fault;
      if ok {
        assert received[..SECTOR_SIZE] == before + Zeros(SECTOR_SIZE - |before|);
        sectors := sectors[target := received[..SECTOR_SIZE]];
      } else {
        var garbled: Sector := *;
        sectors := sectors[target := garbled];
      }
    }
  }
}
