/** Reading and writing a file's bytes through whole sectors. */
module InodeIo {
  import opened Prelude
  import opened Div

  const SectorSize: nat := 512

  // ---------------------------------------------------------------------
  // The device as one array of bytes.

  type Sector = s: seq<Byte> | |s| == SectorSize witness seq(SectorSize, _ => 0)

  function Bytes(sectors: seq<Sector>): (b: seq<Byte>)
    ensures |b| == SectorSize * |sectors|
  {
    if sectors == [] then [] else Bytes(sectors[..|sectors| - 1]) + sectors[|sectors| - 1]
  }

  function Overwrite<T>(b: seq<T>, at: nat, d: seq<T>): (r: seq<T>)
    requires at + |d| <= |b|
    ensures |r| == |b|
  {
    b[..at] + d + b[at + |d|..]
  }

  lemma SliceSlice<T>(b: seq<T>, i: nat, j: nat, k: nat, l: nat)
    requires i <= j <= |b| && k <= l <= j - i
    ensures b[i..j][k..l] == b[i + k..i + l]
  {
    var s, t := b[i..j][k..l], b[i + k..i + l];
    forall x | 0 <= x < |s| ensures s[x] == t[x] {
    }
  }

  lemma SliceJoin<T>(b: seq<T>, i: nat, j: nat, k: nat)
    requires i <= j <= k <= |b|
    ensures b[i..j] + b[j..k] == b[i..k] && (i == j ==> [] + b[j..k] == b[i..k])
  {
  }

  lemma {:induction false} SectorBytes(sectors: seq<Sector>, s: nat)
    requires s < |sectors|
    ensures SectorSize * (s + 1) <= SectorSize * |sectors|
    ensures sectors[s] == Bytes(sectors)[SectorSize * s..SectorSize * (s + 1)]
  {
    if s < |sectors| - 1 {
      SectorBytes(sectors[..|sectors| - 1], s);
    }
  }

  lemma {:induction false} SectorWritten(sectors: seq<Sector>, s: nat, data: Sector)
    requires s < |sectors|
    ensures SectorSize * (s + 1) <= SectorSize * |sectors|
    ensures Bytes(sectors[s := data]) == Overwrite(Bytes(sectors), SectorSize * s, data)
  {
    var front, after := sectors[..|sectors| - 1], sectors[s := data];
    if s < |sectors| - 1 {
      SectorWritten(front, s, data);
      assert after[..|sectors| - 1] == front[s := data];
    } else {
      assert after[..|sectors| - 1] == front;
    }
  }

  /** Writing back a sector with a piece of it changed changes that piece of the device. */
  lemma PieceWritten(b: seq<Byte>, s: nat, sector: Sector, ofs: nat, piece: seq<Byte>)
    requires SectorSize * (s + 1) <= |b| && sector == b[SectorSize * s..SectorSize * (s + 1)]
    requires ofs + |piece| <= SectorSize
    ensures Overwrite(b, SectorSize * s, Overwrite(sector, ofs, piece)) == Overwrite(b, SectorSize * s + ofs, piece)
  {
  }

  /** The bytes d have gone to their place, if there are any, and the rest is as before. */
  ghost predicate Placed(before: seq<Byte>, at: nat, d: seq<Byte>, after: seq<Byte>) {
    && |after| == |before| && (d != [] ==> at + |d| <= |before|)
    && forall x :: 0 <= x < |after| ==> after[x] == if at <= x < at + |d| then d[x - at] else before[x]
  }

  /** n bytes of a file from an offset on; none from any offset. */
  function Piece(file: seq<Byte>, offset: nat, n: nat): seq<Byte>
    requires n > 0 ==> offset + n <= |file|
  {
    if n == 0 then [] else file[offset..offset + n]
  }

  lemma NextPiece(before: seq<Byte>, at: nat, file: seq<Byte>, offset: nat, n: nat, mid: seq<Byte>, chunk: nat, after: seq<Byte>)
    requires offset + n + chunk <= |file| && chunk > 0 && at + n + chunk <= |mid|
    requires Placed(before, at, Piece(file, offset, n), mid)
    requires after == Overwrite(mid, at + n, file[offset + n..offset + n + chunk])
    ensures Placed(before, at, Piece(file, offset, n + chunk), after)
  {
    PieceGrows(file, offset, n, chunk);
    PiecesJoin(before, at, Piece(file, offset, n), mid, file[offset + n..offset + n + chunk], after);
  }

  lemma PieceGrows(file: seq<Byte>, offset: nat, n: nat, chunk: nat)
    requires offset + n + chunk <= |file| && chunk > 0
    ensures Piece(file, offset, n) + file[offset + n..offset + n + chunk] == Piece(file, offset, n + chunk)
  {
    SliceJoin(file, offset, offset + n, offset + n + chunk);
  }

  /** Two pieces next to each other are one. */
  lemma PiecesJoin(before: seq<Byte>, at: nat, d: seq<Byte>, mid: seq<Byte>, e: seq<Byte>, after: seq<Byte>)
    requires Placed(before, at, d, mid) && at + |d| + |e| <= |mid| && e != [] && after == Overwrite(mid, at + |d|, e)
    ensures Placed(before, at, d + e, after)
  {
  }

  // ---------------------------------------------------------------------
  // Files.

  datatype Inode = Inode(start: nat, length: nat, denyWriteCnt: nat)

  function BytesToSectors(size: nat): nat {
    (size + SectorSize - 1) / SectorSize
  }

  /** As many sectors of 512 bytes as the bytes need, and no more. */
  lemma SectorsNeeded(size: nat)
    ensures 512 * (BytesToSectors(size) - 1) < size <= 512 * BytesToSectors(size)
  {
  }

  /** The file's sectors are on the device. */
  predicate OnDevice(inode: Inode, sectors: nat) {
    inode.start + BytesToSectors(inode.length) <= sectors
  }

  function ByteToSector(inode: Inode, pos: nat): (s: int)
    ensures pos < inode.length ==> inode.start <= s < inode.start + BytesToSectors(inode.length) &&
                                   SectorSize * s + pos % SectorSize == SectorSize * inode.start + pos
    ensures pos >= inode.length ==> s == -1
  {
    if pos < inode.length then inode.start + pos / SectorSize else -1
  }

  /** The bytes a transfer of size bytes at offset moves: no more than are asked for, and
      none from beyond the end of the file. */
  function Extent(inode: Inode, size: int, offset: nat): nat {
    Min(Max(size, 0), Max(0, inode.length - offset))
  }

  /** The same without memory for a bounce buffer: whole sectors only. */
  function DirectExtent(inode: Inode, size: int, offset: nat): nat {
    if offset % SectorSize != 0 then 0 else Extent(inode, size, offset) / SectorSize * SectorSize
  }

  lemma FileOnDevice(inode: Inode, sectors: nat)
    requires OnDevice(inode, sectors)
    ensures SectorSize * inode.start + inode.length <= SectorSize * sectors
  {
  }

  /** The file's contents. */
  ghost function Contents(inode: Inode, b: seq<Byte>): seq<Byte>
    requires SectorSize * inode.start + inode.length <= |b|
  {
    b[SectorSize * inode.start..SectorSize * inode.start + inode.length]
  }

  class Device {
    var sectors: seq<Sector>

    method BlockRead(s: nat) returns (data: Sector)
      requires s < |sectors|
      ensures data == sectors[s]
    {
      data := sectors[s];
    }

    method BlockWrite(s: nat, data: Sector)
      requires s < |sectors|
      modifies this
      ensures sectors == old(sectors)[s := data]
    {
      sectors := sectors[s := data];
    }
  }

  /** The bytes to move next: up to the end of the request, the file and the sector. */
  function ChunkSize(inode: Inode, size: int, offset: nat): int {
    Min(size, Min(inode.length - offset, SectorSize - offset % SectorSize))
  }

  predicate WholeSector(inode: Inode, size: int, offset: nat) {
    offset % SectorSize == 0 && ChunkSize(inode, size, offset) == SectorSize
  }

  /** What a transfer loop knows after n bytes. */
  predicate Progress(inode: Inode, size: int, offset: nat, n: nat, memory: bool) {
    && n <= Max(size, 0) && (n > 0 ==> offset + n <= inode.length)
    && (!memory ==> n % SectorSize == 0 && (n > 0 ==> offset % SectorSize == 0))
  }

  lemma ProgressStep(inode: Inode, size: int, offset: nat, n: nat, memory: bool)
    requires Progress(inode, size, offset, n, memory) && n <= size
    requires memory || WholeSector(inode, size - n, offset + n)
    ensures var chunk := ChunkSize(inode, size - n, offset + n);
            chunk > 0 ==>
              Progress(inode, size, offset, n + chunk, memory) && n + chunk <= size && offset + n + chunk <= inode.length
  {
  }

  /** Where the loop stops it has moved all it should. */
  lemma ProgressEnds(inode: Inode, size: int, offset: nat, n: nat, memory: bool)
    requires Progress(inode, size, offset, n, memory)
    requires n >= size || ChunkSize(inode, size - n, offset + n) <= 0 || (!memory && !WholeSector(inode, size - n, offset + n))
    ensures n == if memory then Extent(inode, size, offset) else DirectExtent(inode, size, offset)
  {
    if !memory && offset % SectorSize == 0 {
      assert (offset + n) % SectorSize == 0;
      QuotientUnique(Extent(inode, size, offset), SectorSize, n / SectorSize);
    }
  }

  /** A piece of a sector is a piece of the file the sector belongs to. */
  lemma SamePiece(b: seq<Byte>, s: nat, base: nat, length: nat, pos: nat, ofs: nat, chunk: nat)
    requires SectorSize * (s + 1) <= |b| && base + length <= |b| && SectorSize * s + ofs == base + pos
    requires ofs + chunk <= SectorSize && pos + chunk <= length
    ensures b[SectorSize * s..SectorSize * (s + 1)][ofs..ofs + chunk] == b[base..base + length][pos..pos + chunk]
  {
    SliceSlice(b, SectorSize * s, SectorSize * (s + 1), ofs, ofs + chunk);
    SliceSlice(b, base, base + length, pos, pos + chunk);
  }

  /** Copies a piece into the buffer. */
  method CopyOut(buffer: array<Byte>, at: nat, piece: seq<Byte>)
    requires at + |piece| <= buffer.Length
    modifies buffer
    ensures buffer[..] == Overwrite(old(buffer[..]), at, piece)
  {
    forall k | 0 <= k < |piece| {
      buffer[at + k] := piece[k];
    }
  }

  /** One sector's part of a read, directly or through a bounce buffer. */
  method ReadPiece(device: Device, inode: Inode, pos: nat, chunk: nat, buffer: array<Byte>, at: nat)
    requires OnDevice(inode, |device.sectors|)
    requires chunk > 0 && pos + chunk <= inode.length && pos % SectorSize + chunk <= SectorSize
    requires at + chunk <= buffer.Length
    modifies buffer
    ensures SectorSize * inode.start + inode.length <= SectorSize * |device.sectors|
    ensures buffer[..] == Overwrite(old(buffer[..]), at, Contents(inode, Bytes(device.sectors))[pos..pos + chunk])
  {
    var sector, ofs := ByteToSector(inode, pos), pos % SectorSize;
    FileOnDevice(inode, |device.sectors|);
    SectorBytes(device.sectors, sector);
    SamePiece(Bytes(device.sectors), sector, SectorSize * inode.start, inode.length, pos, ofs, chunk);
    var data := device.BlockRead(sector);
    CopyOut(buffer, at, data[ofs..ofs + chunk]);
  }

  /** The chunk after the n bytes already read. */
  method ReadNext(device: Device, inode: Inode, pos: nat, chunk: nat, buffer: array<Byte>, n: nat,
                  ghost before: seq<Byte>, ghost offset: nat)
    requires OnDevice(inode, |device.sectors|)
    requires chunk > 0 && pos + chunk <= inode.length && pos % SectorSize + chunk <= SectorSize
    requires SectorSize * inode.start + inode.length <= SectorSize * |device.sectors|
    requires pos == offset + n && n + chunk <= buffer.Length
    requires Placed(before, 0, Piece(Contents(inode, Bytes(device.sectors)), offset, n), buffer[..])
    modifies buffer
    ensures Placed(before, 0, Piece(Contents(inode, Bytes(device.sectors)), offset, n + chunk), buffer[..])
  {
    ghost var file, mid := Contents(inode, Bytes(device.sectors)), buffer[..];
    ReadPiece(device, inode, pos, chunk, buffer, n);
    NextPiece(before, 0, file, offset, n, mid, chunk, buffer[..]);
  }

  /** inode_read_at: the file's bytes come to the front of the buffer, and the rest of the
      buffer stays. */
  method ReadAt(device: Device, inode: Inode, buffer: array<Byte>, size: int, offset: nat, memory: bool) returns (n: nat)
    requires OnDevice(inode, |device.sectors|) && size <= buffer.Length
    modifies buffer
    ensures n == if memory then Extent(inode, size, offset) else DirectExtent(inode, size, offset)
    ensures n <= buffer.Length && (n > 0 ==> offset + n <= inode.length)
    ensures SectorSize * inode.start + inode.length <= SectorSize * |device.sectors|
    ensures Placed(old(buffer[..]), 0, Piece(Contents(inode, Bytes(device.sectors)), offset, n), buffer[..])
  {
    FileOnDevice(inode, |device.sectors|);
    ghost var file := Contents(inode, Bytes(device.sectors));
    n := 0;
    var left, pos := size, offset;
    while left > 0
      invariant pos == offset + n && left == size - n && Progress(inode, size, offset, n, memory)
      invariant Placed(old(buffer[..]), 0, Piece(file, offset, n), buffer[..])
    {
      var chunk := ChunkSize(inode, left, pos);
      if chunk <= 0 {
        break;
      }
      if !WholeSector(inode, left, pos) && !memory {
        break;
      }
      ProgressStep(inode, size, offset, n, memory);
      ReadNext(device, inode, pos, chunk, buffer, n, old(buffer[..]), offset);
      left, pos, n := left - chunk, pos + chunk, n + chunk;
    }
    ProgressEnds(inode, size, offset, n, memory);
  }

  /** One sector's part of a write, directly or through a bounce buffer. A piece that goes
      through the bounce buffer does not fill its sector, so the sector is always read first. */
  method WritePiece(device: Device, inode: Inode, pos: nat, piece: seq<Byte>)
    requires OnDevice(inode, |device.sectors|) && |piece| > 0 && pos + |piece| <= inode.length
    requires pos % SectorSize + |piece| <= SectorSize
    modifies device
    ensures |device.sectors| == old(|device.sectors|) && SectorSize * inode.start + pos + |piece| <= |Bytes(device.sectors)|
    ensures Bytes(device.sectors) == Overwrite(Bytes(old(device.sectors)), SectorSize * inode.start + pos, piece)
  {
    FileOnDevice(inode, |device.sectors|);
    var sector, ofs := ByteToSector(inode, pos), pos % SectorSize;
    SectorBytes(device.sectors, sector);
    var bounce: Sector;
    if ofs == 0 && |piece| == SectorSize {
      bounce := piece;
      assert bounce == Overwrite(device.sectors[sector], ofs, piece);
    } else {
      bounce := device.BlockRead(sector);
      bounce := Overwrite(bounce, ofs, piece);
    }
    PieceWritten(Bytes(device.sectors), sector, device.sectors[sector], ofs, piece);
    SectorWritten(device.sectors, sector, bounce);
    device.BlockWrite(sector, bounce);
  }

  /** The chunk after the n bytes already written. */
  method WriteNext(device: Device, inode: Inode, pos: nat, chunk: nat, buffer: seq<Byte>, n: nat,
                   ghost before: seq<Byte>, ghost offset: nat)
    requires OnDevice(inode, |device.sectors|)
    requires chunk > 0 && pos + chunk <= inode.length && pos % SectorSize + chunk <= SectorSize
    requires pos == offset + n && n + chunk <= |buffer|
    requires Placed(before, SectorSize * inode.start + offset, Piece(buffer, 0, n), Bytes(device.sectors))
    modifies device
    ensures |device.sectors| == old(|device.sectors|)
    ensures Placed(before, SectorSize * inode.start + offset, Piece(buffer, 0, n + chunk), Bytes(device.sectors))
  {
    ghost var mid := Bytes(device.sectors);
    WritePiece(device, inode, pos, buffer[n..n + chunk]);
    NextPiece(before, SectorSize * inode.start + offset, buffer, 0, n, mid, chunk, Bytes(device.sectors));
  }

  /** inode_write_at: the bytes go to their place in the file, and every other byte of the
      device stays. */
  method WriteAt(device: Device, inode: Inode, buffer: seq<Byte>, size: int, offset: nat, memory: bool) returns (n: nat)
    requires OnDevice(inode, |device.sectors|) && size <= |buffer|
    modifies device
    ensures n == if inode.denyWriteCnt > 0 then 0
                 else if memory then Extent(inode, size, offset)
                 else DirectExtent(inode, size, offset)
    ensures n <= |buffer| && (n > 0 ==> offset + n <= inode.length) && |device.sectors| == old(|device.sectors|)
    ensures Placed(Bytes(old(device.sectors)), SectorSize * inode.start + offset, Piece(buffer, 0, n), Bytes(device.sectors))
  {
    n := 0;
    if inode.denyWriteCnt > 0 {
      return;
    }
    FileOnDevice(inode, |device.sectors|);
    ghost var before, base := Bytes(device.sectors), SectorSize * inode.start;
    var left, pos := size, offset;
    while left > 0
      invariant pos == offset + n && left == size - n && Progress(inode, size, offset, n, memory)
      invariant |device.sectors| == old(|device.sectors|)
      invariant Placed(before, base + offset, Piece(buffer, 0, n), Bytes(device.sectors))
    {
      var chunk := ChunkSize(inode, left, pos);
      if chunk <= 0 {
        break;
      }
      if !WholeSector(inode, left, pos) && !memory {
        break;
      }
      ProgressStep(inode, size, offset, n, memory);
      WriteNext(device, inode, pos, chunk, buffer, n, before, offset);
      left, pos, n := left - chunk, pos + chunk, n + chunk;
    }
    ProgressEnds(inode, size, offset, n, memory);
  }

  // ---------------------------------------------------------------------
  // What that means for files.

  /** After a write, the file is the old file with the bytes in their place: a read gives
      back what the write before it put there. */
  lemma ReadAfterWrite(inode: Inode, b: seq<Byte>, offset: nat, d: seq<Byte>, after: seq<Byte>)
    requires SectorSize * inode.start + inode.length <= |b| && offset + |d| <= inode.length
    requires Placed(b, SectorSize * inode.start + offset, d, after)
    ensures Placed(Contents(inode, b), offset, d, Contents(inode, after))
    ensures Piece(Contents(inode, after), offset, |d|) == d
  {
    var base := SectorSize * inode.start;
    forall x | 0 <= x < inode.length
      ensures Contents(inode, after)[x] == if offset <= x < offset + |d| then d[x - offset] else Contents(inode, b)[x]
    {
      assert after[base + x] == if base + offset <= base + x < base + offset + |d| then d[x - offset] else b[base + x];
    }
  }

  /** A write to one file leaves the contents of a file in other sectors. */
  lemma OtherFilesKept(f: Inode, g: Inode, b: seq<Byte>, offset: nat, d: seq<Byte>, after: seq<Byte>)
    requires SectorSize * f.start + f.length <= |b| && SectorSize * g.start + g.length <= |b| && offset + |d| <= f.length
    requires f.start + BytesToSectors(f.length) <= g.start || g.start + BytesToSectors(g.length) <= f.start
    requires Placed(b, SectorSize * f.start + offset, d, after)
    ensures Contents(g, after) == Contents(g, b)
  {
  }
}
