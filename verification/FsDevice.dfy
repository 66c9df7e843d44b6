/** The block device, and reading and writing byte ranges of an inode one sector at a time
    (inode_read_at and inode_write_at in Project 2/src/filesys/inode.c). */
module FsDevice {
  import opened Machine
  import opened FsLayout

  type Disk = seq<Bytes>

  predicate DiskOk(d: Disk) { forall x | 0 <= x < |d| :: |d[x]| == 512 }

  /** The device as one array of bytes. */
  function ByteAt(d: Disk, a: nat): byte
    requires DiskOk(d) && a < 512 * |d|
  {
    d[a / 512][a % 512]
  }

  /** The contents of a file of the given length whose first sector is start. */
  function FileBytes(d: Disk, start: nat, length: nat): (b: Bytes)
    requires DiskOk(d) && 512 * start + length <= 512 * |d|
    ensures |b| == length
  {
    seq<byte>(length, i requires 0 <= i < length => ByteAt(d, 512 * start + i))
  }

  /** The device after a write of data at byte address a: no other byte changes. */
  function Overwrite(d: Disk, a: nat, data: Bytes): (r: Disk)
    requires DiskOk(d)
    ensures |r| == |d| && DiskOk(r)
  {
    seq(|d|, x requires 0 <= x < |d| => OverwriteSector(d[x], 512 * x, a, data))
  }

  function OverwriteSector(s: Bytes, base: nat, a: nat, data: Bytes): (r: Bytes)
    ensures |r| == |s|
  {
    seq(|s|, k requires 0 <= k < |s| => if a <= base + k < a + |data| then data[base + k - a] else s[k])
  }

  lemma OverwriteByte(d: Disk, a: nat, data: Bytes, c: nat)
    requires DiskOk(d) && c < 512 * |d|
    ensures ByteAt(Overwrite(d, a, data), c) == if a <= c < a + |data| then data[c - a] else ByteAt(d, c)
  {
  }

  lemma SectorsEqual(p: Disk, q: Disk)
    requires DiskOk(p) && DiskOk(q) && |p| == |q|
    requires forall c: nat | c < 512 * |p| :: ByteAt(p, c) == ByteAt(q, c)
    ensures p == q
  {
    forall x | 0 <= x < |p| ensures p[x] == q[x] {
      forall k | 0 <= k < 512 ensures p[x][k] == q[x][k] {
        assert ByteAt(p, 512 * x + k) == ByteAt(q, 512 * x + k);
      }
    }
  }

  lemma OverwriteNothing(d: Disk, a: nat)
    requires DiskOk(d)
    ensures Overwrite(d, a, []) == d
  {
    forall c: nat | c < 512 * |d| ensures ByteAt(Overwrite(d, a, []), c) == ByteAt(d, c) { OverwriteByte(d, a, [], c); }
    SectorsEqual(Overwrite(d, a, []), d);
  }

  lemma OverwriteTwice(d: Disk, a: nat, p: Bytes, q: Bytes)
    requires DiskOk(d)
    ensures Overwrite(Overwrite(d, a, p), a + |p|, q) == Overwrite(d, a, p + q)
  {
    var l, r := Overwrite(Overwrite(d, a, p), a + |p|, q), Overwrite(d, a, p + q);
    forall c: nat | c < 512 * |d| ensures ByteAt(l, c) == ByteAt(r, c) {
      OverwriteByte(d, a, p, c);
      OverwriteByte(Overwrite(d, a, p), a + |p|, q, c);
      OverwriteByte(d, a, p + q, c);
    }
    SectorsEqual(l, r);
  }

  /** Writing one sector back with a chunk replaced overwrites just that chunk. */
  lemma OverwriteChunk(d: Disk, x: nat, ofs: nat, chunk: Bytes)
    requires DiskOk(d) && x < |d| && ofs + |chunk| <= 512
    ensures d[x := d[x][..ofs] + chunk + d[x][ofs + |chunk|..]] == Overwrite(d, 512 * x + ofs, chunk)
  {
    var l, r := d[x := d[x][..ofs] + chunk + d[x][ofs + |chunk|..]], Overwrite(d, 512 * x + ofs, chunk);
    forall y | 0 <= y < |d| ensures l[y] == r[y] {
      forall k | 0 <= k < 512 ensures l[y][k] == r[y][k] { }
    }
  }

  /** A write inside a file replaces that range of its contents. */
  lemma FileAfterWrite(d: Disk, start: nat, length: nat, off: nat, data: Bytes)
    requires DiskOk(d) && 512 * start + length <= 512 * |d| && off + |data| <= length
    ensures var c := FileBytes(d, start, length);
            FileBytes(Overwrite(d, 512 * start + off, data), start, length) == c[..off] + data + c[off + |data|..]
  {
    var c := FileBytes(d, start, length);
    var c' := FileBytes(Overwrite(d, 512 * start + off, data), start, length);
    forall i | 0 <= i < length ensures c'[i] == (c[..off] + data + c[off + |data|..])[i] {
      OverwriteByte(d, 512 * start + off, data, 512 * start + i);
    }
  }

  /** Sectors outside the written range keep their contents. */
  lemma SectorUntouched(d: Disk, a: nat, data: Bytes, x: nat)
    requires DiskOk(d) && x < |d| && (512 * x + 512 <= a || a + |data| <= 512 * x)
    ensures Overwrite(d, a, data)[x] == d[x]
  {
  }

  function Min(a: int, b: int): int { if a < b then a else b }

  /** How much of a request lies inside the file. */
  function Transferable(length: nat, size: int, offset: nat): (n: nat)
    ensures size <= 0 ==> n == 0
    ensures n <= if size > 0 then size else 0
    ensures n > 0 ==> offset + n <= length
  {
    if size <= 0 || offset >= length then 0 else Min(size, length - offset)
  }

  /** How much is moved: all of that if there is a bounce buffer, otherwise what comes before
      the first partial sector. */
  function Moved(length: nat, size: int, offset: nat, bounceOk: bool): (n: nat)
    ensures n <= Transferable(length, size, offset)
  {
    var n := Transferable(length, size, offset);
    if bounceOk then n else if offset % 512 == 0 then n - n % 512 else 0
  }

  class Device {
    var sectors: Disk

    constructor (d: Disk)
      ensures sectors == d
    {
      sectors := d;
    }

    method BlockRead(x: nat) returns (b: Bytes)
      requires x < |sectors|
      ensures b == sectors[x]
    {
      b := sectors[x];
    }

    method BlockWrite(x: nat, b: Bytes)
      requires x < |sectors| && |b| == 512 && DiskOk(sectors)
      modifies this
      ensures sectors == old(sectors)[x := b] && DiskOk(sectors)
    {
      sectors := sectors[x := b];
    }

    /** Reads the part of the request that lies inside the file, in pieces that do not
        cross a sector. If the bounce buffer cannot be allocated, the transfer stops at the
        first partial sector. */
    method InodeReadAt(start: nat, length: nat, size0: int, offset0: nat, bounceOk: bool) returns (buffer: Bytes)
      requires DiskOk(sectors) && 512 * start + length <= 512 * |sectors|
      ensures |buffer| == Moved(length, size0, offset0, bounceOk)
      ensures buffer != [] ==> buffer == FileBytes(sectors, start, length)[offset0..offset0 + |buffer|]
    {
      hide FileBytes, Underway, Moved;
      NothingMoved(length, size0, offset0, bounceOk);
      var size, offset := size0, offset0;
      buffer := [];
      while size > 0
        invariant Underway(length, size0, offset0, bounceOk, |buffer|)
        invariant offset == offset0 + |buffer| && size == size0 - |buffer|
        invariant buffer != [] ==> offset <= length && buffer == FileBytes(sectors, start, length)[offset0..offset]
      {
        var sectorOfs := offset % 512;
        var chunk := Min(size, Min(length - offset, 512 - sectorOfs));
        NextChunk(length, size0, offset0, bounceOk, |buffer|, chunk);
        if chunk <= 0 { break; }
        var x := start + offset / 512;
        var b: Bytes;
        if sectorOfs == 0 && chunk == 512 {
          b := BlockRead(x);
        } else {
          if !bounceOk { return; }
          var bounce := BlockRead(x);
          b := bounce[sectorOfs..sectorOfs + chunk];
        }
        ChunkIsFilePart(sectors, start, length, offset, chunk);
        NextSlice(FileBytes(sectors, start, length), offset0, buffer, b, offset, offset + chunk);
        buffer := buffer + b;
        offset, size := offset + chunk, size - chunk;
      }
      if size <= 0 { AllMoved(length, size0, offset0, bounceOk, |buffer|); }
    }

    /** Writes the part of the request that lies inside the file. Every other byte of the
        device, including the unused tail of the last sector, is left alone. */
    method InodeWriteAt(start: nat, length: nat, denied: bool, buffer: Bytes, size0: int, offset0: nat, bounceOk: bool)
      returns (written: nat)
      requires DiskOk(sectors) && 512 * start + length <= 512 * |sectors| && size0 <= |buffer|
      modifies this
      ensures DiskOk(sectors)
      ensures written == (if denied then 0 else Moved(length, size0, offset0, bounceOk)) && written <= |buffer|
      ensures sectors == Overwrite(old(sectors), 512 * start + offset0, buffer[..written])
    {
      hide Underway, Moved, Overwrite;
      NothingMoved(length, size0, offset0, bounceOk);
      var size, offset := size0, offset0;
      written := 0;
      OverwriteNothing(sectors, 512 * start + offset0);
      if denied { return; }
      while size > 0
        invariant Underway(length, size0, offset0, bounceOk, written) && DiskOk(sectors) && |sectors| == |old(sectors)|
        invariant offset == offset0 + written && size == size0 - written && written <= |buffer|
        invariant sectors == Overwrite(old(sectors), 512 * start + offset0, buffer[..written])
      {
        var sectorOfs := offset % 512;
        var sectorLeft := 512 - sectorOfs;
        var chunk := Min(size, Min(length - offset, sectorLeft));
        NextChunk(length, size0, offset0, bounceOk, written, chunk);
        if chunk <= 0 { break; }
        var x := start + offset / 512;
        var part := buffer[written..written + chunk];
        OverwriteNext(old(sectors), sectors, 512 * start + offset0, buffer, written, chunk, x, sectorOfs);
        if sectorOfs == 0 && chunk == 512 {
          assert sectors[x][..0] + part + sectors[x][512..] == part;
          BlockWrite(x, part);
        } else {
          if !bounceOk { return; }
          var bounce := Zeros(512);
          if sectorOfs > 0 || chunk < sectorLeft { bounce := BlockRead(x); }
          bounce := bounce[..sectorOfs] + part + bounce[sectorOfs + chunk..];
          BlockWrite(x, bounce);
        }
        size, offset, written := size - chunk, offset + chunk, written + chunk;
      }
      if size <= 0 { AllMoved(length, size0, offset0, bounceOk, written); }
    }
  }

  /** Replacing a part of one sector after the bytes before it have been written. */
  lemma OverwriteNext(d0: Disk, d: Disk, a: nat, buffer: Bytes, done: nat, chunk: nat, x: nat, ofs: nat)
    requires DiskOk(d0) && DiskOk(d) && done + chunk <= |buffer| && d == Overwrite(d0, a, buffer[..done])
    requires x < |d| && a + done == 512 * x + ofs && ofs + chunk <= 512
    ensures var part := buffer[done..done + chunk];
            d[x := d[x][..ofs] + part + d[x][ofs + chunk..]] == Overwrite(d0, a, buffer[..done + chunk])
  {
    var part := buffer[done..done + chunk];
    OverwriteChunk(d, x, ofs, part);
    OverwriteTwice(d0, a, buffer[..done], part);
    assert buffer[..done] + part == buffer[..done + chunk];
  }

  /** How far a transfer may have come: without a bounce buffer, over whole sectors only. */
  predicate Underway(length: nat, size: int, offset: nat, bounceOk: bool, done: nat) {
    done <= Transferable(length, size, offset) && (!bounceOk ==> if offset % 512 == 0 then done % 512 == 0 else done == 0)
  }

  lemma NothingMoved(length: nat, size: int, offset: nat, bounceOk: bool)
    ensures Underway(length, size, offset, bounceOk, 0)
    ensures Moved(length, size, offset, bounceOk) <= if size > 0 then size else 0
  {
  }

  lemma AllMoved(length: nat, size: int, offset: nat, bounceOk: bool, done: nat)
    requires Underway(length, size, offset, bounceOk, done) && size - done <= 0
    ensures done == Moved(length, size, offset, bounceOk)
  {
  }

  /** The transfer ends here, or its next piece lies inside the request and the file. */
  lemma NextChunk(length: nat, size: int, offset: nat, bounceOk: bool, done: nat, chunk: int)
    requires Underway(length, size, offset, bounceOk, done) && size - done > 0
    requires chunk == Min(size - done, Min(length - (offset + done), 512 - (offset + done) % 512))
    ensures chunk <= 0 || (!bounceOk && ((offset + done) % 512 != 0 || chunk != 512)) ==> done == Moved(length, size, offset, bounceOk)
    ensures chunk > 0 && (bounceOk || ((offset + done) % 512 == 0 && chunk == 512)) ==> Underway(length, size, offset, bounceOk, done + chunk)
  {
    var n := Transferable(length, size, offset);
    if chunk > 0 && !bounceOk && offset % 512 == 0 {
      assert (offset + done) % 512 == 0;
      assert (done + 512) % 512 == 0;
    }
  }

  lemma NextSlice(c: Bytes, a: nat, part: Bytes, b: Bytes, m: nat, n: nat)
    requires a + |part| == m <= n <= |c| && (part != [] ==> part == c[a..m]) && b == c[m..n]
    ensures part + b == c[a..n]
  {
  }

  lemma ChunkIsFilePart(d: Disk, start: nat, length: nat, offset: nat, chunk: nat)
    requires DiskOk(d) && 512 * start + length <= 512 * |d|
    requires offset + chunk <= length && offset % 512 + chunk <= 512 && chunk > 0
    ensures start + offset / 512 < |d|
    ensures d[start + offset / 512][offset % 512..offset % 512 + chunk] == FileBytes(d, start, length)[offset..offset + chunk]
  {
    var l := d[start + offset / 512][offset % 512..offset % 512 + chunk];
    var r := FileBytes(d, start, length)[offset..offset + chunk];
    forall k | 0 <= k < chunk ensures l[k] == r[k] {
      var a := 512 * start + (offset + k);
      assert a / 512 == start + offset / 512 && a % 512 == offset % 512 + k;
      assert r[k] == ByteAt(d, a);
    }
  }
}
