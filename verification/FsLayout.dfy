/** On-disk formats of the file system: inodes (Project 2/src/filesys/inode.c), directory
    entries (Project 2/src/filesys/directory.c) and the free map
    (Project 1a/src/lib/kernel/bitmap.c as written by Project 2/src/filesys/free-map.c).
    Words are stored low byte first. */
module FsLayout {
  import opened Machine

  const INODE_MAGIC := 0x494e4f44
  const NAME_MAX := 14

  type Bytes = seq<byte>
  type Name = seq<byte>

  function Word(x: u32): (b: Bytes)
    ensures |b| == 4
  {
    [x % 256, x / 256 % 256, x / 65536 % 256, x / 16777216]
  }

  function FromWord(b: Bytes): (x: u32)
    requires |b| == 4
  {
    b[0] as int + b[1] as int * 256 + b[2] as int * 65536 + b[3] as int * 16777216
  }

  lemma WordRoundTrip(x: u32)
    ensures FromWord(Word(x)) == x
  {
    var a := x / 256;
    var b := a / 256;
    assert x / 65536 == b && x / 16777216 == b / 256;
    assert x == x % 256 + 256 * a && a == a % 256 + 256 * b && b == b % 256 + 256 * (b / 256);
  }

  function Zeros(n: nat): (z: Bytes)
    ensures |z| == n
  {
    seq(n, _ => 0)
  }

  // ----- inodes -----

  datatype InodeDisk = InodeDisk(start: u32, length: s32)

  function EncodeInode(d: InodeDisk): (b: Bytes)
    ensures |b| == 512
  {
    Word(d.start) + Word(U32(d.length)) + Word(INODE_MAGIC) + Zeros(500)
  }

  function DecodeInode(b: Bytes): InodeDisk
    requires |b| == 512
  {
    InodeDisk(FromWord(b[..4]), S32(FromWord(b[4..8])))
  }

  lemma InodeRoundTrip(d: InodeDisk)
    ensures DecodeInode(EncodeInode(d)) == d
  {
    var b := EncodeInode(d);
    assert b[..4] == Word(d.start) && b[4..8] == Word(U32(d.length));
    WordRoundTrip(d.start);
    WordRoundTrip(U32(d.length));
  }

  // ----- directory entries -----

  /** struct dir_entry: 4 + 15 + 1 bytes. */
  datatype Entry = Entry(sector: u32, name: Bytes, inUse: byte)

  predicate EntryOk(e: Entry) { |e.name| == NAME_MAX + 1 }

  function EncodeEntry(e: Entry): (b: Bytes)
    requires EntryOk(e)
    ensures |b| == 20
  {
    Word(e.sector) + e.name + [e.inUse]
  }

  function DecodeEntry(b: Bytes): (e: Entry)
    requires |b| == 20
    ensures EntryOk(e)
  {
    Entry(FromWord(b[..4]), b[4..19], b[19])
  }

  lemma EntryRoundTrip(e: Entry)
    requires EntryOk(e)
    ensures DecodeEntry(EncodeEntry(e)) == e
  {
    var b := EncodeEntry(e);
    assert b[..4] == Word(e.sector) && b[4..19] == e.name;
    WordRoundTrip(e.sector);
  }

  /** The C string at the start of a buffer: the bytes before the first null byte. */
  function CString(b: Bytes): (s: Name)
    ensures |s| <= |b| && 0 !in s && s <= b
    ensures |s| < |b| ==> b[|s|] == 0
  {
    if b == [] || b[0] == 0 then [] else
      var s := CString(b[1..]);
      assert b == [b[0]] + b[1..];
      [b[0]] + s
  }

  /** strlcpy of a string that fits. */
  function CopyString(b: Bytes, s: Name): (r: Bytes)
    requires |s| < |b|
    ensures |r| == |b|
  {
    s + [0] + b[|s| + 1..]
  }

  lemma {:induction false} CStringPrefix(s: Name, rest: Bytes)
    requires 0 !in s
    ensures CString(s + [0] + rest) == s
  {
    if s != [] {
      var b := s + [0] + rest;
      assert b[1..] == s[1..] + [0] + rest;
      assert b[0] == s[0] && s[0] in s;
      CStringPrefix(s[1..], rest);
    }
  }

  /** What strlcpy stores is read back by strcmp. */
  lemma CopyStringRoundTrip(b: Bytes, s: Name)
    requires |s| < |b| && 0 !in s
    ensures CString(CopyString(b, s)) == s
  {
    CStringPrefix(s, b[|s| + 1..]);
  }

  // ----- the free map -----

  function Digit(b: bool): int { if b then 1 else 0 }

  function BitOf(m: seq<bool>, i: nat): bool { i < |m| && m[i] }

  /** n bits from bit i on, the lowest-numbered bit in the lowest place. */
  function Pack(m: seq<bool>, i: nat, n: nat): (x: nat)
    ensures n <= 8 ==> x < [1, 2, 4, 8, 16, 32, 64, 128, 256][n]
    decreases n
  {
    if n == 0 then 0 else Digit(BitOf(m, i)) + 2 * Pack(m, i + 1, n - 1)
  }

  function UnpackBit(x: nat, j: nat): bool {
    if j == 0 then x % 2 == 1 else UnpackBit(x / 2, j - 1)
  }

  /** The size of the free-map file: whole 32-bit words. */
  function MapBytes(bits: nat): nat { (bits + 31) / 32 * 4 }

  function EncodeMap(m: seq<bool>): (b: Bytes)
    ensures |b| == MapBytes(|m|)
  {
    seq(MapBytes(|m|), k requires k >= 0 => Pack(m, 8 * k, 8))
  }

  function DecodeMap(b: Bytes, bits: nat): (m: seq<bool>)
    requires |b| == MapBytes(bits)
  {
    seq(bits, i requires 0 <= i < bits => UnpackBit(b[i / 8], i % 8))
  }

  lemma {:induction false} UnpackPacked(m: seq<bool>, i: nat, n: nat, j: nat)
    requires j < n
    ensures UnpackBit(Pack(m, i, n), j) == BitOf(m, i + j)
    decreases n
  {
    assert Pack(m, i, n) / 2 == Pack(m, i + 1, n - 1);
    if j > 0 { UnpackPacked(m, i + 1, n - 1, j - 1); }
  }

  lemma MapRoundTrip(m: seq<bool>)
    ensures DecodeMap(EncodeMap(m), |m|) == m
  {
    forall i | 0 <= i < |m| ensures DecodeMap(EncodeMap(m), |m|)[i] == m[i] {
      UnpackPacked(m, 8 * (i / 8), 8, i % 8);
    }
  }
}
