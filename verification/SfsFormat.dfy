/**
 The on-disk format written by lab8/tools/mksfs.c, byte by byte, and a simple reader of it.
 */
module SfsFormat {
  import opened Wrappers

  const NDIRECT: nat := 12
  const BLKSIZE: nat := 4096
  const NENTRY: nat := 1024            // pointers in an index block
  const MAX_NBLKS: nat := 524288
  const BLKBITS: nat := 32768          // bits in a freemap block
  const LN_NBLKS: nat := 32768         // most blocks a file may have
  const L0_NBLKS: nat := 12
  const L1_NBLKS: nat := 1036
  const MAX_FNAME_LEN: nat := 255
  const ENTRY_SIZE: nat := 256         // sizeof(entry->name), what is written of an entry
  const NAME_ON_DISK: nat := 252       // of which the inode number takes four bytes
  const TYPE_FILE: nat := 1
  const TYPE_DIR: nat := 2
  const TYPE_LINK: nat := 3
  const BLKN_SUPER: nat := 0
  const BLKN_ROOT: nat := 1
  const BLKN_FREEMAP: nat := 2
  const MAGIC: nat := 0x2f8dbe2a
  const U32: nat := 0x1_0000_0000
  const U16: nat := 0x1_0000

  type byte = x: int | 0 <= x < 256

  /** A file name: no byte is NUL. */
  type Name = s: seq<byte> | forall i :: 0 <= i < |s| ==> s[i] != 0

  // ----- little-endian fields -----

  function Bytes16(n: nat): (b: seq<byte>)
    ensures |b| == 2
  {
    [n % 256, n / 256 % 256]
  }

  function Bytes32(n: nat): (b: seq<byte>)
    ensures |b| == 4
  {
    Bytes16(n % U16) + Bytes16(n / U16 % U16)
  }

  function Get16(b: seq<byte>, i: nat): nat
    requires i + 2 <= |b|
  {
    b[i] as nat + 256 * (b[i + 1] as nat)
  }

  function Get32(b: seq<byte>, i: nat): nat
    requires i + 4 <= |b|
  {
    Get16(b, i) + U16 * Get16(b, i + 2)
  }

  /** Numbers are stored with the low byte first. */
  lemma LittleEndian(n: nat)
    requires n < U32
    ensures var b := Bytes32(n);
      n == b[0] as int + 0x100 * (b[1] as int) + 0x1_0000 * (b[2] as int) + 0x100_0000 * (b[3] as int)
  {
    var low, high := n % U16, n / U16;
    assert n == low + U16 * high && high < U16 && high % U16 == high;
    LittleEndian16(low);
    LittleEndian16(high);
    var b := Bytes32(n);
    assert b[0] == Bytes16(low)[0] && b[1] == Bytes16(low)[1] && b[2] == Bytes16(high)[0] && b[3] == Bytes16(high)[1];
  }

  lemma LittleEndian16(n: nat)
    requires n < U16
    ensures var b := Bytes16(n); n == b[0] as int + 0x100 * (b[1] as int)
  {
    assert n / 256 < 256;
  }

  lemma RoundTrip16(n: nat, b: seq<byte>, i: nat)
    requires n < U16 && i + 2 <= |b| && b[i..i + 2] == Bytes16(n)
    ensures Get16(b, i) == n
  {
    assert b[i] == b[i..i + 2][0] && b[i + 1] == b[i..i + 2][1];
  }

  lemma RoundTrip32(n: nat, b: seq<byte>, i: nat)
    requires n < U32 && i + 4 <= |b| && b[i..i + 4] == Bytes32(n)
    ensures Get32(b, i) == n
  {
    var c := b[i..i + 4];
    assert b[i..i + 2] == c[..2] && b[i + 2..i + 4] == c[2..];
    RoundTrip16(n % U16, b, i);
    RoundTrip16(n / U16 % U16, b, i + 2);
  }

  /** An array of uint32_t. */
  function WordBytes(ws: seq<nat>): (b: seq<byte>)
    ensures |b| == 4 * |ws|
  {
    if ws == [] then [] else WordBytes(ws[..|ws| - 1]) + Bytes32(ws[|ws| - 1])
  }

  lemma {:induction false} WordSlice(ws: seq<nat>, k: nat)
    requires k < |ws|
    ensures WordBytes(ws)[4 * k..4 * k + 4] == Bytes32(ws[k])
  {
    var n := |ws| - 1;
    if k < n {
      WordSlice(ws[..n], k);
      assert WordBytes(ws)[4 * k..4 * k + 4] == WordBytes(ws[..n])[4 * k..4 * k + 4];
    } else {
      assert WordBytes(ws)[4 * n..4 * n + 4] == Bytes32(ws[n]);
    }
  }

  function Zeros(n: nat): (z: seq<byte>)
    ensures |z| == n
  {
    seq(n, _ => 0)
  }

  /** What write_block puts on the disk: a whole block, zero-filled after the data. */
  function Pad(data: seq<byte>): (b: seq<byte>)
    requires |data| <= BLKSIZE
    ensures |b| == BLKSIZE && b[..|data|] == data
  {
    data + Zeros(BLKSIZE - |data|)
  }

  // ----- structures -----

  datatype Inode = Inode(size: nat, typ: nat, nlinks: nat, blocks: nat,
                         direct: seq<nat>, indirect: nat, dbIndirect: nat)

  /** struct inode, 68 bytes. */
  function InodeBytes(i: Inode): (b: seq<byte>)
    requires |i.direct| == NDIRECT
    ensures |b| == 68
  {
    Bytes32(i.size) + Bytes16(i.typ) + Bytes16(i.nlinks) + Bytes32(i.blocks)
    + WordBytes(i.direct) + Bytes32(i.indirect) + Bytes32(i.dbIndirect)
  }

  /** struct super: magic, blocks, unused_blocks and a 32-byte label. */
  function SuperBytes(blocks: nat, unused: nat, info: seq<byte>): (b: seq<byte>)
    requires |info| == 32
    ensures |b| == 44
  {
    Bytes32(MAGIC) + Bytes32(blocks) + Bytes32(unused) + info
  }

  ghost predicate Fields32(i: Inode)
  {
    && |i.direct| == NDIRECT
    && i.size < U32 && i.typ < U16 && i.nlinks < U16 && i.blocks < U32
    && i.indirect < U32 && i.dbIndirect < U32
  }

  /** Reading the fields back at their offsets. */
  lemma InodeRoundTrip(i: Inode, b: seq<byte>)
    requires Fields32(i) && InodeBytes(i) <= b
    ensures Get32(b, 0) == i.size && Get16(b, 4) == i.typ && Get16(b, 6) == i.nlinks
    ensures Get32(b, 8) == i.blocks && Get32(b, 60) == i.indirect && Get32(b, 64) == i.dbIndirect
    ensures forall k :: 0 <= k < NDIRECT && i.direct[k] < U32 ==> Get32(b, 12 + 4 * k) == i.direct[k]
  {
    var c := InodeBytes(i);
    assert c[0..4] == Bytes32(i.size);
    assert c[4..6] == Bytes16(i.typ);
    assert c[6..8] == Bytes16(i.nlinks);
    assert c[8..12] == Bytes32(i.blocks);
    assert c[60..64] == Bytes32(i.indirect);
    assert c[64..68] == Bytes32(i.dbIndirect);
    Field32(i.size, b, c, 0);
    Field16(i.typ, b, c, 4);
    Field16(i.nlinks, b, c, 6);
    Field32(i.blocks, b, c, 8);
    Field32(i.indirect, b, c, 60);
    Field32(i.dbIndirect, b, c, 64);
    forall k | 0 <= k < NDIRECT && i.direct[k] < U32 ensures Get32(b, 12 + 4 * k) == i.direct[k] {
      DirectField(i, b, c, k);
    }
  }

  lemma DirectField(i: Inode, b: seq<byte>, c: seq<byte>, k: nat)
    requires Fields32(i) && c == InodeBytes(i) && c <= b && k < NDIRECT && i.direct[k] < U32
    ensures Get32(b, 12 + 4 * k) == i.direct[k]
  {
    WordSlice(i.direct, k);
    assert c[12..60] == WordBytes(i.direct);
    assert c[12..60][4 * k..4 * k + 4] == c[12 + 4 * k..12 + 4 * k + 4];
    Field32(i.direct[k], b, c, 12 + 4 * k);
  }

  lemma Field16(n: nat, b: seq<byte>, c: seq<byte>, i: nat)
    requires n < U16 && c <= b && i + 2 <= |c| && c[i..i + 2] == Bytes16(n)
    ensures Get16(b, i) == n
  {
    RoundTrip16(n, c, i);
  }

  lemma Field32(n: nat, b: seq<byte>, c: seq<byte>, i: nat)
    requires n < U32 && c <= b && i + 4 <= |c| && c[i..i + 4] == Bytes32(n)
    ensures Get32(b, i) == n
  {
    RoundTrip32(n, c, i);
  }

  lemma IndexRoundTrip(ws: seq<nat>, k: nat)
    requires k < |ws| && ws[k] < U32
    ensures Get32(WordBytes(ws), 4 * k) == ws[k]
  {
    WordSlice(ws, k);
    RoundTrip32(ws[k], WordBytes(ws), 4 * k);
  }

  // ----- a reader -----

  type Disk = map<nat, seq<byte>>

  /** What the image stores. */
  datatype Node =
    | FileNode(ino: nat, content: seq<byte>)
    | LinkNode(ino: nat, target: seq<byte>)
    | DirNode(ino: nat, entries: seq<NodeEntry>)

  datatype NodeEntry = Special(name: Name, ino: nat) | Sub(name: Name, node: Node)

  const DOT: Name := [46]
  const DOTDOT: Name := [46, 46]

  function ReadBlock(disk: Disk, n: nat): (r: Option<seq<byte>>)
    ensures r.Some? ==> |r.value| == BLKSIZE
  {
    if n in disk && |disk[n]| == BLKSIZE then Some(disk[n]) else None
  }

  /** The block number at position k of an inode. */
  function ReadPtr(disk: Disk, inode: seq<byte>, k: nat): Option<nat>
    requires |inode| == BLKSIZE
  {
    if k < L0_NBLKS then
      Some(Get32(inode, 12 + 4 * k))
    else if k < L1_NBLKS then
      var index :- ReadBlock(disk, Get32(inode, 60));
      Some(Get32(index, 4 * (k - L0_NBLKS)))
    else if k < NENTRY * NENTRY + L1_NBLKS then
      var double :- ReadBlock(disk, Get32(inode, 64));
      var index :- ReadBlock(disk, Get32(double, 4 * ((k - L1_NBLKS) / NENTRY)));
      Some(Get32(index, 4 * ((k - L1_NBLKS) % NENTRY)))
    else
      None
  }

  function ReadAt(disk: Disk, inode: seq<byte>, k: nat): (r: Option<seq<byte>>)
    requires |inode| == BLKSIZE
    ensures r.Some? ==> |r.value| == BLKSIZE
  {
    var ptr :- ReadPtr(disk, inode, k);
    ReadBlock(disk, ptr)
  }

  /** The first n blocks of an inode, one after the other. */
  function ReadData(disk: Disk, inode: seq<byte>, n: nat): Option<seq<byte>>
    requires |inode| == BLKSIZE
  {
    if n == 0 then Some([])
    else
      var before :- ReadData(disk, inode, n - 1);
      var last :- ReadAt(disk, inode, n - 1);
      Some(before + last)
  }

  function ReadContent(disk: Disk, inode: seq<byte>): Option<seq<byte>>
    requires |inode| == BLKSIZE
  {
    var data :- ReadData(disk, inode, Get32(inode, 8));
    if Get32(inode, 0) <= |data| then Some(data[..Get32(inode, 0)]) else None
  }

  /** The bytes before the first NUL. */
  function CStr(b: seq<byte>): Name
  {
    if b == [] || b[0] == 0 then [] else [b[0]] + CStr(b[1..])
  }

  function ReadNode(disk: Disk, ino: nat, depth: nat): Option<Node>
    decreases depth, 1, 0
  {
    var inode :- ReadBlock(disk, ino);
    var typ := Get16(inode, 4);
    if typ == TYPE_FILE then
      var content :- ReadContent(disk, inode);
      Some(FileNode(ino, content))
    else if typ == TYPE_LINK then
      var target :- ReadContent(disk, inode);
      Some(LinkNode(ino, target))
    else if typ == TYPE_DIR && depth > 0 then
      var entries :- ReadEntries(disk, inode, Get32(inode, 8), depth - 1);
      Some(DirNode(ino, entries))
    else
      None
  }

  /** The first n entries of a directory, one block each. */
  function ReadEntries(disk: Disk, inode: seq<byte>, n: nat, depth: nat): Option<seq<NodeEntry>>
    requires |inode| == BLKSIZE
    decreases depth, 2, n
  {
    if n == 0 then Some([])
    else
      var before :- ReadEntries(disk, inode, n - 1, depth);
      var block :- ReadAt(disk, inode, n - 1);
      var last :- ReadEntry(disk, CStr(block[4..]), Get32(block, 0), depth);
      Some(before + [last])
  }

  function ReadEntry(disk: Disk, name: Name, ino: nat, depth: nat): Option<NodeEntry>
    decreases depth, 2, 0
  {
    if name == DOT || name == DOTDOT then Some(Special(name, ino))
    else
      var node :- ReadNode(disk, ino, depth);
      Some(Sub(name, node))
  }
}
