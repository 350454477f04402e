/**
 The image builder of lab8/tools/mksfs.c as functions on its whole state. Objects that the
 source reaches through pointers live in two arenas, and a pointer is an index into its
 arena. None is the program's exit through bug() or a failed assert.
 */
module SfsModel {
  import opened Bits
  import opened Wrappers
  import opened SfsFormat

  const HASH_LIST_SIZE: nat := 1024
  const GOLDEN_RATIO_PRIME_32: nat := 0x9e370001

  /** hash32, and hash64 on the low 32 bits. */
  function Hash(val: nat): (b: nat)
    ensures b < HASH_LIST_SIZE
  {
    val % U32 * GOLDEN_RATIO_PRIME_32 % U32 / 0x40_0000
  }

  /** The host's directory tree, as readdir, lstat, read and readlink present it. */
  datatype Host =
    | File(realIno: nat, content: seq<byte>)
    | Link(realIno: nat, target: seq<byte>)
    | Dir(realIno: nat, entries: seq<Dirent>)
    | Other

  datatype Dirent = Dirent(name: Name, node: Host)

  // ----- state -----

  datatype CacheBlock = CacheBlock(ino: nat, data: seq<nat>)

  datatype CacheInode = CacheInode(inode: Inode, realIno: nat, ino: nat, nblks: nat,
                                   l1: Option<nat>, l2: Option<nat>)

  datatype Fs = Fs(
    ninos: nat, nextIno: nat,
    unused: nat,                    // super.unused_blocks
    info: seq<byte>,                // super.info
    cis: seq<CacheInode>,           // the arena of cached inodes
    cbs: seq<CacheBlock>,           // the arena of cached index blocks
    inodeChains: seq<seq<nat>>,     // hash chains, latest first
    blockChains: seq<seq<nat>>,
    entryName: seq<byte>,           // the name field of add_entry's static entry
    disk: Disk,
    log: seq<nat>,                  // the block numbers written, in order
    searched: bool)                 // whether update_cache has ever looked a block up

  ghost predicate WellFormed(fs: Fs)
  {
    && |fs.inodeChains| == HASH_LIST_SIZE && |fs.blockChains| == HASH_LIST_SIZE
    && (forall b, i :: 0 <= b < HASH_LIST_SIZE && 0 <= i < |fs.inodeChains[b]| ==> fs.inodeChains[b][i] < |fs.cis|)
    && (forall b, i :: 0 <= b < HASH_LIST_SIZE && 0 <= i < |fs.blockChains[b]| ==> fs.blockChains[b][i] < |fs.cbs|)
    && (forall c :: 0 <= c < |fs.cbs| ==> |fs.cbs[c].data| == NENTRY)
    && (forall h :: 0 <= h < |fs.cis| ==> InodeFormed(fs.cis[h], |fs.cbs|))
    && |fs.entryName| == ENTRY_SIZE && |fs.info| == 32
  }

  ghost predicate InodeFormed(ci: CacheInode, ncbs: nat)
  {
    && |ci.inode.direct| == NDIRECT
    && (ci.l1.Some? ==> ci.l1.value < ncbs)
    && (ci.l2.Some? ==> ci.l2.value < ncbs)
  }

  /** No block number is lost: the ones given out and the unused ones make up the image. */
  ghost predicate Conserved(fs: Fs)
  {
    fs.ninos <= MAX_NBLKS && fs.nextIno + fs.unused == fs.ninos
  }

  // ----- allocation and the caches -----

  function AllocIno(fs: Fs): (r: Option<(Fs, nat)>)
    ensures r.Some? <==> fs.nextIno < fs.ninos
    ensures r.Some? && WellFormed(fs) ==> WellFormed(r.value.0)
    ensures r.Some? && Conserved(fs) ==> Conserved(r.value.0)
    ensures r.Some? ==> r.value.0.info == fs.info
  {
    if fs.nextIno < fs.ninos then
      Some((fs.(unused := (fs.unused + U32 - 1) % U32, nextIno := fs.nextIno + 1), fs.nextIno))
    else
      None
  }

  function ZeroWords(n: nat): (z: seq<nat>)
    ensures |z| == n
  {
    seq(n, _ => 0)
  }

  function Prepend(chains: seq<seq<nat>>, b: nat, x: nat): seq<seq<nat>>
    requires b < |chains|
  {
    chains[b := [x] + chains[b]]
  }

  /** A fresh block is filed under the number passed in, which is 0 when a number is to be
      allocated, and not under its own number. */
  function AllocCacheBlock(fs: Fs, ino: nat): (r: Option<(Fs, nat)>)
    requires WellFormed(fs)
    ensures r.Some? ==> WellFormed(r.value.0) && r.value.1 < |r.value.0.cbs|
    ensures r.Some? ==> r.value.0.info == fs.info
  {
    var (fs1, number) :- if ino != 0 then Some((fs, ino)) else AllocIno(fs);
    var c := |fs1.cbs|;
    Some((fs1.(cbs := fs1.cbs + [CacheBlock(number, ZeroWords(NENTRY))],
               blockChains := Prepend(fs1.blockChains, Hash(ino), c)), c))
  }

  function FindBlock(cbs: seq<CacheBlock>, chain: seq<nat>, ino: nat): (r: Option<nat>)
    requires forall i :: 0 <= i < |chain| ==> chain[i] < |cbs|
    ensures r.Some? ==> r.value < |cbs| && cbs[r.value].ino == ino
  {
    if chain == [] then None
    else if cbs[chain[0]].ino == ino then Some(chain[0])
    else FindBlock(cbs, chain[1..], ino)
  }

  function SearchCacheBlock(fs: Fs, ino: nat): Option<nat>
    requires WellFormed(fs)
  {
    FindBlock(fs.cbs, fs.blockChains[Hash(ino)], ino)
  }

  function EmptyInode(typ: nat): Inode
  {
    Inode(0, typ, 0, 0, ZeroWords(NDIRECT), 0, 0)
  }

  function AllocCacheInode(fs: Fs, realIno: nat, ino: nat, typ: nat): (r: Option<(Fs, nat)>)
    requires WellFormed(fs)
    ensures r.Some? <==> ino != 0 || fs.nextIno < fs.ninos
    ensures r.Some? ==> WellFormed(r.value.0) && r.value.1 < |r.value.0.cis|
    ensures r.Some? ==> r.value.0.info == fs.info
  {
    var (fs1, number) :- if ino != 0 then Some((fs, ino)) else AllocIno(fs);
    var h := |fs1.cis|;
    Some((fs1.(cis := fs1.cis + [CacheInode(EmptyInode(typ), realIno, number, 0, None, None)],
               inodeChains := Prepend(fs1.inodeChains, Hash(realIno), h)), h))
  }

  function FindInode(cis: seq<CacheInode>, chain: seq<nat>, realIno: nat): (r: Option<nat>)
    requires forall i :: 0 <= i < |chain| ==> chain[i] < |cis|
    ensures r.Some? ==> r.value < |cis| && cis[r.value].realIno == realIno
  {
    if chain == [] then None
    else if cis[chain[0]].realIno == realIno then Some(chain[0])
    else FindInode(cis, chain[1..], realIno)
  }

  function SearchCacheInode(fs: Fs, realIno: nat): (r: Option<nat>)
    requires WellFormed(fs)
    ensures r.Some? ==> r.value < |fs.cis|
  {
    FindInode(fs.cis, fs.inodeChains[Hash(realIno)], realIno)
  }

  // ----- blocks -----

  /** The source asserts the two bounds; no caller violates them. */
  function WriteBlock(fs: Fs, data: seq<byte>, ino: nat): (r: Fs)
    requires |data| <= BLKSIZE && ino < fs.ninos
    ensures WellFormed(fs) ==> WellFormed(r)
    ensures r.info == fs.info
  {
    fs.(disk := fs.disk[ino := Pad(data)], log := fs.log + [ino])
  }

  /** The current index block for a pointer cell: allocated if the cell is 0, the cached one
      if it is current, and otherwise looked up by its number. */
  function UpdateCache(fs: Fs, cb: Option<nat>, ino: nat): (r: Option<(Fs, nat)>)
    requires WellFormed(fs) && (cb.Some? ==> cb.value < |fs.cbs|)
    ensures r.Some? ==> WellFormed(r.value.0) && r.value.1 < |r.value.0.cbs|
    ensures r.Some? ==> r.value.0.cis == fs.cis && |fs.cbs| <= |r.value.0.cbs|
    ensures r.Some? ==> r.value.0.info == fs.info
  {
    if ino == 0 then AllocCacheBlock(fs, 0)
    else if cb.None? || fs.cbs[cb.value].ino != ino then
      var c :- SearchCacheBlock(fs, ino);
      Some((fs.(searched := true), c))
    else Some((fs, cb.value))
  }

  function SetInode(fs: Fs, h: nat, ci: CacheInode): (r: Fs)
    requires WellFormed(fs) && h < |fs.cis| && InodeFormed(ci, |fs.cbs|)
    ensures WellFormed(r) && |r.cis| == |fs.cis|
    ensures r.info == fs.info
  {
    fs.(cis := fs.cis[h := ci])
  }

  function SetWord(fs: Fs, c: nat, k: nat, x: nat): (r: Fs)
    requires WellFormed(fs) && c < |fs.cbs| && k < NENTRY
    ensures WellFormed(r) && |r.cis| == |fs.cis|
    ensures r.info == fs.info
  {
    fs.(cbs := fs.cbs[c := fs.cbs[c].(data := fs.cbs[c].data[k := x])])
  }

  function StoreDirect(fs: Fs, h: nat, k: nat, ino: nat): (r: Fs)
    requires WellFormed(fs) && h < |fs.cis| && k < NDIRECT
    ensures WellFormed(r) && |r.cis| == |fs.cis|
    ensures r.info == fs.info
  {
    var ci := fs.cis[h];
    SetInode(fs, h, ci.(inode := ci.inode.(direct := ci.inode.direct[k := ino])))
  }

  function StoreIndirect(fs: Fs, h: nat, k: nat, ino: nat): (r: Option<Fs>)
    requires WellFormed(fs) && h < |fs.cis| && k < NENTRY
    ensures r.Some? ==> WellFormed(r.value) && |r.value.cis| == |fs.cis|
    ensures r.Some? ==> r.value.info == fs.info
  {
    var ci := fs.cis[h];
    var (fs1, c) :- UpdateCache(fs, ci.l1, ci.inode.indirect);
    var fs2 := SetInode(fs1, h, ci.(l1 := Some(c), inode := ci.inode.(indirect := fs1.cbs[c].ino)));
    Some(SetWord(fs2, c, k, ino))
  }

  function StoreDouble(fs: Fs, h: nat, k: nat, ino: nat): (r: Option<Fs>)
    requires WellFormed(fs) && h < |fs.cis| && k < NENTRY * NENTRY
    ensures r.Some? ==> WellFormed(r.value) && |r.value.cis| == |fs.cis|
    ensures r.Some? ==> r.value.info == fs.info
  {
    var ci := fs.cis[h];
    var (fs1, c2) :- UpdateCache(fs, ci.l2, ci.inode.dbIndirect);
    var ci1 := ci.(l2 := Some(c2), inode := ci.inode.(dbIndirect := fs1.cbs[c2].ino));
    var fs2 := SetInode(fs1, h, ci1);
    var j := k / NENTRY;
    var (fs3, c1) :- UpdateCache(fs2, ci.l1, fs2.cbs[c2].data[j]);
    var fs4 := SetInode(fs3, h, ci1.(l1 := Some(c1)));
    Some(SetWord(SetWord(fs4, c2, j, fs4.cbs[c1].ino), c1, k % NENTRY, ino))
  }

  /** The pointer is stored at its level; the counters come after. */
  function Stored(fs: Fs, h: nat, n: nat, ino: nat): (r: Option<Fs>)
    requires WellFormed(fs) && h < |fs.cis| && n < LN_NBLKS
    ensures r.Some? ==> WellFormed(r.value) && |r.value.cis| == |fs.cis|
    ensures r.Some? ==> r.value.info == fs.info
  {
    if n < L0_NBLKS then Some(StoreDirect(fs, h, n, ino))
    else if n < L1_NBLKS then StoreIndirect(fs, h, n - L0_NBLKS, ino)
    else StoreDouble(fs, h, n - L1_NBLKS, ino)
  }

  function Grow(fs: Fs, h: nat, size: nat): (r: Fs)
    requires WellFormed(fs) && h < |fs.cis|
    ensures WellFormed(r) && |r.cis| == |fs.cis|
    ensures r.info == fs.info
  {
    var ci := fs.cis[h];
    SetInode(fs, h, ci.(nblks := ci.nblks + 1,
                        inode := ci.inode.(size := (ci.inode.size + size) % U32,
                                           blocks := (ci.inode.blocks + 1) % U32)))
  }

  /** Enters block number ino at the next position of inode h. */
  function AppendBlock(fs: Fs, h: nat, size: nat, ino: nat): (r: Option<Fs>)
    requires WellFormed(fs) && h < |fs.cis|
    ensures r.Some? ==> WellFormed(r.value) && |r.value.cis| == |fs.cis|
    ensures r.Some? ==> r.value.info == fs.info
  {
    var n := fs.cis[h].nblks;
    if size > BLKSIZE || n >= LN_NBLKS then None
    else
      var fs1 :- Stored(fs, h, n, ino);
      Some(Grow(fs1, h, size))
  }

  /** Gives a chunk of at most a block its own block and enters it in inode h. */
  function StoreChunk(fs: Fs, h: nat, chunk: seq<byte>): (r: Option<Fs>)
    requires WellFormed(fs) && h < |fs.cis| && |chunk| <= BLKSIZE
    ensures r.Some? ==> WellFormed(r.value) && |r.value.cis| == |fs.cis|
    ensures r.Some? ==> r.value.info == fs.info
  {
    var (fs1, ino) :- AllocIno(fs);
    AppendBlock(WriteBlock(fs1, chunk, ino), h, |chunk|, ino)
  }

  // ----- entries -----

  /** strcpy into the static entry: what follows the NUL stays from earlier names. */
  function StrCpy(buffer: seq<byte>, name: Name): (b: seq<byte>)
    requires |name| < |buffer|
    ensures |b| == |buffer|
  {
    name + [0] + buffer[|name| + 1..]
  }

  /** The first 256 bytes of the 260-byte entry. */
  function EntryBytes(ino: nat, nameField: seq<byte>): (b: seq<byte>)
    requires |nameField| == ENTRY_SIZE
    ensures |b| == ENTRY_SIZE
  {
    Bytes32(ino) + nameField[..NAME_ON_DISK]
  }

  function CountLink(fs: Fs, h: nat): (r: Fs)
    requires WellFormed(fs) && h < |fs.cis|
    ensures WellFormed(r) && |r.cis| == |fs.cis|
    ensures r.info == fs.info
  {
    var ci := fs.cis[h];
    SetInode(fs, h, ci.(inode := ci.inode.(nlinks := (ci.inode.nlinks + 1) % U16)))
  }

  function AddEntry(fs: Fs, current: nat, file: nat, name: Name): (r: Option<Fs>)
    requires WellFormed(fs) && current < |fs.cis| && file < |fs.cis|
    ensures r.Some? ==> WellFormed(r.value) && |r.value.cis| == |fs.cis|
    ensures r.Some? ==> r.value.info == fs.info
  {
    if fs.cis[current].inode.typ != TYPE_DIR || |name| > MAX_FNAME_LEN then None
    else
      var fs1 := fs.(entryName := StrCpy(fs.entryName, name));
      var fs2 :- StoreChunk(fs1, current, EntryBytes(fs1.cis[file].ino, fs1.entryName));
      Some(CountLink(fs2, file))
  }

  // ----- the walk -----

  function Min(a: nat, b: nat): nat
  {
    if a <= b then a else b
  }

  function OpenFile(fs: Fs, h: nat, content: seq<byte>): (r: Option<Fs>)
    requires WellFormed(fs) && h < |fs.cis|
    ensures r.Some? ==> WellFormed(r.value) && |r.value.cis| == |fs.cis|
    ensures r.Some? ==> r.value.info == fs.info
    decreases |content|
  {
    if content == [] then Some(fs)
    else
      var n := Min(|content|, BLKSIZE);
      var fs1 :- StoreChunk(fs, h, content[..n]);
      OpenFile(fs1, h, content[n..])
  }

  /** readlink fills at most one block; a full one counts as too long. */
  function OpenLink(fs: Fs, h: nat, target: seq<byte>): (r: Option<Fs>)
    requires WellFormed(fs) && h < |fs.cis|
    ensures r.Some? ==> WellFormed(r.value) && |r.value.cis| == |fs.cis|
    ensures r.Some? ==> r.value.info == fs.info
  {
    if |target| >= BLKSIZE then None else StoreChunk(fs, h, target)
  }

  /** A new regular file with its blocks. */
  function MakeFile(fs: Fs, realIno: nat, content: seq<byte>): (r: Option<(Fs, nat)>)
    requires WellFormed(fs)
    ensures r.Some? ==> WellFormed(r.value.0) && r.value.1 == |fs.cis| && |r.value.0.cis| == |fs.cis| + 1
    ensures r.Some? ==> r.value.0.info == fs.info
  {
    var (fs1, h) :- AllocCacheInode(fs, realIno, 0, TYPE_FILE);
    var fs2 :- OpenFile(fs1, h, content);
    Some((fs2, h))
  }

  /** A new symbolic link. */
  function MakeLink(fs: Fs, realIno: nat, target: seq<byte>): (r: Option<(Fs, nat)>)
    requires WellFormed(fs)
    ensures r.Some? ==> WellFormed(r.value.0) && r.value.1 == |fs.cis| && |r.value.0.cis| == |fs.cis| + 1
    ensures r.Some? ==> r.value.0.info == fs.info
  {
    var (fs1, h) :- AllocCacheInode(fs, realIno, 0, TYPE_LINK);
    var fs2 :- OpenLink(fs1, h, target);
    Some((fs2, h))
  }

  function AddFile(fs: Fs, current: nat, name: Name, realIno: nat, content: seq<byte>): (r: Option<Fs>)
    requires WellFormed(fs) && current < |fs.cis|
    ensures r.Some? ==> WellFormed(r.value) && |fs.cis| <= |r.value.cis|
    ensures r.Some? ==> r.value.info == fs.info
  {
    var found := SearchCacheInode(fs, realIno);
    if found.Some? then AddEntry(fs, current, found.value, name)
    else
      var (fs1, h) :- MakeFile(fs, realIno, content);
      AddEntry(fs1, current, h, name)
  }

  function AddLink(fs: Fs, current: nat, name: Name, realIno: nat, target: seq<byte>): (r: Option<Fs>)
    requires WellFormed(fs) && current < |fs.cis|
    ensures r.Some? ==> WellFormed(r.value) && |fs.cis| <= |r.value.cis|
    ensures r.Some? ==> r.value.info == fs.info
  {
    var (fs1, h) :- MakeLink(fs, realIno, target);
    AddEntry(fs1, current, h, name)
  }

  function AddDir(fs: Fs, parent: nat, name: Name, realIno: nat, entries: seq<Dirent>): (r: Option<Fs>)
    requires WellFormed(fs) && parent < |fs.cis|
    ensures r.Some? ==> WellFormed(r.value) && |fs.cis| <= |r.value.cis|
    ensures r.Some? ==> r.value.info == fs.info
    decreases entries, 2
  {
    if SearchCacheInode(fs, realIno).Some? then None
    else
      var (fs1, h) :- AllocCacheInode(fs, realIno, 0, TYPE_DIR);
      var fs2 :- OpenDir(fs1, h, parent, entries);
      AddEntry(fs2, parent, h, name)
  }

  function OpenDir(fs: Fs, current: nat, parent: nat, entries: seq<Dirent>): (r: Option<Fs>)
    requires WellFormed(fs) && current < |fs.cis| && parent < |fs.cis|
    ensures r.Some? ==> WellFormed(r.value) && |fs.cis| <= |r.value.cis|
    ensures r.Some? ==> r.value.info == fs.info
    decreases entries, 1
  {
    var fs1 :- AddEntry(fs, current, current, DOT);
    var fs2 :- AddEntry(fs1, current, parent, DOTDOT);
    AddAll(fs2, current, entries)
  }

  /** Names that start with a dot are skipped. */
  predicate Hidden(name: Name)
  {
    name != [] && name[0] == 46
  }

  function AddOne(fs: Fs, current: nat, d: Dirent): (r: Option<Fs>)
    requires WellFormed(fs) && current < |fs.cis|
    ensures r.Some? ==> WellFormed(r.value) && |fs.cis| <= |r.value.cis|
    ensures r.Some? ==> r.value.info == fs.info
    decreases d, 3
  {
    if Hidden(d.name) then Some(fs)
    else if |d.name| > MAX_FNAME_LEN then None
    else
      match d.node
      case Link(realIno, target) => AddLink(fs, current, d.name, realIno, target)
      case Dir(realIno, entries) => AddDir(fs, current, d.name, realIno, entries)
      case File(realIno, content) => AddFile(fs, current, d.name, realIno, content)
      case Other => Some(fs)
  }

  function AddAll(fs: Fs, current: nat, entries: seq<Dirent>): (r: Option<Fs>)
    requires WellFormed(fs) && current < |fs.cis|
    ensures r.Some? ==> WellFormed(r.value) && |fs.cis| <= |r.value.cis|
    ensures r.Some? ==> r.value.info == fs.info
    decreases entries, 0
  {
    if entries == [] then Some(fs)
    else
      var fs1 :- AddOne(fs, current, entries[0]);
      AddAll(fs1, current, entries[1..])
  }

  // ----- creation and closing -----

  function FreemapBlocks(ninos: nat): nat
  {
    (ninos + BLKBITS - 1) / BLKBITS
  }

  function NoChains(n: nat): (c: seq<seq<nat>>)
    ensures |c| == n && forall i :: 0 <= i < n ==> c[i] == []
  {
    seq(n, _ => [])
  }

  /** The blocks used of an image file of this size; the block count is a uint32_t. */
  function ImageBlocks(imageSize: nat): (n: nat)
    ensures n <= MAX_NBLKS
  {
    Min(imageSize / BLKSIZE % U32, MAX_NBLKS)
  }

  function Create(imageSize: nat, info: seq<byte>): (r: Option<Fs>)
    requires |info| == 32
    ensures r.Some? ==> WellFormed(r.value) && |r.value.cis| == 1
    ensures r.Some? ==> r.value.info == info
  {
    var ninos := ImageBlocks(imageSize);
    var nextIno := BLKN_FREEMAP + FreemapBlocks(ninos);
    if nextIno >= ninos then None
    else
      var fs := Fs(ninos, nextIno, ninos - nextIno, info, [], [], NoChains(HASH_LIST_SIZE), NoChains(HASH_LIST_SIZE),
                   Zeros(ENTRY_SIZE), map[], [], false);
      Some(AllocCacheInode(fs, 0, BLKN_ROOT, TYPE_DIR).value.0)
  }

  /** create_img without its last step: the tree is built, but not yet closed. */
  function Build(imageSize: nat, info: seq<byte>, entries: seq<Dirent>): (r: Option<Fs>)
    requires |info| == 32
    ensures r.Some? ==> WellFormed(r.value)
    ensures r.Some? ==> r.value.info == info
  {
    var fs :- Create(imageSize, info);
    OpenDir(fs, 0, 0, entries)
  }

  /** The words after setting bits j, ..., end - 1. */
  function SetBits(words: seq<nat>, j: nat, end: nat): (r: seq<nat>)
    requires end <= 32 * |words|
    ensures |r| == |words|
    decreases end - j
  {
    if j >= end then words
    else SetBits(words[j / 32 := BitOr(words[j / 32], Pow2(j % 32))], j + 1, end)
  }

  /** The freemap block for block numbers i, ..., i + BLKBITS - 1. */
  function FreemapWords(i: nat, ninos: nat, nextIno: nat): (r: seq<nat>)
    requires i < ninos
    ensures |r| == NENTRY
  {
    if i + BLKBITS > nextIno then
      var start := if i < nextIno then nextIno - i else 0;
      var end := if i + BLKBITS > ninos then ninos - i else BLKBITS;
      SetBits(ZeroWords(NENTRY), start, end)
    else
      ZeroWords(NENTRY)
  }

  function WriteFreemap(fs: Fs, i: nat, ino: nat): (r: Fs)
    requires WellFormed(fs) && (i < fs.ninos ==> ino + FreemapBlocks(fs.ninos - i) <= fs.ninos)
    ensures WellFormed(r) && r == fs.(disk := r.disk, log := r.log)
    decreases fs.ninos - i
  {
    if i >= fs.ninos then fs
    else
      WriteFreemap(WriteBlock(fs, WordBytes(FreemapWords(i, fs.ninos, fs.nextIno)), ino), i + BLKBITS, ino + 1)
  }

  /** All cached numbers are block numbers of the image. */
  ghost predicate Flushable(fs: Fs)
  {
    && (forall h :: 0 <= h < |fs.cis| ==> fs.cis[h].ino < fs.ninos)
    && (forall c :: 0 <= c < |fs.cbs| ==> fs.cbs[c].ino < fs.ninos)
  }

  function FlushBlocks(fs: Fs, chain: seq<nat>): (r: Fs)
    requires WellFormed(fs) && Flushable(fs) && forall i :: 0 <= i < |chain| ==> chain[i] < |fs.cbs|
    ensures WellFormed(r) && r == fs.(disk := r.disk, log := r.log)
    decreases chain
  {
    if chain == [] then fs
    else
      var cb := fs.cbs[chain[0]];
      FlushBlocks(WriteBlock(fs, WordBytes(cb.data), cb.ino), chain[1..])
  }

  function FlushInodes(fs: Fs, chain: seq<nat>): (r: Fs)
    requires WellFormed(fs) && Flushable(fs) && forall i :: 0 <= i < |chain| ==> chain[i] < |fs.cis|
    ensures WellFormed(r) && r == fs.(disk := r.disk, log := r.log)
    decreases chain
  {
    if chain == [] then fs
    else
      var ci := fs.cis[chain[0]];
      FlushInodes(WriteBlock(fs, InodeBytes(ci.inode), ci.ino), chain[1..])
  }

  function FlushBuckets(fs: Fs, i: nat): (r: Fs)
    requires WellFormed(fs) && Flushable(fs) && i <= HASH_LIST_SIZE
    ensures WellFormed(r) && r == fs.(disk := r.disk, log := r.log)
    decreases HASH_LIST_SIZE - i
  {
    if i == HASH_LIST_SIZE then fs
    else
      var fs1 := FlushBlocks(fs, fs.blockChains[i]);
      FlushBuckets(FlushInodes(fs1, fs1.inodeChains[i]), i + 1)
  }

  function Close(fs: Fs): (r: Fs)
    requires WellFormed(fs) && Flushable(fs) && BLKN_FREEMAP + FreemapBlocks(fs.ninos) <= fs.ninos
    ensures r == fs.(disk := r.disk, log := r.log)
  {
    var fs1 := WriteFreemap(fs, 0, BLKN_FREEMAP);
    var fs2 := WriteBlock(fs1, SuperBytes(fs.ninos, fs.unused, fs.info), BLKN_SUPER);
    FlushBuckets(fs2, 0)
  }
}
