/**
 What a reader finds in a closed image: the free bitmap and the super block agree, every
 pointer leads to its block, and reading from the root gives back the host's tree.
 */
module SfsImage {
  import opened Bits
  import opened Wrappers
  import opened SfsFormat
  import opened SfsModel
  import opened SfsIndex
  import opened SfsRep
  import opened SfsTree
  import opened SfsWalk
  import opened SfsClose

  // ----- the free bitmap -----

  lemma FullBlock(data: seq<byte>)
    requires |data| == BLKSIZE
    ensures Pad(data) == data
  {
  }

  lemma WordRead(words: seq<nat>, b: nat)
    requires |words| == NENTRY && Words32(words) && b < BLKBITS
    ensures 4 * (b / 32) + 4 <= |WordBytes(words)|
    ensures TestBit(Get32(WordBytes(words), 4 * (b / 32)), b % 32) <==> BitAt(words, b)
  {
    WordWidth();
    hide WordBytes, Pow2;
    IndexRoundTrip(words, b / 32);
  }

  lemma SplitNumber(b: nat)
    ensures b == b / BLKBITS * BLKBITS + b % BLKBITS && b % BLKBITS % 32 == b % 32
  {
  }

  /** In a closed image a bit of the bitmap is set iff its number is unused: also the bits of
      the bitmap's last block that are beyond the image are clear. */
  lemma FreeBits(fs: Fs, fs': Fs, b: nat)
    requires Mapped(fs, fs') && b < FreemapBlocks(fs.ninos) * BLKBITS
    ensures ReadFreeBit(fs'.disk, b) == Some(fs.nextIno <= b < fs.ninos)
  {
    hide FreemapWords, BitAt, TestBit, Words32, WordBytes, Pad;
    var k, j := b / BLKBITS, b % BLKBITS;
    SplitNumber(b);
    assert MapBlock(fs', 0, BLKN_FREEMAP, k);
    hide Mapped;
    var words := FreemapWords(k * BLKBITS, fs.ninos, fs.nextIno);
    FullBlock(WordBytes(words));
    FreemapSpec(k * BLKBITS, fs.ninos, fs.nextIno, j);
    WordRead(words, j);
  }

  /** In the bitmap block of a number, its bit is bit b % 8 of byte b / 8. */
  lemma FreeBitOfByte(disk: Disk, b: nat)
    requires ReadBlock(disk, BLKN_FREEMAP + b / BLKBITS).Some?
    ensures var block := disk[BLKN_FREEMAP + b / BLKBITS];
      ReadFreeBit(disk, b) == Some(TestBit(block[b % BLKBITS / 8], b % 8))
  {
    hide TestBit, Get32;
    var block, j := disk[BLKN_FREEMAP + b / BLKBITS], b % BLKBITS;
    SplitNumber(b);
    BytesOfWords(b, j);
    BitOfWord(block, 4 * (j / 32), j % 32);
  }

  lemma BytesOfWords(b: nat, j: nat)
    requires j == b % BLKBITS
    ensures j / 8 == 4 * (j / 32) + j % 32 / 8 && b % 8 == j % 32 % 8
  {
  }

  lemma BitOfWord(block: seq<byte>, w: nat, k: nat)
    requires w + 4 <= |block| && k < 32
    ensures TestBit(Get32(block, w), k) == TestBit(block[w + k / 8], k % 8)
  {
    hide TestBit;
    assert Pow2(8) == 256;
    var b0, b1, b2, b3 := block[w] as nat, block[w + 1] as nat, block[w + 2] as nat, block[w + 3] as nat;
    assert Get32(block, w) == b0 + 256 * (b1 + 256 * (b2 + 256 * b3));
    hide Pow2, Get32;
    BitsSplit(b0, b1 + 256 * (b2 + 256 * b3), 8, k);
    if k >= 8 {
      BitsSplit(b1, b2 + 256 * b3, 8, k - 8);
      if k >= 16 { BitsSplit(b2, b3, 8, k - 16); }
    }
  }

  /** The bitmap has as many bits set as the super block says blocks are unused. */
  lemma FreeCount(fs: Fs, fs': Fs)
    requires Mapped(fs, fs') && Conserved(fs)
    ensures CountFree(fs'.disk, FreemapBlocks(fs.ninos) * BLKBITS) == fs.unused
    ensures var super := fs'.disk[BLKN_SUPER];
      Get32(super, 0) == MAGIC && Get32(super, 4) == fs.ninos && Get32(super, 8) == fs.unused
  {
    forall b | 0 <= b < FreemapBlocks(fs.ninos) * BLKBITS
      ensures ReadFreeBit(fs'.disk, b) == Some(fs.nextIno <= b < fs.ninos)
    {
      FreeBits(fs, fs', b);
    }
    CountFreeSpec(fs'.disk, FreemapBlocks(fs.ninos) * BLKBITS, fs.nextIno, fs.ninos);
    SuperFields(fs.ninos, fs.unused, fs.info);
  }

  lemma SuperFields(blocks: nat, unused: nat, info: seq<byte>)
    requires |info| == 32 && blocks < U32 && unused < U32
    ensures var super := Pad(SuperBytes(blocks, unused, info));
      Get32(super, 0) == MAGIC && Get32(super, 4) == blocks && Get32(super, 8) == unused
  {
    var c := SuperBytes(blocks, unused, info);
    var super := Pad(c);
    assert c[0..4] == Bytes32(MAGIC) && c[4..8] == Bytes32(blocks) && c[8..12] == Bytes32(unused);
    assert c <= super;
    Field32(MAGIC, super, c, 0);
    Field32(blocks, super, c, 4);
    Field32(unused, super, c, 8);
  }

  // ----- following the pointers -----

  /** The index blocks of one inode are on the disk. */
  ghost predicate IndexOnDisk(cbs: seq<CacheBlock>, idx: seq<nat>, disk: Disk)
  {
    forall i :: 0 <= i < |idx| ==> idx[i] < |cbs| && BlockOnDisk(cbs[idx[i]], disk)
  }

  ghost predicate BlockOnDisk(cb: CacheBlock, disk: Disk)
  {
    |cb.data| == NENTRY && cb.ino < U32 && cb.ino in disk && disk[cb.ino] == WordBytes(cb.data)
  }

  /** The pointers of a closed inode lead to its blocks, at all three levels. */
  lemma PointerRead(ci: CacheInode, cbs: seq<CacheBlock>, idx: seq<nat>, blks: seq<nat>, disk: Disk, inode: seq<byte>,
      k: nat)
    requires IndexOk(ci, cbs, idx, blks) && IndexOnDisk(cbs, idx, disk)
    requires Fields32(ci.inode) && inode == Pad(InodeBytes(ci.inode))
    requires k < |blks| && blks[k] < U32
    ensures ReadPtr(disk, inode, k) == Some(blks[k])
  {
    assert InodeBytes(ci.inode) <= inode;
    hide InodeBytes, WordBytes, Pad;
    InodeRoundTrip(ci.inode, inode);
    assert Holds(ci, cbs, idx, k, blks[k]);
    if k < L0_NBLKS {
    } else if k < L1_NBLKS {
      assert BlockOnDisk(cbs[idx[0]], disk);
      IndexRoundTrip(cbs[idx[0]].data, k - L0_NBLKS);
    } else {
      var j := (k - L1_NBLKS) / NENTRY;
      IndexOfInRange(k, |blks|);
      assert BlockOnDisk(cbs[idx[1]], disk) && BlockOnDisk(cbs[idx[2 + j]], disk);
      IndexRoundTrip(cbs[idx[1]].data, j);
      IndexRoundTrip(cbs[idx[2 + j]].data, (k - L1_NBLKS) % NENTRY);
    }
  }

  /** What a reader finds in the block of inode h and behind its pointers. */
  ghost predicate InodeShown(ci: CacheInode, chunks: seq<seq<byte>>, disk: Disk)
  {
    && ci.ino in disk && |disk[ci.ino]| == BLKSIZE
    && (var inode := disk[ci.ino];
        && Get16(inode, 4) == ci.inode.typ && Get16(inode, 6) == ci.inode.nlinks
        && Get32(inode, 0) == TotalLength(chunks) && Get32(inode, 8) == |chunks|
        && (forall k :: 0 <= k < |chunks| ==> ChunkShown(chunks, disk, inode, k)))
  }

  ghost predicate ChunkShown(chunks: seq<seq<byte>>, disk: Disk, inode: seq<byte>, k: nat)
    requires k < |chunks| && |inode| == BLKSIZE
  {
    |chunks[k]| <= BLKSIZE && ReadAt(disk, inode, k) == Some(Pad(chunks[k]))
  }

  ghost predicate AllShown(fs: Fs, a: Abs, disk: Disk)
    requires Sized(fs, a)
  {
    forall h :: 0 <= h < |fs.cis| ==> InodeShown(fs.cis[h], a.chunks[h], disk)
  }

  lemma {:induction false} TotalBound(chunks: seq<seq<byte>>)
    requires forall k :: 0 <= k < |chunks| ==> |chunks[k]| <= BLKSIZE
    ensures TotalLength(chunks) <= BLKSIZE * |chunks|
  {
    if chunks != [] { TotalBound(chunks[..|chunks| - 1]); }
  }

  lemma DirectFields(fs: Fs, a: Abs, h: nat)
    requires Sized(fs, a) && Indexed(fs, a) && IndexesOwned(fs.cbs, a.idx, a.owner) && h < |fs.cis|
    requires forall b :: b in a.owner ==> b < U32
    ensures |fs.cis[h].inode.direct| == NDIRECT && fs.cis[h].inode.indirect < U32 && fs.cis[h].inode.dbIndirect < U32
  {
    assert IndexOk(fs.cis[h], fs.cbs, a.idx[h], a.blks[h]);
  }

  lemma SmallFields(fs: Fs, a: Abs, h: nat)
    requires Rep(fs, a) && h < |fs.cis|
    ensures Fields32(fs.cis[h].inode)
    ensures fs.cis[h].inode.size == TotalLength(a.chunks[h]) && fs.cis[h].inode.blocks == |a.chunks[h]|
    ensures forall k :: 0 <= k < |a.blks[h]| ==> a.blks[h][k] < U32
    ensures forall i :: 0 <= i < |a.idx[h]| ==> a.idx[h][i] < |fs.cbs| && fs.cbs[a.idx[h][i]].ino < U32
  {
    hide FiledUnderZero, FiledByReal, WrittenOnce, NoneLost, IndexesUsed, InodesOwned, OnDisk, WellFormed, IndexOk,
        Indexed;
    ChunkCount(fs, a, h);
    assert ChunksOnDisk(fs.disk, a.blks[h], a.chunks[h]) by { OnDiskAt(fs, a, h); }
    TotalBound(a.chunks[h]);
    DirectFields(fs, a, h);
    assert CountersOk(fs.cis[h], a.chunks[h]);
    forall k | 0 <= k < |a.blks[h]| ensures a.blks[h][k] < U32 {
      assert a.blks[h][k] in a.owner;
    }
    forall i | 0 <= i < |a.idx[h]| ensures a.idx[h][i] < |fs.cbs| && fs.cbs[a.idx[h][i]].ino < U32 {
      assert fs.cbs[a.idx[h][i]].ino in a.owner;
    }
  }

  lemma OnDiskAt(fs: Fs, a: Abs, h: nat)
    requires Sized(fs, a) && OnDisk(fs.disk, a.blks, a.chunks) && h < |fs.cis|
    ensures ChunksOnDisk(fs.disk, a.blks[h], a.chunks[h])
  {
  }

  lemma CacheShown(fs: Fs, fs': Fs, c: nat)
    requires WellFormed(fs) && Image(fs, fs') && c < |fs.cbs| && fs.cbs[c].ino < U32
    ensures BlockOnDisk(fs.cbs[c], fs'.disk)
  {
    hide Mapped;
    FullBlock(WordBytes(fs.cbs[c].data));
  }

  lemma IndexShown(fs: Fs, a: Abs, fs': Fs, h: nat)
    requires Rep(fs, a) && Image(fs, fs') && h < |fs.cis|
    ensures IndexOnDisk(fs.cbs, a.idx[h], fs'.disk)
  {
    hide Image, Owned, OnDisk, WrittenOnce, Counters, FiledByReal, FiledUnderZero, Conserved, WellFormed, Indexed,
         BlockOnDisk;
    SmallFields(fs, a, h);
    forall i | 0 <= i < |a.idx[h]| ensures BlockOnDisk(fs.cbs[a.idx[h][i]], fs'.disk) {
      CacheShown(fs, fs', a.idx[h][i]);
    }
  }

  lemma IndexedAt(fs: Fs, a: Abs, h: nat)
    requires Sized(fs, a) && Indexed(fs, a) && h < |fs.cis|
    ensures IndexOk(fs.cis[h], fs.cbs, a.idx[h], a.blks[h])
  {
  }

  lemma BlockShown(fs: Fs, a: Abs, fs': Fs, h: nat, k: nat)
    requires Rep(fs, a) && Image(fs, fs') && h < |fs.cis| && k < |a.chunks[h]|
    requires InodeBytes(fs.cis[h].inode) <= fs'.disk[fs.cis[h].ino]
    ensures ChunkShown(a.chunks[h], fs'.disk, fs'.disk[fs.cis[h].ino], k)
  {
    var ci, disk := fs.cis[h], fs'.disk;
    SmallFields(fs, a, h);
    IndexShown(fs, a, fs', h);
    IndexedAt(fs, a, h);
    OnDiskAt(fs, a, h);
    hide Owned, IndexOk, IndexOnDisk, OnDisk, WrittenOnce, Counters, FiledByReal, FiledUnderZero, Conserved, WellFormed,
         Indexed, InodeBytes, Pad;
    PointerRead(ci, fs.cbs, a.idx[h], a.blks[h], disk, disk[ci.ino], k);
  }

  lemma ShowInode(fs: Fs, a: Abs, fs': Fs, h: nat)
    requires Rep(fs, a) && Image(fs, fs') && h < |fs.cis|
    ensures InodeShown(fs.cis[h], a.chunks[h], fs'.disk)
  {
    var ci, disk := fs.cis[h], fs'.disk;
    SmallFields(fs, a, h);
    var inode := disk[ci.ino];
    assert |inode| == BLKSIZE && InodeBytes(ci.inode) <= inode;
    hide InodeBytes, Pad;
    forall k | 0 <= k < |a.chunks[h]| ensures ChunkShown(a.chunks[h], disk, inode, k) {
      BlockShown(fs, a, fs', h, k);
    }
    hide *;
    InodeRoundTrip(ci.inode, inode);
  }

  lemma ShowAll(fs: Fs, a: Abs, fs': Fs)
    requires Rep(fs, a) && Image(fs, fs')
    ensures AllShown(fs, a, fs'.disk)
  {
    hide InodeShown, Image;
    forall h | 0 <= h < |fs.cis| ensures InodeShown(fs.cis[h], a.chunks[h], fs'.disk) {
      ShowInode(fs, a, fs', h);
    }
  }

  // ----- contents -----

  function Joined(chunks: seq<seq<byte>>): seq<byte>
    requires forall k :: 0 <= k < |chunks| ==> |chunks[k]| <= BLKSIZE
  {
    if chunks == [] then [] else Joined(chunks[..|chunks| - 1]) + Pad(chunks[|chunks| - 1])
  }

  lemma {:induction false} DataRead(chunks: seq<seq<byte>>, disk: Disk, inode: seq<byte>, n: nat)
    requires |inode| == BLKSIZE && n <= |chunks| && forall k :: 0 <= k < |chunks| ==> |chunks[k]| <= BLKSIZE
    requires forall k :: 0 <= k < |chunks| ==> ChunkShown(chunks, disk, inode, k)
    ensures ReadData(disk, inode, n) == Some(Joined(chunks[..n]))
  {
    hide Pad, ReadAt;
    if n > 0 {
      DataRead(chunks, disk, inode, n - 1);
      assert ChunkShown(chunks, disk, inode, n - 1);
      assert chunks[..n][..n - 1] == chunks[..n - 1];
    }
  }

  lemma {:induction false} JoinedFront(c: seq<byte>, rest: seq<seq<byte>>)
    requires |c| <= BLKSIZE && forall k :: 0 <= k < |rest| ==> |rest[k]| <= BLKSIZE
    ensures Joined([c] + rest) == Pad(c) + Joined(rest)
    ensures TotalLength([c] + rest) == |c| + TotalLength(rest)
  {
    hide Pad;
    var chunks, n := [c] + rest, |rest|;
    if n == 0 {
      assert chunks[..0] == [] && chunks == [c];
      assert Joined([]) == [] && [] + Pad(c) == Pad(c) == Pad(c) + [];
    } else {
      JoinedFront(c, rest[..n - 1]);
      assert chunks[..n] == [c] + rest[..n - 1];
      assert (Pad(c) + Joined(rest[..n - 1])) + Pad(rest[n - 1]) == Pad(c) + (Joined(rest[..n - 1]) + Pad(rest[n - 1]));
    }
  }

  /** A file's blocks start with its content, and its chunks add up to its length. */
  lemma {:induction false} FileJoined(content: seq<byte>)
    ensures content <= Joined(FileChunks(content)) && TotalLength(FileChunks(content)) == |content|
    decreases |content|
  {
    if content != [] {
      var n := Min(|content|, BLKSIZE);
      var c, rest := content[..n], content[n..];
      FileJoined(rest);
      JoinedFront(c, FileChunks(rest));
      assert content == c + rest;
      if n == BLKSIZE {
        FullBlock(c);
      } else {
        assert content == c <= Pad(c);
      }
    }
  }

  lemma ContentRead(ci: CacheInode, chunks: seq<seq<byte>>, disk: Disk, content: seq<byte>)
    requires InodeShown(ci, chunks, disk) && forall k :: 0 <= k < |chunks| ==> |chunks[k]| <= BLKSIZE
    requires content <= Joined(chunks) && TotalLength(chunks) == |content|
    ensures ReadContent(disk, disk[ci.ino]) == Some(content)
  {
    hide Pad, ReadAt, Joined, TotalLength;
    var inode := disk[ci.ino];
    DataRead(chunks, disk, inode, |chunks|);
    assert chunks[..|chunks|] == chunks;
    assert ReadData(disk, inode, Get32(inode, 8)) == Some(Joined(chunks));
    assert Joined(chunks)[..|content|] == content;
  }

  // ----- the tree -----

  /** The node shows the host's object: a file's or link's bytes, a directory's visible entries
      in order under their (clipped) names, behind "." and "..". `files` gives the inode number
      of each host file. */
  ghost predicate Shows(node: Node, t: Host, parent: nat, files: map<nat, nat>)
    decreases t, 1
  {
    match t
    case File(r, content) => r in files && node == FileNode(files[r], content)
    case Link(_, target) => node.LinkNode? && node.target == target
    case Dir(_, entries) =>
      && node.DirNode? && |node.entries| >= 2
      && node.entries[..2] == [Special(DOT, node.ino), Special(DOTDOT, parent)]
      && ShowsAll(node.entries[2..], entries, node.ino, files)
    case Other => false
  }

  ghost predicate ShowsAll(nodes: seq<NodeEntry>, entries: seq<Dirent>, dir: nat, files: map<nat, nat>)
    decreases entries, 0
  {
    if entries == [] then nodes == []
    else if Skipped(entries[0]) then ShowsAll(nodes, entries[1..], dir, files)
    else
      && nodes != [] && nodes[0].Sub? && nodes[0].name == Clip(entries[0].name)
      && Shows(nodes[0].node, entries[0].node, dir, files)
      && ShowsAll(nodes[1..], entries[1..], dir, files)
  }

  /** How many entries of the tree name inode number i, with "." and ".." or without. */
  function Naming(node: Node, i: nat, dots: bool): nat
  {
    if node.DirNode? then NamingAll(node.entries, i, dots) else 0
  }

  function NamingAll(entries: seq<NodeEntry>, i: nat, dots: bool): nat
  {
    if entries == [] then 0
    else
      (match entries[0]
       case Special(_, ino) => if dots && ino == i then 1 else 0
       case Sub(_, node) => (if node.ino == i then 1 else 0) + Naming(node, i, dots))
      + NamingAll(entries[1..], i, dots)
  }

  /** The depth to which a reader has to descend. */
  function Depth(t: Host): nat
    decreases t, 1
  {
    if t.Dir? then 1 + DepthAll(t.entries) else 0
  }

  function DepthAll(entries: seq<Dirent>): nat
    decreases entries, 0
  {
    if entries == [] then 0
    else
      var d, rest := Depth(entries[0].node), DepthAll(entries[1..]);
      if d > rest then d else rest
  }

  /** The inode numbers of the regular files by their host numbers. */
  ghost function Files(cis: seq<CacheInode>): map<nat, nat>
  {
    if cis == [] then map[]
    else
      var n := |cis| - 1;
      var before := Files(cis[..n]);
      if cis[n].inode.typ == TYPE_FILE then before[cis[n].realIno := cis[n].ino] else before
  }

  ghost predicate StandsFor(ci: CacheInode, r: nat, ino: nat)
  {
    ci.realIno == r && ci.ino == ino
  }

  lemma {:induction false} FilesSpec(cis: seq<CacheInode>)
    requires FilesDistinct(cis)
    ensures forall h :: 0 <= h < |cis| && cis[h].inode.typ == TYPE_FILE ==>
      cis[h].realIno in Files(cis) && Files(cis)[cis[h].realIno] == cis[h].ino
    ensures forall r :: r in Files(cis) ==> exists h :: 0 <= h < |cis| && StandsFor(cis[h], r, Files(cis)[r])
  {
    if cis != [] {
      var n := |cis| - 1;
      var init := cis[..n];
      FilesSpec(init);
      forall r | r in Files(cis) ensures exists h :: 0 <= h < |cis| && StandsFor(cis[h], r, Files(cis)[r]) {
        if cis[n].inode.typ == TYPE_FILE && r == cis[n].realIno {
          assert StandsFor(cis[n], r, Files(cis)[r]);
        } else {
          var h :| 0 <= h < |init| && StandsFor(init[h], r, Files(init)[r]);
          assert StandsFor(cis[h], r, Files(cis)[r]);
        }
      }
    }
  }

  /** Different host files have different inodes. */
  ghost predicate Injective(files: map<nat, nat>)
  {
    forall r, r' :: r in files && r' in files && r != r' ==> files[r] != files[r']
  }

  lemma FilesInjective(cis: seq<CacheInode>, owner: map<nat, Owner>)
    requires FilesDistinct(cis) && InodesOwned(cis, owner)
    ensures Injective(Files(cis))
  {
    FilesSpec(cis);
    var files := Files(cis);
    forall r, r' | r in files && r' in files && r != r' ensures files[r] != files[r'] {
      var h :| 0 <= h < |cis| && StandsFor(cis[h], r, files[r]);
      var h' :| 0 <= h' < |cis| && StandsFor(cis[h'], r', files[r']);
    }
  }

  /** Two entries for regular files share an inode exactly when the host's numbers are equal. */
  lemma SharedAsOnHost(n1: Node, n2: Node, t1: Host, t2: Host, p1: nat, p2: nat, files: map<nat, nat>)
    requires Injective(files) && t1.File? && t2.File?
    requires Shows(n1, t1, p1, files) && Shows(n2, t2, p2, files)
    ensures n1.ino == n2.ino <==> t1.realIno == t2.realIno
  {
  }

  // ----- reading the tree -----

  /** The cached inode with number i, or none. */
  ghost function Handle(fs: Fs, a: Abs, i: nat): nat
  {
    if i in a.owner && a.owner[i].InodeOwner? then a.owner[i].h else |fs.cis|
  }

  /** What reading relies on. */
  ghost predicate Readable(fs: Fs, a: Abs, disk: Disk, files: map<nat, nat>)
  {
    && Sized(fs, a) && Entries(fs, a) && AllShown(fs, a, disk)
    && InodesOwned(fs.cis, a.owner) && NoneLost(fs, a)
    && (forall h :: 0 <= h < |fs.cis| && fs.cis[h].inode.typ == TYPE_FILE ==>
          fs.cis[h].realIno in files && files[fs.cis[h].realIno] == fs.cis[h].ino)
  }

  lemma HandleSpec(fs: Fs, a: Abs, disk: Disk, files: map<nat, nat>, i: nat, c: nat)
    requires Readable(fs, a, disk, files) && c < |fs.cis|
    ensures fs.cis[c].ino == i <==> c == Handle(fs, a, i)
  {
    hide Entries, AllShown;
    if c == Handle(fs, a, i) { assert Uses(fs, a, a.owner[i], i); }
  }

  ghost predicate EntryRead(cis: seq<CacheInode>, disk: Disk, e: Entry, depth: nat, node: NodeEntry)
    requires e.child < |cis|
  {
    ReadEntry(disk, Clip(e.name), cis[e.child].ino, depth) == Some(node)
  }

  /** The block of an entry. */
  lemma OneEntry(cis: seq<CacheInode>, disk: Disk, inode: seq<byte>, chunks: seq<seq<byte>>, e: Entry, k: nat,
                 depth: nat, node: NodeEntry)
    requires |inode| == BLKSIZE && k < |chunks| && ChunkShown(chunks, disk, inode, k) && e.child < |cis|
    requires EntryChunk(chunks[k], e.name, cis[e.child].ino) && EntryRead(cis, disk, e, depth, node)
    ensures ReadAt(disk, inode, k).Some?
    ensures var block := ReadAt(disk, inode, k).value;
      ReadEntry(disk, CStr(block[4..]), Get32(block, 0), depth) == Some(node)
  {
    hide ReadAt, Pad, CStr, ReadEntry, Clip;
  }

  /** Reading a directory's blocks in turn. */
  lemma {:induction false} EntriesRead(cis: seq<CacheInode>, disk: Disk, inode: seq<byte>, chunks: seq<seq<byte>>,
                                       ents: seq<Entry>, nodes: seq<NodeEntry>, n: nat, depth: nat)
    requires |inode| == BLKSIZE && n <= |nodes| == |ents| == |chunks|
    requires forall k :: 0 <= k < |ents| ==> ents[k].child < |cis|
    requires forall k :: 0 <= k < |ents| ==> ChunkShown(chunks, disk, inode, k)
    requires forall k :: 0 <= k < |ents| ==> EntryChunk(chunks[k], ents[k].name, cis[ents[k].child].ino)
    requires forall k :: 0 <= k < |ents| ==> EntryRead(cis, disk, ents[k], depth, nodes[k])
    ensures ReadEntries(disk, inode, n, depth) == Some(nodes[..n])
  {
    hide ReadAt, CStr, ReadEntry, ChunkShown, EntryChunk, EntryRead;
    if n > 0 {
      EntriesRead(cis, disk, inode, chunks, ents, nodes, n - 1, depth);
      OneEntry(cis, disk, inode, chunks, ents[n - 1], n - 1, depth, nodes[n - 1]);
      assert nodes[..n - 1] + [nodes[n - 1]] == nodes[..n];
    }
  }

  lemma ChunkAt(ci: CacheInode, chunks: seq<seq<byte>>, disk: Disk, k: nat)
    requires InodeShown(ci, chunks, disk) && k < |chunks|
    ensures ChunkShown(chunks, disk, disk[ci.ino], k)
  {
  }

  /** A file or a link. */
  lemma LeafRead(fs: Fs, a: Abs, done: set<nat>, disk: Disk, files: map<nat, nat>, h: nat, t: Host, parent: nat,
      depth: nat)
    returns (node: Node)
    requires Readable(fs, a, disk, files) && TreeAt(fs, a, done, h, t, parent) && !t.Dir? && parent < |fs.cis|
    ensures ReadNode(disk, fs.cis[h].ino, depth) == Some(node) && node.ino == fs.cis[h].ino
    ensures Shows(node, t, fs.cis[parent].ino, files)
    ensures forall i: nat, dots :: Naming(node, i, dots) == NamesTree(a.ents, dots, h, t, Handle(fs, a, i))
  {
    assert InodeShown(fs.cis[h], a.chunks[h], disk);
    hide Joined, TotalLength, FileChunks, Pad, ReadContent, Entries, AllShown, NoneLost, InodesOwned;
    var chunks := a.chunks[h];
    forall k | 0 <= k < |chunks| ensures |chunks[k]| <= BLKSIZE {
      ChunkAt(fs.cis[h], chunks, disk, k);
    }
    match t
    case File(r, content) =>
      FileJoined(content);
      ContentRead(fs.cis[h], chunks, disk, content);
      node := FileNode(fs.cis[h].ino, content);
    case Link(r, target) =>
      LinkJoined(target);
      ContentRead(fs.cis[h], chunks, disk, target);
      node := LinkNode(fs.cis[h].ino, target);
  }

  lemma LinkJoined(target: seq<byte>)
    requires |target| <= BLKSIZE
    ensures target <= Joined([target]) && TotalLength([target]) == |target|
  {
    assert [target] == [target] + [];
    JoinedFront(target, []);
  }

  lemma EntriesInRange(fs: Fs, a: Abs, disk: Disk, files: map<nat, nat>, h: nat)
    requires Readable(fs, a, disk, files) && h < |fs.cis| && fs.cis[h].inode.typ == TYPE_DIR
    ensures Sized(fs, a) && forall k :: 0 <= k < |a.ents[h]| ==> a.ents[h][k].child < |fs.cis|
  {
    assert EntriesOf(fs.cis, h, a.chunks[h], a.ents[h]);
  }

  /** Reading inode h gives back the tree that was put there. */
  lemma {:induction false} TreeRead(fs: Fs, a: Abs, done: set<nat>, disk: Disk, files: map<nat, nat>,
                                    h: nat, t: Host, parent: nat, depth: nat)
    returns (node: Node)
    requires Readable(fs, a, disk, files) && TreeAt(fs, a, done, h, t, parent) && parent < |fs.cis| && depth >= Depth(t)
    ensures ReadNode(disk, fs.cis[h].ino, depth) == Some(node) && node.ino == fs.cis[h].ino
    ensures Shows(node, t, fs.cis[parent].ino, files)
    ensures forall i: nat, dots :: Naming(node, i, dots) == NamesTree(a.ents, dots, h, t, Handle(fs, a, i))
    decreases t, 1
  {
    hide Readable, ShowsAll, EntriesAt, Handle, NamingAll, NamesAll, CountIn, ReadNode, Naming, NamesTree, Shows,
        EntryRead;
    if !t.Dir? {
      node := LeafRead(fs, a, done, disk, files, h, t, parent, depth);
    } else {
      EntriesInRange(fs, a, disk, files, h);
      var rest := AllRead(fs, a, done, disk, files, h, a.ents[h][2..], t.entries, depth - 1);
      node := DirShown(fs, a, done, disk, files, h, t, parent, rest, depth);
    }
  }

  lemma DirShown(fs: Fs, a: Abs, done: set<nat>, disk: Disk, files: map<nat, nat>,
                 h: nat, t: Host, parent: nat, rest: seq<NodeEntry>, depth: nat)
    returns (node: Node)
    requires Readable(fs, a, disk, files) && TreeAt(fs, a, done, h, t, parent) && t.Dir?
    requires parent < |fs.cis| && depth > 0
    requires forall k :: 0 <= k < |a.ents[h]| ==> a.ents[h][k].child < |fs.cis|
    requires |rest| == |a.ents[h]| - 2
    requires forall k :: 0 <= k < |rest| ==> EntryRead(fs.cis, disk, a.ents[h][2..][k], depth - 1, rest[k])
    requires ShowsAll(rest, t.entries, fs.cis[h].ino, files)
    requires forall i: nat, dots ::
        NamingAll(rest, i, dots) == NamesAll(a.ents, dots, a.ents[h][2..], t.entries, Handle(fs, a, i))
    ensures ReadNode(disk, fs.cis[h].ino, depth) == Some(node) && node.ino == fs.cis[h].ino
    ensures Shows(node, t, fs.cis[parent].ino, files)
    ensures forall i: nat, dots :: Naming(node, i, dots) == NamesTree(a.ents, dots, h, t, Handle(fs, a, i))
  {
    hide ShowsAll, EntriesAt, Handle, NamingAll, NamesAll, CountIn, ReadNode, Entries, AllShown, NoneLost,
        InodesOwned, EntryRead;
    node := DirRead(fs, a, disk, files, h, parent, rest, depth);
    assert node.entries[2..] == rest;
    forall i: nat, dots: bool ensures Naming(node, i, dots) == NamesTree(a.ents, dots, h, t, Handle(fs, a, i)) {
      DotsNamed(fs, a, disk, files, h, parent, node.entries, rest, i, dots);
    }
  }

  lemma DotRead(cis: seq<CacheInode>, disk: Disk, e: Entry, depth: nat)
    requires e.child < |cis| && (e.name == DOT || e.name == DOTDOT)
    ensures EntryRead(cis, disk, e, depth, Special(e.name, cis[e.child].ino))
  {
  }

  /** The two dot entries and what follows them make up a directory. */
  lemma DirRead(fs: Fs, a: Abs, disk: Disk, files: map<nat, nat>, h: nat, parent: nat, rest: seq<NodeEntry>, depth: nat)
    returns (node: Node)
    requires Readable(fs, a, disk, files) && h < |fs.cis| && parent < |fs.cis| && depth > 0
    requires fs.cis[h].inode.typ == TYPE_DIR && |a.ents[h]| >= 2 && |rest| == |a.ents[h]| - 2
    requires a.ents[h][..2] == [Entry(DOT, h), Entry(DOTDOT, parent)]
    requires forall k :: 0 <= k < |a.ents[h]| ==> a.ents[h][k].child < |fs.cis|
    requires forall k :: 0 <= k < |rest| ==> EntryRead(fs.cis, disk, a.ents[h][2..][k], depth - 1, rest[k])
    ensures node == DirNode(fs.cis[h].ino, [Special(DOT, fs.cis[h].ino), Special(DOTDOT, fs.cis[parent].ino)] + rest)
    ensures ReadNode(disk, fs.cis[h].ino, depth) == Some(node)
  {
    hide EntryRead, ReadNode, NoneLost, InodesOwned, InodeShown, Entries;
    var dots := [Special(DOT, fs.cis[h].ino), Special(DOTDOT, fs.cis[parent].ino)];
    var nodes := dots + rest;
    node := DirNode(fs.cis[h].ino, nodes);
    var ents := a.ents[h];
    forall k | 0 <= k < |ents| ensures EntryRead(fs.cis, disk, ents[k], depth - 1, nodes[k]) {
      if k < 2 {
        assert ents[k] == ents[..2][k];
        DotRead(fs.cis, disk, ents[k], depth - 1);
      } else {
        assert ents[k] == ents[2..][k - 2];
      }
    }
    assert EntriesOf(fs.cis, h, a.chunks[h], ents) by { EntriesShown(fs, a, h); }
    DirNodeRead(fs.cis, h, a.chunks[h], ents, disk, nodes, depth);
  }

  lemma EntriesShown(fs: Fs, a: Abs, h: nat)
    requires Sized(fs, a) && Entries(fs, a) && h < |fs.cis|
    ensures EntriesOf(fs.cis, h, a.chunks[h], a.ents[h])
  {
  }

  /** A directory whose entries can be read. */
  lemma DirNodeRead(cis: seq<CacheInode>, h: nat, chunks: seq<seq<byte>>, ents: seq<Entry>, disk: Disk,
                    nodes: seq<NodeEntry>, depth: nat)
    requires h < |cis| && cis[h].inode.typ == TYPE_DIR && InodeShown(cis[h], chunks, disk) && depth > 0
    requires EntriesOf(cis, h, chunks, ents) && |nodes| == |ents|
    requires forall k :: 0 <= k < |ents| ==> ents[k].child < |cis|
    requires forall k :: 0 <= k < |ents| ==> EntryRead(cis, disk, ents[k], depth - 1, nodes[k])
    ensures ReadNode(disk, cis[h].ino, depth) == Some(DirNode(cis[h].ino, nodes))
  {
    hide EntryChunk, ChunkShown, EntryRead, ReadEntry;
    EntriesRead(cis, disk, disk[cis[h].ino], chunks, ents, nodes, |nodes|, depth - 1);
    assert nodes[..|nodes|] == nodes;
  }

  lemma DotsNamed(fs: Fs, a: Abs, disk: Disk, files: map<nat, nat>, h: nat, parent: nat, nodes: seq<NodeEntry>,
                  rest: seq<NodeEntry>, i: nat, dots: bool)
    requires Readable(fs, a, disk, files) && h < |fs.cis| && parent < |fs.cis|
    requires |a.ents[h]| >= 2 && a.ents[h][..2] == [Entry(DOT, h), Entry(DOTDOT, parent)]
    requires nodes == [Special(DOT, fs.cis[h].ino), Special(DOTDOT, fs.cis[parent].ino)] + rest
    ensures NamingAll(nodes, i, dots)
         == (if dots then CountIn(a.ents[h][..2], Handle(fs, a, i)) else 0) + NamingAll(rest, i, dots)
  {
    HandleSpec(fs, a, disk, files, i, h);
    HandleSpec(fs, a, disk, files, i, parent);
    CountTwo(Entry(DOT, h), Entry(DOTDOT, parent), Handle(fs, a, i));
    assert nodes[1..] == [Special(DOTDOT, fs.cis[parent].ino)] + rest;
    assert nodes[1..][1..] == rest;
  }

  lemma {:induction false} AllRead(fs: Fs, a: Abs, done: set<nat>, disk: Disk, files: map<nat, nat>,
                                   dir: nat, ents: seq<Entry>, entries: seq<Dirent>, depth: nat)
    returns (nodes: seq<NodeEntry>)
    requires Readable(fs, a, disk, files) && EntriesAt(fs, a, done, dir, ents, entries)
    requires dir < |fs.cis| && depth >= DepthAll(entries)
    requires forall k :: 0 <= k < |ents| ==> ents[k].child < |fs.cis|
    ensures |nodes| == |ents| && forall k :: 0 <= k < |ents| ==> EntryRead(fs.cis, disk, ents[k], depth, nodes[k])
    ensures ShowsAll(nodes, entries, fs.cis[dir].ino, files)
    ensures forall i: nat, dots :: NamingAll(nodes, i, dots) == NamesAll(a.ents, dots, ents, entries, Handle(fs, a, i))
    decreases entries, 0
  {
    hide Readable, Shows, TreeAt, Handle, Naming, NamesTree;
    if entries == [] {
      nodes := [];
    } else if Skipped(entries[0]) {
      nodes := AllRead(fs, a, done, disk, files, dir, ents, entries[1..], depth);
    } else {
      var node := TreeRead(fs, a, done, disk, files, ents[0].child, entries[0].node, dir, depth);
      var rest := AllRead(fs, a, done, disk, files, dir, ents[1..], entries[1..], depth);
      var first := Sub(Clip(entries[0].name), node);
      nodes := [first] + rest;
      assert nodes[1..] == rest;
      VisibleName(entries[0].name);
      forall i: nat, dots: bool
        ensures NamingAll(nodes, i, dots) == NamesAll(a.ents, dots, ents, entries, Handle(fs, a, i))
      {
        HandleSpec(fs, a, disk, files, i, ents[0].child);
      }
    }
  }

  /** A visible entry is not mistaken for "." or "..". */
  lemma VisibleName(name: Name)
    requires !Hidden(name)
    ensures Clip(name) != DOT && Clip(name) != DOTDOT
  {
  }

  // ----- the image as a whole -----

  /** What a reader can say of an image of `ninos` blocks, `used` of them in use, that holds
      these entries in its root directory. */
  ghost predicate Holding(disk: Disk, ninos: nat, used: nat, entries: seq<Dirent>, node: Node, files: map<nat, nat>)
  {
    // the tree, with sharing exactly as on the host
    && ReadNode(disk, BLKN_ROOT, 1 + DepthAll(entries)) == Some(node)
    && Shows(node, Dir(0, entries), BLKN_ROOT, files) && Injective(files)
    // the names and the link counts
    && Naming(node, BLKN_ROOT, false) == 0 && (forall i: nat :: NamesOk(disk, node, i))
    // the blocks in use, the bitmap and the super block
    && (forall b: nat :: b in disk <==> b < used)
    && (forall b: nat :: b < FreemapBlocks(ninos) * BLKBITS ==> ReadFreeBit(disk, b) == Some(used <= b < ninos))
    && SuperOk(disk, ninos, used)
  }

  /** The link count of inode number i is the number of its names; only a regular file has several
      besides "." and "..", and those name directories only. */
  ghost predicate NamesOk(disk: Disk, node: Node, i: nat)
  {
    && (Naming(node, i, true) > 0 ==> LinkCount(disk, i) == Some(Naming(node, i, true) % U16))
    && (Naming(node, i, false) > 1 ==> InodeType(disk, i) == Some(TYPE_FILE))
    && (Naming(node, i, true) != Naming(node, i, false) ==> InodeType(disk, i) == Some(TYPE_DIR))
  }

  function InodeType(disk: Disk, i: nat): Option<nat>
  {
    var inode :- ReadBlock(disk, i);
    Some(Get16(inode, 4))
  }

  function LinkCount(disk: Disk, i: nat): Option<nat>
  {
    var inode :- ReadBlock(disk, i);
    Some(Get16(inode, 6))
  }

  ghost predicate SuperOk(disk: Disk, ninos: nat, used: nat)
  {
    && used <= ninos && BLKN_SUPER in disk && |disk[BLKN_SUPER]| == BLKSIZE
    && Get32(disk[BLKN_SUPER], 0) == MAGIC && Get32(disk[BLKN_SUPER], 4) == ninos
    && Get32(disk[BLKN_SUPER], 8) == ninos - used == CountFree(disk, FreemapBlocks(ninos) * BLKBITS)
  }

  lemma IsReadable(fs: Fs, a: Abs, fs': Fs)
    requires Good(fs, a) && FilesDistinct(fs.cis) && Image(fs, fs')
    ensures Readable(fs, a, fs'.disk, Files(fs.cis)) && Injective(Files(fs.cis))
  {
    hide Links, Image, WellFormed, Indexed, OnDisk, WrittenOnce, Counters, Files, AllShown, Entries;
    ShowAll(fs, a, fs');
    FilesSpec(fs.cis);
    FilesInjective(fs.cis, a.owner);
  }

  /** The type and the link count of a cached inode, as read from its block. */
  lemma InodeOnDisk(fs: Fs, a: Abs, disk: Disk, g: nat)
    requires Sized(fs, a) && AllShown(fs, a, disk) && Links(fs, a) && g < |fs.cis|
    ensures InodeType(disk, fs.cis[g].ino) == Some(fs.cis[g].inode.typ)
    ensures LinkCount(disk, fs.cis[g].ino) == Some(CountAll(a.ents, g) % U16)
  {
    assert InodeShown(fs.cis[g], a.chunks[g], disk);
    hide CountAll;
  }

  /** The disk has the right link count and the right type for an inode number that is named. */
  lemma LinksRead(fs: Fs, a: Abs, done: set<nat>, disk: Disk, node: Node, t: Host, files: map<nat, nat>, i: nat)
    requires Readable(fs, a, disk, files) && Links(fs, a) && |fs.cis| > 0 && fs.cis[0].inode.typ == TYPE_DIR
    requires TreeAt(fs, a, done, 0, t, 0)
    requires forall dots :: Naming(node, i, dots) == NamesTree(a.ents, dots, 0, t, Handle(fs, a, i))
    requires forall g: nat :: CountAll(a.ents, g) == NamesTree(a.ents, true, 0, t, g)
    requires forall g: nat :: OnceNamed(fs, g, NamesTree(a.ents, false, 0, t, g))
    ensures NamesOk(disk, node, i)
  {
    var g := Handle(fs, a, i);
    HandleInRange(fs, a, i);
    assert CountAll(a.ents, g) == NamesTree(a.ents, true, 0, t, g);
    if g == |fs.cis| {
      assert CountAll(a.ents, g) == 0 by { NoneBeyond(fs, a); }
      hide *;
      NoneNamed(fs, a, done, 0, t, 0, g);
      assert Naming(node, i, true) == Naming(node, i, false) == 0;
      NoNames(disk, node, i);
    } else {
      HandleSpec(fs, a, disk, files, i, g);
      InodeOnDisk(fs, a, disk, g);
      assert OnceNamed(fs, g, NamesTree(a.ents, false, 0, t, g));
      if fs.cis[g].inode.typ != TYPE_DIR { DotsNameDirs(fs, a, done, 0, t, 0, g); }
      hide *;
      NamesFit(fs, g, disk, node, i);
    }
  }

  lemma NoNames(disk: Disk, node: Node, i: nat)
    requires Naming(node, i, true) == Naming(node, i, false) == 0
    ensures NamesOk(disk, node, i)
  {
    hide Naming;
  }

  lemma NamesFit(fs: Fs, g: nat, disk: Disk, node: Node, i: nat)
    requires g < |fs.cis| && InodeType(disk, i) == Some(fs.cis[g].inode.typ)
    requires LinkCount(disk, i) == Some(Naming(node, i, true) % U16) && OnceNamed(fs, g, Naming(node, i, false))
    requires fs.cis[g].inode.typ != TYPE_DIR ==> Naming(node, i, true) == Naming(node, i, false)
    ensures NamesOk(disk, node, i)
  {
    hide Naming, InodeType, LinkCount;
  }

  lemma RootUnnamed(fs: Fs, a: Abs, disk: Disk, files: map<nat, nat>, node: Node, t: Host)
    requires Readable(fs, a, disk, files) && |fs.cis| > 0 && fs.cis[0].ino == BLKN_ROOT
    requires fs.cis[0].inode.typ == TYPE_DIR && OnceNamed(fs, 0, NamesTree(a.ents, false, 0, t, 0))
    requires Naming(node, BLKN_ROOT, false) == NamesTree(a.ents, false, 0, t, Handle(fs, a, BLKN_ROOT))
    ensures Naming(node, BLKN_ROOT, false) == 0
  {
    HandleSpec(fs, a, disk, files, BLKN_ROOT, 0);
    hide *;
  }

  lemma HandleInRange(fs: Fs, a: Abs, i: nat)
    requires NoneLost(fs, a)
    ensures Handle(fs, a, i) <= |fs.cis|
  {
    if i in a.owner { assert Uses(fs, a, a.owner[i], i); }
  }

  lemma NoneBeyond(fs: Fs, a: Abs)
    requires Sized(fs, a) && Entries(fs, a)
    ensures CountAll(a.ents, |fs.cis|) == 0
  {
    forall d | 0 <= d < |a.ents| ensures forall k :: 0 <= k < |a.ents[d]| ==> a.ents[d][k].child < |fs.cis| {
      assert EntriesOf(fs.cis, d, a.chunks[d], a.ents[d]);
    }
    CountAllAbsent(a.ents, |fs.cis|);
  }

  lemma MapHolds(fs: Fs, fs': Fs)
    requires Mapped(fs, fs') && Conserved(fs)
    ensures forall b: nat :: b < FreemapBlocks(fs.ninos) * BLKBITS ==>
          ReadFreeBit(fs'.disk, b) == Some(fs.nextIno <= b < fs.ninos)
    ensures SuperOk(fs'.disk, fs.ninos, fs.nextIno)
  {
    FreeCount(fs, fs');
    hide Mapped, Conserved, ReadFreeBit;
    forall b: nat | b < FreemapBlocks(fs.ninos) * BLKBITS
      ensures ReadFreeBit(fs'.disk, b) == Some(fs.nextIno <= b < fs.ninos)
    {
      FreeBits(fs, fs', b);
    }
  }

  /** A complete builder state makes an image of its tree. */
  lemma ImageHolds(fs: Fs, a: Abs, done: set<nat>, entries: seq<Dirent>, fs': Fs)
    returns (node: Node, files: map<nat, nat>)
    requires Complete(fs, a, done, entries) && Image(fs, fs')
    ensures Holding(fs'.disk, fs.ninos, fs.nextIno, entries, node, files)
  {
    hide Rep, Links, Entries, Readable, Injective, FilesDistinct, Mapped, Shows, ReadNode, SuperOk, LinkCount,
         NamesTree, Naming, Handle, CountAll, EntriesAt, WellFormed, Conserved, FreemapBlocks, ReadFreeBit;
    var disk := fs'.disk;
    files := Files(fs.cis);
    IsReadable(fs, a, fs');
    node := TreeRead(fs, a, done, disk, files, 0, Dir(0, entries), 0, 1 + DepthAll(entries));
    forall i: nat ensures NamesOk(disk, node, i) {
      LinksRead(fs, a, done, disk, node, Dir(0, entries), files, i);
    }
    assert fs.cis[0].inode.typ == TYPE_DIR && OnceNamed(fs, 0, NamesTree(a.ents, false, 0, Dir(0, entries), 0));
    RootUnnamed(fs, a, disk, files, node, Dir(0, entries));
    MapHolds(fs, fs');
  }

  /** The image uses no blocks but those that fit in the file, and as many as fit unless there are too
      many; its label is the one given. */
  ghost predicate FitsFile(disk: Disk, imageSize: nat, info: seq<byte>)
  {
    && (forall b: nat :: b in disk ==> (b + 1) * BLKSIZE <= imageSize)
    && BLKN_SUPER in disk && |disk[BLKN_SUPER]| == BLKSIZE && disk[BLKN_SUPER][12..44] == info
    && (var n := Get32(disk[BLKN_SUPER], 4);
        && n * BLKSIZE <= imageSize
        && (imageSize / BLKSIZE < U32 ==> n == 0x80000 || (n < 0x80000 && imageSize < (n + 1) * BLKSIZE)))
  }

  /** The blocks of an image are those that fit in its file. */
  lemma BlocksFit(imageSize: nat)
    ensures var n := ImageBlocks(imageSize);
      && n * BLKSIZE <= imageSize
      && (imageSize / BLKSIZE < U32 ==> n == 0x80000 || (n < 0x80000 && imageSize < (n + 1) * BLKSIZE))
  {
  }

  lemma LabelRead(blocks: nat, unused: nat, info: seq<byte>)
    requires |info| == 32
    ensures Pad(SuperBytes(blocks, unused, info))[12..44] == info
  {
    var c := SuperBytes(blocks, unused, info);
    assert c[12..44] == info && c <= Pad(c);
    assert Pad(c)[12..44] == c[12..44];
  }

  lemma HoldingFits(disk: Disk, imageSize: nat, used: nat, entries: seq<Dirent>, node: Node, files: map<nat, nat>,
                    info: seq<byte>)
    requires Holding(disk, ImageBlocks(imageSize), used, entries, node, files)
    requires disk[BLKN_SUPER][12..44] == info
    ensures FitsFile(disk, imageSize, info)
  {
    hide ReadNode, Shows, Injective, NamesOk, Naming, ReadFreeBit, CountFree, FreemapBlocks, Get32, ImageBlocks;
    BlocksFit(imageSize);
    var n := ImageBlocks(imageSize);
    forall b: nat | b in disk ensures (b + 1) * BLKSIZE <= imageSize {
      assert b + 1 <= n;
    }
  }

  lemma CompleteHolds(fs: Fs, a: Abs, done: set<nat>, entries: seq<Dirent>) returns (node: Node, files: map<nat, nat>)
    requires Complete(fs, a, done, entries)
    ensures Flushable(fs) && BLKN_FREEMAP + FreemapBlocks(fs.ninos) <= fs.ninos
    ensures Holding(Close(fs).disk, fs.ninos, fs.nextIno, entries, node, files) && Once(Close(fs))
    ensures Close(fs).disk[BLKN_SUPER][12..44] == fs.info
  {
    LabelRead(fs.ninos, fs.unused, fs.info);
    hide Rep, Links, Entries, FilesDistinct, TreeAt, NamesTree, Image, Once, Holding, Conserved;
    CloseSpec(fs, a);
    node, files := ImageHolds(fs, a, done, entries, Close(fs));
  }

  /** The run of the builder on an image of n blocks ended as it should: with an image of the tree
      if the root directory with budget b fits, and otherwise with none. */
  ghost predicate RightEnd(r: Option<Fs>, imageSize: nat, info: seq<byte>, b: Budget, entries: seq<Dirent>, node: Node,
                           files: map<nat, nat>)
    requires r.Some? ==> WellFormed(r.value)
  {
    var n := ImageBlocks(imageSize);
    && (r.Some? <==> FirstIno(n) < n && b.ok && FirstIno(n) + b.blocks <= n)
    && (r.Some? ==> GoodEnd(r.value, imageSize, info, FirstIno(n) + b.blocks, entries, node, files))
  }

  ghost predicate GoodEnd(fs: Fs, imageSize: nat, info: seq<byte>, used: nat, entries: seq<Dirent>, node: Node,
                          files: map<nat, nat>)
    requires WellFormed(fs)
  {
    && Flushable(fs) && BLKN_FREEMAP + FreemapBlocks(fs.ninos) <= fs.ninos
    && Holding(Close(fs).disk, ImageBlocks(imageSize), used, entries, node, files)
    && FitsFile(Close(fs).disk, imageSize, info)
    && Once(Close(fs)) && !fs.searched
  }

  lemma EndsRight(r: Option<Fs>, imageSize: nat, info: seq<byte>, b: Budget, entries: seq<Dirent>, node: Node,
                  files: map<nat, nat>)
    requires var n := ImageBlocks(imageSize); r.Some? <==> FirstIno(n) < n && b.ok && FirstIno(n) + b.blocks <= n
    requires r.Some? ==> WellFormed(r.value)
    requires r.Some? ==> var n := ImageBlocks(imageSize);
        GoodEnd(r.value, imageSize, info, FirstIno(n) + b.blocks, entries, node, files)
    ensures RightEnd(r, imageSize, info, b, entries, node, files)
  {
    hide GoodEnd, FirstIno, ImageBlocks, WellFormed;
  }

  lemma EndsWell(fs: Fs, a: Abs, done: set<nat>, imageSize: nat, entries: seq<Dirent>)
    returns (node: Node, files: map<nat, nat>)
    requires Complete(fs, a, done, entries) && fs.ninos == ImageBlocks(imageSize) && !fs.searched && WellFormed(fs)
    ensures GoodEnd(fs, imageSize, fs.info, fs.nextIno, entries, node, files)
  {
    hide Complete, Holding, FitsFile, Once, Close, WellFormed, Flushable, FreemapBlocks, ImageBlocks;
    node, files := CompleteHolds(fs, a, done, entries);
    HoldingFits(Close(fs).disk, imageSize, fs.nextIno, entries, node, files, fs.info);
  }

  /** The builder's main promise. Building fails exactly when the image is too small or the tree
      breaks a limit; otherwise the closed image gives back the visible tree, every number given
      out is written exactly once, all counts agree, and the blocks are those of the file. */
  lemma ImageRoundTrip(imageSize: nat, info: seq<byte>, entries: seq<Dirent>, world: map<nat, Kind>)
    returns (node: Node, files: map<nat, nat>)
    requires |info| == 32 && CoherentAll(world, entries) && 0 !in world
    ensures RightEnd(Build(imageSize, info, entries), imageSize, info, RootBudget(entries), entries, node, files)
  {
    hide *;
    var a, done := BuildGood(imageSize, info, entries, world);
    var r := Build(imageSize, info, entries);
    node, files := FileNode(0, []), map[];
    if r.Some? {
      assert WellFormed(r.value);
      node, files := EndsWell(r.value, a, done, imageSize, entries);
    }
    EndsRight(r, imageSize, info, RootBudget(entries), entries, node, files);
  }

  /** In an image, a link that is named has one name and link count 1, and a directory is named at
      most once besides the dot entries, the root never. */
  lemma NamedOnce(disk: Disk, ninos: nat, used: nat, entries: seq<Dirent>, node: Node, files: map<nat, nat>, i: nat)
    requires Holding(disk, ninos, used, entries, node, files) && Naming(node, i, true) > 0
    ensures InodeType(disk, i) == Some(TYPE_LINK) ==> Naming(node, i, true) == 1 && LinkCount(disk, i) == Some(1)
    ensures InodeType(disk, i) == Some(TYPE_DIR) ==> Naming(node, i, false) <= if i == BLKN_ROOT then 0 else 1
  {
    hide Shows, Naming, InodeType, LinkCount, ReadNode, SuperOk, Injective;
    assert NamesOk(disk, node, i);
  }
}
