/**
 Closing the image: the free bitmap, the super block, and the flush of the two caches, which
 between them write every block number given out, each exactly once.
 */
module SfsClose {
  import opened Bits
  import opened Wrappers
  import opened SfsFormat
  import opened SfsModel
  import opened SfsIndex
  import opened SfsRep

  // ----- the free bitmap -----

  predicate BitAt(words: seq<nat>, b: nat)
    requires b < 32 * |words|
  {
    TestBit(words[b / 32], b % 32)
  }

  ghost predicate Words32(words: seq<nat>)
  {
    forall w :: 0 <= w < |words| ==> words[w] < Pow2(32)
  }

  lemma SetBit(words: seq<nat>, j: nat, b: nat)
    requires j < 32 * |words| && b < 32 * |words|
    ensures BitAt(words[j / 32 := BitOr(words[j / 32], Pow2(j % 32))], b) <==> BitAt(words, b) || b == j
  {
    if b / 32 == j / 32 {
      BitOrTest(words[j / 32], Pow2(j % 32), b % 32);
      OneBit(j % 32, b % 32);
    }
  }

  lemma {:induction false} SetBitsSpec(words: seq<nat>, j: nat, end: nat, b: nat)
    requires end <= 32 * |words| && b < 32 * |words|
    ensures BitAt(SetBits(words, j, end), b) <==> BitAt(words, b) || j <= b < end
    decreases end - j
  {
    if j < end {
      SetBit(words, j, b);
      SetBitsSpec(words[j / 32 := BitOr(words[j / 32], Pow2(j % 32))], j + 1, end, b);
    }
  }

  lemma {:induction false} SetBitsBound(words: seq<nat>, j: nat, end: nat)
    requires end <= 32 * |words| && Words32(words)
    ensures Words32(SetBits(words, j, end))
    decreases end - j
  {
    hide Pow2, BitOr;
    if j < end {
      WordWidth();
      Pow2Grows(j % 32, 32);
      BitOrBound(words[j / 32], Pow2(j % 32), 32);
      SetBitsBound(words[j / 32 := BitOr(words[j / 32], Pow2(j % 32))], j + 1, end);
    }
  }

  lemma WordWidth()
    ensures Pow2(32) == U32
  {
    assert Pow2(4) == 16;
    Pow2Plus(4, 4);
    Pow2Plus(8, 8);
    Pow2Plus(16, 16);
  }

  /** In the block for numbers i, i + 1, ... a bit is set iff its number has not been given out
      and exists; bits beyond the image stay clear. */
  lemma FreemapSpec(i: nat, ninos: nat, nextIno: nat, b: nat)
    requires i < ninos && b < BLKBITS
    ensures BitAt(FreemapWords(i, ninos, nextIno), b) <==> nextIno <= i + b < ninos
    ensures Words32(FreemapWords(i, ninos, nextIno))
  {
    ZeroHasNoBits(b % 32);
    var empty := ZeroWords(NENTRY);
    assert !BitAt(empty, b) && Words32(empty);
    if i + BLKBITS > nextIno {
      var start := if i < nextIno then nextIno - i else 0;
      var end := if i + BLKBITS > ninos then ninos - i else BLKBITS;
      SetBitsSpec(empty, start, end, b);
      SetBitsBound(empty, start, end);
    }
  }

  /** A reader's view of the bitmap. */
  function ReadFreeBit(disk: Disk, b: nat): Option<bool>
  {
    var block :- ReadBlock(disk, BLKN_FREEMAP + b / BLKBITS);
    Some(TestBit(Get32(block, 4 * (b % BLKBITS / 32)), b % 32))
  }

  /** How many of the numbers below n are marked free. */
  function CountFree(disk: Disk, n: nat): nat
  {
    if n == 0 then 0 else CountFree(disk, n - 1) + (if ReadFreeBit(disk, n - 1) == Some(true) then 1 else 0)
  }

  lemma {:induction false} CountFreeSpec(disk: Disk, n: nat, lo: nat, hi: nat)
    requires lo <= hi && forall b :: 0 <= b < n ==> ReadFreeBit(disk, b) == Some(lo <= b < hi)
    ensures CountFree(disk, n) == if n <= lo then 0 else if n <= hi then n - lo else hi - lo
  {
    if n > 0 { CountFreeSpec(disk, n - 1, lo, hi); }
  }

  // ----- writing to numbers not yet written -----

  /** Every block on the disk has been written exactly once. */
  ghost predicate Once(fs: Fs)
  {
    multiset(fs.log) == multiset(fs.disk.Keys)
  }

  lemma WriteFresh(fs: Fs, data: seq<byte>, ino: nat)
    requires Once(fs) && |data| <= BLKSIZE && ino < fs.ninos && ino !in fs.disk
    ensures Once(WriteBlock(fs, data, ino))
  {
    var fs' := WriteBlock(fs, data, ino);
    assert fs'.disk.Keys == fs.disk.Keys + {ino};
    assert multiset(fs'.log) == multiset(fs.log) + multiset{ino};
  }

  function BlocksFrom(ninos: nat, i: nat): nat
  {
    if i < ninos then FreemapBlocks(ninos - i) else 0
  }

  lemma {:induction false} FreemapWritten(fs: Fs, i: nat, ino: nat)
    requires WellFormed(fs) && Once(fs) && ino + BlocksFrom(fs.ninos, i) <= fs.ninos
    requires forall b :: ino <= b < ino + BlocksFrom(fs.ninos, i) ==> b !in fs.disk
    ensures var r, n := WriteFreemap(fs, i, ino), BlocksFrom(fs.ninos, i);
      && Once(r) && (forall b :: b in r.disk <==> b in fs.disk || ino <= b < ino + n)
      && (forall b :: b in fs.disk ==> r.disk[b] == fs.disk[b])
      && (forall k :: 0 <= k < n ==> MapBlock(r, i, ino, k))
    decreases fs.ninos - i
  {
    hide WellFormed, FreemapWords, Once, MapBlock;
    if i < fs.ninos {
      var data := WordBytes(FreemapWords(i, fs.ninos, fs.nextIno));
      var fs1 := WriteBlock(fs, data, ino);
      WriteFresh(fs, data, ino);
      var n := BlocksFrom(fs.ninos, i);
      assert n == 1 + BlocksFrom(fs.ninos, i + BLKBITS);
      FreemapWritten(fs1, i + BLKBITS, ino + 1);
      var r := WriteFreemap(fs1, i + BLKBITS, ino + 1);
      FirstMapBlock(fs, fs1, r, i, ino);
      forall k | 0 <= k < n ensures MapBlock(r, i, ino, k) {
        if k > 0 {
          assert MapBlock(r, i + BLKBITS, ino + 1, k - 1);
          NextMapBlock(r, i, ino, k - 1);
        }
      }
    }
  }

  /** Block ino + k is the k-th part of the bitmap from number i on. */
  ghost predicate MapBlock(fs: Fs, i: nat, ino: nat, k: nat)
  {
    && i + k * BLKBITS < fs.ninos && ino + k in fs.disk
    && fs.disk[ino + k] == Pad(WordBytes(FreemapWords(i + k * BLKBITS, fs.ninos, fs.nextIno)))
  }

  lemma FirstMapBlock(fs: Fs, fs1: Fs, r: Fs, i: nat, ino: nat)
    requires i < fs.ninos && ino < fs.ninos
    requires fs1 == WriteBlock(fs, WordBytes(FreemapWords(i, fs.ninos, fs.nextIno)), ino)
    requires r.ninos == fs.ninos && r.nextIno == fs.nextIno
    requires ino in r.disk && r.disk[ino] == fs1.disk[ino]
    ensures MapBlock(r, i, ino, 0)
  {
  }

  lemma NextMapBlock(fs: Fs, i: nat, ino: nat, k: nat)
    requires MapBlock(fs, i + BLKBITS, ino + 1, k)
    ensures MapBlock(fs, i, ino, k + 1)
  {
  }

  // ----- flushing the caches -----

  /** Something in a cache: an index block or an inode. */
  datatype Ref = BlockRef(c: nat) | InodeRef(h: nat)

  predicate RefOk(fs: Fs, r: Ref)
  {
    match r
    case BlockRef(c) => c < |fs.cbs|
    case InodeRef(h) => h < |fs.cis|
  }

  function RefNumber(fs: Fs, r: Ref): nat
    requires RefOk(fs, r)
  {
    match r
    case BlockRef(c) => fs.cbs[c].ino
    case InodeRef(h) => fs.cis[h].ino
  }

  function RefData(fs: Fs, r: Ref): (data: seq<byte>)
    requires WellFormed(fs) && RefOk(fs, r)
    ensures |data| <= BLKSIZE
  {
    match r
    case BlockRef(c) => WordBytes(fs.cbs[c].data)
    case InodeRef(h) => InodeBytes(fs.cis[h].inode)
  }

  ghost predicate RefsOk(fs: Fs, refs: seq<Ref>)
  {
    forall k :: 0 <= k < |refs| ==> RefOk(fs, refs[k])
  }

  function WriteRefs(fs: Fs, refs: seq<Ref>): (r: Fs)
    requires WellFormed(fs) && Flushable(fs) && RefsOk(fs, refs)
    ensures r == fs.(disk := r.disk, log := r.log)
    decreases refs
  {
    if refs == [] then fs
    else WriteRefs(WriteBlock(fs, RefData(fs, refs[0]), RefNumber(fs, refs[0])), refs[1..])
  }

  function BlockRefs(chain: seq<nat>): (r: seq<Ref>)
    ensures |r| == |chain| && forall k :: 0 <= k < |chain| ==> r[k] == BlockRef(chain[k])
  {
    if chain == [] then [] else [BlockRef(chain[0])] + BlockRefs(chain[1..])
  }

  function InodeRefs(chain: seq<nat>): (r: seq<Ref>)
    ensures |r| == |chain| && forall k :: 0 <= k < |chain| ==> r[k] == InodeRef(chain[k])
  {
    if chain == [] then [] else [InodeRef(chain[0])] + InodeRefs(chain[1..])
  }

  /** What the buckets from the i-th on hold, in the order of flushing. */
  function Refs(blockChains: seq<seq<nat>>, inodeChains: seq<seq<nat>>, i: nat): seq<Ref>
    requires |blockChains| == |inodeChains| == HASH_LIST_SIZE
    decreases HASH_LIST_SIZE - i
  {
    if i >= HASH_LIST_SIZE then []
    else BlockRefs(blockChains[i]) + (InodeRefs(inodeChains[i]) + Refs(blockChains, inodeChains, i + 1))
  }

  lemma {:induction false} FlushBlocksIs(fs: Fs, chain: seq<nat>, rest: seq<Ref>)
    requires WellFormed(fs) && Flushable(fs) && RefsOk(fs, rest) && RefsOk(fs, BlockRefs(chain) + rest)
    requires forall i :: 0 <= i < |chain| ==> chain[i] < |fs.cbs|
    ensures RefsOk(FlushBlocks(fs, chain), rest) && Flushable(FlushBlocks(fs, chain))
    ensures WriteRefs(fs, BlockRefs(chain) + rest) == WriteRefs(FlushBlocks(fs, chain), rest)
    decreases chain
  {
    var refs := BlockRefs(chain) + rest;
    if chain == [] {
      assert refs == rest;
    } else {
      assert refs[1..] == BlockRefs(chain[1..]) + rest;
      var cb := fs.cbs[chain[0]];
      FlushBlocksIs(WriteBlock(fs, WordBytes(cb.data), cb.ino), chain[1..], rest);
    }
  }

  lemma {:induction false} FlushInodesIs(fs: Fs, chain: seq<nat>, rest: seq<Ref>)
    requires WellFormed(fs) && Flushable(fs) && RefsOk(fs, rest) && RefsOk(fs, InodeRefs(chain) + rest)
    requires forall i :: 0 <= i < |chain| ==> chain[i] < |fs.cis|
    ensures RefsOk(FlushInodes(fs, chain), rest) && Flushable(FlushInodes(fs, chain))
    ensures WriteRefs(fs, InodeRefs(chain) + rest) == WriteRefs(FlushInodes(fs, chain), rest)
    decreases chain
  {
    var refs := InodeRefs(chain) + rest;
    if chain == [] {
      assert refs == rest;
    } else {
      assert refs[1..] == InodeRefs(chain[1..]) + rest;
      var ci := fs.cis[chain[0]];
      FlushInodesIs(WriteBlock(fs, InodeBytes(ci.inode), ci.ino), chain[1..], rest);
    }
  }

  lemma BucketIsWrites(fs: Fs, i: nat, rest: seq<Ref>)
    requires WellFormed(fs) && Flushable(fs) && i < HASH_LIST_SIZE && RefsOk(fs, rest)
    ensures RefsOk(fs, BlockRefs(fs.blockChains[i]) + (InodeRefs(fs.inodeChains[i]) + rest))
    ensures var fs1 := FlushBlocks(fs, fs.blockChains[i]);
      var fs2 := FlushInodes(fs1, fs.inodeChains[i]);
      && RefsOk(fs2, rest) && Flushable(fs2)
      && WriteRefs(fs, BlockRefs(fs.blockChains[i]) + (InodeRefs(fs.inodeChains[i]) + rest)) == WriteRefs(fs2, rest)
  {
    var blocks, inodes := BlockRefs(fs.blockChains[i]), InodeRefs(fs.inodeChains[i]);
    assert RefsOk(fs, blocks) && RefsOk(fs, inodes);
    var fs1 := FlushBlocks(fs, fs.blockChains[i]);
    hide FlushBlocks, FlushInodes, WriteRefs;
    FlushBlocksIs(fs, fs.blockChains[i], inodes + rest);
    FlushInodesIs(fs1, fs.inodeChains[i], rest);
  }

  lemma {:induction false} FlushIsWrites(fs: Fs, i: nat)
    requires WellFormed(fs) && Flushable(fs) && i <= HASH_LIST_SIZE
    ensures RefsOk(fs, Refs(fs.blockChains, fs.inodeChains, i))
    ensures FlushBuckets(fs, i) == WriteRefs(fs, Refs(fs.blockChains, fs.inodeChains, i))
    decreases HASH_LIST_SIZE - i
  {
    hide FlushBlocks, FlushInodes, WriteRefs, BlockRefs, InodeRefs, RefsOk;
    if i == HASH_LIST_SIZE {
      NoRefs(fs);
    } else {
      var fs1 := FlushBlocks(fs, fs.blockChains[i]);
      var fs2 := FlushInodes(fs1, fs1.inodeChains[i]);
      FlushIsWrites(fs2, i + 1);
      var rest := Refs(fs.blockChains, fs.inodeChains, i + 1);
      SameRefs(fs2, fs, rest);
      BucketIsWrites(fs, i, rest);
    }
  }

  lemma NoRefs(fs: Fs)
    requires WellFormed(fs) && Flushable(fs)
    ensures RefsOk(fs, []) && WriteRefs(fs, []) == fs
  {
  }

  lemma SameRefs(fs: Fs, fs': Fs, refs: seq<Ref>)
    requires RefsOk(fs, refs) && fs'.cis == fs.cis && fs'.cbs == fs.cbs
    ensures RefsOk(fs', refs)
  {
  }

  ghost predicate NumbersDistinct(fs: Fs, refs: seq<Ref>)
    requires RefsOk(fs, refs)
  {
    forall i, j :: 0 <= i < j < |refs| ==> RefNumber(fs, refs[i]) != RefNumber(fs, refs[j])
  }

  ghost function Numbers(fs: Fs, refs: seq<Ref>): set<nat>
    requires RefsOk(fs, refs)
  {
    set i | 0 <= i < |refs| :: RefNumber(fs, refs[i])
  }

  lemma {:induction false} RefsWritten(fs: Fs, refs: seq<Ref>)
    requires WellFormed(fs) && Flushable(fs) && RefsOk(fs, refs) && Once(fs)
    requires NumbersDistinct(fs, refs) && Numbers(fs, refs) !! fs.disk.Keys
    ensures var r := WriteRefs(fs, refs);
      && Once(r) && r.disk.Keys == fs.disk.Keys + Numbers(fs, refs)
      && (forall b :: b in fs.disk ==> r.disk[b] == fs.disk[b])
      && (forall k :: 0 <= k < |refs| ==> r.disk[RefNumber(fs, refs[k])] == Pad(RefData(fs, refs[k])))
    decreases refs
  {
    hide WellFormed, RefData, Pad, Numbers, NumbersDistinct, Once;
    if refs == [] {
      NoNumbers(fs);
    } else {
      var number, data := RefNumber(fs, refs[0]), RefData(fs, refs[0]);
      var fs1 := WriteBlock(fs, data, number);
      TailNumbers(fs, fs1, refs);
      WriteFresh(fs, data, number);
      SameData(fs, fs1, refs);
      RefsWritten(fs1, refs[1..]);
      var r := WriteRefs(fs1, refs[1..]);
      assert r.disk[number] == Pad(data);
      AllNumbers(fs, refs);
      forall k | 0 <= k < |refs| ensures r.disk[RefNumber(fs, refs[k])] == Pad(RefData(fs, refs[k])) {
        if k > 0 { assert refs[k] == refs[1..][k - 1]; }
      }
    }
  }

  lemma NoNumbers(fs: Fs)
    ensures RefsOk(fs, []) && Numbers(fs, []) == {}
  {
  }

  lemma AllNumbers(fs: Fs, refs: seq<Ref>)
    requires RefsOk(fs, refs)
    ensures forall k :: 0 <= k < |refs| ==> RefNumber(fs, refs[k]) in Numbers(fs, refs)
  {
  }

  lemma TailNumbers(fs: Fs, fs1: Fs, refs: seq<Ref>)
    requires RefsOk(fs, refs) && refs != [] && fs1.cbs == fs.cbs && fs1.cis == fs.cis
    requires NumbersDistinct(fs, refs)
    ensures RefsOk(fs1, refs[1..]) && NumbersDistinct(fs1, refs[1..])
    ensures Numbers(fs, refs) == {RefNumber(fs, refs[0])} + Numbers(fs1, refs[1..])
    ensures RefNumber(fs, refs[0]) !in Numbers(fs1, refs[1..])
  {
    var tail := refs[1..];
    forall k | 0 <= k < |tail| ensures tail[k] == refs[k + 1] && RefOk(fs1, tail[k]) {
    }
    forall k | 0 <= k < |tail| ensures RefNumber(fs1, tail[k]) == RefNumber(fs, refs[k + 1]) {
    }
    forall i | 0 <= i < |refs| ensures i == 0 || RefNumber(fs, refs[i]) in Numbers(fs1, tail) {
      if i > 0 { assert RefNumber(fs1, tail[i - 1]) == RefNumber(fs, refs[i]); }
    }
  }

  lemma SameData(fs: Fs, fs1: Fs, refs: seq<Ref>)
    requires WellFormed(fs) && WellFormed(fs1) && RefsOk(fs, refs) && fs1.cbs == fs.cbs && fs1.cis == fs.cis
    ensures RefsOk(fs1, refs)
    ensures forall k :: 0 <= k < |refs| ==>
      RefData(fs1, refs[k]) == RefData(fs, refs[k]) && RefNumber(fs1, refs[k]) == RefNumber(fs, refs[k])
  {
  }

  // ----- the hash chains hold everything once -----

  lemma {:induction false} ChainMembers(cis: seq<CacheInode>, b: nat)
    ensures NoRepeats(ChainOf(cis, b))
    ensures forall k :: 0 <= k < |ChainOf(cis, b)| ==>
          ChainOf(cis, b)[k] < |cis| && Hash(cis[ChainOf(cis, b)[k]].realIno) == b
    ensures forall h :: 0 <= h < |cis| && Hash(cis[h].realIno) == b ==> h in ChainOf(cis, b)
  {
    if cis != [] {
      ChainMembers(cis[..|cis| - 1], b);
    }
  }

  lemma NoRepeatsConcat<T>(s: seq<T>, t: seq<T>)
    requires NoRepeats(s) && NoRepeats(t) && forall x :: x in s ==> x !in t
    ensures NoRepeats(s + t)
  {
    forall i, j | 0 <= i < j < |s + t| ensures (s + t)[i] != (s + t)[j] {
      if i < |s| <= j { assert (s + t)[i] in s && (s + t)[j] in t; }
    }
  }

  /** The inodes filed in bucket i or later. */
  ghost predicate HoldsInodes(cis: seq<CacheInode>, refs: seq<Ref>, i: nat)
  {
    && NoRepeats(refs)
    && (forall r :: r in refs ==> r.InodeRef? && r.h < |cis| && Hash(cis[r.h].realIno) >= i)
    && (forall h :: 0 <= h < |cis| && Hash(cis[h].realIno) >= i ==> InodeRef(h) in refs)
  }

  lemma BucketInodes(cis: seq<CacheInode>, i: nat, rest: seq<Ref>)
    requires HoldsInodes(cis, rest, i + 1)
    ensures HoldsInodes(cis, InodeRefs(ChainOf(cis, i)) + rest, i)
  {
    ChainMembers(cis, i);
    var chain := ChainOf(cis, i);
    var here := InodeRefs(chain);
    forall r | r in here ensures r.InodeRef? && r.h < |cis| && Hash(cis[r.h].realIno) == i {
      var k :| 0 <= k < |here| && here[k] == r;
    }
    NoRepeatsConcat(here, rest);
    forall h | 0 <= h < |cis| && Hash(cis[h].realIno) >= i ensures InodeRef(h) in here + rest {
      if Hash(cis[h].realIno) == i {
        var k :| 0 <= k < |chain| && chain[k] == h;
        assert here[k] == InodeRef(h);
      }
    }
  }

  lemma {:induction false} LaterBuckets(fs: Fs, i: nat)
    requires FiledUnderZero(fs) && FiledByReal(fs) && 1 <= i <= HASH_LIST_SIZE
    ensures HoldsInodes(fs.cis, Refs(fs.blockChains, fs.inodeChains, i), i)
    decreases HASH_LIST_SIZE - i
  {
    hide BlockRefs, InodeRefs, ChainOf, HoldsInodes, Downto, Hash;
    if i < HASH_LIST_SIZE {
      LaterBuckets(fs, i + 1);
      var rest := Refs(fs.blockChains, fs.inodeChains, i + 1);
      BucketInodes(fs.cis, i, rest);
      NoBlockRefs();
      assert [] + (InodeRefs(fs.inodeChains[i]) + rest) == InodeRefs(fs.inodeChains[i]) + rest;
    } else {
      NoneLater(fs.cis);
    }
  }

  lemma NoBlockRefs()
    ensures BlockRefs([]) == []
  {
  }

  lemma NoneLater(cis: seq<CacheInode>)
    ensures HoldsInodes(cis, [], HASH_LIST_SIZE)
  {
    hide Hash;
  }

  lemma BlocksAndInodes(cis: seq<CacheInode>, n: nat, inodes: seq<Ref>)
    requires HoldsInodes(cis, inodes, 0)
    ensures var refs := BlockRefs(Downto(n)) + inodes;
      && NoRepeats(refs) && (forall h :: 0 <= h < |cis| ==> InodeRef(h) in refs)
      && (forall c :: 0 <= c < n ==> BlockRef(c) in refs)
  {
    var blocks := BlockRefs(Downto(n));
    forall r | r in blocks ensures r.BlockRef? {
    }
    NoRepeatsConcat(blocks, inodes);
    forall c | 0 <= c < n ensures BlockRef(c) in blocks {
      assert blocks[n - 1 - c] == BlockRef(c);
    }
  }

  lemma AllRefs(fs: Fs)
    requires FiledUnderZero(fs) && FiledByReal(fs)
    ensures var refs := Refs(fs.blockChains, fs.inodeChains, 0);
      && NoRepeats(refs) && (forall h :: 0 <= h < |fs.cis| ==> InodeRef(h) in refs)
      && (forall c :: 0 <= c < |fs.cbs| ==> BlockRef(c) in refs)
  {
    hide BlockRefs, InodeRefs, NoRepeats, HoldsInodes, ChainOf, Downto;
    LaterBuckets(fs, 1);
    var rest := Refs(fs.blockChains, fs.inodeChains, 1);
    BucketInodes(fs.cis, 0, rest);
    BlocksAndInodes(fs.cis, |fs.cbs|, InodeRefs(fs.inodeChains[0]) + rest);
  }

  // ----- closing -----

  /** The owner of what is behind a reference. */
  lemma RefOwner(fs: Fs, a: Abs, r: Ref)
    requires InodesOwned(fs.cis, a.owner) && IndexesUsed(fs.cbs, a.idx, a.owner) && RefOk(fs, r)
    ensures RefNumber(fs, r) in a.owner
    ensures var o := a.owner[RefNumber(fs, r)];
      if r.InodeRef? then o == InodeOwner(r.h) else IndexUse(a.idx, o, r.c)
  {
  }

  lemma RefNumbers(fs: Fs, a: Abs, refs: seq<Ref>)
    requires InodesOwned(fs.cis, a.owner) && IndexesUsed(fs.cbs, a.idx, a.owner) && RefsOk(fs, refs) && NoRepeats(refs)
    ensures NumbersDistinct(fs, refs)
    ensures forall b :: b in Numbers(fs, refs) ==> b in a.owner && !a.owner[b].DataOwner?
  {
    forall i, j | 0 <= i < j < |refs| ensures RefNumber(fs, refs[i]) != RefNumber(fs, refs[j]) {
      RefOwner(fs, a, refs[i]);
      RefOwner(fs, a, refs[j]);
    }
    forall b | b in Numbers(fs, refs) ensures b in a.owner && !a.owner[b].DataOwner? {
      var i :| 0 <= i < |refs| && RefNumber(fs, refs[i]) == b;
      RefOwner(fs, a, refs[i]);
    }
  }

  /** The bitmap and the super block are on the disk, and so is what was there. */
  ghost predicate Mapped(fs: Fs, fs': Fs)
  {
    && |fs.info| == 32 && fs' == fs.(disk := fs'.disk, log := fs'.log)
    && (forall b :: b in fs.disk ==> b in fs'.disk && fs'.disk[b] == fs.disk[b])
    && BLKN_SUPER in fs'.disk && fs'.disk[BLKN_SUPER] == Pad(SuperBytes(fs.ninos, fs.unused, fs.info))
    && (forall k :: 0 <= k < FreemapBlocks(fs.ninos) ==> MapBlock(fs', 0, BLKN_FREEMAP, k))
  }

  /** What a closed image holds: every number given out, each cached object in its block. */
  ghost predicate Image(fs: Fs, fs': Fs)
    requires WellFormed(fs)
  {
    && Mapped(fs, fs')
    && (forall b: nat :: b in fs'.disk <==> b < fs.nextIno)
    && (forall h :: 0 <= h < |fs.cis| ==>
          fs.cis[h].ino in fs'.disk && fs'.disk[fs.cis[h].ino] == Pad(InodeBytes(fs.cis[h].inode)))
    && (forall c :: 0 <= c < |fs.cbs| ==>
          fs.cbs[c].ino in fs'.disk && fs'.disk[fs.cbs[c].ino] == Pad(WordBytes(fs.cbs[c].data)))
  }

  /** The disk holds only data blocks, and all of them. */
  ghost predicate DataOnly(fs: Fs, a: Abs)
  {
    forall b: nat :: b in fs.disk <==> b in a.owner && a.owner[b].DataOwner?
  }

  lemma CloseKeeps(fs: Fs, a: Abs)
    requires Rep(fs, a)
    ensures Flushable(fs) && FirstIno(fs.ninos) <= fs.nextIno <= fs.ninos
    ensures Once(fs) && DataOnly(fs, a)
  {
    hide FiledUnderZero, FiledByReal, Indexed, Counters, IndexUse;
    forall h | 0 <= h < |fs.cis| ensures fs.cis[h].ino < fs.ninos {
      assert fs.cis[h].ino in a.owner;
    }
    forall c | 0 <= c < |fs.cbs| ensures fs.cbs[c].ino < fs.ninos {
      assert fs.cbs[c].ino in a.owner;
    }
    forall b: nat | b in a.owner && a.owner[b].DataOwner? ensures b in fs.disk {
      assert Uses(fs, a, a.owner[b], b);
      assert ChunksOnDisk(fs.disk, a.blks[a.owner[b].h], a.chunks[a.owner[b].h]);
    }
  }

  /** No other block has been written. */
  ghost predicate OnlyMap(fs: Fs, fs': Fs)
  {
    forall b: nat :: b in fs'.disk <==> b in fs.disk || b == BLKN_SUPER || BLKN_FREEMAP <= b < FirstIno(fs.ninos)
  }

  /** Before the caches are flushed. */
  lemma MapAndSuper(fs: Fs, a: Abs) returns (fs2: Fs)
    requires WellFormed(fs) && Flushable(fs) && Once(fs) && FirstIno(fs.ninos) <= fs.ninos
    requires AllOwned(fs, a) && DataOnly(fs, a)
    ensures Mapped(fs, fs2) && OnlyMap(fs, fs2) && Once(fs2) && WellFormed(fs2) && Flushable(fs2)
    ensures Close(fs) == FlushBuckets(fs2, 0)
  {
    hide Once, MapBlock, FlushBuckets, SuperBytes, WriteFreemap, Pad;
    assert forall b :: b in fs.disk ==> b == BLKN_ROOT || FirstIno(fs.ninos) <= b;
    FreemapWritten(fs, 0, BLKN_FREEMAP);
    var fs1 := WriteFreemap(fs, 0, BLKN_FREEMAP);
    var data := SuperBytes(fs.ninos, fs.unused, fs.info);
    fs2 := WriteBlock(fs1, data, BLKN_SUPER);
    WriteFresh(fs1, data, BLKN_SUPER);
    forall k | 0 <= k < FreemapBlocks(fs.ninos) ensures MapBlock(fs2, 0, BLKN_FREEMAP, k) {
      assert MapBlock(fs1, 0, BLKN_FREEMAP, k);
      KeptMap(fs1, fs2, 0, BLKN_FREEMAP, k);
    }
  }

  lemma KeptMap(fs: Fs, fs': Fs, i: nat, ino: nat, k: nat)
    requires MapBlock(fs, i, ino, k) && fs'.ninos == fs.ninos && fs'.nextIno == fs.nextIno
    requires ino + k in fs.disk ==> ino + k in fs'.disk && fs'.disk[ino + k] == fs.disk[ino + k]
    ensures MapBlock(fs', i, ino, k)
  {
  }

  lemma MapStays(fs: Fs, fs2: Fs, r: Fs)
    requires Mapped(fs, fs2) && r == fs2.(disk := r.disk, log := r.log)
    requires forall b :: b in fs2.disk ==> b in r.disk && r.disk[b] == fs2.disk[b]
    ensures Mapped(fs, r)
  {
    forall k | 0 <= k < FreemapBlocks(fs.ninos) ensures MapBlock(r, 0, BLKN_FREEMAP, k) {
      assert MapBlock(fs2, 0, BLKN_FREEMAP, k);
    }
  }

  lemma InNumbers(fs: Fs, refs: seq<Ref>, r: Ref)
    requires RefsOk(fs, refs) && r in refs
    ensures RefOk(fs, r) && RefNumber(fs, r) in Numbers(fs, refs)
  {
    var k :| 0 <= k < |refs| && refs[k] == r;
  }

  lemma AllWritten(fs: Fs, a: Abs, fs2: Fs, refs: seq<Ref>, keys: set<nat>)
    requires AllOwned(fs, a) && NoneLost(fs, a) && DataOnly(fs, a) && OnlyMap(fs, fs2)
    requires FirstIno(fs.ninos) <= fs.nextIno && fs2.cis == fs.cis && fs2.cbs == fs.cbs && RefsOk(fs2, refs)
    requires forall h :: 0 <= h < |fs.cis| ==> InodeRef(h) in refs
    requires forall c :: 0 <= c < |fs.cbs| ==> BlockRef(c) in refs
    requires forall b :: b in Numbers(fs2, refs) ==> b in a.owner
    requires keys == fs2.disk.Keys + Numbers(fs2, refs)
    ensures forall b: nat :: b in keys <==> b < fs.nextIno
  {
    hide FreemapBlocks, Numbers;
    forall b: nat | b in a.owner ensures b in keys {
      assert Uses(fs, a, a.owner[b], b);
      match a.owner[b]
      case InodeOwner(h) => InNumbers(fs2, refs, InodeRef(h));
      case IndexOwner(h, i) => InNumbers(fs2, refs, BlockRef(a.idx[h][i]));
      case DataOwner(h, k) =>
    }
  }

  lemma RefFlushed(fs: Fs, fs2: Fs, refs: seq<Ref>, disk: Disk, r: Ref)
    requires WellFormed(fs2) && RefsOk(fs2, refs) && r in refs && fs2.cis == fs.cis && fs2.cbs == fs.cbs
    requires Numbers(fs2, refs) <= disk.Keys
    requires forall k :: 0 <= k < |refs| ==>
          RefNumber(fs2, refs[k]) in disk && disk[RefNumber(fs2, refs[k])] == Pad(RefData(fs2, refs[k]))
    ensures RefOk(fs2, r) && RefNumber(fs2, r) in disk && disk[RefNumber(fs2, r)] == Pad(RefData(fs2, r))
  {
    var k :| 0 <= k < |refs| && refs[k] == r;
  }

  /** Everything cached is written behind the bitmap. */
  lemma Flushed(fs: Fs, a: Abs, fs2: Fs, refs: seq<Ref>, r: Fs)
    requires WellFormed(fs) && Owned(fs, a) && DataOnly(fs, a) && Mapped(fs, fs2) && OnlyMap(fs, fs2)
    requires FirstIno(fs.ninos) <= fs.nextIno
    requires WellFormed(fs2) && RefsOk(fs2, refs)
    requires forall h :: 0 <= h < |fs.cis| ==> InodeRef(h) in refs
    requires forall c :: 0 <= c < |fs.cbs| ==> BlockRef(c) in refs
    requires forall b :: b in Numbers(fs2, refs) ==> b in a.owner
    requires r == fs2.(disk := r.disk, log := r.log) && r.disk.Keys == fs2.disk.Keys + Numbers(fs2, refs)
    requires forall b :: b in fs2.disk ==> r.disk[b] == fs2.disk[b]
    requires forall k :: 0 <= k < |refs| ==> r.disk[RefNumber(fs2, refs[k])] == Pad(RefData(fs2, refs[k]))
    ensures Image(fs, r)
  {
    assert forall b: nat :: b in r.disk <==> b < fs.nextIno by {
      AllWritten(fs, a, fs2, refs, r.disk.Keys);
    }
    MapStays(fs, fs2, r);
    hide Mapped, Owned, DataOnly, OnlyMap;
    forall k | 0 <= k < |refs| ensures RefNumber(fs2, refs[k]) in r.disk {
      InNumbers(fs2, refs, refs[k]);
    }
    forall h | 0 <= h < |fs.cis|
      ensures fs.cis[h].ino in r.disk && r.disk[fs.cis[h].ino] == Pad(InodeBytes(fs.cis[h].inode))
    {
      RefFlushed(fs, fs2, refs, r.disk, InodeRef(h));
    }
    forall c | 0 <= c < |fs.cbs|
      ensures fs.cbs[c].ino in r.disk && r.disk[fs.cbs[c].ino] == Pad(WordBytes(fs.cbs[c].data))
    {
      RefFlushed(fs, fs2, refs, r.disk, BlockRef(c));
    }
  }

  /** Closing writes every number given out, and no other, exactly once over the whole run;
      each cached index block and inode lands in its own block. */
  lemma CloseSpec(fs: Fs, a: Abs)
    requires Rep(fs, a)
    ensures Flushable(fs) && BLKN_FREEMAP + FreemapBlocks(fs.ninos) <= fs.ninos
    ensures Image(fs, Close(fs)) && Once(Close(fs))
  {
    hide Indexed, OnDisk, Counters, WrittenOnce, Conserved, DataOnly, Once, InodesOwned, IndexesUsed, FiledUnderZero,
         FiledByReal, WriteRefs, Refs, FlushBuckets, Close, Numbers, NumbersDistinct, WriteFreemap, RefsOk;
    CloseKeeps(fs, a);
    AllRefs(fs);
    var fs2 := MapAndSuper(fs, a);
    var refs := Refs(fs.blockChains, fs.inodeChains, 0);
    FlushIsWrites(fs2, 0);
    RefNumbers(fs2, a, refs);
    NumbersApart(fs, a, fs2, refs);
    RefsWritten(fs2, refs);
    Flushed(fs, a, fs2, refs, WriteRefs(fs2, refs));
  }

  /** The cached numbers are not on the disk yet. */
  lemma NumbersApart(fs: Fs, a: Abs, fs2: Fs, refs: seq<Ref>)
    requires AllOwned(fs, a) && DataOnly(fs, a) && OnlyMap(fs, fs2) && RefsOk(fs2, refs)
    requires forall b :: b in Numbers(fs2, refs) ==> b in a.owner && !a.owner[b].DataOwner?
    ensures Numbers(fs2, refs) !! fs2.disk.Keys
  {
    hide Numbers, FreemapBlocks;
  }
}
