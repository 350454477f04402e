/**
 What the builder's state means: which blocks hold which chunk of which inode, who owns
 every block number, and that every step keeps this.
 */
module SfsRep {
  import opened Wrappers
  import opened SfsFormat
  import opened SfsModel
  import opened SfsIndex

  /** An entry of a directory: a name and the inode (by handle) that it names. */
  datatype Entry = Entry(name: Name, child: nat)

  /** The one use of a block number. */
  datatype Owner =
    | InodeOwner(h: nat)             // cached inode h
    | IndexOwner(h: nat, i: nat)     // the i-th index block of inode h
    | DataOwner(h: nat, k: nat)      // the k-th block of inode h

  /** Per inode: its index blocks, its block numbers, the chunks in them, its entries. */
  datatype Abs = Abs(idx: seq<seq<nat>>, blks: seq<seq<nat>>, chunks: seq<seq<seq<byte>>>,
                     ents: seq<seq<Entry>>, owner: map<nat, Owner>)

  function FirstIno(ninos: nat): nat
  {
    BLKN_FREEMAP + FreemapBlocks(ninos)
  }

  ghost predicate Sized(fs: Fs, a: Abs)
  {
    |a.idx| == |a.blks| == |a.chunks| == |a.ents| == |fs.cis|
  }

  ghost predicate Indexed(fs: Fs, a: Abs)
    requires Sized(fs, a)
  {
    forall h :: 0 <= h < |fs.cis| ==> IndexOk(fs.cis[h], fs.cbs, a.idx[h], a.blks[h])
  }

  // ----- ownership -----

  /** Exactly the root and the numbers given out so far have an owner. */
  ghost predicate AllOwned(fs: Fs, a: Abs)
  {
    forall b: nat :: b in a.owner <==> b == BLKN_ROOT || FirstIno(fs.ninos) <= b < fs.nextIno
  }

  ghost predicate InodesOwned(cis: seq<CacheInode>, owner: map<nat, Owner>)
  {
    forall h :: 0 <= h < |cis| ==> cis[h].ino in owner && owner[cis[h].ino] == InodeOwner(h)
  }

  ghost predicate IndexesOwned(cbs: seq<CacheBlock>, idx: seq<seq<nat>>, owner: map<nat, Owner>)
  {
    forall h, i :: 0 <= h < |idx| && 0 <= i < |idx[h]| ==>
      idx[h][i] < |cbs| && cbs[idx[h][i]].ino in owner && owner[cbs[idx[h][i]].ino] == IndexOwner(h, i)
  }

  /** Every cached index block belongs to an inode. */
  ghost predicate IndexesUsed(cbs: seq<CacheBlock>, idx: seq<seq<nat>>, owner: map<nat, Owner>)
  {
    forall c :: 0 <= c < |cbs| ==> cbs[c].ino in owner && IndexUse(idx, owner[cbs[c].ino], c)
  }

  ghost predicate IndexUse(idx: seq<seq<nat>>, o: Owner, c: nat)
  {
    o.IndexOwner? && o.h < |idx| && o.i < |idx[o.h]| && idx[o.h][o.i] == c
  }

  ghost predicate DataOwned(blks: seq<seq<nat>>, owner: map<nat, Owner>)
  {
    forall h, k :: 0 <= h < |blks| && 0 <= k < |blks[h]| ==>
      blks[h][k] in owner && owner[blks[h][k]] == DataOwner(h, k)
  }

  /** The owner really uses the number. */
  ghost predicate Uses(fs: Fs, a: Abs, o: Owner, b: nat)
  {
    match o
    case InodeOwner(h) => h < |fs.cis| && fs.cis[h].ino == b
    case IndexOwner(h, i) => h < |a.idx| && i < |a.idx[h]| && a.idx[h][i] < |fs.cbs| && fs.cbs[a.idx[h][i]].ino == b
    case DataOwner(h, k) => h < |a.blks| && k < |a.blks[h]| && a.blks[h][k] == b
  }

  ghost predicate NoneLost(fs: Fs, a: Abs)
  {
    forall b :: b in a.owner ==> Uses(fs, a, a.owner[b], b)
  }

  ghost predicate Owned(fs: Fs, a: Abs)
  {
    && AllOwned(fs, a)
    && InodesOwned(fs.cis, a.owner)
    && IndexesOwned(fs.cbs, a.idx, a.owner)
    && IndexesUsed(fs.cbs, a.idx, a.owner)
    && DataOwned(a.blks, a.owner)
    && NoneLost(fs, a)
  }

  // ----- contents -----

  /** The chunks are on the disk, zero-padded. */
  ghost predicate OnDisk(disk: Disk, blks: seq<seq<nat>>, chunks: seq<seq<seq<byte>>>)
    requires |blks| == |chunks|
  {
    forall h :: 0 <= h < |blks| ==> ChunksOnDisk(disk, blks[h], chunks[h])
  }

  ghost predicate ChunksOnDisk(disk: Disk, blks: seq<nat>, chunks: seq<seq<byte>>)
  {
    && |blks| == |chunks|
    && (forall k :: 0 <= k < |blks| ==>
          |chunks[k]| <= BLKSIZE && blks[k] in disk && disk[blks[k]] == Pad(chunks[k]))
  }

  /** Nothing else has been written, and nothing twice. */
  ghost predicate WrittenOnce(fs: Fs, a: Abs)
  {
    && (forall b :: b in fs.disk ==> b in a.owner && a.owner[b].DataOwner?)
    && multiset(fs.log) == multiset(fs.disk.Keys)
  }

  function TotalLength(chunks: seq<seq<byte>>): nat
  {
    if chunks == [] then 0 else TotalLength(chunks[..|chunks| - 1]) + |chunks[|chunks| - 1]|
  }

  ghost predicate CountersOk(ci: CacheInode, chunks: seq<seq<byte>>)
  {
    && ci.inode.typ in {TYPE_FILE, TYPE_DIR, TYPE_LINK}
    && ci.inode.size == TotalLength(chunks) % U32 && ci.inode.blocks == |chunks| % U32
    && ci.inode.nlinks < U16
  }

  ghost predicate Counters(fs: Fs, a: Abs)
    requires Sized(fs, a)
  {
    forall h :: 0 <= h < |fs.cis| ==> CountersOk(fs.cis[h], a.chunks[h])
  }

  /** The handles in a hash chain, latest first. */
  function ChainOf(cis: seq<CacheInode>, b: nat): seq<nat>
  {
    if cis == [] then []
    else
      var n := |cis| - 1;
      (if Hash(cis[n].realIno) == b then [n] else []) + ChainOf(cis[..n], b)
  }

  /** Every cached inode is in the chain of its host inode number. */
  ghost predicate FiledByReal(fs: Fs)
  {
    && |fs.inodeChains| == HASH_LIST_SIZE
    && (forall b :: 0 <= b < HASH_LIST_SIZE ==> fs.inodeChains[b] == ChainOf(fs.cis, b))
  }

  /** The part of the invariant that concerns blocks. */
  ghost predicate Rep(fs: Fs, a: Abs)
  {
    && WellFormed(fs) && Sized(fs, a) && !fs.searched
    && Conserved(fs) && FirstIno(fs.ninos) <= fs.nextIno && FiledUnderZero(fs) && FiledByReal(fs)
    && Indexed(fs, a) && Owned(fs, a)
    && OnDisk(fs.disk, a.blks, a.chunks) && WrittenOnce(fs, a) && Counters(fs, a)
  }

  // ----- storing a chunk -----

  /** The owners once number `first` has gone to block n of inode h and the m numbers after it
      to the inode's index blocks from the i-th on. */
  ghost function NewOwners(owner: map<nat, Owner>, first: nat, h: nat, n: nat, i: nat, m: nat): (r: map<nat, Owner>)
    ensures forall b: nat :: b in r <==> b in owner || first <= b <= first + m
    ensures r[first] == DataOwner(h, n)
    ensures forall b: nat :: first < b <= first + m ==> r[b] == IndexOwner(h, i + (b - first - 1))
    ensures forall b: nat :: b in owner && b < first ==> r[b] == owner[b]
  {
    if m == 0 then owner[first := DataOwner(h, n)]
    else NewOwners(owner, first, h, n, i, m - 1)[first + m := IndexOwner(h, i + m - 1)]
  }

  /** From cbs to cbs', m index blocks numbered from first + 1 have been added. */
  ghost predicate MoreBlocks(cbs: seq<CacheBlock>, cbs': seq<CacheBlock>, first: nat, m: nat)
  {
    && |cbs'| == |cbs| + m
    && (forall c :: 0 <= c < |cbs| ==> cbs'[c].ino == cbs[c].ino)
    && (forall c :: |cbs| <= c < |cbs'| ==> cbs'[c].ino == first + 1 + (c - |cbs|))
  }

  /** idx with the handles n, ..., n + m - 1 added to inode h. */
  ghost predicate MoreHandles(idx: seq<seq<nat>>, idx': seq<seq<nat>>, h: nat, n: nat, m: nat)
  {
    && |idx'| == |idx| && h < |idx|
    && (forall g :: 0 <= g < |idx| && g != h ==> idx'[g] == idx[g])
    && |idx'[h]| == |idx[h]| + m
    && (forall i :: 0 <= i < |idx[h]| ==> idx'[h][i] == idx[h][i])
    && (forall i :: |idx[h]| <= i < |idx'[h]| ==> idx'[h][i] == n + (i - |idx[h]|))
  }

  lemma KeepIndexesOwned(cbs: seq<CacheBlock>, cbs': seq<CacheBlock>, idx: seq<seq<nat>>, idx': seq<seq<nat>>,
                         owner: map<nat, Owner>, owner': map<nat, Owner>, first: nat, h: nat, n: nat, m: nat)
    requires IndexesOwned(cbs, idx, owner) && forall b :: b in owner ==> b < first
    requires MoreBlocks(cbs, cbs', first, m) && MoreHandles(idx, idx', h, |cbs|, m)
    requires owner' == NewOwners(owner, first, h, n, |idx[h]|, m)
    ensures IndexesOwned(cbs', idx', owner')
  {
    forall g, i | 0 <= g < |idx'| && 0 <= i < |idx'[g]|
      ensures idx'[g][i] < |cbs'| && cbs'[idx'[g][i]].ino in owner'
      ensures owner'[cbs'[idx'[g][i]].ino] == IndexOwner(g, i)
    {
      if i < |idx[g]| {
        assert idx'[g][i] == idx[g][i];
      } else {
        var c := idx'[g][i];
        assert c == |cbs| + (i - |idx[h]|);
      }
    }
  }

  lemma KeepIndexesUsed(cbs: seq<CacheBlock>, cbs': seq<CacheBlock>, idx: seq<seq<nat>>, idx': seq<seq<nat>>,
                        owner: map<nat, Owner>, owner': map<nat, Owner>, first: nat, h: nat, n: nat, m: nat)
    requires IndexesUsed(cbs, idx, owner) && forall b :: b in owner ==> b < first
    requires MoreBlocks(cbs, cbs', first, m) && MoreHandles(idx, idx', h, |cbs|, m)
    requires owner' == NewOwners(owner, first, h, n, |idx[h]|, m)
    ensures IndexesUsed(cbs', idx', owner')
  {
    forall c | 0 <= c < |cbs'|
      ensures cbs'[c].ino in owner' && IndexUse(idx', owner'[cbs'[c].ino], c)
    {
      if c < |cbs| {
        var o := owner[cbs[c].ino];
        assert IndexUse(idx, o, c);
      }
    }
  }

  /** blks with one more block for inode h. */
  ghost predicate OneMore<T>(s: seq<seq<T>>, s': seq<seq<T>>, h: nat, x: T)
  {
    h < |s| && s' == s[h := s[h] + [x]]
  }

  lemma KeepDataOwned(blks: seq<seq<nat>>, blks': seq<seq<nat>>,
                      owner: map<nat, Owner>, owner': map<nat, Owner>, first: nat, h: nat, i: nat, m: nat)
    requires DataOwned(blks, owner) && forall b :: b in owner ==> b < first
    requires OneMore(blks, blks', h, first)
    requires owner' == NewOwners(owner, first, h, |blks[h]|, i, m)
    ensures DataOwned(blks', owner')
  {
    forall g, k | 0 <= g < |blks'| && 0 <= k < |blks'[g]|
      ensures blks'[g][k] in owner' && owner'[blks'[g][k]] == DataOwner(g, k)
    {
      if k < |blks[g]| { assert blks'[g][k] == blks[g][k]; }
    }
  }

  lemma KeepInodesOwned(cis: seq<CacheInode>, cis': seq<CacheInode>,
                        owner: map<nat, Owner>, owner': map<nat, Owner>, first: nat, h: nat, n: nat, i: nat, m: nat)
    requires InodesOwned(cis, owner) && forall b :: b in owner ==> b < first
    requires |cis'| == |cis| && forall g :: 0 <= g < |cis| ==> cis'[g].ino == cis[g].ino
    requires owner' == NewOwners(owner, first, h, n, i, m)
    ensures InodesOwned(cis', owner')
  {
  }

  lemma KeepNoneLost(fs: Fs, fs': Fs, a: Abs, a': Abs, first: nat, h: nat, m: nat)
    requires NoneLost(fs, a) && (forall b :: b in a.owner ==> b < first)
    requires |fs'.cis| == |fs.cis| && forall g :: 0 <= g < |fs.cis| ==> fs'.cis[g].ino == fs.cis[g].ino
    requires MoreBlocks(fs.cbs, fs'.cbs, first, m) && MoreHandles(a.idx, a'.idx, h, |fs.cbs|, m)
    requires OneMore(a.blks, a'.blks, h, first)
    requires a'.owner == NewOwners(a.owner, first, h, |a.blks[h]|, |a.idx[h]|, m)
    ensures NoneLost(fs', a')
  {
    hide Uses, MoreBlocks, MoreHandles, OneMore;
    forall b | b in a'.owner ensures Uses(fs', a', a'.owner[b], b) {
      if b < first {
        assert Uses(fs, a, a.owner[b], b);
        StillUses(fs, fs', a, a', first, h, m, a.owner[b], b);
      } else {
        NowUses(fs, fs', a, a', first, h, m, b);
      }
    }
  }

  lemma NowUses(fs: Fs, fs': Fs, a: Abs, a': Abs, first: nat, h: nat, m: nat, b: nat)
    requires forall b :: b in a.owner ==> b < first
    requires MoreBlocks(fs.cbs, fs'.cbs, first, m) && MoreHandles(a.idx, a'.idx, h, |fs.cbs|, m)
    requires OneMore(a.blks, a'.blks, h, first)
    requires a'.owner == NewOwners(a.owner, first, h, |a.blks[h]|, |a.idx[h]|, m) && b in a'.owner && b >= first
    ensures Uses(fs', a', a'.owner[b], b)
  {
  }

  lemma StillUses(fs: Fs, fs': Fs, a: Abs, a': Abs, first: nat, h: nat, m: nat, o: Owner, b: nat)
    requires Uses(fs, a, o, b)
    requires |fs'.cis| == |fs.cis| && forall g :: 0 <= g < |fs.cis| ==> fs'.cis[g].ino == fs.cis[g].ino
    requires MoreBlocks(fs.cbs, fs'.cbs, first, m) && MoreHandles(a.idx, a'.idx, h, |fs.cbs|, m)
    requires OneMore(a.blks, a'.blks, h, first)
    ensures Uses(fs', a', o, b)
  {
    if o.DataOwner? { assert a'.blks[o.h][o.k] == a.blks[o.h][o.k]; }
  }

  ghost function Extended(fs: Fs, a: Abs, h: nat, chunk: seq<byte>): Abs
    requires Sized(fs, a) && h < |fs.cis|
  {
    var n := |a.blks[h]|;
    var m := NewIndexes(n);
    Abs(a.idx[h := a.idx[h] + Fresh(fs, m)],
        a.blks[h := a.blks[h] + [fs.nextIno]],
        a.chunks[h := a.chunks[h] + [chunk]],
        a.ents,
        NewOwners(a.owner, fs.nextIno, h, n, |a.idx[h]|, m))
  }

  lemma ExtendedHandles(fs: Fs, a: Abs, h: nat, chunk: seq<byte>)
    requires Sized(fs, a) && h < |fs.cis|
    ensures MoreHandles(a.idx, Extended(fs, a, h, chunk).idx, h, |fs.cbs|, NewIndexes(|a.blks[h]|))
  {
  }

  lemma KeepOwned(fs: Fs, fs': Fs, a: Abs, h: nat, chunk: seq<byte>)
    requires Sized(fs, a) && h < |fs.cis| && Owned(fs, a) && FirstIno(fs.ninos) <= fs.nextIno
    requires var m := NewIndexes(|a.blks[h]|);
      && fs'.ninos == fs.ninos && fs'.nextIno == fs.nextIno + 1 + m
      && MoreBlocks(fs.cbs, fs'.cbs, fs.nextIno, m)
    requires |fs'.cis| == |fs.cis| && forall g :: 0 <= g < |fs.cis| ==> fs'.cis[g].ino == fs.cis[g].ino
    ensures Owned(fs', Extended(fs, a, h, chunk))
  {
    hide InodesOwned, IndexesOwned, IndexesUsed, DataOwned, NoneLost, MoreBlocks, MoreHandles, NewOwners;
    var m, n, a' := NewIndexes(|a.blks[h]|), |a.blks[h]|, Extended(fs, a, h, chunk);
    ExtendedHandles(fs, a, h, chunk);
    KeepInodesOwned(fs.cis, fs'.cis, a.owner, a'.owner, fs.nextIno, h, n, |a.idx[h]|, m);
    KeepIndexesOwned(fs.cbs, fs'.cbs, a.idx, a'.idx, a.owner, a'.owner, fs.nextIno, h, n, m);
    KeepIndexesUsed(fs.cbs, fs'.cbs, a.idx, a'.idx, a.owner, a'.owner, fs.nextIno, h, n, m);
    KeepDataOwned(a.blks, a'.blks, a.owner, a'.owner, fs.nextIno, h, |a.idx[h]|, m);
    KeepNoneLost(fs, fs', a, a', fs.nextIno, h, m);
  }

  /** The index blocks of another inode are not touched. */
  lemma KeepIndexed(fs: Fs, fs1: Fs, fs': Fs, a: Abs, h: nat, g: nat, m: nat)
    requires Sized(fs, a) && Indexed(fs, a) && IndexesOwned(fs.cbs, a.idx, a.owner)
    requires h < |fs.cis| && g < |fs.cis| && g != h
    requires fs1.cbs == fs.cbs && fs1.cis == fs.cis && Grown(fs1, fs', h, a.idx[h], m)
    ensures IndexOk(fs'.cis[g], fs'.cbs, a.idx[g], a.blks[g])
  {
    var ci, idx, blks := fs.cis[g], a.idx[g], a.blks[g];
    forall i | 0 <= i < |idx| ensures fs'.cbs[idx[i]] == fs.cbs[idx[i]] {
      assert idx[i] !in a.idx[h];
    }
    SameIndex(ci, fs.cbs, fs'.cbs, idx, blks);
  }

  lemma SameIndex(ci: CacheInode, cbs: seq<CacheBlock>, cbs': seq<CacheBlock>, idx: seq<nat>, blks: seq<nat>)
    requires IndexOk(ci, cbs, idx, blks) && |cbs| <= |cbs'|
    requires forall i :: 0 <= i < |idx| ==> cbs'[idx[i]] == cbs[idx[i]]
    ensures IndexOk(ci, cbs', idx, blks)
  {
    forall k | 0 <= k < |blks| ensures Holds(ci, cbs', idx, k, blks[k]) {
      assert Holds(ci, cbs, idx, k, blks[k]);
      if k >= L0_NBLKS { IndexOfInRange(k, |blks|); }
    }
  }

  lemma KeepOnDisk(disk: Disk, blks: seq<seq<nat>>, blks': seq<seq<nat>>, chunks: seq<seq<seq<byte>>>,
                   chunks': seq<seq<seq<byte>>>, h: nat, ino: nat, chunk: seq<byte>)
    requires |blks| == |chunks| && OnDisk(disk, blks, chunks) && ino !in disk && |chunk| <= BLKSIZE
    requires OneMore(blks, blks', h, ino) && OneMore(chunks, chunks', h, chunk)
    ensures OnDisk(disk[ino := Pad(chunk)], blks', chunks')
  {
    forall g | 0 <= g < |blks'| ensures ChunksOnDisk(disk[ino := Pad(chunk)], blks'[g], chunks'[g]) {
      assert ChunksOnDisk(disk, blks[g], chunks[g]);
    }
  }

  lemma KeepWrittenOnce(fs: Fs, fs': Fs, a: Abs, h: nat, chunk: seq<byte>)
    requires Sized(fs, a) && h < |fs.cis| && AllOwned(fs, a) && WrittenOnce(fs, a) && |chunk| <= BLKSIZE
    requires FirstIno(fs.ninos) <= fs.nextIno
    requires fs'.disk == fs.disk[fs.nextIno := Pad(chunk)] && fs'.log == fs.log + [fs.nextIno]
    ensures WrittenOnce(fs', Extended(fs, a, h, chunk))
  {
    var ino := fs.nextIno;
    assert ino !in fs.disk;
    assert fs'.disk.Keys == fs.disk.Keys + {ino};
    assert multiset(fs'.log) == multiset(fs.log) + multiset{ino};
  }

  lemma KeepCounters(ci: CacheInode, ci': CacheInode, chunks: seq<seq<byte>>, chunk: seq<byte>)
    requires CountersOk(ci, chunks) && Counted(ci, ci', |chunk|)
    requires ci'.inode.typ == ci.inode.typ && ci'.inode.nlinks == ci.inode.nlinks
    ensures CountersOk(ci', chunks + [chunk])
  {
    assert (chunks + [chunk])[..|chunks|] == chunks;
    AddModulo(TotalLength(chunks), |chunk|);
    AddModulo(|chunks|, 1);
  }

  lemma AddModulo(x: nat, d: nat)
    ensures (x % U32 + d) % U32 == (x + d) % U32
  {
  }

  lemma {:induction false} ChainsOnlyFollowReal(cis: seq<CacheInode>, cis': seq<CacheInode>, b: nat)
    requires |cis| == |cis'| && forall g :: 0 <= g < |cis| ==> cis'[g].realIno == cis[g].realIno
    ensures ChainOf(cis', b) == ChainOf(cis, b)
  {
    if cis != [] { ChainsOnlyFollowReal(cis[..|cis| - 1], cis'[..|cis| - 1], b); }
  }

  lemma KeepFiled(fs: Fs, fs': Fs)
    requires FiledByReal(fs) && fs'.inodeChains == fs.inodeChains
    requires |fs.cis| == |fs'.cis| && forall g :: 0 <= g < |fs.cis| ==> fs'.cis[g].realIno == fs.cis[g].realIno
    ensures FiledByReal(fs')
  {
    forall b | 0 <= b < HASH_LIST_SIZE ensures fs'.inodeChains[b] == ChainOf(fs'.cis, b) {
      ChainsOnlyFollowReal(fs.cis, fs'.cis, b);
    }
  }

  /** The inodes keep their numbers, types and link counts. */
  ghost predicate SameInodes(fs: Fs, fs': Fs)
  {
    && |fs'.cis| == |fs.cis|
    && (forall g :: 0 <= g < |fs.cis| ==> SameIdentity(fs.cis[g], fs'.cis[g]))
  }

  ghost predicate SameIdentity(ci: CacheInode, ci': CacheInode)
  {
    && ci'.ino == ci.ino && ci'.realIno == ci.realIno
    && ci'.inode.typ == ci.inode.typ && ci'.inode.nlinks == ci.inode.nlinks
  }

  /** From fs over fs1 to fs', a chunk has been stored in inode h. */
  ghost predicate Step(fs: Fs, fs1: Fs, fs': Fs, a: Abs, h: nat, chunk: seq<byte>)
    requires Sized(fs, a) && h < |fs.cis| && |chunk| <= BLKSIZE
  {
    var m := NewIndexes(|a.blks[h]|);
    && fs1 == fs.(nextIno := fs.nextIno + 1, unused := fs1.unused,
                  disk := fs.disk[fs.nextIno := Pad(chunk)], log := fs.log + [fs.nextIno])
    && Grown(fs1, fs', h, a.idx[h], m)
    && IndexOk(fs'.cis[h], fs'.cbs, a.idx[h] + Fresh(fs, m), a.blks[h] + [fs.nextIno])
    && Counted(fs.cis[h], fs'.cis[h], |chunk|)
  }

  lemma StepBasics(fs: Fs, fs1: Fs, fs': Fs, a: Abs, h: nat, chunk: seq<byte>)
    requires Sized(fs, a) && h < |fs.cis| && |chunk| <= BLKSIZE && Step(fs, fs1, fs', a, h, chunk)
    requires Conserved(fs1) && FiledUnderZero(fs) && FirstIno(fs.ninos) <= fs.nextIno && FiledByReal(fs)
    ensures SameInodes(fs, fs') && Sized(fs', Extended(fs, a, h, chunk)) && fs'.searched == fs.searched
    ensures Conserved(fs') && FiledUnderZero(fs') && FirstIno(fs'.ninos) <= fs'.nextIno && FiledByReal(fs')
  {
    assert SameInodes(fs, fs');
    KeepFiled(fs, fs');
  }

  lemma StepIndexed(fs: Fs, fs1: Fs, fs': Fs, a: Abs, h: nat, chunk: seq<byte>)
    requires Sized(fs, a) && h < |fs.cis| && |chunk| <= BLKSIZE && Step(fs, fs1, fs', a, h, chunk)
    requires Indexed(fs, a) && Owned(fs, a)
    ensures Indexed(fs', Extended(fs, a, h, chunk))
  {
    var m, a' := NewIndexes(|a.blks[h]|), Extended(fs, a, h, chunk);
    forall g | 0 <= g < |fs'.cis| ensures IndexOk(fs'.cis[g], fs'.cbs, a'.idx[g], a'.blks[g]) {
      if g != h { KeepIndexed(fs, fs1, fs', a, h, g, m); }
    }
  }

  lemma StepOwned(fs: Fs, fs1: Fs, fs': Fs, a: Abs, h: nat, chunk: seq<byte>)
    requires Sized(fs, a) && h < |fs.cis| && |chunk| <= BLKSIZE && Step(fs, fs1, fs', a, h, chunk)
    requires Owned(fs, a) && FirstIno(fs.ninos) <= fs.nextIno
    ensures Owned(fs', Extended(fs, a, h, chunk))
  {
    assert MoreBlocks(fs.cbs, fs'.cbs, fs.nextIno, NewIndexes(|a.blks[h]|));
    KeepOwned(fs, fs', a, h, chunk);
  }

  lemma StepCounters(fs: Fs, fs1: Fs, fs': Fs, a: Abs, h: nat, chunk: seq<byte>)
    requires Sized(fs, a) && h < |fs.cis| && |chunk| <= BLKSIZE && Step(fs, fs1, fs', a, h, chunk)
    requires Counters(fs, a)
    ensures Counters(fs', Extended(fs, a, h, chunk))
  {
    KeepCounters(fs.cis[h], fs'.cis[h], a.chunks[h], chunk);
  }

  lemma StepContents(fs: Fs, fs1: Fs, fs': Fs, a: Abs, h: nat, chunk: seq<byte>)
    requires Sized(fs, a) && h < |fs.cis| && |chunk| <= BLKSIZE && Step(fs, fs1, fs', a, h, chunk)
    requires Owned(fs, a) && FirstIno(fs.ninos) <= fs.nextIno
    requires OnDisk(fs.disk, a.blks, a.chunks) && WrittenOnce(fs, a)
    ensures var a' := Extended(fs, a, h, chunk);
      OnDisk(fs'.disk, a'.blks, a'.chunks) && WrittenOnce(fs', a')
  {
    var a' := Extended(fs, a, h, chunk);
    assert fs.nextIno !in fs.disk;
    KeepOnDisk(fs.disk, a.blks, a'.blks, a.chunks, a'.chunks, h, fs.nextIno, chunk);
    KeepWrittenOnce(fs, fs', a, h, chunk);
  }

  lemma StepKeeps(fs: Fs, fs1: Fs, fs': Fs, a: Abs, h: nat, chunk: seq<byte>)
    requires Rep(fs, a) && h < |fs.cis| && |chunk| <= BLKSIZE && Step(fs, fs1, fs', a, h, chunk)
    requires WellFormed(fs') && Conserved(fs1)
    ensures Rep(fs', Extended(fs, a, h, chunk)) && SameInodes(fs, fs')
  {
    hide Indexed, Owned, OnDisk, WrittenOnce, Counters, FiledUnderZero, FiledByReal, Conserved, Step;
    StepBasics(fs, fs1, fs', a, h, chunk);
    StepIndexed(fs, fs1, fs', a, h, chunk);
    StepOwned(fs, fs1, fs', a, h, chunk);
    StepCounters(fs, fs1, fs', a, h, chunk);
    StepContents(fs, fs1, fs', a, h, chunk);
  }

  lemma WriteConserves(fs: Fs, data: seq<byte>, ino: nat)
    requires Conserved(fs) && |data| <= BLKSIZE && ino < fs.ninos
    ensures Conserved(WriteBlock(fs, data, ino))
  {
  }

  /** Storing a chunk fails only for lack of room; otherwise the chunk is the next one of
      inode h and nothing else changes its meaning. */
  lemma StoreChunkKeeps(fs: Fs, a: Abs, h: nat, chunk: seq<byte>)
    requires Rep(fs, a) && h < |fs.cis| && |chunk| <= BLKSIZE
    ensures var r, n := StoreChunk(fs, h, chunk), |a.blks[h]|;
      && (r.Some? <==> n < LN_NBLKS && fs.nextIno + 1 + NewIndexes(n) <= fs.ninos)
      && (r.Some? ==>
            && Rep(r.value, Extended(fs, a, h, chunk)) && SameInodes(fs, r.value)
            && r.value.ninos == fs.ninos && r.value.nextIno == fs.nextIno + 1 + NewIndexes(n)
            && r.value.entryName == fs.entryName)
  {
    hide Owned, OnDisk, WrittenOnce, Counters, FiledUnderZero, FiledByReal, IndexOk, WellFormed;
    var n := |a.blks[h]|;
    assert IndexOk(fs.cis[h], fs.cbs, a.idx[h], a.blks[h]);
    assert fs.nextIno <= fs.ninos <= MAX_NBLKS;
    hide Indexed, Extended, Conserved;
    if fs.nextIno < fs.ninos {
      var fs1 := WriteBlock(AllocIno(fs).value.0, chunk, fs.nextIno);
      assert Conserved(fs1) by { WriteConserves(AllocIno(fs).value.0, chunk, fs.nextIno); }
      var idx' := AppendBlockOk(fs1, h, |chunk|, fs.nextIno, a.idx[h], a.blks[h]);
      var r := AppendBlock(fs1, h, |chunk|, fs.nextIno);
      if r.Some? {
        assert Step(fs, fs1, r.value, a, h, chunk);
        StepKeeps(fs, fs1, r.value, a, h, chunk);
      }
    }
  }

  /** In every state of a run, what the next append of an inode asks of update_cache is current. */
  lemma NextAppendIsCurrent(fs: Fs, a: Abs, h: nat)
    requires Rep(fs, a) && h < |fs.cis| && |a.blks[h]| < LN_NBLKS
    ensures NextCurrent(fs, h, |a.blks[h]|)
  {
    assert IndexOk(fs.cis[h], fs.cbs, a.idx[h], a.blks[h]);
    hide Owned, OnDisk, WrittenOnce, Counters, FiledUnderZero, FiledByReal, Indexed, IndexOk, NextCurrent;
    NextIsCurrent(fs, h, a.idx[h], a.blks[h]);
  }

  datatype ChunkOp = ChunkOp(h: nat, chunk: seq<byte>)

  /** Any interleaving of appends to the inodes. */
  function StoreRun(fs: Fs, ops: seq<ChunkOp>): Option<Fs>
    requires WellFormed(fs) && forall k :: 0 <= k < |ops| ==> ops[k].h < |fs.cis| && |ops[k].chunk| <= BLKSIZE
    decreases |ops|
  {
    if ops == [] then Some(fs)
    else
      var fs1 :- StoreChunk(fs, ops[0].h, ops[0].chunk);
      StoreRun(fs1, ops[1..])
  }

  function ChunksFor(ops: seq<ChunkOp>, h: nat): seq<seq<byte>>
  {
    if ops == [] then []
    else (if ops[0].h == h then [ops[0].chunk] else []) + ChunksFor(ops[1..], h)
  }

  /** Inode h has these chunks more, in new blocks behind its old ones. */
  ghost predicate Gained(a: Abs, a': Abs, h: nat, more: seq<seq<byte>>)
  {
    && h < |a.chunks| && h < |a'.chunks| && h < |a.blks| && h < |a'.blks|
    && a'.chunks[h] == a.chunks[h] + more && a.blks[h] <= a'.blks[h]
  }

  /** After it every inode has its own chunks, in the order in which they came, each in a block of
      its own, and its earlier blocks have stayed. */
  lemma {:induction false} StoreRunKeeps(fs: Fs, a: Abs, ops: seq<ChunkOp>) returns (a': Abs)
    requires Rep(fs, a) && forall k :: 0 <= k < |ops| ==> ops[k].h < |fs.cis| && |ops[k].chunk| <= BLKSIZE
    ensures var r := StoreRun(fs, ops);
      r.Some? ==>
        && Rep(r.value, a') && |r.value.cis| == |fs.cis|
        && (forall h :: 0 <= h < |fs.cis| ==> Gained(a, a', h, ChunksFor(ops, h)))
    decreases |ops|
  {
    hide StoreChunk, WellFormed, Gained, ChunksFor, Extended, Indexed, Owned, OnDisk, WrittenOnce, Counters,
         FiledUnderZero, FiledByReal, Conserved, FirstIno;
    a' := a;
    if ops == [] {
      NothingGained(fs, a);
    } else {
      var h, chunk := ops[0].h, ops[0].chunk;
      StoreChunkKeeps(fs, a, h, chunk);
      var r := StoreChunk(fs, h, chunk);
      if r.Some? {
        a' := StoreRunKeeps(r.value, Extended(fs, a, h, chunk), ops[1..]);
        assert [ops[0]] + ops[1..] == ops;
        forall g | 0 <= g < |fs.cis| && StoreRun(r.value, ops[1..]).Some? ensures Gained(a, a', g, ChunksFor(ops, g)) {
          GainedMore(fs, a, a', ops[0], ops[1..], g);
        }
      }
    }
  }

  lemma GainedMore(fs: Fs, a: Abs, a': Abs, op: ChunkOp, ops: seq<ChunkOp>, g: nat)
    requires Sized(fs, a) && op.h < |fs.cis| && g < |fs.cis|
    requires Gained(Extended(fs, a, op.h, op.chunk), a', g, ChunksFor(ops, g))
    ensures Gained(a, a', g, ChunksFor([op] + ops, g))
  {
    assert ([op] + ops)[1..] == ops;
  }

  lemma NothingGained(fs: Fs, a: Abs)
    requires Sized(fs, a)
    ensures forall h :: 0 <= h < |fs.cis| ==> Gained(a, a, h, ChunksFor([], h))
  {
    assert forall h :: 0 <= h < |fs.cis| ==> a.chunks[h] + [] == a.chunks[h];
  }

  // ----- looking positions up -----

  /** The cached index block with this number. */
  function Numbered(cbs: seq<CacheBlock>, number: nat): (r: Option<nat>)
    ensures r.Some? ==> r.value < |cbs|
  {
    if cbs == [] then None
    else if cbs[|cbs| - 1].ino == number then Some(|cbs| - 1)
    else Numbered(cbs[..|cbs| - 1], number)
  }

  /** The block number at position k of inode h, found by following the stored numbers. */
  function Lookup(fs: Fs, h: nat, k: nat): Option<nat>
    requires WellFormed(fs) && h < |fs.cis| && k < LN_NBLKS
  {
    var inode := fs.cis[h].inode;
    if k < L0_NBLKS then
      Some(inode.direct[k])
    else if k < L1_NBLKS then
      var c :- Numbered(fs.cbs, inode.indirect);
      Some(fs.cbs[c].data[k - L0_NBLKS])
    else
      var d :- Numbered(fs.cbs, inode.dbIndirect);
      var c :- Numbered(fs.cbs, fs.cbs[d].data[(k - L1_NBLKS) / NENTRY]);
      Some(fs.cbs[c].data[(k - L1_NBLKS) % NENTRY])
  }

  lemma {:induction false} NumberedIs(cbs: seq<CacheBlock>, c: nat)
    requires c < |cbs| && forall c' :: 0 <= c' < |cbs| && cbs[c'].ino == cbs[c].ino ==> c' == c
    ensures Numbered(cbs, cbs[c].ino) == Some(c)
  {
    if c < |cbs| - 1 { NumberedIs(cbs[..|cbs| - 1], c); }
  }

  /** No two cached index blocks have the same number. */
  lemma CachedOnce(fs: Fs, a: Abs, c: nat)
    requires IndexesUsed(fs.cbs, a.idx, a.owner) && c < |fs.cbs|
    ensures Numbered(fs.cbs, fs.cbs[c].ino) == Some(c)
  {
    forall c' | 0 <= c' < |fs.cbs| && fs.cbs[c'].ino == fs.cbs[c].ino ensures c' == c {
      assert IndexUse(a.idx, a.owner[fs.cbs[c'].ino], c') && IndexUse(a.idx, a.owner[fs.cbs[c].ino], c);
    }
    NumberedIs(fs.cbs, c);
  }

  /** Following direct, indirect and double-indirect pointers finds the k-th block of the inode. */
  lemma LookupFinds(fs: Fs, a: Abs, h: nat, k: nat)
    requires Rep(fs, a) && h < |fs.cis| && k < |a.blks[h]|
    ensures |a.blks[h]| <= LN_NBLKS && Lookup(fs, h, k) == Some(a.blks[h][k])
  {
    hide FiledUnderZero, FiledByReal, OnDisk, WrittenOnce, Counters, NoneLost, IndexUse;
    var ci, idx, blks := fs.cis[h], a.idx[h], a.blks[h];
    assert IndexOk(ci, fs.cbs, idx, blks);
    assert Holds(ci, fs.cbs, idx, k, blks[k]);
    if L0_NBLKS <= k < L1_NBLKS {
      CachedOnce(fs, a, idx[0]);
    } else if L1_NBLKS <= k {
      IndexOfInRange(k, |blks|);
      CachedOnce(fs, a, idx[1]);
      CachedOnce(fs, a, idx[IndexOf(k)]);
    }
  }

  /** Position k of inode h leads to a block that holds this chunk. */
  ghost predicate Finds(fs: Fs, h: nat, k: nat, chunk: seq<byte>)
    requires WellFormed(fs) && h < |fs.cis|
  {
    && |chunk| <= BLKSIZE && k < LN_NBLKS && Lookup(fs, h, k).Some?
    && (var b := Lookup(fs, h, k).value; b in fs.disk && fs.disk[b] == Pad(chunk))
  }

  /** After any interleaving of appends, looking up a position of an inode leads to the chunk that
      came there, and the positions there were before lead to the same blocks as before. */
  lemma StoreRunLookup(fs: Fs, a: Abs, ops: seq<ChunkOp>, h: nat, k: nat)
    requires Rep(fs, a) && forall i :: 0 <= i < |ops| ==> ops[i].h < |fs.cis| && |ops[i].chunk| <= BLKSIZE
    requires h < |fs.cis| && k < |a.chunks[h] + ChunksFor(ops, h)| && StoreRun(fs, ops).Some?
    ensures var fs' := StoreRun(fs, ops).value;
      && WellFormed(fs') && h < |fs'.cis|
      && Finds(fs', h, k, (a.chunks[h] + ChunksFor(ops, h))[k])
      && (k < |a.chunks[h]| ==> Lookup(fs', h, k) == Lookup(fs, h, k))
  {
    var fs' := StoreRun(fs, ops).value;
    var a' := StoreRunKeeps(fs, a, ops);
    hide StoreRun, Lookup, Indexed, Owned, Counters, WrittenOnce, FiledUnderZero, FiledByReal, WellFormed, ChunksFor;
    assert Gained(a, a', h, ChunksFor(ops, h));
    assert ChunksOnDisk(fs.disk, a.blks[h], a.chunks[h]) && ChunksOnDisk(fs'.disk, a'.blks[h], a'.chunks[h]);
    LookupFinds(fs', a', h, k);
    if k < |a.chunks[h]| {
      LookupFinds(fs, a, h, k);
      assert a.blks[h][k] == a'.blks[h][k];
    }
  }

  // ----- a new inode -----

  ghost function WithInode(fs: Fs, a: Abs): Abs
  {
    Abs(a.idx + [[]], a.blks + [[]], a.chunks + [[]], a.ents + [[]], a.owner[fs.nextIno := InodeOwner(|fs.cis|)])
  }

  /** fs' is fs with one more cached inode, filed under its host inode number. */
  ghost predicate InodeAdded(fs: Fs, fs': Fs, realIno: nat, typ: nat)
    requires |fs.inodeChains| == HASH_LIST_SIZE
  {
    && fs'.nextIno == fs.nextIno + 1
    && fs'.cis == fs.cis + [CacheInode(EmptyInode(typ), realIno, fs.nextIno, 0, None, None)]
    && fs'.inodeChains == Prepend(fs.inodeChains, Hash(realIno), |fs.cis|)
    && fs' == fs.(nextIno := fs'.nextIno, unused := fs'.unused, cis := fs'.cis, inodeChains := fs'.inodeChains)
  }

  lemma AddedIndexed(fs: Fs, fs': Fs, a: Abs, realIno: nat, typ: nat)
    requires Sized(fs, a) && Indexed(fs, a) && |fs.inodeChains| == HASH_LIST_SIZE && InodeAdded(fs, fs', realIno, typ)
    ensures Sized(fs', WithInode(fs, a)) && Indexed(fs', WithInode(fs, a))
  {
    var a' := WithInode(fs, a);
    forall g | 0 <= g < |fs'.cis| ensures IndexOk(fs'.cis[g], fs'.cbs, a'.idx[g], a'.blks[g]) {
      if g < |fs.cis| { assert IndexOk(fs.cis[g], fs.cbs, a.idx[g], a.blks[g]); }
    }
  }

  lemma AddedOwned(fs: Fs, fs': Fs, a: Abs, realIno: nat, typ: nat)
    requires Sized(fs, a) && Owned(fs, a) && |fs.inodeChains| == HASH_LIST_SIZE && InodeAdded(fs, fs', realIno, typ)
    requires FirstIno(fs.ninos) <= fs.nextIno
    ensures Owned(fs', WithInode(fs, a))
  {
    var a' := WithInode(fs, a);
    forall h, k | 0 <= h < |a'.blks| && 0 <= k < |a'.blks[h]|
      ensures a'.blks[h][k] in a'.owner && a'.owner[a'.blks[h][k]] == DataOwner(h, k)
    {
      assert a'.blks[h] == a.blks[h];
    }
    forall h, i | 0 <= h < |a'.idx| && 0 <= i < |a'.idx[h]|
      ensures a'.idx[h][i] < |fs'.cbs| && fs'.cbs[a'.idx[h][i]].ino in a'.owner
      ensures a'.owner[fs'.cbs[a'.idx[h][i]].ino] == IndexOwner(h, i)
    {
      assert a'.idx[h] == a.idx[h];
    }
    forall b | b in a'.owner ensures Uses(fs', a', a'.owner[b], b) {
      if b != fs.nextIno { assert Uses(fs, a, a.owner[b], b); }
    }
    forall c | 0 <= c < |fs'.cbs|
      ensures fs'.cbs[c].ino in a'.owner && IndexUse(a'.idx, a'.owner[fs'.cbs[c].ino], c)
    {
      assert IndexUse(a.idx, a.owner[fs.cbs[c].ino], c);
    }
  }

  lemma AddedContents(fs: Fs, fs': Fs, a: Abs, realIno: nat, typ: nat)
    requires Sized(fs, a) && Owned(fs, a) && |fs.inodeChains| == HASH_LIST_SIZE && InodeAdded(fs, fs', realIno, typ)
    requires FirstIno(fs.ninos) <= fs.nextIno
    requires OnDisk(fs.disk, a.blks, a.chunks) && WrittenOnce(fs, a)
    ensures var a' := WithInode(fs, a); OnDisk(fs'.disk, a'.blks, a'.chunks) && WrittenOnce(fs', a')
  {
    var a' := WithInode(fs, a);
    forall g | 0 <= g < |a'.blks| ensures ChunksOnDisk(fs.disk, a'.blks[g], a'.chunks[g]) {
      if g < |fs.cis| { assert ChunksOnDisk(fs.disk, a.blks[g], a.chunks[g]); }
    }
  }

  lemma AddedFiled(fs: Fs, fs': Fs, realIno: nat, typ: nat)
    requires FiledByReal(fs) && InodeAdded(fs, fs', realIno, typ)
    ensures FiledByReal(fs')
  {
    forall b | 0 <= b < HASH_LIST_SIZE ensures fs'.inodeChains[b] == ChainOf(fs'.cis, b) {
      assert fs'.cis[..|fs.cis|] == fs.cis;
    }
  }

  lemma AddedCounters(fs: Fs, fs': Fs, a: Abs, realIno: nat, typ: nat)
    requires Sized(fs, a) && Counters(fs, a) && |fs.inodeChains| == HASH_LIST_SIZE && InodeAdded(fs, fs', realIno, typ)
    requires typ in {TYPE_FILE, TYPE_DIR, TYPE_LINK}
    ensures Sized(fs', WithInode(fs, a)) && Counters(fs', WithInode(fs, a))
  {
  }

  lemma NewInodeKeeps(fs: Fs, a: Abs, realIno: nat, typ: nat)
    requires Rep(fs, a) && typ in {TYPE_FILE, TYPE_DIR, TYPE_LINK}
    ensures AllocCacheInode(fs, realIno, 0, typ).Some? <==> fs.nextIno < fs.ninos
    ensures AllocCacheInode(fs, realIno, 0, typ).Some? ==>
      var (fs', h) := AllocCacheInode(fs, realIno, 0, typ).value;
      && h == |fs.cis| && InodeAdded(fs, fs', realIno, typ) && Rep(fs', WithInode(fs, a))
  {
    if fs.nextIno < fs.ninos {
      var fs' := AllocCacheInode(fs, realIno, 0, typ).value.0;
      var a' := WithInode(fs, a);
      assert InodeAdded(fs, fs', realIno, typ);
      hide Counters, OnDisk, WrittenOnce, Indexed, Owned, FiledByReal, WellFormed;
      AddedIndexed(fs, fs', a, realIno, typ);
      AddedOwned(fs, fs', a, realIno, typ);
      AddedContents(fs, fs', a, realIno, typ);
      AddedFiled(fs, fs', realIno, typ);
      AddedCounters(fs, fs', a, realIno, typ);
    }
  }
}
