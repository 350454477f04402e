/**
 The builder as the program runs it: cached inodes and index blocks are objects linked into hash
 chains, l1 and l2 point at chained blocks, and the cells of index blocks are updated in place.
 `State` reads the heap back as the value of SfsModel, and each method is proved against the
 function there that says what it does. A method's `ok` is false where the program leaves
 through bug() or a failed assert.
 */
module Mksfs {
  import opened Bits
  import opened Wrappers
  import opened SfsFormat
  import opened SfsModel
  import opened SfsRep
  import opened SfsWalk
  import opened SfsImage

  // ----- the cached objects -----

  class CachedBlock {
    const ino: nat
    const cache: array<nat>
    const hashNext: CachedBlock?
    ghost const index: nat  // how many were allocated before it

    constructor (ino: nat, hashNext: CachedBlock?, ghost index: nat)
      ensures this.ino == ino && this.hashNext == hashNext && this.index == index
      ensures fresh(cache) && cache.Length == NENTRY && Value() == CacheBlock(ino, ZeroWords(NENTRY))
    {
      this.ino, this.hashNext, this.index := ino, hashNext, index;
      cache := new nat[NENTRY](_ => 0);
    }

    ghost function Value(): CacheBlock
      reads cache
    {
      CacheBlock(ino, cache[..])
    }
  }

  class CachedInode {
    var inode: Inode
    const realIno: nat
    const ino: nat
    var nblks: nat
    var l1: CachedBlock?
    var l2: CachedBlock?
    const hashNext: CachedInode?
    ghost const index: nat  // how many were allocated before it

    constructor (realIno: nat, ino: nat, typ: nat, hashNext: CachedInode?, ghost index: nat)
      ensures this.hashNext == hashNext && this.index == index && l1 == l2 == null
      ensures Value() == CacheInode(EmptyInode(typ), realIno, ino, 0, None, None)
    {
      this.realIno, this.ino, this.hashNext, this.index := realIno, ino, hashNext, index;
      inode, nblks, l1, l2 := EmptyInode(typ), 0, null, null;
    }

    ghost function Value(): CacheInode
      reads this
    {
      CacheInode(inode, realIno, ino, nblks, Pointer(l1), Pointer(l2))
    }
  }

  ghost function Pointer(cb: CachedBlock?): Option<nat>
  {
    if cb == null then None else Some(cb.index)
  }

  ghost function InodePointer(ci: CachedInode?): Option<nat>
  {
    if ci == null then None else Some(ci.index)
  }

  /** The chain that starts at an object; it leads to ever older objects. */
  ghost function BlockChain(cb: CachedBlock?): seq<nat>
    decreases if cb == null then 0 else cb.index + 1
  {
    if cb == null then []
    else if cb.hashNext == null || cb.hashNext.index < cb.index then [cb.index] + BlockChain(cb.hashNext)
    else [cb.index]
  }

  ghost function InodeChain(ci: CachedInode?): seq<nat>
    decreases if ci == null then 0 else ci.index + 1
  {
    if ci == null then []
    else if ci.hashNext == null || ci.hashNext.index < ci.index then [ci.index] + InodeChain(ci.hashNext)
    else [ci.index]
  }

  ghost function Caches(cbs: seq<CachedBlock>): set<object>
  {
    set cb | cb in cbs :: cb.cache
  }

  ghost function InodeValues(cis: seq<CachedInode>): (v: seq<CacheInode>)
    reads cis
    ensures |v| == |cis| && forall h :: 0 <= h < |cis| ==> v[h] == cis[h].Value()
  {
    seq(|cis|, h requires 0 <= h < |cis| reads cis => cis[h].Value())
  }

  ghost function BlockValues(cbs: seq<CachedBlock>): (v: seq<CacheBlock>)
    reads Caches(cbs)
    ensures |v| == |cbs| && forall c :: 0 <= c < |cbs| ==> v[c] == cbs[c].Value()
  {
    seq(|cbs|, c requires 0 <= c < |cbs| reads Caches(cbs) => cbs[c].Value())
  }

  ghost function InodeChains(heads: array<CachedInode?>): (v: seq<seq<nat>>)
    reads heads
    ensures |v| == heads.Length && forall b :: 0 <= b < |v| ==> v[b] == InodeChain(heads[b])
  {
    seq(heads.Length, b requires 0 <= b < heads.Length reads heads => InodeChain(heads[b]))
  }

  ghost function BlockChains(heads: array<CachedBlock?>): (v: seq<seq<nat>>)
    reads heads
    ensures |v| == heads.Length && forall b :: 0 <= b < |v| ==> v[b] == BlockChain(heads[b])
  {
    seq(heads.Length, b requires 0 <= b < heads.Length reads heads => BlockChain(heads[b]))
  }

  // ----- well-linked heaps -----

  ghost predicate Among(cis: seq<CachedInode>, ci: CachedInode?)
  {
    ci != null ==> ci.index < |cis| && cis[ci.index] == ci
  }

  ghost predicate AmongBlocks(cbs: seq<CachedBlock>, cb: CachedBlock?)
  {
    cb != null ==> cb.index < |cbs| && cbs[cb.index] == cb
  }

  ghost predicate InodeLinked(cis: seq<CachedInode>, h: nat)
    requires h < |cis|
  {
    var ci := cis[h];
    ci.index == h && Among(cis, ci.hashNext) && (ci.hashNext != null ==> ci.hashNext.index < h)
  }

  ghost predicate BlockLinked(cbs: seq<CachedBlock>, c: nat)
    requires c < |cbs|
  {
    var cb := cbs[c];
    && cb.index == c && AmongBlocks(cbs, cb.hashNext) && (cb.hashNext != null ==> cb.hashNext.index < c)
    && cb.cache.Length == NENTRY
  }

  ghost predicate InodesLinked(cis: seq<CachedInode>)
  {
    forall h :: 0 <= h < |cis| ==> InodeLinked(cis, h)
  }

  /** No two index blocks share their cells. */
  ghost predicate BlocksLinked(cbs: seq<CachedBlock>)
  {
    && (forall c :: 0 <= c < |cbs| ==> BlockLinked(cbs, c))
    && (forall c, c' :: 0 <= c < c' < |cbs| ==> cbs[c].cache != cbs[c'].cache)
  }

  ghost predicate LevelsLinked(cis: seq<CachedInode>, cbs: seq<CachedBlock>)
    reads cis
  {
    forall h :: 0 <= h < |cis| ==> AmongBlocks(cbs, cis[h].l1) && AmongBlocks(cbs, cis[h].l2)
  }

  ghost predicate HeadsLinked(inodes: array<CachedInode?>, blocks: array<CachedBlock?>,
                              cis: seq<CachedInode>, cbs: seq<CachedBlock>)
    reads inodes, blocks
  {
    && inodes.Length == blocks.Length == HASH_LIST_SIZE
    && (forall b :: 0 <= b < HASH_LIST_SIZE ==> Among(cis, inodes[b]) && AmongBlocks(cbs, blocks[b]))
  }

  lemma PushedInode(cis: seq<CachedInode>, ci: CachedInode)
    requires InodesLinked(cis) && ci.index == |cis| && Among(cis, ci.hashNext)
    ensures InodesLinked(cis + [ci]) && InodeChain(ci) == [ci.index] + InodeChain(ci.hashNext)
  {
    forall h | 0 <= h < |cis + [ci]| ensures InodeLinked(cis + [ci], h) {
      if h < |cis| { assert InodeLinked(cis, h); }
    }
  }

  lemma PushedBlock(cbs: seq<CachedBlock>, cb: CachedBlock)
    requires BlocksLinked(cbs) && cb.index == |cbs| && AmongBlocks(cbs, cb.hashNext)
    requires cb.cache.Length == NENTRY && cb.cache !in Caches(cbs)
    ensures BlocksLinked(cbs + [cb]) && BlockChain(cb) == [cb.index] + BlockChain(cb.hashNext)
  {
    forall c | 0 <= c < |cbs + [cb]| ensures BlockLinked(cbs + [cb], c) {
      if c < |cbs| { assert BlockLinked(cbs, c); }
    }
  }

  ghost predicate InRange(chain: seq<nat>, n: nat)
  {
    forall i :: 0 <= i < |chain| ==> chain[i] < n
  }

  /** A chain names allocated objects only. */
  lemma {:induction false} InodeChainIn(cis: seq<CachedInode>, ci: CachedInode?)
    requires InodesLinked(cis) && Among(cis, ci)
    ensures InRange(InodeChain(ci), |cis|)
    decreases if ci == null then 0 else ci.index + 1
  {
    if ci != null {
      assert InodeLinked(cis, ci.index);
      InodeChainIn(cis, ci.hashNext);
    }
  }

  lemma {:induction false} BlockChainIn(cbs: seq<CachedBlock>, cb: CachedBlock?)
    requires BlocksLinked(cbs) && AmongBlocks(cbs, cb)
    ensures InRange(BlockChain(cb), |cbs|)
    decreases if cb == null then 0 else cb.index + 1
  {
    if cb != null {
      assert BlockLinked(cbs, cb.index);
      BlockChainIn(cbs, cb.hashNext);
    }
  }

  // ----- the builder -----

  class Sfs {
    var ninos: nat
    var nextIno: nat
    var unused: nat
    var info: seq<byte>
    var root: CachedInode?
    const inodes: array<CachedInode?>
    const blocks: array<CachedBlock?>
    var entryName: seq<byte>
    var disk: Disk
    var log: seq<nat>
    var searched: bool
    ghost var cis: seq<CachedInode>  // every cached inode, in order of allocation
    ghost var cbs: seq<CachedBlock>

    ghost function Repr(): set<object>
      reads this`cis, this`cbs
    {
      {this, inodes, blocks} + (set ci | ci in cis) + Caches(cbs)
    }

    /** The builder's state as a value. */
    ghost function State(): (fs: Fs)
      reads Repr()
      ensures |fs.cis| == |cis| && |fs.cbs| == |cbs| && fs.ninos == ninos && fs.nextIno == nextIno
      ensures fs.entryName == entryName && fs.disk == disk && fs.log == log && fs.searched == searched
    {
      Fs(ninos, nextIno, unused, info, InodeValues(cis), BlockValues(cbs), InodeChains(inodes), BlockChains(blocks),
         entryName, disk, log, searched)
    }

    ghost predicate Linked()
      reads this`cis, this`cbs, cis, inodes, blocks
    {
      InodesLinked(cis) && BlocksLinked(cbs) && LevelsLinked(cis, cbs) && HeadsLinked(inodes, blocks, cis, cbs)
    }

    ghost predicate Valid()
      reads Repr()
    {
      Linked() && WellFormed(State())
    }

    ghost predicate Has(ci: CachedInode?)
      reads this`cis
    {
      Among(cis, ci)
    }

    ghost predicate HasBlock(cb: CachedBlock?)
      reads this`cbs
    {
      AmongBlocks(cbs, cb)
    }

    lemma Seen(ci: CachedInode)
      requires Valid() && Has(ci)
      ensures ci.index < |State().cis| && State().cis[ci.index] == ci.Value()
      ensures HasBlock(ci.l1) && HasBlock(ci.l2) && Has(ci.hashNext) && |ci.inode.direct| == NDIRECT
      ensures InodeChain(ci) == [ci.index] + InodeChain(ci.hashNext)
      ensures ci.hashNext != null ==> ci.hashNext.index < ci.index
    {
      assert InodeLinked(cis, ci.index);
      assert InodeFormed(State().cis[ci.index], |cbs|);
    }

    lemma SeenBlock(cb: CachedBlock)
      requires Linked() && HasBlock(cb)
      ensures cb.index < |State().cbs| && State().cbs[cb.index] == cb.Value() && cb.cache.Length == NENTRY
      ensures HasBlock(cb.hashNext) && BlockChain(cb) == [cb.index] + BlockChain(cb.hashNext)
      ensures cb.hashNext != null ==> cb.hashNext.index < cb.index
    {
      assert BlockLinked(cbs, cb.index);
    }

    lemma Heads(b: nat)
      requires Linked() && b < HASH_LIST_SIZE
      ensures inodes.Length == blocks.Length == HASH_LIST_SIZE
      ensures Has(inodes[b]) && InodeChain(inodes[b]) == State().inodeChains[b]
      ensures HasBlock(blocks[b]) && BlockChain(blocks[b]) == State().blockChains[b]
    {
    }

    lemma BlockChainSeen(first: CachedBlock?)
      requires Linked() && HasBlock(first)
      ensures InRange(BlockChain(first), |cbs|) && BlockChain(null) == []
    {
      BlockChainIn(cbs, first);
    }

    lemma InodeChainSeen(first: CachedInode?)
      requires Linked() && Has(first)
      ensures InRange(InodeChain(first), |cis|) && InodeChain(null) == []
    {
      InodeChainIn(cis, first);
    }

    constructor Init(ninos: nat, nextIno: nat, info: seq<byte>)
      requires nextIno <= ninos
      ensures Linked() && fresh(Repr()) && cis == []
      ensures State() == Fs(ninos, nextIno, ninos - nextIno, info, [], [],
                            NoChains(HASH_LIST_SIZE), NoChains(HASH_LIST_SIZE), Zeros(ENTRY_SIZE), map[], [], false)
    {
      this.ninos, this.nextIno, this.unused, this.info := ninos, nextIno, ninos - nextIno, info;
      root, cis, cbs, disk, log := null, [], [], map[], [];
      inodes, blocks := new CachedInode?[HASH_LIST_SIZE](_ => null), new CachedBlock?[HASH_LIST_SIZE](_ => null);
      entryName, searched := Zeros(ENTRY_SIZE), false;
    }

    static method CreateSfs(imageSize: nat, info: seq<byte>) returns (sfs: Sfs?)
      requires |info| == 32
      ensures sfs == null <==> Create(imageSize, info).None?
      ensures sfs != null ==> fresh(sfs.Repr()) && sfs.Valid() && sfs.State() == Create(imageSize, info).value
      ensures sfs != null ==> sfs.root != null && sfs.Has(sfs.root) && sfs.root.index == 0
    {
      hide Sfs.Linked, Sfs.State, WellFormed;
      var ninos := imageSize / BLKSIZE % U32;
      if ninos > MAX_NBLKS {
        ninos := MAX_NBLKS;
      }
      var nextIno := BLKN_FREEMAP + (ninos + BLKBITS - 1) / BLKBITS;
      if nextIno >= ninos {
        return null;
      }
      sfs := new Sfs.Init(ninos, nextIno, info);
      var ok, ci := sfs.AllocInode(0, BLKN_ROOT, TYPE_DIR);
      sfs.SetRoot(ci);
    }

    method SetRoot(ci: CachedInode?)
      modifies this`root
      ensures root == ci && State() == old(State()) && Linked() == old(Linked())
    {
      root := ci;
      assert InodeValues(cis) == old(InodeValues(cis));
      assert BlockValues(cbs) == old(BlockValues(cbs));
      assert InodeChains(inodes) == old(InodeChains(inodes));
      assert BlockChains(blocks) == old(BlockChains(blocks));
    }

    // ----- allocation and the caches -----

    method SfsAllocIno() returns (ok: bool, ino: nat)
      modifies this`nextIno, this`unused
      ensures ok <==> AllocIno(old(State())).Some?
      ensures ok ==> AllocIno(old(State())).value == (State(), ino) && ino < ninos
      ensures Valid() == old(Valid())
    {
      ok, ino := nextIno < ninos, 0;
      if ok {
        unused := (unused + U32 - 1) % U32;
        ino := nextIno;
        nextIno := nextIno + 1;
      }
      assert InodeValues(cis) == old(InodeValues(cis));
      assert BlockValues(cbs) == old(BlockValues(cbs));
      assert InodeChains(inodes) == old(InodeChains(inodes));
      assert BlockChains(blocks) == old(BlockChains(blocks));
    }

    method AllocBlock(number: nat) returns (ok: bool, cb: CachedBlock?)
      requires Valid()
      modifies this`nextIno, this`unused, this`cbs, blocks
      ensures ok <==> AllocCacheBlock(old(State()), number).Some?
      ensures ok ==> Valid() && cb != null && HasBlock(cb)
      ensures ok ==> AllocCacheBlock(old(State()), number).value == (State(), cb.index)
      ensures ok ==> old(cbs) <= cbs && forall c :: old(|cbs|) <= c < |cbs| ==> fresh(cbs[c].cache)
    {
      ok, cb := true, null;
      var ino := number;
      if number == 0 {
        ok, ino := SfsAllocIno();
      }
      if ok {
        var b := Hash(number);
        cb := PushBlock(ino, b);
      }
    }

    /** A zeroed block in front of chain b. */
    method PushBlock(ino: nat, b: nat) returns (cb: CachedBlock)
      requires Linked() && b < HASH_LIST_SIZE
      modifies this`cbs, blocks
      ensures Linked() && HasBlock(cb) && cb.index == old(|cbs|) && fresh(cb) && fresh(cb.cache)
      ensures var was := old(State());
        State() == was.(cbs := was.cbs + [CacheBlock(ino, ZeroWords(NENTRY))],
                        blockChains := Prepend(was.blockChains, b, |was.cbs|))
      ensures cbs == old(cbs) + [cb]
    {
      hide BlocksLinked, InodesLinked, InodeChain, BlockChain, CachedInode.Value, CachedBlock.Value, ZeroWords;
      cb := new CachedBlock(ino, blocks[b], |cbs|);
      PushedBlock(cbs, cb);
      blocks[b] := cb;
      cbs := cbs + [cb];
      assert InodeValues(cis) == old(InodeValues(cis));
      assert InodeChains(inodes) == old(InodeChains(inodes));
      assert BlockValues(cbs) == old(BlockValues(cbs)) + [CacheBlock(ino, ZeroWords(NENTRY))];
      assert BlockChains(blocks) == Prepend(old(BlockChains(blocks)), b, |old(cbs)|);
      assert LevelsLinked(cis, cbs);
      assert HeadsLinked(inodes, blocks, cis, cbs);
    }

    method SearchBlock(ino: nat) returns (found: CachedBlock?)
      requires Valid()
      ensures State() == old(State()) && Valid()
      ensures HasBlock(found) && Pointer(found) == SearchCacheBlock(State(), ino)
    {
      found := blocks[Hash(ino)];
      BlockChainIn(cbs, found);
      while found != null && found.ino != ino
        invariant HasBlock(found)
        invariant InRange(BlockChain(found), |cbs|)
        invariant FindBlock(BlockValues(cbs), BlockChain(found), ino) == SearchCacheBlock(State(), ino)
        decreases if found == null then 0 else found.index + 1
      {
        assert BlockLinked(cbs, found.index);
        found := found.hashNext;
      }
    }

    method AllocInode(realIno: nat, number: nat, typ: nat) returns (ok: bool, ci: CachedInode?)
      requires Valid()
      modifies this`nextIno, this`unused, this`cis, inodes
      ensures ok <==> AllocCacheInode(old(State()), realIno, number, typ).Some?
      ensures ok ==> Valid() && ci != null && Has(ci) && ci.index == old(|cis|)
      ensures ok ==> AllocCacheInode(old(State()), realIno, number, typ).value == (State(), ci.index)
      ensures ok ==> cis == old(cis) + [ci] && fresh(ci)
    {
      ok, ci := true, null;
      var ino := number;
      if number == 0 {
        ok, ino := SfsAllocIno();
      }
      if ok {
        var b := Hash(realIno);
        ci := PushInode(realIno, ino, typ, b);
      }
    }

    /** An empty inode in front of chain b. */
    method PushInode(realIno: nat, ino: nat, typ: nat, b: nat) returns (ci: CachedInode)
      requires Linked() && b < HASH_LIST_SIZE
      modifies this`cis, inodes
      ensures Linked() && Has(ci) && ci.index == old(|cis|) && fresh(ci)
      ensures var was := old(State());
        State() == was.(cis := was.cis + [CacheInode(EmptyInode(typ), realIno, ino, 0, None, None)],
                        inodeChains := Prepend(was.inodeChains, b, |was.cis|))
      ensures cis == old(cis) + [ci]
    {
      hide BlocksLinked, InodesLinked, InodeChain, BlockChain, CachedInode.Value, CachedBlock.Value, ZeroWords;
      ci := new CachedInode(realIno, ino, typ, inodes[b], |cis|);
      PushedInode(cis, ci);
      inodes[b] := ci;
      cis := cis + [ci];
      assert BlockValues(cbs) == old(BlockValues(cbs));
      assert BlockChains(blocks) == old(BlockChains(blocks));
      assert InodeValues(cis) == old(InodeValues(cis)) + [CacheInode(EmptyInode(typ), realIno, ino, 0, None, None)];
      assert InodeChains(inodes) == Prepend(old(InodeChains(inodes)), b, |old(cis)|);
      assert LevelsLinked(cis, cbs);
      assert HeadsLinked(inodes, blocks, cis, cbs);
    }

    method SearchInode(realIno: nat) returns (found: CachedInode?)
      requires Valid()
      ensures State() == old(State()) && Valid()
      ensures Has(found) && InodePointer(found) == SearchCacheInode(State(), realIno)
    {
      found := inodes[Hash(realIno)];
      InodeChainIn(cis, found);
      while found != null && found.realIno != realIno
        invariant Has(found)
        invariant InRange(InodeChain(found), |cis|)
        invariant FindInode(InodeValues(cis), InodeChain(found), realIno) == SearchCacheInode(State(), realIno)
        decreases if found == null then 0 else found.index + 1
      {
        assert InodeLinked(cis, found.index);
        found := found.hashNext;
      }
    }

    // ----- blocks -----

    /** Anything shorter than a block goes through a zeroed buffer. */
    method Write(data: seq<byte>, ino: nat)
      requires |data| <= BLKSIZE && ino < ninos
      modifies this`disk, this`log
      ensures State() == WriteBlock(old(State()), data, ino) && Linked() == old(Linked())
    {
      var buffer := data;
      if |data| != BLKSIZE {
        buffer := data + Zeros(BLKSIZE - |data|);
      }
      assert buffer == Pad(data);
      disk, log := disk[ino := buffer], log + [ino];
      assert InodeValues(cis) == old(InodeValues(cis));
      assert BlockValues(cbs) == old(BlockValues(cbs));
      assert InodeChains(inodes) == old(InodeChains(inodes));
      assert BlockChains(blocks) == old(BlockChains(blocks));
    }

    /** *cb and *ino are passed in and their new values handed back. */
    method Update(cb: CachedBlock?, ino: nat) returns (ok: bool, cb': CachedBlock?, ino': nat)
      requires Valid() && HasBlock(cb)
      modifies this`nextIno, this`unused, this`cbs, this`searched, blocks
      ensures ok <==> UpdateCache(old(State()), Pointer(cb), ino).Some?
      ensures ok ==> Valid() && cb' != null && HasBlock(cb') && ino' == cb'.ino
      ensures ok ==> UpdateCache(old(State()), Pointer(cb), ino).value == (State(), cb'.index)
      ensures ok ==> old(cbs) <= cbs && forall c :: old(|cbs|) <= c < |cbs| ==> fresh(cbs[c].cache)
    {
      assert cb != null ==> State().cbs[cb.index] == cb.Value();
      hide Hash, SearchCacheBlock, AllocCacheBlock;
      ok, cb', ino' := true, cb, ino;
      if ino == 0 {
        ok, cb' := AllocBlock(0);
        if ok {
          ino' := cb'.ino;
        }
      } else if cb == null || cb.ino != ino {
        cb' := SearchBlock(ino);
        ok := cb' != null;
        MarkSearched();
      }
    }

    method MarkSearched()
      modifies this`searched
      ensures State() == old(State()).(searched := true) && Linked() == old(Linked())
    {
      searched := true;
      assert InodeValues(cis) == old(InodeValues(cis));
      assert BlockValues(cbs) == old(BlockValues(cbs));
      assert InodeChains(inodes) == old(InodeChains(inodes));
      assert BlockChains(blocks) == old(BlockChains(blocks));
    }

    /** One cell of an index block, through its pointer. */
    method SetCell(cb: CachedBlock, k: nat, x: nat)
      requires Valid() && HasBlock(cb) && k < NENTRY
      modifies cb.cache
      ensures Valid() && State() == SetWord(old(State()), cb.index, k, x)
    {
      cb.cache[k] := x;
    }

    /** The fields of one cached inode. */
    method Assign(file: CachedInode, inode: Inode, nblks: nat, l1: CachedBlock?, l2: CachedBlock?)
      requires Valid() && Has(file) && |inode.direct| == NDIRECT && HasBlock(l1) && HasBlock(l2)
      modifies file
      ensures file.inode == inode && file.nblks == nblks && file.l1 == l1 && file.l2 == l2
      ensures State() == SetInode(old(State()), file.index,
                                  CacheInode(inode, file.realIno, file.ino, nblks, Pointer(l1), Pointer(l2)))
      ensures Valid()
    {
      hide State, Linked, WellFormed;
      assert InodeFormed(CacheInode(inode, file.realIno, file.ino, nblks, Pointer(l1), Pointer(l2)), |cbs|);
      Overwrite(file, inode, nblks, l1, l2);
    }

    method Overwrite(file: CachedInode, inode: Inode, nblks: nat, l1: CachedBlock?, l2: CachedBlock?)
      requires Linked() && Has(file) && HasBlock(l1) && HasBlock(l2)
      modifies file
      ensures file.inode == inode && file.nblks == nblks && file.l1 == l1 && file.l2 == l2
      ensures Linked() && State() == old(State()).(cis := old(State()).cis[file.index := file.Value()])
    {
      file.inode, file.nblks, file.l1, file.l2 := inode, nblks, l1, l2;
      forall h | 0 <= h < |cis| && h != file.index ensures cis[h].Value() == old(cis[h].Value()) {
        assert InodeLinked(cis, h);
      }
      assert InodeValues(cis) == old(InodeValues(cis))[file.index := file.Value()];
      assert BlockValues(cbs) == old(BlockValues(cbs));
      assert InodeChains(inodes) == old(InodeChains(inodes));
      assert BlockChains(blocks) == old(BlockChains(blocks));
    }

    method Append(file: CachedInode, size: nat, ino: nat) returns (ok: bool)
      requires Valid() && Has(file)
      modifies Repr()
      ensures ok <==> AppendBlock(old(State()), file.index, size, ino).Some?
      ensures ok ==> Valid() && AppendBlock(old(State()), file.index, size, ino).value == State()
      ensures ok ==> old(cis) == cis && old(cbs) <= cbs && forall c :: old(|cbs|) <= c < |cbs| ==> fresh(cbs[c].cache)
    {
      hide Stored, Linked, State, WellFormed;
      Seen(file);
      ok := size <= BLKSIZE && file.nblks < LN_NBLKS;
      if ok {
        ok := Store(file, file.nblks, ino);
        if ok {
          Count(file, size);
        }
      }
    }

    method Count(file: CachedInode, size: nat)
      requires Valid() && Has(file)
      modifies file
      ensures Valid() && State() == Grow(old(State()), file.index, size)
    {
      var inode := file.inode;
      hide Linked, State;
      Seen(file);
      Assign(file, inode.(size := (inode.size + size) % U32, blocks := (inode.blocks + 1) % U32),
             file.nblks + 1, file.l1, file.l2);
    }

    method Store(file: CachedInode, nblks: nat, ino: nat) returns (ok: bool)
      requires Valid() && Has(file) && nblks < LN_NBLKS
      modifies Repr()
      ensures ok <==> Stored(old(State()), file.index, nblks, ino).Some?
      ensures ok ==> Valid() && Stored(old(State()), file.index, nblks, ino).value == State()
      ensures ok ==> old(cis) == cis && old(cbs) <= cbs && forall c :: old(|cbs|) <= c < |cbs| ==> fresh(cbs[c].cache)
    {
      hide StoreIndirect, StoreDouble, StoreDirect, Linked, State, WellFormed;
      if nblks < L0_NBLKS {
        StoreNumber(file, nblks, ino);
        ok := true;
      } else if nblks < L1_NBLKS {
        ok := AppendIndirect(file, nblks - L0_NBLKS, ino);
      } else {
        ok := AppendDouble(file, nblks - L1_NBLKS, ino);
      }
    }

    method StoreNumber(file: CachedInode, nblks: nat, ino: nat)
      requires Valid() && Has(file) && nblks < NDIRECT
      modifies file
      ensures Valid() && State() == StoreDirect(old(State()), file.index, nblks, ino)
    {
      hide Linked, State;
      Seen(file);
      Assign(file, file.inode.(direct := file.inode.direct[nblks := ino]), file.nblks, file.l1, file.l2);
    }

    method AppendIndirect(file: CachedInode, k: nat, ino: nat) returns (ok: bool)
      requires Valid() && Has(file) && k < NENTRY
      modifies Repr()
      ensures ok <==> StoreIndirect(old(State()), file.index, k, ino).Some?
      ensures ok ==> Valid() && StoreIndirect(old(State()), file.index, k, ino).value == State()
      ensures ok ==> old(cis) == cis && old(cbs) <= cbs && forall c :: old(|cbs|) <= c < |cbs| ==> fresh(cbs[c].cache)
    {
      hide State, Linked, UpdateCache, WellFormed, InodeFormed, AllocCacheBlock, SearchCacheBlock;
      var l1, number;
      Seen(file);
      ok, l1, number := Update(file.l1, file.inode.indirect);
      if ok {
        Seen(file);
        SeenBlock(l1);
        Assign(file, file.inode.(indirect := number), file.nblks, l1, file.l2);
        SetCell(l1, k, ino);
      }
    }

    method AppendDouble(file: CachedInode, k: nat, ino: nat) returns (ok: bool)
      requires Valid() && Has(file) && k < NENTRY * NENTRY
      modifies Repr()
      ensures ok <==> StoreDouble(old(State()), file.index, k, ino).Some?
      ensures ok ==> Valid() && StoreDouble(old(State()), file.index, k, ino).value == State()
      ensures ok ==> old(cis) == cis && old(cbs) <= cbs && forall c :: old(|cbs|) <= c < |cbs| ==> fresh(cbs[c].cache)
    {
      hide State, Linked, UpdateCache, WellFormed, InodeFormed, AllocCacheBlock, SearchCacheBlock;
      var j := k / NENTRY;
      var l1, l2, number;
      Seen(file);
      ok, l2, number := Update(file.l2, file.inode.dbIndirect);
      if ok {
        Seen(file);
        SeenBlock(l2);
        Assign(file, file.inode.(dbIndirect := number), file.nblks, file.l1, l2);
        var data2 := l2.cache;
        SeenBlock(l2);
        ok, l1, number := Update(file.l1, data2[j]);
        if ok {
          assert forall c :: old(|cbs|) <= c < |cbs| ==> fresh(cbs[c].cache);
          SeenBlock(l1);
          StoreCells(file, l1, k, number, ino);
        }
      }
    }

    /** The last index block becomes l1, and the cells that lead to it and from it are stored. */
    method StoreCells(file: CachedInode, l1: CachedBlock, k: nat, number: nat, ino: nat)
      requires Valid() && Has(file) && HasBlock(l1) && file.l2 != null && HasBlock(file.l2) && k < NENTRY * NENTRY
      requires |file.inode.direct| == NDIRECT
      modifies file, file.l2.cache, l1.cache
      ensures Valid()
      ensures State() ==
        var fs := SetInode(old(State()), file.index, old(file.Value()).(l1 := Some(l1.index)));
        SetWord(SetWord(fs, old(file.l2).index, k / NENTRY, number), l1.index, k % NENTRY, ino)
    {
      hide State, Linked;
      Seen(file);
      Assign(file, file.inode, file.nblks, l1, file.l2);
      SetCell(file.l2, k / NENTRY, number);
      SetCell(l1, k % NENTRY, ino);
    }

    /** sfs_alloc_ino, write_block and append_block, as they follow each other in three places. */
    method Chunk(file: CachedInode, chunk: seq<byte>) returns (ok: bool)
      requires Valid() && Has(file) && |chunk| <= BLKSIZE
      modifies Repr()
      ensures ok <==> StoreChunk(old(State()), file.index, chunk).Some?
      ensures ok ==> Valid() && StoreChunk(old(State()), file.index, chunk).value == State()
      ensures ok ==> old(cis) == cis && old(cbs) <= cbs && (forall c :: old(|cbs|) <= c < |cbs| ==> fresh(cbs[c].cache))
    {
      hide State, Linked, AppendBlock;
      var ino;
      ok, ino := SfsAllocIno();
      if ok {
        Write(chunk, ino);
        ok := Append(file, |chunk|, ino);
      }
    }

    // ----- entries -----

    method EnterName(current: CachedInode, file: CachedInode, name: Name) returns (ok: bool)
      requires Valid() && Has(current) && Has(file)
      modifies Repr()
      ensures ok <==> AddEntry(old(State()), current.index, file.index, name).Some?
      ensures ok ==> Valid() && AddEntry(old(State()), current.index, file.index, name).value == State()
      ensures ok ==> old(cis) == cis && old(cbs) <= cbs && (forall c :: old(|cbs|) <= c < |cbs| ==> fresh(cbs[c].cache))
    {
      hide State, Linked, StoreChunk, EntryBytes, StrCpy, CountLink;
      Seen(current);
      ok := current.inode.typ == TYPE_DIR && |name| <= MAX_FNAME_LEN;
      if ok {
        CopyName(name);
        Seen(file);
        ok := Chunk(current, EntryBytes(file.ino, entryName));
        if ok {
          CountName(file);
        }
      }
    }

    /** The name goes into the static entry. */
    method CopyName(name: Name)
      requires Valid() && |name| <= MAX_FNAME_LEN
      modifies this`entryName
      ensures Valid() && State() == old(State()).(entryName := StrCpy(old(State()).entryName, name))
    {
      entryName := StrCpy(entryName, name);
      assert InodeValues(cis) == old(InodeValues(cis));
      assert BlockValues(cbs) == old(BlockValues(cbs));
      assert InodeChains(inodes) == old(InodeChains(inodes));
      assert BlockChains(blocks) == old(BlockChains(blocks));
    }

    method CountName(file: CachedInode)
      requires Valid() && Has(file)
      modifies file
      ensures Valid() && State() == CountLink(old(State()), file.index)
    {
      hide Linked, State;
      Seen(file);
      Assign(file, file.inode.(nlinks := (file.inode.nlinks + 1) % U16), file.nblks, file.l1, file.l2);
    }

    // ----- the walk -----

    /** read returns a full block until the rest is shorter. */
    method FillFile(file: CachedInode, content: seq<byte>) returns (ok: bool)
      requires Valid() && Has(file)
      modifies Repr()
      ensures ok <==> OpenFile(old(State()), file.index, content).Some?
      ensures ok ==> Valid() && OpenFile(old(State()), file.index, content).value == State()
      ensures ok ==> old(cis) == cis && old(cbs) <= cbs && (forall c :: old(|cbs|) <= c < |cbs| ==> fresh(cbs[c].cache))
    {
      hide State, Linked, StoreChunk, WellFormed;
      var rest := content;
      ok := true;
      while ok && rest != []
        invariant ok ==> Valid() && cis == old(cis) && old(cbs) <= cbs
        invariant ok ==> (forall c :: old(|cbs|) <= c < |cbs| ==> fresh(cbs[c].cache))
        invariant if ok then OpenFile(State(), file.index, rest) == OpenFile(old(State()), file.index, content)
                  else OpenFile(old(State()), file.index, content).None?
        decreases ok, |rest|
      {
        var n := Min(|rest|, BLKSIZE);
        ok := Chunk(file, rest[..n]);
        rest := rest[n..];
      }
    }

    method FillLink(file: CachedInode, target: seq<byte>) returns (ok: bool)
      requires Valid() && Has(file)
      modifies Repr()
      ensures ok <==> OpenLink(old(State()), file.index, target).Some?
      ensures ok ==> Valid() && OpenLink(old(State()), file.index, target).value == State()
      ensures ok ==> old(cis) == cis && old(cbs) <= cbs && (forall c :: old(|cbs|) <= c < |cbs| ==> fresh(cbs[c].cache))
    {
      hide State, Linked, StoreChunk;
      ok := |target| < BLKSIZE;
      if ok {
        ok := Chunk(file, target);
      }
    }

    method EnterFile(current: CachedInode, name: Name, realIno: nat, content: seq<byte>) returns (ok: bool)
      requires Valid() && Has(current)
      modifies Repr()
      ensures ok <==> AddFile(old(State()), current.index, name, realIno, content).Some?
      ensures ok ==> Valid() && AddFile(old(State()), current.index, name, realIno, content).value == State()
      ensures ok ==> old(cis) <= cis && old(cbs) <= cbs && (forall c :: old(|cbs|) <= c < |cbs| ==> fresh(cbs[c].cache))
      ensures ok ==> (forall h :: old(|cis|) <= h < |cis| ==> fresh(cis[h]))
    {
      hide State, Linked, OpenFile, AddEntry, AllocCacheInode, SearchCacheInode, WellFormed;
      var file := SearchInode(realIno);
      ok := true;
      if file == null {
        ok, file := AllocInode(realIno, 0, TYPE_FILE);
        if ok {
          ok := FillFile(file, content);
        }
      }
      if ok {
        ok := EnterName(current, file, name);
      }
    }

    method EnterLink(current: CachedInode, name: Name, realIno: nat, target: seq<byte>) returns (ok: bool)
      requires Valid() && Has(current)
      modifies Repr()
      ensures ok <==> AddLink(old(State()), current.index, name, realIno, target).Some?
      ensures ok ==> Valid() && AddLink(old(State()), current.index, name, realIno, target).value == State()
      ensures ok ==> old(cis) <= cis && old(cbs) <= cbs && (forall c :: old(|cbs|) <= c < |cbs| ==> fresh(cbs[c].cache))
      ensures ok ==> (forall h :: old(|cis|) <= h < |cis| ==> fresh(cis[h]))
    {
      hide State, Linked, OpenLink, AddEntry, AllocCacheInode, WellFormed;
      var file;
      ok, file := AllocInode(realIno, 0, TYPE_LINK);
      if ok {
        ok := FillLink(file, target);
        if ok {
          ok := EnterName(current, file, name);
        }
      }
    }

    method EnterDir(parent: CachedInode, name: Name, realIno: nat, entries: seq<Dirent>) returns (ok: bool)
      requires Valid() && Has(parent)
      modifies Repr()
      ensures ok <==> AddDir(old(State()), parent.index, name, realIno, entries).Some?
      ensures ok ==> Valid() && AddDir(old(State()), parent.index, name, realIno, entries).value == State()
      ensures ok ==> old(cis) <= cis && old(cbs) <= cbs && (forall c :: old(|cbs|) <= c < |cbs| ==> fresh(cbs[c].cache))
      ensures ok ==> (forall h :: old(|cis|) <= h < |cis| ==> fresh(cis[h]))
      decreases entries, 2
    {
      hide State, Linked, OpenDir, AddEntry, AllocCacheInode, SearchCacheInode, WellFormed;
      var found := SearchInode(realIno);
      ok := found == null;
      if ok {
        var current;
        ok, current := AllocInode(realIno, 0, TYPE_DIR);
        if ok {
          ok := Fill(current, parent, entries);
          if ok {
            ok := EnterName(parent, current, name);
          }
        }
      }
    }

    /** open_dir: the two dot entries, then one pass over the host's directory. */
    method Fill(current: CachedInode, parent: CachedInode, entries: seq<Dirent>) returns (ok: bool)
      requires Valid() && Has(current) && Has(parent)
      modifies Repr()
      ensures ok <==> OpenDir(old(State()), current.index, parent.index, entries).Some?
      ensures ok ==> Valid() && OpenDir(old(State()), current.index, parent.index, entries).value == State()
      ensures ok ==> old(cis) <= cis && old(cbs) <= cbs && (forall c :: old(|cbs|) <= c < |cbs| ==> fresh(cbs[c].cache))
      ensures ok ==> (forall h :: old(|cis|) <= h < |cis| ==> fresh(cis[h]))
      decreases entries, 1
    {
      hide State, Linked, AddEntry, AddOne, WellFormed, AddAll;
      ok := EnterName(current, current, DOT);
      if ok {
        ok := EnterName(current, parent, DOTDOT);
      }
      if ok {
        ok := FillEntries(current, entries);
      }
    }

    method FillEntries(current: CachedInode, entries: seq<Dirent>) returns (ok: bool)
      requires Valid() && Has(current)
      modifies Repr()
      ensures ok <==> AddAll(old(State()), current.index, entries).Some?
      ensures ok ==> Valid() && AddAll(old(State()), current.index, entries).value == State()
      ensures ok ==> old(cis) <= cis && old(cbs) <= cbs && (forall c :: old(|cbs|) <= c < |cbs| ==> fresh(cbs[c].cache))
      ensures ok ==> (forall h :: old(|cis|) <= h < |cis| ==> fresh(cis[h]))
      decreases entries, 0
    {
      hide State, Linked, AddOne, WellFormed;
      var k := 0;
      ok := true;
      while ok && k < |entries|
        invariant k <= |entries|
        invariant ok ==> Valid() && old(cis) <= cis && old(cbs) <= cbs
        invariant ok ==> (forall c :: old(|cbs|) <= c < |cbs| ==> fresh(cbs[c].cache))
        invariant ok ==> (forall h :: old(|cis|) <= h < |cis| ==> fresh(cis[h]))
        invariant if ok
                  then AddAll(State(), current.index, entries[k..]) == AddAll(old(State()), current.index, entries)
                  else AddAll(old(State()), current.index, entries).None?
      {
        var d := entries[k];
        assert entries[k..][0] == d && entries[k..][1..] == entries[k + 1..];
        ok := Enter(current, d);
        k := k + 1;
      }
      if ok {
        assert entries[k..] == [];
      }
    }

    /** The body of that loop. */
    method Enter(current: CachedInode, d: Dirent) returns (ok: bool)
      requires Valid() && Has(current)
      modifies Repr()
      ensures ok <==> AddOne(old(State()), current.index, d).Some?
      ensures ok ==> Valid() && AddOne(old(State()), current.index, d).value == State()
      ensures ok ==> old(cis) <= cis && old(cbs) <= cbs && (forall c :: old(|cbs|) <= c < |cbs| ==> fresh(cbs[c].cache))
      ensures ok ==> (forall h :: old(|cis|) <= h < |cis| ==> fresh(cis[h]))
      decreases d, 3
    {
      hide State, Linked, AddFile, AddLink, AddDir, WellFormed;
      ok := true;
      if !Hidden(d.name) {
        if |d.name| > MAX_FNAME_LEN {
          ok := false;
        } else {
          match d.node {
            case Link(realIno, target) => ok := EnterLink(current, d.name, realIno, target);
            case Dir(realIno, entries) => ok := EnterDir(current, d.name, realIno, entries);
            case File(realIno, content) => ok := EnterFile(current, d.name, realIno, content);
            case Other =>
          }
        }
      }
    }

    // ----- closing -----

    /** The free bitmap, the super block, then all hash chains. */
    method CloseSfs()
      requires Valid() && Flushable(State()) && BLKN_FREEMAP + FreemapBlocks(ninos) <= ninos
      modifies this`disk, this`log
      ensures State() == Close(old(State()))
    {
      hide WriteFreemap, FlushBuckets, SuperBytes;
      WriteMap();
      Write(SuperBytes(ninos, unused, info), BLKN_SUPER);
      Flush();
    }

    method WriteMap()
      requires Valid() && BLKN_FREEMAP + FreemapBlocks(ninos) <= ninos
      modifies this`disk, this`log
      ensures Valid() && State() == WriteFreemap(old(State()), 0, BLKN_FREEMAP)
    {
      hide State, Linked, WellFormed, FreemapBlocks, FreemapWords;
      var i, ino := 0, BLKN_FREEMAP;
      while i < ninos
        invariant Valid() && ino >= BLKN_FREEMAP
        invariant i < ninos ==> ino + FreemapBlocks(ninos - i) <= ninos
        invariant WriteFreemap(State(), i, ino) == WriteFreemap(old(State()), 0, BLKN_FREEMAP)
        decreases ninos - i
      {
        MapStep(ninos, i);
        MapBlock(i, ino);
        ino, i := ino + 1, i + BLKBITS;
      }
    }

    method MapBlock(i: nat, ino: nat)
      requires Valid() && i < ninos && ino < ninos
      modifies this`disk, this`log
      ensures Valid()
      ensures State() == WriteBlock(old(State()), WordBytes(FreemapWords(i, ninos, nextIno)), ino)
    {
      hide WordBytes, FreemapWords, InodesLinked, BlocksLinked, CachedBlock.Value, CachedInode.Value;
      var words := MapWords(i);
      assert InodeValues(cis) == old(InodeValues(cis));
      assert BlockValues(cbs) == old(BlockValues(cbs));
      assert InodeChains(inodes) == old(InodeChains(inodes));
      assert BlockChains(blocks) == old(BlockChains(blocks));
      Write(WordBytes(words), ino);
    }

    /** Sets the bits of one block of the bitmap. */
    method MapWords(i: nat) returns (words: seq<nat>)
      requires i < ninos
      ensures words == FreemapWords(i, ninos, nextIno)
    {
      hide BitOr, Pow2, SetBits;
      var buffer := new nat[NENTRY](_ => 0);
      assert buffer[..] == ZeroWords(NENTRY);
      if i + BLKBITS > nextIno {
        var start, end := 0, BLKBITS;
        if i < nextIno {
          start := nextIno - i;
        }
        if i + BLKBITS > ninos {
          end := ninos - i;
        }
        var j := start;
        while j < end
          invariant SetBits(buffer[..], j, end) == SetBits(ZeroWords(NENTRY), start, end)
        {
          ghost var was := buffer[..];
          BitSet(was, j, end);
          var word := BitOr(buffer[j / 32], Pow2(j % 32));
          buffer[j / 32] := word;
          assert buffer[..] == was[j / 32 := word];
          j := j + 1;
        }
        AllBitsSet(buffer[..], j, end);
      }
      words := buffer[..];
    }

    method Flush()
      requires Valid() && Flushable(State())
      modifies this`disk, this`log
      ensures State() == FlushBuckets(old(State()), 0)
    {
      hide State, Linked, FlushBlocks, FlushInodes, WellFormed;
      var i := 0;
      while i < HASH_LIST_SIZE
        invariant i <= HASH_LIST_SIZE && Valid() && Flushable(State())
        invariant FlushBuckets(State(), i) == FlushBuckets(old(State()), 0)
      {
        FlushBucket(i);
        i := i + 1;
      }
    }

    method FlushBucket(i: nat)
      requires Valid() && Flushable(State()) && i < HASH_LIST_SIZE
      modifies this`disk, this`log
      ensures Valid() && Flushable(State())
      ensures FlushBuckets(old(State()), i) == FlushBuckets(State(), i + 1)
    {
      hide State, Linked, FlushBlocks, FlushInodes, WellFormed;
      Heads(i);
      FlushBlockChain(blocks[i]);
      Heads(i);
      FlushInodeChain(inodes[i]);
    }

    method FlushBlockChain(first: CachedBlock?)
      requires Valid() && Flushable(State()) && HasBlock(first)
      modifies this`disk, this`log
      ensures InRange(BlockChain(first), |cbs|)
      ensures Valid() && State() == FlushBlocks(old(State()), BlockChain(first))
    {
      hide State, Linked, WellFormed, BlockChain, Flushable, WriteBlock, WordBytes, Caches;
      BlockChainSeen(first);
      var cb := first;
      while cb != null
        invariant Valid() && Flushable(State()) && HasBlock(cb)
        invariant InRange(BlockChain(cb), |cbs|)
        invariant FlushBlocks(State(), BlockChain(cb)) == FlushBlocks(old(State()), BlockChain(first))
        decreases if cb == null then 0 else cb.index + 1
      {
        FlushBlock(cb);
        cb := cb.hashNext;
      }
    }

    method FlushBlock(cb: CachedBlock)
      requires Valid() && Flushable(State()) && HasBlock(cb)
      modifies this`disk, this`log
      ensures Valid() && Flushable(State())
      ensures HasBlock(cb.hashNext) && BlockChain(cb) == [cb.index] + BlockChain(cb.hashNext)
      ensures cb.hashNext != null ==> cb.hashNext.index < cb.index
      ensures var was := old(State());
        State() == WriteBlock(was, WordBytes(was.cbs[cb.index].data), was.cbs[cb.index].ino)
    {
      SeenBlock(cb);
      hide State, Linked, WellFormed, WordBytes;
      Write(WordBytes(cb.cache[..]), cb.ino);
    }

    method FlushInodeChain(first: CachedInode?)
      requires Valid() && Flushable(State()) && Has(first)
      modifies this`disk, this`log
      ensures InRange(InodeChain(first), |cis|)
      ensures Valid() && State() == FlushInodes(old(State()), InodeChain(first))
    {
      hide State, Linked, WellFormed, InodeChain, Flushable, WriteBlock, InodeBytes;
      InodeChainSeen(first);
      var ci := first;
      while ci != null
        invariant Valid() && Flushable(State()) && Has(ci)
        invariant InRange(InodeChain(ci), |cis|)
        invariant FlushInodes(State(), InodeChain(ci)) == FlushInodes(old(State()), InodeChain(first))
        decreases if ci == null then 0 else ci.index + 1
      {
        FlushInode(ci);
        ci := ci.hashNext;
      }
    }

    method FlushInode(ci: CachedInode)
      requires Valid() && Flushable(State()) && Has(ci)
      modifies this`disk, this`log
      ensures Valid() && Flushable(State())
      ensures Has(ci.hashNext) && InodeChain(ci) == [ci.index] + InodeChain(ci.hashNext)
      ensures ci.hashNext != null ==> ci.hashNext.index < ci.index
      ensures var was := old(State());
        State() == WriteBlock(was, InodeBytes(was.cis[ci.index].inode), was.cis[ci.index].ino)
    {
      hide State, Linked, WellFormed, InodeBytes;
      Seen(ci);
      Write(InodeBytes(ci.inode), ci.ino);
    }

    /** create_img on an empty image file: the image holds the host's tree, or the program stops
        because the image is too small or the tree breaks a limit. */
    static method CreateImg(imageSize: nat, info: seq<byte>, entries: seq<Dirent>, ghost world: map<nat, Kind>)
      returns (sfs: Sfs?, ghost node: Node, ghost files: map<nat, nat>)
      requires |info| == 32 && CoherentAll(world, entries) && 0 !in world
      ensures var n, b := ImageBlocks(imageSize), RootBudget(entries);
        && (sfs != null <==> FirstIno(n) < n && b.ok && FirstIno(n) + b.blocks <= n)
        && (sfs != null ==>
              && fresh(sfs.Repr()) && Holding(sfs.disk, n, FirstIno(n) + b.blocks, entries, node, files)
              && FitsFile(sfs.disk, imageSize, info)
              && multiset(sfs.log) == multiset(sfs.disk.Keys) && !sfs.searched)
    {
      hide Sfs.State, Sfs.Linked, OpenDir, Holding, FitsFile, Close, RootBudget, FirstIno, Create, CoherentAll,
           ImageBlocks;
      node, files := ImageRoundTrip(imageSize, info, entries, world);
      sfs := CreateSfs(imageSize, info);
      if sfs != null {
        var ok := sfs.Fill(sfs.root, sfs.root, entries);
        if ok {
          sfs.CloseSfs();
        } else {
          sfs := null;
        }
      }
    }
  }

  lemma BitSet(words: seq<nat>, j: nat, end: nat)
    requires j < end <= 32 * |words|
    ensures SetBits(words[j / 32 := BitOr(words[j / 32], Pow2(j % 32))], j + 1, end) == SetBits(words, j, end)
  {
  }

  lemma AllBitsSet(words: seq<nat>, j: nat, end: nat)
    requires end <= 32 * |words| && j >= end
    ensures SetBits(words, j, end) == words
  {
  }

  lemma MapStep(ninos: nat, i: nat)
    requires i < ninos
    ensures FreemapBlocks(ninos - i) >= 1
    ensures i + BLKBITS < ninos ==> FreemapBlocks(ninos - i) == 1 + FreemapBlocks(ninos - (i + BLKBITS))
  {
  }
}
