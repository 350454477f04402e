/**
 Directories, files and links: what the walk over the host's tree builds, and exactly when
 it fails.
 */
module SfsTree {
  import opened SfsFormat
  import opened SfsModel
  import opened SfsIndex
  import opened SfsRep

  // ----- entries and link counts -----

  /** What survives of a name: add_entry writes 256 bytes of a 260-byte record. */
  function Clip(name: Name): Name
  {
    if |name| <= NAME_ON_DISK then name else name[..NAME_ON_DISK]
  }

  /** The chunk reads back as this name and this inode number. */
  ghost predicate EntryChunk(chunk: seq<byte>, name: Name, ino: nat)
  {
    |chunk| == ENTRY_SIZE && Get32(Pad(chunk), 0) == ino && CStr(Pad(chunk)[4..]) == Clip(name)
  }

  ghost predicate EntriesOf(cis: seq<CacheInode>, h: nat, chunks: seq<seq<byte>>, ents: seq<Entry>)
    requires h < |cis|
  {
    if cis[h].inode.typ == TYPE_DIR then
      && |ents| == |chunks|
      && (forall k :: 0 <= k < |ents| ==>
            ents[k].child < |cis| && EntryChunk(chunks[k], ents[k].name, cis[ents[k].child].ino))
    else
      ents == []
  }

  ghost predicate Entries(fs: Fs, a: Abs)
    requires Sized(fs, a)
  {
    forall h :: 0 <= h < |fs.cis| ==> EntriesOf(fs.cis, h, a.chunks[h], a.ents[h])
  }

  /** How many of the entries name inode h. */
  ghost function CountIn(ents: seq<Entry>, h: nat): nat
  {
    if ents == [] then 0
    else CountIn(ents[..|ents| - 1], h) + (if ents[|ents| - 1].child == h then 1 else 0)
  }

  ghost function CountAll(ents: seq<seq<Entry>>, h: nat): nat
  {
    if ents == [] then 0 else CountAll(ents[..|ents| - 1], h) + CountIn(ents[|ents| - 1], h)
  }

  /** The 16-bit link counts. */
  ghost predicate Links(fs: Fs, a: Abs)
    requires Sized(fs, a)
  {
    forall h :: 0 <= h < |fs.cis| ==> fs.cis[h].inode.nlinks == CountAll(a.ents, h) % U16
  }

  ghost predicate Good(fs: Fs, a: Abs)
  {
    && WellFormed(fs) && Sized(fs, a) && Conserved(fs)
    && Rep(fs, a) && Entries(fs, a) && Links(fs, a)
  }

  /** Reading a string back from a buffer into which it was copied with its NUL. */
  lemma {:induction false} CStrOf(b: seq<byte>, name: Name)
    requires |name| < |b| && name <= b && b[|name|] == 0
    ensures CStr(b) == name
  {
    if name != [] {
      CStrOf(b[1..], name[1..]);
      assert [name[0]] + name[1..] == name;
    }
  }

  /** A written entry reads back, whatever earlier names have left in the static record. */
  lemma EntryRoundTrip(buffer: seq<byte>, name: Name, ino: nat)
    requires |buffer| == ENTRY_SIZE && |name| <= MAX_FNAME_LEN && ino < U32
    ensures EntryChunk(EntryBytes(ino, StrCpy(buffer, name)), name, ino)
  {
    var field := StrCpy(buffer, name);
    var chunk := EntryBytes(ino, field);
    var block := Pad(chunk);
    assert block[0..4] == Bytes32(ino);
    RoundTrip32(ino, block, 0);
    var text := block[4..];
    assert text[..NAME_ON_DISK] == field[..NAME_ON_DISK];
    assert text[NAME_ON_DISK] == 0;
    var clipped := Clip(name);
    assert clipped <= text by {
      assert clipped == field[..|clipped|] == text[..|clipped|];
    }
    if |name| < NAME_ON_DISK { assert text[|name|] == field[|name|]; }
    CStrOf(text, clipped);
  }

  /** What add_entry writes reads back as the name exactly for names of up to 252 bytes, although
      255 are allowed. */
  lemma NameSurvives(buffer: seq<byte>, name: Name, ino: nat)
    requires |buffer| == ENTRY_SIZE && |name| <= MAX_FNAME_LEN && ino < U32
    ensures CStr(Pad(EntryBytes(ino, StrCpy(buffer, name)))[4..]) == name <==> |name| <= NAME_ON_DISK
  {
    EntryRoundTrip(buffer, name, ino);
    hide CStr, Pad, EntryBytes, StrCpy;
    if |name| > NAME_ON_DISK { assert |Clip(name)| != |name|; }
  }

  lemma {:induction false} CountAllUpdate(ents: seq<seq<Entry>>, d: nat, e: Entry, h: nat)
    requires d < |ents|
    ensures CountAll(ents[d := ents[d] + [e]], h) == CountAll(ents, h) + (if e.child == h then 1 else 0)
  {
    var n := |ents| - 1;
    var ents' := ents[d := ents[d] + [e]];
    if d < n {
      CountAllUpdate(ents[..n], d, e, h);
      assert ents'[..n] == ents[..n][d := ents[d] + [e]];
    } else {
      assert ents'[..n] == ents[..n];
      assert (ents[d] + [e])[..|ents[d]|] == ents[d];
    }
  }

  /** Handles beyond the arena are not named. */
  lemma {:induction false} CountInAbsent(ents: seq<Entry>, h: nat)
    requires forall k :: 0 <= k < |ents| ==> ents[k].child < h
    ensures CountIn(ents, h) == 0
  {
    if ents != [] { CountInAbsent(ents[..|ents| - 1], h); }
  }

  lemma {:induction false} CountAllAbsent(ents: seq<seq<Entry>>, h: nat)
    requires forall d, k :: 0 <= d < |ents| && 0 <= k < |ents[d]| ==> ents[d][k].child < h
    ensures CountAll(ents, h) == 0
  {
    if ents != [] {
      CountAllAbsent(ents[..|ents| - 1], h);
      CountInAbsent(ents[|ents| - 1], h);
    }
  }

  // ----- the steps -----

  lemma NewInodeGood(fs: Fs, a: Abs, realIno: nat, typ: nat)
    requires Good(fs, a) && typ in {TYPE_FILE, TYPE_DIR, TYPE_LINK}
    ensures AllocCacheInode(fs, realIno, 0, typ).Some? <==> fs.nextIno < fs.ninos
    ensures AllocCacheInode(fs, realIno, 0, typ).Some? ==>
      var (fs', h) := AllocCacheInode(fs, realIno, 0, typ).value;
      && h == |fs.cis| && InodeAdded(fs, fs', realIno, typ) && Good(fs', WithInode(fs, a))
  {
    NewInodeKeeps(fs, a, realIno, typ);
    if fs.nextIno < fs.ninos {
      var fs' := AllocCacheInode(fs, realIno, 0, typ).value.0;
      hide Rep;
      AddedEntries(fs, fs', a, realIno, typ);
      AddedLinks(fs, fs', a, realIno, typ);
    }
  }

  lemma AddedEntries(fs: Fs, fs': Fs, a: Abs, realIno: nat, typ: nat)
    requires Sized(fs, a) && Entries(fs, a) && |fs.inodeChains| == HASH_LIST_SIZE && InodeAdded(fs, fs', realIno, typ)
    ensures Sized(fs', WithInode(fs, a)) && Entries(fs', WithInode(fs, a))
  {
    var a' := WithInode(fs, a);
    forall h | 0 <= h < |fs'.cis| ensures EntriesOf(fs'.cis, h, a'.chunks[h], a'.ents[h]) {
      if h < |fs.cis| { assert EntriesOf(fs.cis, h, a.chunks[h], a.ents[h]); }
    }
  }

  lemma AddedLinks(fs: Fs, fs': Fs, a: Abs, realIno: nat, typ: nat)
    requires Sized(fs, a) && Entries(fs, a) && Links(fs, a)
    requires |fs.inodeChains| == HASH_LIST_SIZE && InodeAdded(fs, fs', realIno, typ)
    ensures Sized(fs', WithInode(fs, a)) && Links(fs', WithInode(fs, a))
  {
    var a' := WithInode(fs, a);
    assert a'.ents[..|a.ents|] == a.ents;
    forall h | 0 <= h < |fs'.cis| ensures fs'.cis[h].inode.nlinks == CountAll(a'.ents, h) % U16 {
      if h == |fs.cis| {
        forall d | 0 <= d < |a.ents| ensures forall k :: 0 <= k < |a.ents[d]| ==> a.ents[d][k].child < h {
          assert EntriesOf(fs.cis, d, a.chunks[d], a.ents[d]);
        }
        CountAllAbsent(a.ents, h);
      }
    }
  }

  /** Storing a chunk in a file or link. */
  lemma StoreChunkGood(fs: Fs, a: Abs, h: nat, chunk: seq<byte>)
    requires Good(fs, a) && h < |fs.cis| && |chunk| <= BLKSIZE && fs.cis[h].inode.typ != TYPE_DIR
    ensures var r, n := StoreChunk(fs, h, chunk), |a.blks[h]|;
      && (r.Some? <==> n < LN_NBLKS && fs.nextIno + 1 + NewIndexes(n) <= fs.ninos)
      && (r.Some? ==>
            && Good(r.value, Extended(fs, a, h, chunk)) && SameInodes(fs, r.value)
            && r.value.ninos == fs.ninos && r.value.nextIno == fs.nextIno + 1 + NewIndexes(n))
  {
    hide Entries, Links, StoreChunk, IndexOk, FiledByReal, FiledUnderZero, Owned, OnDisk, WrittenOnce, WellFormed;
    StoreChunkKeeps(fs, a, h, chunk);
    var r := StoreChunk(fs, h, chunk);
    if r.Some? {
      var fs', a' := r.value, Extended(fs, a, h, chunk);
      SameEntries(fs, fs', a, a');
      SameLinks(fs, fs', a, a');
    }
  }

  lemma SameLinks(fs: Fs, fs': Fs, a: Abs, a': Abs)
    requires Sized(fs, a) && Sized(fs', a') && Links(fs, a) && SameInodes(fs, fs') && a'.ents == a.ents
    ensures Links(fs', a')
  {
    forall h | 0 <= h < |fs'.cis| ensures fs'.cis[h].inode.nlinks == CountAll(a'.ents, h) % U16 {
      assert SameIdentity(fs.cis[h], fs'.cis[h]);
    }
  }

  lemma SameEntries(fs: Fs, fs': Fs, a: Abs, a': Abs)
    requires Sized(fs, a) && Sized(fs', a') && Entries(fs, a) && SameInodes(fs, fs')
    requires forall h :: 0 <= h < |fs.cis| ==>
      a'.ents[h] == a.ents[h] && (fs.cis[h].inode.typ == TYPE_DIR ==> a'.chunks[h] == a.chunks[h])
    ensures Entries(fs', a')
  {
    forall h | 0 <= h < |fs'.cis| ensures EntriesOf(fs'.cis, h, a'.chunks[h], a'.ents[h]) {
      assert EntriesOf(fs.cis, h, a.chunks[h], a.ents[h]);
      assert SameIdentity(fs.cis[h], fs'.cis[h]);
    }
  }

  lemma SetNameKeeps(fs: Fs, a: Abs, field: seq<byte>)
    requires Rep(fs, a) && |field| == ENTRY_SIZE
    ensures Rep(fs.(entryName := field), a)
  {
    var fs' := fs.(entryName := field);
    assert WellFormed(fs') && NoneLost(fs', a) by {
      forall b | b in a.owner ensures Uses(fs', a, a.owner[b], b) {
        assert Uses(fs, a, a.owner[b], b);
      }
    }
  }

  /** A link count is not part of what blocks mean. */
  lemma CountLinkKeeps(fs: Fs, a: Abs, h: nat)
    requires Rep(fs, a) && h < |fs.cis|
    ensures Rep(CountLink(fs, h), a)
  {
    hide IndexOk, Owned, FiledByReal, OnDisk, WrittenOnce, Counters, Indexed;
    LinkedIndexed(fs, a, h);
    LinkedOwned(fs, a, h);
    LinkedCounters(fs, a, h);
    KeepFiled(fs, CountLink(fs, h));
    assert WrittenOnce(CountLink(fs, h), a) by { LinkedWritten(fs, a, h); }
  }

  lemma LinkedWritten(fs: Fs, a: Abs, h: nat)
    requires WellFormed(fs) && WrittenOnce(fs, a) && h < |fs.cis|
    ensures WrittenOnce(CountLink(fs, h), a)
  {
  }

  lemma LinkedCounters(fs: Fs, a: Abs, h: nat)
    requires WellFormed(fs) && Sized(fs, a) && Counters(fs, a) && h < |fs.cis|
    ensures Sized(CountLink(fs, h), a) && Counters(CountLink(fs, h), a)
  {
    forall g | 0 <= g < |fs.cis| ensures CountersOk(CountLink(fs, h).cis[g], a.chunks[g]) {
      assert CountersOk(fs.cis[g], a.chunks[g]);
    }
  }

  lemma LinkedIndexed(fs: Fs, a: Abs, h: nat)
    requires WellFormed(fs) && Sized(fs, a) && Indexed(fs, a) && h < |fs.cis|
    ensures Sized(CountLink(fs, h), a) && Indexed(CountLink(fs, h), a)
  {
    var fs' := CountLink(fs, h);
    forall g | 0 <= g < |fs'.cis| ensures IndexOk(fs'.cis[g], fs'.cbs, a.idx[g], a.blks[g]) {
      assert IndexOk(fs.cis[g], fs.cbs, a.idx[g], a.blks[g]);
      if g == h { IndexIgnoresLinks(fs.cis[g], fs'.cis[g], fs.cbs, a.idx[g], a.blks[g]); }
    }
  }

  lemma IndexIgnoresLinks(ci: CacheInode, ci': CacheInode, cbs: seq<CacheBlock>, idx: seq<nat>, blks: seq<nat>)
    requires IndexOk(ci, cbs, idx, blks) && ci' == ci.(inode := ci.inode.(nlinks := ci'.inode.nlinks))
    ensures IndexOk(ci', cbs, idx, blks)
  {
    forall k | 0 <= k < |blks| ensures Holds(ci', cbs, idx, k, blks[k]) {
      assert Holds(ci, cbs, idx, k, blks[k]);
    }
  }

  lemma LinkedOwned(fs: Fs, a: Abs, h: nat)
    requires WellFormed(fs) && Owned(fs, a) && h < |fs.cis|
    ensures Owned(CountLink(fs, h), a)
  {
    var fs' := CountLink(fs, h);
    forall b | b in a.owner ensures Uses(fs', a, a.owner[b], b) {
      assert Uses(fs, a, a.owner[b], b);
    }
  }

  /** The state after one more entry in directory `current`. */
  ghost function WithEntry(fs: Fs, a: Abs, current: nat, file: nat, name: Name): Abs
    requires WellFormed(fs) && Sized(fs, a) && current < |fs.cis| && file < |fs.cis| && |name| < ENTRY_SIZE
  {
    var chunk := EntryBytes(fs.cis[file].ino, StrCpy(fs.entryName, name));
    Extended(fs, a, current, chunk).(ents := a.ents[current := a.ents[current] + [Entry(name, file)]])
  }

  lemma AddEntryGood(fs: Fs, a: Abs, current: nat, file: nat, name: Name)
    requires Good(fs, a) && current < |fs.cis| && file < |fs.cis|
    requires fs.cis[current].inode.typ == TYPE_DIR && |name| <= MAX_FNAME_LEN
    ensures var r, n := AddEntry(fs, current, file, name), |a.blks[current]|;
      && (r.Some? <==> n < LN_NBLKS && fs.nextIno + 1 + NewIndexes(n) <= fs.ninos)
      && (r.Some? ==>
            && Good(r.value, WithEntry(fs, a, current, file, name))
            && r.value.ninos == fs.ninos && r.value.nextIno == fs.nextIno + 1 + NewIndexes(n)
            && |r.value.cis| == |fs.cis| && SameKinds(fs, r.value))
  {
    hide StoreChunk, EntryBytes, StrCpy, IndexOk, Owned, FiledByReal, FiledUnderZero, OnDisk, WrittenOnce,
         Counters, Indexed, Entries, Links, NewIndexes;
    var field := StrCpy(fs.entryName, name);
    var fs1 := fs.(entryName := field);
    var chunk := EntryBytes(fs.cis[file].ino, field);
    SetNameKeeps(fs, a, field);
    StoreChunkKeeps(fs1, a, current, chunk);
    var r := StoreChunk(fs1, current, chunk);
    if r.Some? {
      EntryStored(fs, a, current, file, name, chunk, r.value);
    }
  }

  /** The inodes keep their numbers and types. */
  ghost predicate SameKinds(fs: Fs, fs': Fs)
  {
    && |fs.cis| <= |fs'.cis|
    && (forall g :: 0 <= g < |fs.cis| ==> SameKind(fs.cis[g], fs'.cis[g]))
  }

  ghost predicate SameKind(ci: CacheInode, ci': CacheInode)
  {
    ci'.ino == ci.ino && ci'.realIno == ci.realIno && ci'.inode.typ == ci.inode.typ
  }

  lemma EntryStored(fs: Fs, a: Abs, current: nat, file: nat, name: Name, chunk: seq<byte>, fs2: Fs)
    requires Good(fs, a) && current < |fs.cis| && file < |fs.cis|
    requires fs.cis[current].inode.typ == TYPE_DIR && |name| <= MAX_FNAME_LEN
    requires chunk == EntryBytes(fs.cis[file].ino, StrCpy(fs.entryName, name))
    requires Rep(fs2, Extended(fs, a, current, chunk)) && SameInodes(fs, fs2)
    ensures Good(CountLink(fs2, file), WithEntry(fs, a, current, file, name))
    ensures SameKinds(fs, CountLink(fs2, file))
  {
    hide EntryChunk, EntryBytes, StrCpy, Entries, Links, IndexOk, Owned, FiledByReal, FiledUnderZero, OnDisk,
         WrittenOnce, Counters, Indexed, SameInodes, SameKinds;
    var a2 := Extended(fs, a, current, chunk);
    var fs3, a3 := CountLink(fs2, file), WithEntry(fs, a, current, file, name);
    CountLinkKeeps(fs2, a2, file);
    OnlyBlocks(fs3, a2, a3);
    LinkedKinds(fs, fs2, file);
    SmallNumber(fs, a, file);
    EntryRoundTrip(fs.entryName, name, fs.cis[file].ino);
    hide WellFormed;
    StoredEntries(fs, a, current, file, name, chunk, fs3);
    StoredLinks(fs, a, current, file, name, fs2);
  }

  lemma LinkedKinds(fs: Fs, fs2: Fs, file: nat)
    requires SameInodes(fs, fs2) && WellFormed(fs2) && file < |fs2.cis|
    ensures SameKinds(fs, CountLink(fs2, file))
  {
    forall g | 0 <= g < |fs.cis| ensures SameKind(fs.cis[g], CountLink(fs2, file).cis[g]) {
      assert SameIdentity(fs.cis[g], fs2.cis[g]);
    }
  }

  lemma StoredEntries(fs: Fs, a: Abs, current: nat, file: nat, name: Name, chunk: seq<byte>, fs3: Fs)
    requires Sized(fs, a) && Entries(fs, a) && current < |fs.cis| && file < |fs.cis|
    requires fs.cis[current].inode.typ == TYPE_DIR && WellFormed(fs) && |name| < ENTRY_SIZE
    requires chunk == EntryBytes(fs.cis[file].ino, StrCpy(fs.entryName, name))
    requires EntryChunk(chunk, name, fs.cis[file].ino)
    requires |fs3.cis| == |fs.cis| && SameKinds(fs, fs3)
    ensures Sized(fs3, WithEntry(fs, a, current, file, name)) && Entries(fs3, WithEntry(fs, a, current, file, name))
  {
    hide EntryChunk, EntryBytes, StrCpy;
    var a3 := WithEntry(fs, a, current, file, name);
    forall h | 0 <= h < |fs3.cis| ensures EntriesOf(fs3.cis, h, a3.chunks[h], a3.ents[h]) {
      assert EntriesOf(fs.cis, h, a.chunks[h], a.ents[h]);
      assert SameKind(fs.cis[h], fs3.cis[h]);
    }
  }

  lemma StoredLinks(fs: Fs, a: Abs, current: nat, file: nat, name: Name, fs2: Fs)
    requires Sized(fs, a) && Links(fs, a) && current < |fs.cis| && file < |fs.cis|
    requires WellFormed(fs) && |name| < ENTRY_SIZE && WellFormed(fs2) && SameInodes(fs, fs2)
    ensures Sized(CountLink(fs2, file), WithEntry(fs, a, current, file, name))
    ensures Links(CountLink(fs2, file), WithEntry(fs, a, current, file, name))
  {
    hide EntryBytes, StrCpy, WellFormed;
    var fs3, a3 := CountLink(fs2, file), WithEntry(fs, a, current, file, name);
    forall h | 0 <= h < |fs3.cis| ensures fs3.cis[h].inode.nlinks == CountAll(a3.ents, h) % U16 {
      assert SameIdentity(fs.cis[h], fs2.cis[h]);
      CountAllUpdate(a.ents, current, Entry(name, file), h);
      LinkModulo(CountAll(a.ents, h));
    }
  }

  lemma LinkModulo(x: nat)
    ensures (x % U16 + 1) % U16 == (x + 1) % U16
  {
  }

  lemma SmallNumber(fs: Fs, a: Abs, h: nat)
    requires Rep(fs, a) && h < |fs.cis|
    ensures fs.cis[h].ino < U32
  {
    assert fs.cis[h].ino in a.owner;
  }

  /** Rep does not look at the entries. */
  lemma OnlyBlocks(fs: Fs, a: Abs, a': Abs)
    requires Rep(fs, a) && a' == a.(ents := a'.ents) && |a'.ents| == |a.ents|
    ensures Rep(fs, a')
  {
    forall b | b in a'.owner ensures Uses(fs, a', a'.owner[b], b) {
      assert Uses(fs, a, a.owner[b], b);
    }
  }

  // ----- files and links -----

  /** A file's content in blocks, all full but the last. */
  function FileChunks(content: seq<byte>): (r: seq<seq<byte>>)
    ensures forall k :: 0 <= k < |r| ==> |r[k]| <= BLKSIZE
    decreases |content|
  {
    if content == [] then []
    else
      var n := Min(|content|, BLKSIZE);
      [content[..n]] + FileChunks(content[n..])
  }

  /** Blocks taken by m more chunks of an inode that has n. */
  function ChunksCost(n: nat, m: nat): (c: nat)
    ensures c >= m
  {
    m + IndexCount(n + m) - IndexCount(n)
  }

  lemma OneMoreChunk(n: nat, m: nat)
    ensures ChunksCost(n, 0) == 0
    ensures m > 0 ==> ChunksCost(n, m) == 1 + NewIndexes(n) + ChunksCost(n + 1, m - 1)
  {
  }

  /** From fs to fs', inodes have been added, and of the old ones only h has new contents. */
  ghost predicate Frame(fs: Fs, a: Abs, fs': Fs, a': Abs, h: nat)
    requires Sized(fs, a) && Sized(fs', a')
  {
    && SameKinds(fs, fs') && fs'.ninos == fs.ninos
    && (forall g :: 0 <= g < |fs.cis| && g != h ==> a'.chunks[g] == a.chunks[g] && a'.ents[g] == a.ents[g])
  }

  lemma FrameTransitive(fs: Fs, a: Abs, fs1: Fs, a1: Abs, fs2: Fs, a2: Abs, h: nat)
    requires Sized(fs, a) && Sized(fs1, a1) && Sized(fs2, a2)
    requires Frame(fs, a, fs1, a1, h) && Frame(fs1, a1, fs2, a2, h)
    ensures Frame(fs, a, fs2, a2, h)
  {
    forall g | 0 <= g < |fs.cis| ensures SameKind(fs.cis[g], fs2.cis[g]) {
      assert SameKind(fs.cis[g], fs1.cis[g]) && SameKind(fs1.cis[g], fs2.cis[g]);
    }
  }

  lemma ExtendedFrame(fs: Fs, a: Abs, fs': Fs, h: nat, chunk: seq<byte>)
    requires Sized(fs, a) && h < |fs.cis| && SameInodes(fs, fs') && fs'.ninos == fs.ninos
    ensures Sized(fs', Extended(fs, a, h, chunk)) && Frame(fs, a, fs', Extended(fs, a, h, chunk), h)
    ensures Extended(fs, a, h, chunk).chunks[h] == a.chunks[h] + [chunk]
    ensures Extended(fs, a, h, chunk).ents == a.ents
  {
    forall g | 0 <= g < |fs.cis| ensures SameKind(fs.cis[g], fs'.cis[g]) {
      assert SameIdentity(fs.cis[g], fs'.cis[g]);
    }
  }

  /** Inside a good state there is one block number for every chunk. */
  lemma ChunkCount(fs: Fs, a: Abs, h: nat)
    requires Rep(fs, a) && h < |fs.cis|
    ensures |a.chunks[h]| == |a.blks[h]| <= LN_NBLKS
  {
    assert ChunksOnDisk(fs.disk, a.blks[h], a.chunks[h]);
    assert IndexOk(fs.cis[h], fs.cbs, a.idx[h], a.blks[h]);
  }

  lemma {:induction false} OpenFileGood(fs: Fs, a: Abs, h: nat, content: seq<byte>) returns (a': Abs)
    requires Good(fs, a) && h < |fs.cis| && fs.cis[h].inode.typ != TYPE_DIR
    ensures var r, n, m := OpenFile(fs, h, content), |a.chunks[h]|, |FileChunks(content)|;
      && (r.Some? <==> n + m <= LN_NBLKS && fs.nextIno + ChunksCost(n, m) <= fs.ninos)
      && (r.Some? ==>
            && Good(r.value, a') && Frame(fs, a, r.value, a', h) && |r.value.cis| == |fs.cis|
            && r.value.nextIno == fs.nextIno + ChunksCost(n, m)
            && a'.chunks[h] == a.chunks[h] + FileChunks(content) && a'.ents == a.ents)
    decreases |content|
  {
    hide Rep, Entries, Links, StoreChunk, Extended, WellFormed, ChunksCost, NewIndexes;
    ChunkCount(fs, a, h);
    a' := a;
    OneMoreChunk(|a.chunks[h]|, |FileChunks(content)|);
    if content == [] {
      assert a.chunks[h] + [] == a.chunks[h];
    } else {
      var n := Min(|content|, BLKSIZE);
      var chunk, rest := content[..n], content[n..];
      StoreChunkGood(fs, a, h, chunk);
      var r := StoreChunk(fs, h, chunk);
      if r.Some? {
        var fs1, a1 := r.value, Extended(fs, a, h, chunk);
        ExtendedFrame(fs, a, fs1, h, chunk);
        a' := OpenFileGood(fs1, a1, h, rest);
        assert a.chunks[h] + FileChunks(content) == (a.chunks[h] + [chunk]) + FileChunks(rest);
        var r' := OpenFile(fs1, h, rest);
        if r'.Some? { FrameTransitive(fs, a, fs1, a1, r'.value, a', h); }
      }
    }
  }
}
