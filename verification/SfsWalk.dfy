/**
 The recursive walk: it stores exactly the visible part of the host's tree, shares inodes
 exactly as the host does, and fails exactly when the tree does not fit.
 */
module SfsWalk {
  import opened Wrappers
  import opened SfsFormat
  import opened SfsModel
  import opened SfsIndex
  import opened SfsRep
  import opened SfsTree

  // ----- the host -----

  /** What a host inode number stands for. */
  datatype Kind = KFile(content: seq<byte>) | KLink | KDir

  /** Entries the walk passes over. */
  predicate Skipped(d: Dirent)
  {
    Hidden(d.name) || d.node.Other?
  }

  /** The host uses each inode number for one object only, among the entries that are visited. */
  ghost predicate Coherent(world: map<nat, Kind>, t: Host)
  {
    match t
    case File(r, content) => r in world && world[r] == KFile(content)
    case Link(r, _) => r in world && world[r] == KLink
    case Dir(r, entries) => r in world && world[r] == KDir && CoherentAll(world, entries)
    case Other => true
  }

  ghost predicate CoherentAll(world: map<nat, Kind>, entries: seq<Dirent>)
  {
    entries == [] ||
    ((Skipped(entries[0]) || Coherent(world, entries[0].node)) && CoherentAll(world, entries[1..]))
  }

  // ----- room -----

  /** What a part of the walk needs: whether it breaks no limit, the blocks it takes, the
      entries of the current directory and the host inodes seen after it. */
  datatype Budget = Budget(ok: bool, blocks: nat, entries: nat, seen: set<nat>)

  function EntryBudget(b: Budget): Budget
  {
    Budget(b.ok && b.entries < LN_NBLKS, b.blocks + 1 + NewIndexes(b.entries), b.entries + 1, b.seen)
  }

  function OneBudget(d: Dirent, n: nat, seen: set<nat>): Budget
    decreases d, 1
  {
    if Hidden(d.name) then Budget(true, 0, n, seen)
    else if |d.name| > MAX_FNAME_LEN then Budget(false, 0, n, seen)
    else
      match d.node
      case Other => Budget(true, 0, n, seen)
      case Link(r, target) => EntryBudget(Budget(|target| < BLKSIZE, 2, n, seen + {r}))
      case File(r, content) =>
        if r in seen then EntryBudget(Budget(true, 0, n, seen))
        else
          var m := |FileChunks(content)|;
          EntryBudget(Budget(m <= LN_NBLKS, 1 + ChunksCost(0, m), n, seen + {r}))
      case Dir(r, entries) =>
        var b := DirBudget(entries, seen + {r});
        EntryBudget(Budget(r !in seen && b.ok, 1 + b.blocks, n, b.seen))
  }

  function AllBudget(entries: seq<Dirent>, n: nat, seen: set<nat>): Budget
    decreases entries, 0
  {
    if entries == [] then Budget(true, 0, n, seen)
    else
      var b := OneBudget(entries[0], n, seen);
      var rest := AllBudget(entries[1..], b.entries, b.seen);
      Budget(b.ok && rest.ok, b.blocks + rest.blocks, rest.entries, rest.seen)
  }

  /** A directory starts with its two dot entries. */
  function DirBudget(entries: seq<Dirent>, seen: set<nat>): Budget
    decreases entries, 1
  {
    var b := AllBudget(entries, 2, seen);
    Budget(b.ok, 2 + b.blocks, b.entries, b.seen)
  }

  /** The root directory, whose cached host number is 0. */
  function RootBudget(entries: seq<Dirent>): Budget
  {
    DirBudget(entries, {0})
  }

  // ----- what has been built -----

  /** Inode h holds the tree t; its directories' ".." leads to their parents. `done` are the
      inodes that will not change any more. */
  ghost predicate TreeAt(fs: Fs, a: Abs, done: set<nat>, h: nat, t: Host, parent: nat)
    requires Sized(fs, a)
    decreases t, 1
  {
    && h in done && h < |fs.cis|
    && match t
       case File(r, content) =>
         fs.cis[h].inode.typ == TYPE_FILE && fs.cis[h].realIno == r && a.chunks[h] == FileChunks(content)
       case Link(r, target) =>
         fs.cis[h].inode.typ == TYPE_LINK && a.chunks[h] == [target]
       case Dir(r, entries) =>
         && fs.cis[h].inode.typ == TYPE_DIR && |a.ents[h]| >= 2
         && a.ents[h][..2] == [Entry(DOT, h), Entry(DOTDOT, parent)]
         && EntriesAt(fs, a, done, h, a.ents[h][2..], entries)
       case Other => false
  }

  /** The entries are those of the host's directory that are not skipped, in order. */
  ghost predicate EntriesAt(fs: Fs, a: Abs, done: set<nat>, h: nat, ents: seq<Entry>, entries: seq<Dirent>)
    requires Sized(fs, a)
    decreases entries, 0
  {
    if entries == [] then ents == []
    else if Skipped(entries[0]) then EntriesAt(fs, a, done, h, ents, entries[1..])
    else
      && ents != [] && ents[0].name == entries[0].name
      && TreeAt(fs, a, done, ents[0].child, entries[0].node, h)
      && EntriesAt(fs, a, done, h, ents[1..], entries[1..])
  }

  /** How often the entries in the tree t at inode h name inode g, with "." and ".." or without. */
  ghost function NamesTree(ents: seq<seq<Entry>>, dots: bool, h: nat, t: Host, g: nat): nat
    decreases t, 1
  {
    if t.Dir? && h < |ents| && |ents[h]| >= 2 then
      (if dots then CountIn(ents[h][..2], g) else 0) + NamesAll(ents, dots, ents[h][2..], t.entries, g)
    else 0
  }

  ghost function NamesAll(ents: seq<seq<Entry>>, dots: bool, dir: seq<Entry>, entries: seq<Dirent>, g: nat): nat
    decreases entries, 0
  {
    if entries == [] || dir == [] then 0
    else if Skipped(entries[0]) then NamesAll(ents, dots, dir, entries[1..], g)
    else
      (if dir[0].child == g then 1 else 0) + NamesTree(ents, dots, dir[0].child, entries[0].node, g)
      + NamesAll(ents, dots, dir[1..], entries[1..], g)
  }

  /** From (fs, a, done) to (fs', a', done'), finished inodes have kept their contents. */
  ghost predicate Later(fs: Fs, a: Abs, done: set<nat>, fs': Fs, a': Abs, done': set<nat>)
    requires Sized(fs, a) && Sized(fs', a')
  {
    && SameKinds(fs, fs') && done <= done'
    && (forall g :: g in done && g < |fs.cis| ==> a'.chunks[g] == a.chunks[g] && a'.ents[g] == a.ents[g])
  }

  lemma {:induction false} TreeStays(fs: Fs, a: Abs, done: set<nat>, fs': Fs, a': Abs, done': set<nat>,
                                     h: nat, t: Host, parent: nat)
    requires Sized(fs, a) && Sized(fs', a') && Later(fs, a, done, fs', a', done')
    requires TreeAt(fs, a, done, h, t, parent)
    ensures TreeAt(fs', a', done', h, t, parent)
    decreases t, 1
  {
    assert SameKind(fs.cis[h], fs'.cis[h]);
    if t.Dir? { EntriesStay(fs, a, done, fs', a', done', h, a.ents[h][2..], t.entries); }
  }

  lemma {:induction false} EntriesStay(fs: Fs, a: Abs, done: set<nat>, fs': Fs, a': Abs, done': set<nat>,
                                       h: nat, ents: seq<Entry>, entries: seq<Dirent>)
    requires Sized(fs, a) && Sized(fs', a') && Later(fs, a, done, fs', a', done')
    requires EntriesAt(fs, a, done, h, ents, entries)
    ensures EntriesAt(fs', a', done', h, ents, entries)
    decreases entries, 0
  {
    if entries == [] {
    } else if Skipped(entries[0]) {
      EntriesStay(fs, a, done, fs', a', done', h, ents, entries[1..]);
    } else {
      TreeStays(fs, a, done, fs', a', done', ents[0].child, entries[0].node, h);
      EntriesStay(fs, a, done, fs', a', done', h, ents[1..], entries[1..]);
    }
  }

  lemma {:induction false} NamesStay(fs: Fs, a: Abs, done: set<nat>, fs': Fs, a': Abs, done': set<nat>,
                                     h: nat, t: Host, parent: nat, g: nat, dots: bool)
    requires Sized(fs, a) && Sized(fs', a') && Later(fs, a, done, fs', a', done')
    requires TreeAt(fs, a, done, h, t, parent)
    ensures NamesTree(a'.ents, dots, h, t, g) == NamesTree(a.ents, dots, h, t, g)
    decreases t, 1
  {
    assert SameKind(fs.cis[h], fs'.cis[h]);
    if t.Dir? { NamesStayAll(fs, a, done, fs', a', done', h, a.ents[h][2..], t.entries, g, dots); }
  }

  lemma {:induction false} NamesStayAll(fs: Fs, a: Abs, done: set<nat>, fs': Fs, a': Abs, done': set<nat>,
                                        h: nat, ents: seq<Entry>, entries: seq<Dirent>, g: nat, dots: bool)
    requires Sized(fs, a) && Sized(fs', a') && Later(fs, a, done, fs', a', done')
    requires EntriesAt(fs, a, done, h, ents, entries)
    ensures NamesAll(a'.ents, dots, ents, entries, g) == NamesAll(a.ents, dots, ents, entries, g)
    decreases entries, 0
  {
    if entries == [] {
    } else if Skipped(entries[0]) {
      NamesStayAll(fs, a, done, fs', a', done', h, ents, entries[1..], g, dots);
    } else {
      NamesStay(fs, a, done, fs', a', done', ents[0].child, entries[0].node, h, g, dots);
      NamesStayAll(fs, a, done, fs', a', done', h, ents[1..], entries[1..], g, dots);
    }
  }

  lemma {:induction false} EntriesJoin(fs: Fs, a: Abs, done: set<nat>, h: nat, e1: seq<Entry>, e2: seq<Entry>,
                                       d: Dirent, entries: seq<Dirent>)
    requires Sized(fs, a)
    requires EntriesAt(fs, a, done, h, e1, [d]) && EntriesAt(fs, a, done, h, e2, entries)
    ensures EntriesAt(fs, a, done, h, e1 + e2, [d] + entries)
  {
    assert ([d] + entries)[1..] == entries && [d][1..] == [];
    if Skipped(d) {
      assert e1 == [] && e1 + e2 == e2;
    } else {
      assert e1[1..] == [] && (e1 + e2)[1..] == e2;
    }
  }

  lemma {:induction false} NamesJoin(fs: Fs, a: Abs, done: set<nat>, h: nat, e1: seq<Entry>, e2: seq<Entry>,
                                     d: Dirent, entries: seq<Dirent>, g: nat, dots: bool)
    requires Sized(fs, a)
    requires EntriesAt(fs, a, done, h, e1, [d]) && EntriesAt(fs, a, done, h, e2, entries)
    ensures NamesAll(a.ents, dots, e1 + e2, [d] + entries, g)
         == NamesAll(a.ents, dots, e1, [d], g) + NamesAll(a.ents, dots, e2, entries, g)
  {
    assert ([d] + entries)[1..] == entries && [d][1..] == [];
    if Skipped(d) {
      assert e1 == [] && e1 + e2 == e2;
    } else {
      assert e1[1..] == [] && (e1 + e2)[1..] == e2;
    }
  }

  /** The entries that have come from a to a' are those in directory part `dir` and below it. */
  ghost predicate Tallied(a: Abs, a': Abs, dir: seq<Entry>, entries: seq<Dirent>)
  {
    forall g: nat :: CountAll(a'.ents, g) == CountAll(a.ents, g) + NamesAll(a'.ents, true, dir, entries, g)
  }

  ghost predicate TalliedTree(a: Abs, a': Abs, h: nat, t: Host)
  {
    forall g: nat :: CountAll(a'.ents, g) == CountAll(a.ents, g) + NamesTree(a'.ents, true, h, t, g)
  }

  /** Of the inodes that are no regular files, the old ones are not named and a new one at most once. */
  ghost predicate Few(fs: Fs, fs': Fs, g: nat, names: nat)
  {
    g < |fs'.cis| && fs'.cis[g].inode.typ != TYPE_FILE ==> names <= if g < |fs.cis| then 0 else 1
  }

  ghost predicate Single(fs: Fs, fs': Fs, a': Abs, dir: seq<Entry>, entries: seq<Dirent>)
  {
    forall g: nat :: Few(fs, fs', g, NamesAll(a'.ents, false, dir, entries, g))
  }

  /** The same for a tree, whose root is not named in it. */
  ghost predicate SingleTree(fs: Fs, fs': Fs, a': Abs, h: nat, t: Host)
  {
    && NamesTree(a'.ents, false, h, t, h) == 0
    && (forall g: nat :: Few(fs, fs', g, NamesTree(a'.ents, false, h, t, g)))
  }

  /** Inodes that do not exist are not named. */
  lemma {:induction false} NoneNamed(fs: Fs, a: Abs, done: set<nat>, h: nat, t: Host, parent: nat, g: nat)
    requires Sized(fs, a) && TreeAt(fs, a, done, h, t, parent) && g >= |fs.cis|
    ensures NamesTree(a.ents, false, h, t, g) == 0
    decreases t, 1
  {
    if t.Dir? { NoneNamedAll(fs, a, done, h, a.ents[h][2..], t.entries, g); }
  }

  lemma {:induction false} NoneNamedAll(fs: Fs, a: Abs, done: set<nat>, h: nat, ents: seq<Entry>,
                                        entries: seq<Dirent>, g: nat)
    requires Sized(fs, a) && EntriesAt(fs, a, done, h, ents, entries) && g >= |fs.cis|
    ensures NamesAll(a.ents, false, ents, entries, g) == 0
    decreases entries, 0
  {
    if entries == [] {
    } else if Skipped(entries[0]) {
      NoneNamedAll(fs, a, done, h, ents, entries[1..], g);
    } else {
      NoneNamed(fs, a, done, ents[0].child, entries[0].node, h, g);
      NoneNamedAll(fs, a, done, h, ents[1..], entries[1..], g);
    }
  }

  /** The dot entries name directories only. */
  lemma {:induction false} DotsNameDirs(fs: Fs, a: Abs, done: set<nat>, h: nat, t: Host, parent: nat, g: nat)
    requires Sized(fs, a) && TreeAt(fs, a, done, h, t, parent)
    requires parent < |fs.cis| && fs.cis[parent].inode.typ == TYPE_DIR
    requires g < |fs.cis| && fs.cis[g].inode.typ != TYPE_DIR
    ensures NamesTree(a.ents, true, h, t, g) == NamesTree(a.ents, false, h, t, g)
    decreases t, 1
  {
    if t.Dir? {
      CountTwo(Entry(DOT, h), Entry(DOTDOT, parent), g);
      DotsNameDirsAll(fs, a, done, h, a.ents[h][2..], t.entries, g);
    }
  }

  lemma {:induction false} DotsNameDirsAll(fs: Fs, a: Abs, done: set<nat>, h: nat, ents: seq<Entry>,
                                           entries: seq<Dirent>, g: nat)
    requires Sized(fs, a) && EntriesAt(fs, a, done, h, ents, entries)
    requires h < |fs.cis| && fs.cis[h].inode.typ == TYPE_DIR
    requires g < |fs.cis| && fs.cis[g].inode.typ != TYPE_DIR
    ensures NamesAll(a.ents, true, ents, entries, g) == NamesAll(a.ents, false, ents, entries, g)
    decreases entries, 0
  {
    if entries == [] {
    } else if Skipped(entries[0]) {
      DotsNameDirsAll(fs, a, done, h, ents, entries[1..], g);
    } else {
      DotsNameDirs(fs, a, done, ents[0].child, entries[0].node, h, g);
      DotsNameDirsAll(fs, a, done, h, ents[1..], entries[1..], g);
    }
  }

  lemma EntryTally(fs: Fs, a: Abs, current: nat, file: nat, name: Name, g: nat)
    requires WellFormed(fs) && Sized(fs, a) && current < |fs.cis| && file < |fs.cis| && |name| < ENTRY_SIZE
    ensures var a' := WithEntry(fs, a, current, file, name);
      CountAll(a'.ents, g) == CountAll(a.ents, g) + (if g == file then 1 else 0)
  {
    hide EntryBytes, StrCpy, WellFormed;
    CountAllUpdate(a.ents, current, Entry(name, file), g);
  }

  lemma CountTwo(e: Entry, e': Entry, g: nat)
    ensures CountIn([e, e'], g) == (if e.child == g then 1 else 0) + (if e'.child == g then 1 else 0)
  {
    assert [e, e'][..1] == [e] && [e][..0] == [];
    assert CountIn([e], g) == CountIn([], g) + (if e.child == g then 1 else 0);
  }

  lemma EmptyTally(a: Abs, a': Abs, g: nat)
    requires a'.ents == a.ents + [[]]
    ensures CountAll(a'.ents, g) == CountAll(a.ents, g)
  {
    assert a'.ents[..|a.ents|] == a.ents;
  }

  // ----- looking inodes up -----

  lemma {:induction false} FindInodeSpec(cis: seq<CacheInode>, chain: seq<nat>, r: nat)
    requires forall i :: 0 <= i < |chain| ==> chain[i] < |cis|
    ensures FindInode(cis, chain, r).None? <==> forall i :: 0 <= i < |chain| ==> cis[chain[i]].realIno != r
  {
    if chain != [] && cis[chain[0]].realIno != r {
      FindInodeSpec(cis, chain[1..], r);
      forall i | 0 < i < |chain| ensures chain[i] == chain[1..][i - 1] {
      }
    }
  }

  lemma {:induction false} InChain(cis: seq<CacheInode>, b: nat, g: nat) returns (i: nat)
    requires g < |cis| && Hash(cis[g].realIno) == b
    ensures i < |ChainOf(cis, b)| && ChainOf(cis, b)[i] == g
  {
    var n := |cis| - 1;
    if g == n {
      i := 0;
    } else {
      i := InChain(cis[..n], b, g);
      if Hash(cis[n].realIno) == b { i := i + 1; }
    }
  }

  ghost function Reals(cis: seq<CacheInode>): set<nat>
  {
    set g | 0 <= g < |cis| :: cis[g].realIno
  }

  /** A cached inode is found exactly when one has the number. */
  lemma SearchFinds(fs: Fs, r: nat)
    requires WellFormed(fs) && FiledByReal(fs)
    ensures var found := SearchCacheInode(fs, r);
      && (found.Some? <==> r in Reals(fs.cis))
      && (found.Some? ==> found.value < |fs.cis| && fs.cis[found.value].realIno == r)
  {
    var chain := fs.inodeChains[Hash(r)];
    FindInodeSpec(fs.cis, chain, r);
    if r in Reals(fs.cis) {
      var g :| 0 <= g < |fs.cis| && fs.cis[g].realIno == r;
      var i := InChain(fs.cis, Hash(r), g);
    }
  }

  /** Every cached inode is what the host says its number is; files are complete. */
  ghost predicate Known(fs: Fs, a: Abs, done: set<nat>, world: map<nat, Kind>)
    requires Sized(fs, a)
  {
    && (forall g :: 0 <= g < |fs.cis| ==> KnownInode(fs.cis[g], g, a.chunks[g], done, world))
    && (forall g :: g in done ==> g < |fs.cis|)
  }

  ghost predicate KnownInode(ci: CacheInode, g: nat, chunks: seq<seq<byte>>, done: set<nat>, world: map<nat, Kind>)
  {
    if g == 0 then ci.realIno == 0 && ci.inode.typ == TYPE_DIR
    else
      && ci.realIno in world
      && match world[ci.realIno]
         case KFile(content) => ci.inode.typ == TYPE_FILE && chunks == FileChunks(content) && g in done
         case KLink => ci.inode.typ == TYPE_LINK
         case KDir => ci.inode.typ == TYPE_DIR
  }

  /** No two regular files in the image stand for the same host inode. */
  ghost predicate FilesDistinct(cis: seq<CacheInode>)
  {
    forall g, g' :: 0 <= g < g' < |cis| && cis[g].inode.typ == cis[g'].inode.typ == TYPE_FILE ==>
      cis[g].realIno != cis[g'].realIno
  }

  ghost predicate Walking(fs: Fs, a: Abs, done: set<nat>, world: map<nat, Kind>)
  {
    Good(fs, a) && Known(fs, a, done, world) && FilesDistinct(fs.cis) && 0 !in world
  }

  /** A piece of the walk inside directory `current`: only it has new contents among the old
      inodes, and no old inode has become finished. */
  ghost predicate Walked(fs: Fs, a: Abs, done: set<nat>, fs': Fs, a': Abs, done': set<nat>,
                         world: map<nat, Kind>, current: nat)
    requires Sized(fs, a) && current < |fs.cis|
  {
    && Walking(fs', a', done', world) && Frame(fs, a, fs', a', current)
    && done <= done' && (forall g :: g in done' && g < |fs.cis| ==> g in done)
    && a.ents[current] <= a'.ents[current]
  }

  lemma WalkedTransitive(fs: Fs, a: Abs, done: set<nat>, fs1: Fs, a1: Abs, done1: set<nat>,
                         fs2: Fs, a2: Abs, done2: set<nat>, world: map<nat, Kind>, current: nat)
    requires Sized(fs, a) && current < |fs.cis| && Walked(fs, a, done, fs1, a1, done1, world, current)
    requires Walked(fs1, a1, done1, fs2, a2, done2, world, current)
    ensures Walked(fs, a, done, fs2, a2, done2, world, current)
  {
    hide Rep, Entries, Links, WellFormed, Known, FilesDistinct;
    FrameTransitive(fs, a, fs1, a1, fs2, a2, current);
  }

  lemma WalkedLater(fs: Fs, a: Abs, done: set<nat>, fs': Fs, a': Abs, done': set<nat>,
                    world: map<nat, Kind>, current: nat)
    requires Sized(fs, a) && current < |fs.cis| && Walked(fs, a, done, fs', a', done', world, current)
    requires current !in done
    ensures Later(fs, a, done, fs', a', done')
  {
  }

  // ----- one entry -----

  lemma EntryWalked(fs: Fs, a: Abs, done: set<nat>, world: map<nat, Kind>, current: nat, file: nat, name: Name)
    requires Walking(fs, a, done, world) && current < |fs.cis| && file < |fs.cis| && current !in done
    requires fs.cis[current].inode.typ == TYPE_DIR && |name| <= MAX_FNAME_LEN
    ensures var r, n := AddEntry(fs, current, file, name), |a.ents[current]|;
      && (r.Some? <==> n < LN_NBLKS && fs.nextIno + 1 + NewIndexes(n) <= fs.ninos)
      && (r.Some? ==>
            var a' := WithEntry(fs, a, current, file, name);
            && Walked(fs, a, done, r.value, a', done, world, current)
            && r.value.nextIno == fs.nextIno + 1 + NewIndexes(n) && Reals(r.value.cis) == Reals(fs.cis)
            && a'.ents[current] == a.ents[current] + [Entry(name, file)])
  {
    hide AddEntry, StrCpy, EntryBytes, Rep, Entries, Links, WellFormed, NewIndexes;
    EntryCount(fs, a, current);
    AddEntryGood(fs, a, current, file, name);
    var r := AddEntry(fs, current, file, name);
    if r.Some? {
      var fs', a' := r.value, WithEntry(fs, a, current, file, name);
      EntryKnown(fs, a, done, world, current, fs', a');
    }
  }

  lemma EntryCount(fs: Fs, a: Abs, h: nat)
    requires Good(fs, a) && h < |fs.cis| && fs.cis[h].inode.typ == TYPE_DIR
    ensures |a.ents[h]| == |a.chunks[h]| == |a.blks[h]|
  {
    ChunkCount(fs, a, h);
    assert EntriesOf(fs.cis, h, a.chunks[h], a.ents[h]);
  }

  /** New contents of a directory leave everything known about the inodes. */
  lemma EntryKnown(fs: Fs, a: Abs, done: set<nat>, world: map<nat, Kind>, current: nat, fs': Fs, a': Abs)
    requires Sized(fs, a) && Sized(fs', a') && Known(fs, a, done, world) && FilesDistinct(fs.cis)
    requires |fs'.cis| == |fs.cis| && SameKinds(fs, fs') && current < |fs.cis|
    requires fs.cis[current].inode.typ == TYPE_DIR
    requires forall g :: 0 <= g < |fs.cis| && g != current ==> a'.chunks[g] == a.chunks[g]
    ensures Known(fs', a', done, world) && FilesDistinct(fs'.cis) && Reals(fs'.cis) == Reals(fs.cis)
  {
    forall g | 0 <= g < |fs'.cis| ensures KnownInode(fs'.cis[g], g, a'.chunks[g], done, world) {
      assert SameKind(fs.cis[g], fs'.cis[g]) && KnownInode(fs.cis[g], g, a.chunks[g], done, world);
    }
    forall g | 0 <= g < |fs.cis| ensures fs'.cis[g].realIno == fs.cis[g].realIno {
      assert SameKind(fs.cis[g], fs'.cis[g]);
    }
    forall g, g' | 0 <= g < g' < |fs'.cis| && fs'.cis[g].inode.typ == fs'.cis[g'].inode.typ == TYPE_FILE
      ensures fs'.cis[g].realIno != fs'.cis[g'].realIno
    {
      assert SameKind(fs.cis[g], fs'.cis[g]) && SameKind(fs.cis[g'], fs'.cis[g']);
    }
    SameReals(fs.cis, fs'.cis);
  }

  lemma SameReals(cis: seq<CacheInode>, cis': seq<CacheInode>)
    requires |cis| == |cis'| && forall g :: 0 <= g < |cis| ==> cis'[g].realIno == cis[g].realIno
    ensures Reals(cis') == Reals(cis)
  {
  }

  // ----- new inodes -----

  /** fs' has one finished inode more, the last one; the old inodes are as before. */
  ghost predicate Finished(fs: Fs, a: Abs, done: set<nat>, fs': Fs, a': Abs, done': set<nat>, world: map<nat, Kind>,
      realIno: nat)
    requires Sized(fs, a)
  {
    && Sized(fs', a') && |fs'.cis| == |fs.cis| + 1 && a'.ents == a.ents + [[]]
    && Frame(fs, a, fs', a', |fs.cis|) && Reals(fs'.cis) == Reals(fs.cis) + {realIno}
    && done' == done + {|fs.cis|} && Walking(fs', a', done', world)
  }

  lemma AddedFrame(fs: Fs, fs': Fs, a: Abs, realIno: nat, typ: nat, h: nat)
    requires Sized(fs, a) && |fs.inodeChains| == HASH_LIST_SIZE && InodeAdded(fs, fs', realIno, typ)
    ensures Sized(fs', WithInode(fs, a)) && Frame(fs, a, fs', WithInode(fs, a), h)
    ensures Reals(fs'.cis) == Reals(fs.cis) + {realIno}
  {
    assert fs'.cis[|fs.cis|].realIno == realIno;
    forall g | 0 <= g < |fs.cis| ensures fs'.cis[g].realIno == fs.cis[g].realIno {
    }
  }

  /** The new inode h holds what its host number stands for. */
  lemma NewKnown(fs: Fs, a: Abs, done: set<nat>, world: map<nat, Kind>, fs': Fs, a': Abs, done': set<nat>, r: nat)
    requires Sized(fs, a) && Sized(fs', a') && Known(fs, a, done, world) && FilesDistinct(fs.cis)
    requires |fs'.cis| == |fs.cis| + 1 && SameKinds(fs, fs') && |fs.cis| > 0
    requires forall g :: 0 <= g < |fs.cis| ==> a'.chunks[g] == a.chunks[g]
    requires done <= done' <= done + {|fs.cis|}
    requires fs'.cis[|fs.cis|].realIno == r
    requires KnownInode(fs'.cis[|fs.cis|], |fs.cis|, a'.chunks[|fs.cis|], done', world)
    requires fs'.cis[|fs.cis|].inode.typ == TYPE_FILE ==> r !in Reals(fs.cis)
    ensures Known(fs', a', done', world) && FilesDistinct(fs'.cis)
  {
    forall g | 0 <= g < |fs'.cis| ensures KnownInode(fs'.cis[g], g, a'.chunks[g], done', world) {
      if g < |fs.cis| {
        assert SameKind(fs.cis[g], fs'.cis[g]) && KnownInode(fs.cis[g], g, a.chunks[g], done, world);
      }
    }
    forall g, g' | 0 <= g < g' < |fs'.cis| && fs'.cis[g].inode.typ == fs'.cis[g'].inode.typ == TYPE_FILE
      ensures fs'.cis[g].realIno != fs'.cis[g'].realIno
    {
      assert SameKind(fs.cis[g], fs'.cis[g]);
      if g' < |fs.cis| {
        assert SameKind(fs.cis[g'], fs'.cis[g']);
      } else {
        assert fs.cis[g].realIno in Reals(fs.cis);
      }
    }
  }

  /** The new inode is complete: it holds t. */
  ghost predicate Built(fs: Fs, a: Abs, done: set<nat>, fs': Fs, a': Abs, done': set<nat>, world: map<nat, Kind>,
                        realIno: nat, t: Host)
    requires Sized(fs, a)
  {
    && Sized(fs', a') && TreeAt(fs', a', done', |fs.cis|, t, 0)
    && Finished(fs, a, done, fs', a', done', world, realIno)
  }

  /** A regular file that has not been seen. */
  lemma NewFile(fs: Fs, a: Abs, done: set<nat>, world: map<nat, Kind>, r: nat, content: seq<byte>)
    returns (a': Abs, done': set<nat>)
    requires Walking(fs, a, done, world) && |fs.cis| > 0
    requires r in world && world[r] == KFile(content) && r !in Reals(fs.cis)
    ensures done' == done + {|fs.cis|}
    ensures var made, m := MakeFile(fs, r, content), |FileChunks(content)|;
      && (made.Some? <==> m <= LN_NBLKS && fs.nextIno + 1 + ChunksCost(0, m) <= fs.ninos)
      && (made.Some? ==>
            && Sized(made.value.0, a') && Built(fs, a, done, made.value.0, a', done', world, r, File(r, content))
            && made.value.0.nextIno == fs.nextIno + 1 + ChunksCost(0, m))
  {
    hide Rep, Entries, Links, OpenFile, AllocCacheInode, Finished;
    a', done' := a, done + {|fs.cis|};
    NewInodeGood(fs, a, r, TYPE_FILE);
    if fs.nextIno < fs.ninos {
      var (fs1, h) := AllocCacheInode(fs, r, 0, TYPE_FILE).value;
      var a1 := WithInode(fs, a);
      a' := OpenFileGood(fs1, a1, h, content);
      assert a1.chunks[h] + FileChunks(content) == FileChunks(content);
      var result := OpenFile(fs1, h, content);
      if result.Some? { FileBuilt(fs, a, done, world, r, content, fs1, a1, result.value, a', done'); }
    }
  }

  lemma KindOf(fs: Fs, a: Abs, fs': Fs, a': Abs, h: nat)
    requires Sized(fs, a) && Sized(fs', a') && Frame(fs, a, fs', a', h) && h < |fs.cis|
    ensures h < |fs'.cis| && SameKind(fs.cis[h], fs'.cis[h])
  {
  }

  lemma GraftFinished(fs: Fs, a: Abs, done: set<nat>, world: map<nat, Kind>, r: nat, typ: nat,
                      fs1: Fs, a1: Abs, fs': Fs, a': Abs, done': set<nat>)
    requires Sized(fs, a) && |fs.cis| > 0 && |fs.inodeChains| == HASH_LIST_SIZE
    requires InodeAdded(fs, fs1, r, typ) && a1 == WithInode(fs, a) && a'.ents == a1.ents
    requires Sized(fs', a') && Sized(fs1, a1) && Frame(fs1, a1, fs', a', |fs.cis|) && |fs'.cis| == |fs1.cis|
    requires KnownInode(fs'.cis[|fs.cis|], |fs.cis|, a'.chunks[|fs.cis|], done', world)
    requires typ == TYPE_FILE ==> r !in Reals(fs.cis)
    requires Walking(fs, a, done, world) && Good(fs', a')
    requires done' == done + {|fs.cis|}
    ensures Finished(fs, a, done, fs', a', done', world, r)
  {
    hide Rep, Entries, Links, Known, FilesDistinct, WellFormed, Reals, KnownInode;
    var h := |fs.cis|;
    Grafted(fs, a, fs1, a1, fs', a', r, typ);
    NewKnown(fs, a, done, world, fs', a', done', r);
  }

  lemma FileBuilt(fs: Fs, a: Abs, done: set<nat>, world: map<nat, Kind>, r: nat, content: seq<byte>,
                  fs1: Fs, a1: Abs, fs': Fs, a': Abs, done': set<nat>)
    requires Walking(fs, a, done, world) && |fs.cis| > 0
    requires r in world && world[r] == KFile(content) && r !in Reals(fs.cis)
    requires Sized(fs, a) && |fs.inodeChains| == HASH_LIST_SIZE
    requires InodeAdded(fs, fs1, r, TYPE_FILE) && a1 == WithInode(fs, a) && a'.ents == a1.ents
    requires Good(fs', a') && Sized(fs', a') && Sized(fs1, a1)
    requires Frame(fs1, a1, fs', a', |fs.cis|) && |fs'.cis| == |fs1.cis|
    requires a'.chunks[|fs.cis|] == FileChunks(content)
    requires done' == done + {|fs.cis|}
    ensures Built(fs, a, done, fs', a', done', world, r, File(r, content))
  {
    hide Good, Frame, Known, FilesDistinct, Reals, Finished, Walking, FileChunks;
    var h := |fs.cis|;
    KindOf(fs1, a1, fs', a', h);
    GraftFinished(fs, a, done, world, r, TYPE_FILE, fs1, a1, fs', a', done');
  }

  /** Filling a new inode leaves the old ones. */
  lemma Grafted(fs: Fs, a: Abs, fs1: Fs, a1: Abs, fs': Fs, a': Abs, r: nat, typ: nat)
    requires Sized(fs, a) && |fs.inodeChains| == HASH_LIST_SIZE
    requires InodeAdded(fs, fs1, r, typ) && a1 == WithInode(fs, a)
    requires Sized(fs', a') && Sized(fs1, a1) && Frame(fs1, a1, fs', a', |fs.cis|) && |fs'.cis| == |fs1.cis|
    ensures Frame(fs, a, fs', a', |fs.cis|) && Reals(fs'.cis) == Reals(fs.cis) + {r}
    ensures fs'.cis[|fs.cis|].realIno == r && fs'.cis[|fs.cis|].inode.typ == typ
  {
    var h := |fs.cis|;
    AddedFrame(fs, fs1, a, r, typ, h);
    FrameTransitive(fs, a, fs1, a1, fs', a', h);
    assert SameKind(fs1.cis[h], fs'.cis[h]);
    forall g | 0 <= g < |fs1.cis| ensures fs'.cis[g].realIno == fs1.cis[g].realIno {
      assert SameKind(fs1.cis[g], fs'.cis[g]);
    }
    SameReals(fs1.cis, fs'.cis);
  }

  /** A symbolic link. */
  lemma NewLink(fs: Fs, a: Abs, done: set<nat>, world: map<nat, Kind>, r: nat, target: seq<byte>)
    returns (a': Abs, done': set<nat>)
    requires Walking(fs, a, done, world) && |fs.cis| > 0
    requires r in world && world[r] == KLink
    ensures done' == done + {|fs.cis|}
    ensures var made := MakeLink(fs, r, target);
      && (made.Some? <==> |target| < BLKSIZE && fs.nextIno + 2 <= fs.ninos)
      && (made.Some? ==>
            && Sized(made.value.0, a') && Built(fs, a, done, made.value.0, a', done', world, r, Link(r, target))
            && made.value.0.nextIno == fs.nextIno + 2)
  {
    assert |fs.inodeChains| == HASH_LIST_SIZE;
    hide Rep, Entries, Links, StoreChunk, AllocCacheInode, Finished, WellFormed, Extended;
    a', done' := a, done + {|fs.cis|};
    NewInodeGood(fs, a, r, TYPE_LINK);
    if fs.nextIno < fs.ninos && |target| < BLKSIZE {
      var (fs1, h) := AllocCacheInode(fs, r, 0, TYPE_LINK).value;
      var a1 := WithInode(fs, a);
      StoreChunkGood(fs1, a1, h, target);
      var result := StoreChunk(fs1, h, target);
      if result.Some? {
        a' := Extended(fs1, a1, h, target);
        ExtendedFrame(fs1, a1, result.value, h, target);
        LinkBuilt(fs, a, done, world, r, target, fs1, a1, result.value, a', done');
      }
    }
  }

  lemma LinkBuilt(fs: Fs, a: Abs, done: set<nat>, world: map<nat, Kind>, r: nat, target: seq<byte>,
                  fs1: Fs, a1: Abs, fs': Fs, a': Abs, done': set<nat>)
    requires Walking(fs, a, done, world) && |fs.cis| > 0
    requires r in world && world[r] == KLink
    requires Sized(fs, a) && |fs.inodeChains| == HASH_LIST_SIZE
    requires InodeAdded(fs, fs1, r, TYPE_LINK) && a1 == WithInode(fs, a) && a'.ents == a1.ents
    requires Good(fs', a') && Sized(fs', a') && Sized(fs1, a1)
    requires Frame(fs1, a1, fs', a', |fs.cis|) && |fs'.cis| == |fs1.cis|
    requires a'.chunks[|fs.cis|] == [target]
    requires done' == done + {|fs.cis|}
    ensures Built(fs, a, done, fs', a', done', world, r, Link(r, target))
  {
    hide Good, Frame, Known, FilesDistinct, Reals, Finished, Walking, FileChunks;
    var h := |fs.cis|;
    KindOf(fs1, a1, fs', a', h);
    GraftFinished(fs, a, done, world, r, TYPE_LINK, fs1, a1, fs', a', done');
  }

  // ----- the walk -----

  /** A complete new inode is a piece of the walk in any old directory. */
  lemma FinishedWalked(fs: Fs, a: Abs, done: set<nat>, fs': Fs, a': Abs, done': set<nat>,
                       world: map<nat, Kind>, realIno: nat, current: nat)
    requires Sized(fs, a) && current < |fs.cis| && Finished(fs, a, done, fs', a', done', world, realIno)
    ensures Walked(fs, a, done, fs', a', done', world, current)
    ensures a'.ents[current] == a.ents[current]
  {
    hide Good, Known, FilesDistinct, SameKinds, Reals;
  }

  /** Entering a finished inode under the name of d. */
  lemma EnterTree(fs: Fs, a: Abs, done: set<nat>, fs1: Fs, a1: Abs, done1: set<nat>,
                  world: map<nat, Kind>, current: nat, h: nat, d: Dirent)
    requires Sized(fs, a) && current < |fs.cis| && Walked(fs, a, done, fs1, a1, done1, world, current)
    requires Sized(fs1, a1) && Walking(fs1, a1, done1, world)
    requires current < |fs1.cis| && fs1.cis[current].inode.typ == TYPE_DIR
    requires current !in done1 && h < |fs1.cis| && a1.ents[current] == a.ents[current]
    requires !Skipped(d) && |d.name| <= MAX_FNAME_LEN && TreeAt(fs1, a1, done1, h, d.node, current)
    requires TalliedTree(a, a1, h, d.node) && SingleTree(fs, fs1, a1, h, d.node)
    requires h >= |fs.cis| || fs1.cis[h].inode.typ == TYPE_FILE
    ensures var r, n := AddEntry(fs1, current, h, d.name), |a.ents[current]|;
      && (r.Some? <==> n < LN_NBLKS && fs1.nextIno + 1 + NewIndexes(n) <= fs1.ninos)
      && (r.Some? ==>
            var a' := WithEntry(fs1, a1, current, h, d.name);
            && Walked(fs, a, done, r.value, a', done1, world, current)
            && r.value.nextIno == fs1.nextIno + 1 + NewIndexes(n) && Reals(r.value.cis) == Reals(fs1.cis)
            && a'.ents[current] == a.ents[current] + [Entry(d.name, h)]
            && EntriesAt(r.value, a', done1, current, [Entry(d.name, h)], [d])
            && Tallied(a, a', [Entry(d.name, h)], [d]) && Single(fs, r.value, a', [Entry(d.name, h)], [d]))
  {
    hide AddEntry, WithEntry, NewIndexes, Walked, TreeAt, Reals, Walking;
    WalkedSized(fs, a, done, fs1, a1, done1, world, current);
    EntryWalked(fs1, a1, done1, world, current, h, d.name);
    var r := AddEntry(fs1, current, h, d.name);
    if r.Some? {
      var a' := WithEntry(fs1, a1, current, h, d.name);
      WalkedTransitive(fs, a, done, fs1, a1, done1, r.value, a', done1, world, current);
      WalkedSized(fs1, a1, done1, r.value, a', done1, world, current);
      WalkedLater(fs1, a1, done1, r.value, a', done1, world, current);
      TreeStays(fs1, a1, done1, r.value, a', done1, h, d.node, current);
      EnterTally(fs, a, fs1, a1, done1, r.value, current, h, d);
      EnterSingle(fs, fs1, a1, done1, r.value, a', current, h, d);
    }
  }

  lemma EnterSingle(fs: Fs, fs1: Fs, a1: Abs, done1: set<nat>, fs': Fs, a': Abs, current: nat, h: nat, d: Dirent)
    requires Sized(fs1, a1) && Sized(fs', a') && Later(fs1, a1, done1, fs', a', done1) && |fs'.cis| == |fs1.cis|
    requires !Skipped(d) && TreeAt(fs1, a1, done1, h, d.node, current) && SingleTree(fs, fs1, a1, h, d.node)
    requires h < |fs1.cis| && (h >= |fs.cis| || fs1.cis[h].inode.typ == TYPE_FILE)
    ensures Single(fs, fs', a', [Entry(d.name, h)], [d])
  {
    hide TreeAt, NamesTree;
    forall g: nat ensures Few(fs, fs', g, NamesAll(a'.ents, false, [Entry(d.name, h)], [d], g)) {
      NamesStay(fs1, a1, done1, fs', a', done1, h, d.node, current, g, false);
      assert Few(fs, fs1, g, NamesTree(a1.ents, false, h, d.node, g));
      assert [d][1..] == [] && [Entry(d.name, h)][1..] == [];
      if g < |fs1.cis| { assert SameKind(fs1.cis[g], fs'.cis[g]); }
    }
  }

  lemma EnterTally(fs: Fs, a: Abs, fs1: Fs, a1: Abs, done1: set<nat>, fs': Fs, current: nat, h: nat, d: Dirent)
    requires WellFormed(fs1) && Sized(fs1, a1) && current < |fs1.cis| && h < |fs1.cis| && |d.name| < ENTRY_SIZE
    requires var a' := WithEntry(fs1, a1, current, h, d.name);
      Sized(fs', a') && Later(fs1, a1, done1, fs', a', done1)
    requires !Skipped(d) && TreeAt(fs1, a1, done1, h, d.node, current) && TalliedTree(a, a1, h, d.node)
    ensures Tallied(a, WithEntry(fs1, a1, current, h, d.name), [Entry(d.name, h)], [d])
  {
    var a' := WithEntry(fs1, a1, current, h, d.name);
    hide WithEntry, TreeAt, Later, NamesTree, WellFormed;
    forall g: nat
      ensures CountAll(a'.ents, g) == CountAll(a.ents, g) + NamesAll(a'.ents, true, [Entry(d.name, h)], [d], g)
    {
      EntryTally(fs1, a1, current, h, d.name, g);
      NamesStay(fs1, a1, done1, fs', a', done1, h, d.node, current, g, true);
      assert [d][1..] == [];
    }
  }

  lemma WalkedSized(fs: Fs, a: Abs, done: set<nat>, fs': Fs, a': Abs, done': set<nat>,
                    world: map<nat, Kind>, current: nat)
    requires Sized(fs, a) && current < |fs.cis| && Walked(fs, a, done, fs', a', done', world, current)
    ensures Sized(fs', a') && WellFormed(fs') && |fs.cis| <= |fs'.cis| && fs'.ninos == fs.ninos
    ensures Walking(fs', a', done', world) && fs'.cis[current].inode.typ == fs.cis[current].inode.typ
    ensures a.ents[current] <= a'.ents[current] && done <= done' && (current in done' ==> current in done)
  {
    assert SameKind(fs.cis[current], fs'.cis[current]);
  }

  /** One call of the loop body of open_dir. */
  lemma {:induction false} AddOneGood(fs: Fs, a: Abs, done: set<nat>, world: map<nat, Kind>, current: nat, d: Dirent)
    returns (a': Abs, done': set<nat>)
    requires Walking(fs, a, done, world) && current < |fs.cis| && current !in done
    requires fs.cis[current].inode.typ == TYPE_DIR && (Skipped(d) || Coherent(world, d.node))
    ensures var r, b := AddOne(fs, current, d), OneBudget(d, |a.ents[current]|, Reals(fs.cis));
      && (r.Some? <==> b.ok && fs.nextIno + b.blocks <= fs.ninos)
      && (r.Some? ==> Added(fs, a, done, r.value, a', done', world, current, [d], b))
    decreases d, 3
  {
    hide Walked, Walking, Reals, Added, AddFile, AddLink, AddDir;
    a', done' := a, done;
    StandsStill(fs, a, done, world, current);
    if !Skipped(d) && |d.name| <= MAX_FNAME_LEN {
      match d.node
      case File(_, _) => a', done' := AddFileGood(fs, a, done, world, current, d);
      case Link(_, _) => a', done' := AddLinkGood(fs, a, done, world, current, d);
      case Dir(_, _) => a', done' := AddDirGood(fs, a, done, world, current, d);
    } else if |d.name| <= MAX_FNAME_LEN || Hidden(d.name) {
      NothingAdded(fs, a, done, world, current, d);
    }
  }

  /** Entries of the host's directory have been added to `current`. */
  ghost predicate Added(fs: Fs, a: Abs, done: set<nat>, fs': Fs, a': Abs, done': set<nat>,
                        world: map<nat, Kind>, current: nat, entries: seq<Dirent>, b: Budget)
    requires Sized(fs, a) && current < |fs.cis|
  {
    && Walked(fs, a, done, fs', a', done', world, current)
    && fs'.nextIno == fs.nextIno + b.blocks && Reals(fs'.cis) == b.seen && |a'.ents[current]| == b.entries
    && EntriesAt(fs', a', done', current, a'.ents[current][|a.ents[current]|..], entries)
    && Tallied(a, a', a'.ents[current][|a.ents[current]|..], entries)
    && Single(fs, fs', a', a'.ents[current][|a.ents[current]|..], entries)
  }

  lemma NothingAdded(fs: Fs, a: Abs, done: set<nat>, world: map<nat, Kind>, current: nat, d: Dirent)
    requires Sized(fs, a) && Walking(fs, a, done, world) && current < |fs.cis| && Skipped(d)
    ensures Added(fs, a, done, fs, a, done, world, current, [d], Budget(true, 0, |a.ents[current]|, Reals(fs.cis)))
  {
    hide Good, Known, FilesDistinct, Reals;
    NoneAdded(fs, a, done, world, current);
    hide Walked;
    assert [d][1..] == [];
    assert EntriesAt(fs, a, done, current, [], [d]);
  }

  lemma EntryAdded(fs: Fs, a: Abs, done: set<nat>, fs': Fs, a': Abs, done': set<nat>,
                   world: map<nat, Kind>, current: nat, h: nat, d: Dirent, b: Budget)
    requires Sized(fs, a) && current < |fs.cis| && Walked(fs, a, done, fs', a', done', world, current)
    requires fs'.nextIno == fs.nextIno + b.blocks && Reals(fs'.cis) == b.seen && b.entries == |a.ents[current]| + 1
    requires a'.ents[current] == a.ents[current] + [Entry(d.name, h)]
    requires EntriesAt(fs', a', done', current, [Entry(d.name, h)], [d])
    requires Tallied(a, a', [Entry(d.name, h)], [d]) && Single(fs, fs', a', [Entry(d.name, h)], [d])
    ensures Added(fs, a, done, fs', a', done', world, current, [d], b)
  {
    hide Good, Known, FilesDistinct, Reals, EntriesAt;
    WalkedSized(fs, a, done, fs', a', done', world, current);
    assert a'.ents[current][|a.ents[current]|..] == [Entry(d.name, h)];
  }

  lemma AddFileGood(fs: Fs, a: Abs, done: set<nat>, world: map<nat, Kind>, current: nat, d: Dirent)
    returns (a': Abs, done': set<nat>)
    requires Walking(fs, a, done, world) && current < |fs.cis| && current !in done
    requires fs.cis[current].inode.typ == TYPE_DIR && Coherent(world, d.node)
    requires d.node.File? && !Skipped(d) && |d.name| <= MAX_FNAME_LEN
    ensures var r, b := AddOne(fs, current, d), OneBudget(d, |a.ents[current]|, Reals(fs.cis));
      && (r.Some? <==> b.ok && fs.nextIno + b.blocks <= fs.ninos)
      && (r.Some? ==> Added(fs, a, done, r.value, a', done', world, current, [d], b))
  {
    hide Walked, Walking, Reals, Added, AddEntry, MakeFile, SearchCacheInode, ChunksCost, NewIndexes, Built, WithEntry;
    StandsStill(fs, a, done, world, current);
    var number, content := d.node.realIno, d.node.content;
    var b := OneBudget(d, |a.ents[current]|, Reals(fs.cis));
    var h := |fs.cis|;
    var fs1, a1 := fs, a;
    a', done' := a, done;
    Lookup(fs, a, done, world, number);
    if number in Reals(fs.cis) {
      h := SearchCacheInode(fs, number).value;
      FileFound(fs, a, done, world, h, number, content, current);
    } else {
      a', done' := NewFile(fs, a, done, world, number, content);
      var made := MakeFile(fs, number, content);
      if made.None? { return; }
      fs1, a1 := made.value.0, a';
      BuiltWalked(fs, a, done, fs1, a1, done', world, number, d.node, current);
    }
    WalkedSized(fs, a, done, fs1, a1, done', world, current);
    EnterTree(fs, a, done, fs1, a1, done', world, current, h, d);
    var r := AddEntry(fs1, current, h, d.name);
    if r.Some? {
      a' := WithEntry(fs1, a1, current, h, d.name);
      EntryAdded(fs, a, done, r.value, a', done', world, current, h, d, b);
    }
  }

  lemma Lookup(fs: Fs, a: Abs, done: set<nat>, world: map<nat, Kind>, r: nat)
    requires Walking(fs, a, done, world)
    ensures Sized(fs, a) && WellFormed(fs) && |fs.inodeChains| == HASH_LIST_SIZE
    ensures var found := SearchCacheInode(fs, r);
      && (found.Some? <==> r in Reals(fs.cis))
      && (found.Some? ==> found.value < |fs.cis| && fs.cis[found.value].realIno == r)
  {
    hide Entries, Links, Indexed, Owned, OnDisk, WrittenOnce, Counters, Known, FilesDistinct;
    SearchFinds(fs, r);
  }

  lemma StandsStill(fs: Fs, a: Abs, done: set<nat>, world: map<nat, Kind>, current: nat)
    requires Walking(fs, a, done, world) && current < |fs.cis|
    ensures Sized(fs, a) && WellFormed(fs) && fs.nextIno <= fs.ninos && Walked(fs, a, done, fs, a, done, world, current)
  {
    hide Rep, Entries, Links, Known, FilesDistinct;
  }

  /** A cached inode that stands for a regular file holds its content. */
  lemma FileFound(fs: Fs, a: Abs, done: set<nat>, world: map<nat, Kind>, h: nat, r: nat, content: seq<byte>,
                  parent: nat)
    requires Sized(fs, a) && Walking(fs, a, done, world) && h < |fs.cis| && fs.cis[h].realIno == r
    requires r in world && world[r] == KFile(content)
    ensures TreeAt(fs, a, done, h, File(r, content), parent) && fs.cis[h].inode.typ == TYPE_FILE
    ensures TalliedTree(a, a, h, File(r, content)) && SingleTree(fs, fs, a, h, File(r, content))
  {
    hide Good, FilesDistinct;
    assert KnownInode(fs.cis[h], h, a.chunks[h], done, world);
  }

  lemma BuiltWalked(fs: Fs, a: Abs, done: set<nat>, fs': Fs, a': Abs, done': set<nat>,
                    world: map<nat, Kind>, r: nat, t: Host, current: nat)
    requires Sized(fs, a) && current < |fs.cis| <= |fs'.cis| && Sized(fs', a') && !t.Dir?
    requires Built(fs, a, done, fs', a', done', world, r, t)
    ensures Walked(fs, a, done, fs', a', done', world, current)
    ensures a'.ents[current] == a.ents[current] && Reals(fs'.cis) == Reals(fs.cis) + {r}
    ensures TreeAt(fs', a', done', |fs.cis|, t, current) && TalliedTree(a, a', |fs.cis|, t)
    ensures SingleTree(fs, fs', a', |fs.cis|, t)
  {
    hide Good, Known, FilesDistinct, Walked, Walking, Reals;
    FinishedWalked(fs, a, done, fs', a', done', world, r, current);
    WalkedSized(fs, a, done, fs', a', done', world, current);
    forall g: nat ensures CountAll(a'.ents, g) == CountAll(a.ents, g) { EmptyTally(a, a', g); }
  }

  lemma AddLinkGood(fs: Fs, a: Abs, done: set<nat>, world: map<nat, Kind>, current: nat, d: Dirent)
    returns (a': Abs, done': set<nat>)
    requires Walking(fs, a, done, world) && current < |fs.cis| && current !in done
    requires fs.cis[current].inode.typ == TYPE_DIR && Coherent(world, d.node)
    requires d.node.Link? && !Skipped(d) && |d.name| <= MAX_FNAME_LEN
    ensures var r, b := AddOne(fs, current, d), OneBudget(d, |a.ents[current]|, Reals(fs.cis));
      && (r.Some? <==> b.ok && fs.nextIno + b.blocks <= fs.ninos)
      && (r.Some? ==> Added(fs, a, done, r.value, a', done', world, current, [d], b))
  {
    hide Walked, Walking, Reals, Added, AddEntry, MakeLink, NewIndexes, Built, WithEntry;
    StandsStill(fs, a, done, world, current);
    var b := OneBudget(d, |a.ents[current]|, Reals(fs.cis));
    var h := |fs.cis|;
    a', done' := a, done;
    var a1, done1 := NewLink(fs, a, done, world, d.node.realIno, d.node.target);
    var made := MakeLink(fs, d.node.realIno, d.node.target);
    if made.Some? {
      var fs1 := made.value.0;
      done' := done1;
      BuiltWalked(fs, a, done, fs1, a1, done', world, d.node.realIno, d.node, current);
      WalkedSized(fs, a, done, fs1, a1, done', world, current);
      EnterTree(fs, a, done, fs1, a1, done', world, current, h, d);
      var r := AddEntry(fs1, current, h, d.name);
      if r.Some? {
        a' := WithEntry(fs1, a1, current, h, d.name);
        EntryAdded(fs, a, done, r.value, a', done', world, current, h, d, b);
      }
    }
  }

  lemma AddDirGood(fs: Fs, a: Abs, done: set<nat>, world: map<nat, Kind>, current: nat, d: Dirent)
    returns (a': Abs, done': set<nat>)
    requires Walking(fs, a, done, world) && current < |fs.cis| && current !in done
    requires fs.cis[current].inode.typ == TYPE_DIR && Coherent(world, d.node)
    requires d.node.Dir? && !Skipped(d) && |d.name| <= MAX_FNAME_LEN
    ensures var r, b := AddOne(fs, current, d), OneBudget(d, |a.ents[current]|, Reals(fs.cis));
      && (r.Some? <==> b.ok && fs.nextIno + b.blocks <= fs.ninos)
      && (r.Some? ==> Added(fs, a, done, r.value, a', done', world, current, [d], b))
    decreases d, 2
  {
    hide Walked, Walking, Reals, Added, AddEntry, AllocCacheInode, OpenDir, NewIndexes, WithEntry, SearchCacheInode,
         Opened, WithInode;
    StandsStill(fs, a, done, world, current);
    var r, entries := d.node.realIno, d.node.entries;
    var b := OneBudget(d, |a.ents[current]|, Reals(fs.cis));
    var h := |fs.cis|;
    a', done' := a, done;
    Lookup(fs, a, done, world, r);
    if r in Reals(fs.cis) { return; }
    NewDir(fs, a, done, world, r, current);
    var alloc := AllocCacheInode(fs, r, 0, TYPE_DIR);
    if alloc.Some? {
      var fs1, a1 := alloc.value.0, WithInode(fs, a);
      a', done' := OpenDirGood(fs1, a1, done, world, h, current, entries);
      var filled := OpenDir(fs1, h, current, entries);
      if filled.Some? {
        var fs2, a2, done2 := filled.value, a', done';
        done' := done2 + {h};
        DirBuilt(fs, a, done, fs1, a1, fs2, a2, done2, done', world, current, d.node,
                 DirBudget(entries, Reals(fs1.cis)));
        WalkedSized(fs, a, done, fs2, a2, done', world, current);
        EnterTree(fs, a, done, fs2, a2, done', world, current, h, d);
        var result := AddEntry(fs2, current, h, d.name);
        if result.Some? {
          a' := WithEntry(fs2, a2, current, h, d.name);
          EntryAdded(fs, a, done, result.value, a', done', world, current, h, d, b);
        }
      }
    }
  }

  /** A new, still empty directory. */
  lemma NewDir(fs: Fs, a: Abs, done: set<nat>, world: map<nat, Kind>, r: nat, current: nat)
    requires Walking(fs, a, done, world) && current < |fs.cis|
    requires r in world && world[r] == KDir
    ensures var alloc, h := AllocCacheInode(fs, r, 0, TYPE_DIR), |fs.cis|;
      && (alloc.Some? <==> fs.nextIno < fs.ninos)
      && (alloc.Some? ==>
            var fs1, a1 := alloc.value.0, WithInode(fs, a);
            && alloc.value.1 == h && |fs1.cis| == h + 1 && fs1.cis[h].inode.typ == TYPE_DIR
            && Sized(fs1, a1) && Walking(fs1, a1, done, world) && a1.ents[h] == [] && h !in done
            && fs1.nextIno == fs.nextIno + 1 && fs1.ninos == fs.ninos
            && Frame(fs, a, fs1, a1, h) && a1.ents == a.ents + [[]]
            && Reals(fs1.cis) == Reals(fs.cis) + {r})
  {
    hide Rep, Entries, Links, AllocCacheInode;
    NewInodeGood(fs, a, r, TYPE_DIR);
    if fs.nextIno < fs.ninos {
      var fs1, a1 := AllocCacheInode(fs, r, 0, TYPE_DIR).value.0, WithInode(fs, a);
      AddedFrame(fs, fs1, a, r, TYPE_DIR, |fs.cis|);
      NewKnown(fs, a, done, world, fs1, a1, done, r);
    }
  }

  /** Directory h has received its two dot entries and those of the host's directory. */
  ghost predicate Opened(fs: Fs, a: Abs, done: set<nat>, fs': Fs, a': Abs, done': set<nat>,
                         world: map<nat, Kind>, h: nat, parent: nat, entries: seq<Dirent>, b: Budget)
    requires Sized(fs, a) && h < |fs.cis|
  {
    && Walked(fs, a, done, fs', a', done', world, h)
    && fs'.nextIno == fs.nextIno + b.blocks && Reals(fs'.cis) == b.seen
    && |a'.ents[h]| >= 2 && a'.ents[h][..2] == [Entry(DOT, h), Entry(DOTDOT, parent)]
    && EntriesAt(fs', a', done', h, a'.ents[h][2..], entries)
    && TalliedTree(a, a', h, Dir(0, entries)) && SingleTree(fs, fs', a', h, Dir(0, entries))
  }

  /** An opened directory is finished. */
  lemma DirBuilt(fs: Fs, a: Abs, done: set<nat>, fs1: Fs, a1: Abs, fs2: Fs, a2: Abs, done2: set<nat>, done3: set<nat>,
                 world: map<nat, Kind>, current: nat, t: Host, b: Budget)
    requires Sized(fs, a) && current < |fs.cis| && t.Dir?
    requires Sized(fs1, a1) && |fs1.cis| == |fs.cis| + 1 && fs1.cis[|fs.cis|].inode.typ == TYPE_DIR
    requires Frame(fs, a, fs1, a1, |fs.cis|) && a1.ents == a.ents + [[]]
    requires Opened(fs1, a1, done, fs2, a2, done2, world, |fs.cis|, current, t.entries, b)
    requires done3 == done2 + {|fs.cis|}
    ensures Sized(fs2, a2) && Walked(fs, a, done, fs2, a2, done3, world, current)
    ensures a2.ents[current] == a.ents[current] && TreeAt(fs2, a2, done3, |fs.cis|, t, current)
    ensures Reals(fs2.cis) == b.seen && fs2.nextIno == fs1.nextIno + b.blocks
    ensures TalliedTree(a, a2, |fs.cis|, t) && SingleTree(fs, fs2, a2, |fs.cis|, t)
  {
    var h := |fs.cis|;
    hide Good, FilesDistinct, Reals, EntriesAt;
    WalkedSized(fs1, a1, done, fs2, a2, done2, world, h);
    MoreKnown(fs2, a2, done2, done3, world, h);
    hide Known;
    assert Later(fs2, a2, done2, fs2, a2, done3);
    EntriesStay(fs2, a2, done2, fs2, a2, done3, h, a2.ents[h][2..], t.entries);
    FrameTransitive(fs, a, fs1, a1, fs2, a2, h);
    assert SameKind(fs1.cis[h], fs2.cis[h]);
    forall g: nat ensures CountAll(a1.ents, g) == CountAll(a.ents, g) { EmptyTally(a, a1, g); }
    forall g: nat ensures Few(fs, fs2, g, NamesTree(a2.ents, false, h, t, g)) {
      assert Few(fs1, fs2, g, NamesTree(a2.ents, false, h, Dir(0, t.entries), g));
      if g == h { assert NamesTree(a2.ents, false, h, t, h) == NamesTree(a2.ents, false, h, Dir(0, t.entries), h); }
    }
  }

  lemma MoreKnown(fs: Fs, a: Abs, done: set<nat>, done': set<nat>, world: map<nat, Kind>, h: nat)
    requires Sized(fs, a) && Known(fs, a, done, world) && h < |fs.cis| && done' == done + {h}
    ensures Known(fs, a, done', world)
  {
    forall g | 0 <= g < |fs.cis| ensures KnownInode(fs.cis[g], g, a.chunks[g], done', world) {
      assert KnownInode(fs.cis[g], g, a.chunks[g], done, world);
    }
  }

  /** open_dir on a fresh directory. */
  lemma {:induction false} OpenDirGood(fs: Fs, a: Abs, done: set<nat>, world: map<nat, Kind>, h: nat, parent: nat,
                                       entries: seq<Dirent>)
    returns (a': Abs, done': set<nat>)
    requires Walking(fs, a, done, world) && h < |fs.cis| && parent < |fs.cis| && h !in done
    requires fs.cis[h].inode.typ == TYPE_DIR && a.ents[h] == [] && CoherentAll(world, entries)
    ensures var r, b := OpenDir(fs, h, parent, entries), DirBudget(entries, Reals(fs.cis));
      && (r.Some? <==> b.ok && fs.nextIno + b.blocks <= fs.ninos)
      && (r.Some? ==> Opened(fs, a, done, r.value, a', done', world, h, parent, entries, b))
    decreases entries, 1
  {
    hide Walked, Walking, Reals, AddEntry, WithEntry, EntriesAt, AddAll, Added;
    a', done' := a, done;
    StandsStill(fs, a, done, world, h);
    EntryWalked(fs, a, done, world, h, h, DOT);
    var r1 := AddEntry(fs, h, h, DOT);
    if r1.Some? {
      var fs1, a1 := r1.value, WithEntry(fs, a, h, h, DOT);
      WalkedSized(fs, a, done, fs1, a1, done, world, h);
      EntryWalked(fs1, a1, done, world, h, parent, DOTDOT);
      var r2 := AddEntry(fs1, h, parent, DOTDOT);
      if r2.Some? {
        var fs2, a2 := r2.value, WithEntry(fs1, a1, h, parent, DOTDOT);
        WalkedTransitive(fs, a, done, fs1, a1, done, fs2, a2, done, world, h);
        WalkedSized(fs1, a1, done, fs2, a2, done, world, h);
        a', done' := AddAllGood(fs2, a2, done, world, h, entries);
        var r := AddAll(fs2, h, entries);
        if r.Some? {
          assert a2.ents[h] == [Entry(DOT, h), Entry(DOTDOT, parent)];
          forall g: nat ensures CountAll(a2.ents, g) == CountAll(a.ents, g) + CountIn(a2.ents[h], g) {
            EntryTally(fs, a, h, h, DOT, g);
            EntryTally(fs1, a1, h, parent, DOTDOT, g);
            CountTwo(Entry(DOT, h), Entry(DOTDOT, parent), g);
          }
          DirOpened(fs, a, done, fs2, a2, r.value, a', done', world, h, parent, entries,
              AllBudget(entries, 2, Reals(fs.cis)));
        }
      }
    }
  }

  lemma DirOpened(fs: Fs, a: Abs, done: set<nat>, fs2: Fs, a2: Abs, fs': Fs, a': Abs, done': set<nat>,
                  world: map<nat, Kind>, h: nat, parent: nat, entries: seq<Dirent>, b: Budget)
    requires Sized(fs, a) && h < |fs.cis| && Walked(fs, a, done, fs2, a2, done, world, h)
    requires Sized(fs2, a2) && h < |fs2.cis| && a2.ents[h] == [Entry(DOT, h), Entry(DOTDOT, parent)]
    requires Added(fs2, a2, done, fs', a', done', world, h, entries, b)
    requires fs2.nextIno == fs.nextIno + 2 && |fs2.cis| == |fs.cis| && fs.cis[h].inode.typ == TYPE_DIR
    requires forall g: nat :: CountAll(a2.ents, g) == CountAll(a.ents, g) + CountIn(a2.ents[h], g)
    ensures Opened(fs, a, done, fs', a', done', world, h, parent, entries,
                   Budget(b.ok, 2 + b.blocks, b.entries, b.seen))
  {
    hide Walking, Reals, EntriesAt, Frame;
    WalkedTransitive(fs, a, done, fs2, a2, done, fs', a', done', world, h);
    WalkedSized(fs, a, done, fs2, a2, done, world, h);
    WalkedSized(fs2, a2, done, fs', a', done', world, h);
    assert a2.ents[h] <= a'.ents[h];
    assert a'.ents[h][..2] == a2.ents[h];
    var part := a'.ents[h][2..];
    forall g: nat ensures Few(fs, fs', g, NamesTree(a'.ents, false, h, Dir(0, entries), g)) {
      assert Few(fs2, fs', g, NamesAll(a'.ents, false, part, entries, g));
    }
    assert Few(fs2, fs', h, NamesAll(a'.ents, false, part, entries, h));
  }

  /** The loop of open_dir. */
  lemma {:induction false} AddAllGood(fs: Fs, a: Abs, done: set<nat>, world: map<nat, Kind>, current: nat,
      entries: seq<Dirent>)
    returns (a': Abs, done': set<nat>)
    requires Walking(fs, a, done, world) && current < |fs.cis| && current !in done
    requires fs.cis[current].inode.typ == TYPE_DIR && CoherentAll(world, entries)
    ensures var r, b := AddAll(fs, current, entries), AllBudget(entries, |a.ents[current]|, Reals(fs.cis));
      && (r.Some? <==> b.ok && fs.nextIno + b.blocks <= fs.ninos)
      && (r.Some? ==> Added(fs, a, done, r.value, a', done', world, current, entries, b))
    decreases entries, 0
  {
    hide Walked, Walking, Reals, AddOne, OneBudget, EntriesAt, Coherent;
    a', done' := a, done;
    StandsStill(fs, a, done, world, current);
    if entries == [] {
      NoneAdded(fs, a, done, world, current);
    } else {
      var a1, done1 := AddOneGood(fs, a, done, world, current, entries[0]);
      var r1 := AddOne(fs, current, entries[0]);
      if r1.Some? {
        var fs1 := r1.value;
        WalkedSized(fs, a, done, fs1, a1, done1, world, current);
        a', done' := AddAllGood(fs1, a1, done1, world, current, entries[1..]);
        var r := AddAll(fs1, current, entries[1..]);
        if r.Some? {
          var b1 := OneBudget(entries[0], |a.ents[current]|, Reals(fs.cis));
          var b2 := AllBudget(entries[1..], b1.entries, b1.seen);
          AddedJoin(fs, a, done, fs1, a1, done1, r.value, a', done', world, current, entries, b1, b2);
        }
      }
    }
  }

  lemma NoneAdded(fs: Fs, a: Abs, done: set<nat>, world: map<nat, Kind>, current: nat)
    requires Sized(fs, a) && Walking(fs, a, done, world) && current < |fs.cis|
    ensures Added(fs, a, done, fs, a, done, world, current, [], Budget(true, 0, |a.ents[current]|, Reals(fs.cis)))
  {
    hide Good, Known, FilesDistinct, Reals;
  }

  lemma JoinSingle(fs: Fs, fs1: Fs, a1: Abs, done1: set<nat>, fs2: Fs, a2: Abs, done2: set<nat>,
                   current: nat, e1: seq<Entry>, e2: seq<Entry>, entries: seq<Dirent>)
    requires Sized(fs1, a1) && Sized(fs2, a2) && Later(fs1, a1, done1, fs2, a2, done2) && entries != []
    requires |fs.cis| <= |fs1.cis|
    requires EntriesAt(fs1, a1, done1, current, e1, [entries[0]])
    requires EntriesAt(fs2, a2, done2, current, e1, [entries[0]])
    requires EntriesAt(fs2, a2, done2, current, e2, entries[1..])
    requires Single(fs, fs1, a1, e1, [entries[0]]) && Single(fs1, fs2, a2, e2, entries[1..])
    ensures Single(fs, fs2, a2, e1 + e2, entries)
  {
    assert [entries[0]] + entries[1..] == entries;
    hide EntriesAt, NamesAll;
    forall g: nat ensures Few(fs, fs2, g, NamesAll(a2.ents, false, e1 + e2, entries, g)) {
      NamesStayAll(fs1, a1, done1, fs2, a2, done2, current, e1, [entries[0]], g, false);
      NamesJoin(fs2, a2, done2, current, e1, e2, entries[0], entries[1..], g, false);
      assert Few(fs, fs1, g, NamesAll(a1.ents, false, e1, [entries[0]], g));
      assert Few(fs1, fs2, g, NamesAll(a2.ents, false, e2, entries[1..], g));
      if g < |fs1.cis| {
        assert SameKind(fs1.cis[g], fs2.cis[g]);
      } else {
        NoneNamedAll(fs1, a1, done1, current, e1, [entries[0]], g);
      }
    }
  }

  lemma AddedJoin(fs: Fs, a: Abs, done: set<nat>, fs1: Fs, a1: Abs, done1: set<nat>, fs2: Fs, a2: Abs, done2: set<nat>,
                  world: map<nat, Kind>, current: nat, entries: seq<Dirent>, b1: Budget, b2: Budget)
    requires Sized(fs, a) && current < |fs.cis| && entries != [] && current !in done
    requires Added(fs, a, done, fs1, a1, done1, world, current, [entries[0]], b1)
    requires Sized(fs1, a1) && current < |fs1.cis| && current !in done1
    requires Added(fs1, a1, done1, fs2, a2, done2, world, current, entries[1..], b2)
    ensures Added(fs, a, done, fs2, a2, done2, world, current, entries,
                  Budget(b1.ok && b2.ok, b1.blocks + b2.blocks, b2.entries, b2.seen))
  {
    hide Walked, Walking, Reals, EntriesAt;
    WalkedTransitive(fs, a, done, fs1, a1, done1, fs2, a2, done2, world, current);
    WalkedSized(fs, a, done, fs1, a1, done1, world, current);
    WalkedSized(fs1, a1, done1, fs2, a2, done2, world, current);
    WalkedLater(fs1, a1, done1, fs2, a2, done2, world, current);
    var n := |a.ents[current]|;
    var e1, e2 := a1.ents[current][n..], a2.ents[current][|a1.ents[current]|..];
    EntriesStay(fs1, a1, done1, fs2, a2, done2, current, e1, [entries[0]]);
    EntriesJoin(fs2, a2, done2, current, e1, e2, entries[0], entries[1..]);
    assert [entries[0]] + entries[1..] == entries;
    assert a2.ents[current][n..] == e1 + e2;
    forall g: nat ensures CountAll(a2.ents, g) == CountAll(a.ents, g) + NamesAll(a2.ents, true, e1 + e2, entries, g) {
      NamesStayAll(fs1, a1, done1, fs2, a2, done2, current, e1, [entries[0]], g, true);
      NamesJoin(fs2, a2, done2, current, e1, e2, entries[0], entries[1..], g, true);
    }
    JoinSingle(fs, fs1, a1, done1, fs2, a2, done2, current, e1, e2, entries);
  }

  // ----- the whole tree -----

  ghost function RootAbs(): Abs
  {
    Abs([[]], [[]], [[]], [[]], map[BLKN_ROOT := InodeOwner(0)])
  }

  lemma CreateRep(imageSize: nat, info: seq<byte>)
    requires |info| == 32 && Create(imageSize, info).Some?
    ensures var fs := Create(imageSize, info).value;
      && Rep(fs, RootAbs()) && fs.nextIno == FirstIno(fs.ninos) && fs.cis[0].ino == BLKN_ROOT
      && fs.cis[0].inode == EmptyInode(TYPE_DIR) && fs.cis[0].realIno == 0
  {
    var fs, a := Create(imageSize, info).value, RootAbs();
    assert Hash(0) == 0;
    assert IndexOk(fs.cis[0], fs.cbs, a.idx[0], a.blks[0]);
    forall b | 0 <= b < HASH_LIST_SIZE ensures fs.inodeChains[b] == ChainOf(fs.cis, b) {
      assert fs.cis[..0] == [];
    }
    assert multiset(fs.log) == multiset(fs.disk.Keys);
  }

  lemma CreateWalking(imageSize: nat, info: seq<byte>, world: map<nat, Kind>)
    requires |info| == 32 && Create(imageSize, info).Some? && 0 !in world
    ensures var fs := Create(imageSize, info).value;
      && Walking(fs, RootAbs(), {}, world) && Reals(fs.cis) == {0}
      && fs.nextIno == FirstIno(fs.ninos) && fs.cis[0].inode.typ == TYPE_DIR && fs.cis[0].ino == BLKN_ROOT
  {
    hide Rep;
    CreateRep(imageSize, info);
    var fs, a := Create(imageSize, info).value, RootAbs();
    assert EntriesOf(fs.cis, 0, a.chunks[0], a.ents[0]);
    assert a.ents[..0] == [] && CountAll(a.ents, 0) == 0;
    assert KnownInode(fs.cis[0], 0, a.chunks[0], {}, world);
  }

  /** The builder's state when the whole tree is in it. */
  ghost predicate Complete(fs: Fs, a: Abs, done: set<nat>, entries: seq<Dirent>)
  {
    && Good(fs, a) && FilesDistinct(fs.cis)
    && |fs.cis| > 0 && fs.cis[0].ino == BLKN_ROOT
    && TreeAt(fs, a, done, 0, Dir(0, entries), 0)
    && (forall g: nat :: CountAll(a.ents, g) == NamesTree(a.ents, true, 0, Dir(0, entries), g))
    && (forall g: nat :: OnceNamed(fs, g, NamesTree(a.ents, false, 0, Dir(0, entries), g)))
  }

  /** An inode that is no regular file is named at most once, and the root not at all. */
  ghost predicate OnceNamed(fs: Fs, g: nat, names: nat)
  {
    g < |fs.cis| && fs.cis[g].inode.typ != TYPE_FILE ==> names <= if g == 0 then 0 else 1
  }

  /** Building fails exactly when the image is too small or the tree breaks a limit. */
  lemma BuildGood(imageSize: nat, info: seq<byte>, entries: seq<Dirent>, world: map<nat, Kind>)
    returns (a: Abs, done: set<nat>)
    requires |info| == 32 && CoherentAll(world, entries) && 0 !in world
    ensures var r, ninos, b := Build(imageSize, info, entries), ImageBlocks(imageSize), RootBudget(entries);
      && (r.Some? <==> FirstIno(ninos) < ninos && b.ok && FirstIno(ninos) + b.blocks <= ninos)
      && (r.Some? ==> Complete(r.value, a, done, entries) && r.value.ninos == ninos
                      && r.value.nextIno == FirstIno(ninos) + b.blocks && !r.value.searched)
  {
    a, done := RootAbs(), {};
    var created := Create(imageSize, info);
    if created.Some? {
      var fs := created.value;
      CreateWalking(imageSize, info, world);
      hide Walking, Walked, Create, AddAll, DirBudget, Reals, WellFormed;
      assert WellFormed(fs);
      a, done := OpenDirGood(fs, RootAbs(), {}, world, 0, 0, entries);
      var r := OpenDir(fs, 0, 0, entries);
      if r.Some? {
        var done' := done + {0};
        RootDone(fs, r.value, a, done, done', world, entries, DirBudget(entries, {0}));
        done := done';
      }
    }
  }

  lemma NeverSearched(fs: Fs, a: Abs)
    requires Good(fs, a)
    ensures !fs.searched
  {
  }

  lemma RootDone(fs: Fs, fs': Fs, a: Abs, done: set<nat>, done': set<nat>, world: map<nat, Kind>,
      entries: seq<Dirent>, b: Budget)
    requires |fs.cis| == 1 && fs.cis[0].ino == BLKN_ROOT && fs.cis[0].inode.typ == TYPE_DIR
    requires Sized(fs, RootAbs()) && Opened(fs, RootAbs(), {}, fs', a, done, world, 0, 0, entries, b)
    requires done' == done + {0}
    ensures Complete(fs', a, done', entries) && fs'.ninos == fs.ninos && !fs'.searched
  {
    hide Good, FilesDistinct, Reals, EntriesAt, Known;
    WalkedSized(fs, RootAbs(), {}, fs', a, done, world, 0);
    assert !fs'.searched by { NeverSearched(fs', a); }
    assert SameKind(fs.cis[0], fs'.cis[0]);
    assert Later(fs', a, done, fs', a, done');
    EntriesStay(fs', a, done, fs', a, done', 0, a.ents[0][2..], entries);
    forall g: nat ensures CountAll(a.ents, g) == NamesTree(a.ents, true, 0, Dir(0, entries), g) {
      EmptyTally(RootAbs().(ents := []), RootAbs(), g);
      assert CountAll([], g) == 0;
    }
    forall g: nat ensures OnceNamed(fs', g, NamesTree(a.ents, false, 0, Dir(0, entries), g)) {
      assert Few(fs, fs', g, NamesTree(a.ents, false, 0, Dir(0, entries), g));
    }
  }

  // ----- a block that a search would miss -----

  lemma {:induction false} FileChunksCount(content: seq<byte>)
    ensures |FileChunks(content)| == (|content| + BLKSIZE - 1) / BLKSIZE
    decreases |content|
  {
    if content != [] { FileChunksCount(content[Min(|content|, BLKSIZE)..]); }
  }

  lemma SmallHashes(n: nat)
    requires 1 <= n <= 20
    ensures Hash(n) != 0
  {
    assert Hash(1) != 0 && Hash(2) != 0 && Hash(3) != 0 && Hash(4) != 0 && Hash(5) != 0;
    assert Hash(6) != 0 && Hash(7) != 0 && Hash(8) != 0 && Hash(9) != 0 && Hash(10) != 0;
    assert Hash(11) != 0 && Hash(12) != 0 && Hash(13) != 0 && Hash(14) != 0 && Hash(15) != 0;
    assert Hash(16) != 0 && Hash(17) != 0 && Hash(18) != 0 && Hash(19) != 0 && Hash(20) != 0;
  }

  /** A directory with one file of thirteen blocks. */
  function OneFile(content: seq<byte>): seq<Dirent>
  {
    [Dirent([97], File(1, content))]
  }

  lemma OneFileBudget(content: seq<byte>)
    requires |content| == L0_NBLKS * BLKSIZE + 1
    ensures RootBudget(OneFile(content)).ok && RootBudget(OneFile(content)).blocks == 18
  {
    FileChunksCount(content);
    assert |FileChunks(content)| == 13 && ChunksCost(0, 13) == 14;
    var d := OneFile(content)[0];
    hide FileChunks, ChunksCost;
    var b := OneBudget(d, 2, {0});
    assert b.ok && b.blocks == 16;
    var rest := AllBudget([], b.entries, b.seen);
    assert OneFile(content)[1..] == [];
    assert AllBudget(OneFile(content), 2, {0}) == Budget(true, 16, rest.entries, rest.seen);
  }

  /** The file's index block is cached, and a search for its number finds nothing. */
  lemma SearchWouldMiss(info: seq<byte>, content: seq<byte>) returns (c: nat)
    requires |info| == 32 && |content| == L0_NBLKS * BLKSIZE + 1
    ensures var r := Build(21 * BLKSIZE, info, OneFile(content));
      && r.Some? && c < |r.value.cbs| && SearchCacheBlock(r.value, r.value.cbs[c].ino) == None
  {
    var entries := OneFile(content);
    var world := map[1 := KFile(content)];
    assert ImageBlocks(21 * BLKSIZE) == 21 && FirstIno(21) == 3;
    OneFileBudget(content);
    assert CoherentAll(world, entries) by { assert entries[1..] == []; }
    hide RootBudget, Build;
    var a, done := BuildGood(21 * BLKSIZE, info, entries, world);
    var fs := Build(21 * BLKSIZE, info, entries).value;
    c := IndexOfFile(fs, a, done, content);
    SmallHashes(fs.cbs[c].ino);
    hide Hash, SearchCacheBlock;
    SearchHits(fs, c);
  }

  lemma IndexOfFile(fs: Fs, a: Abs, done: set<nat>, content: seq<byte>) returns (c: nat)
    requires Complete(fs, a, done, OneFile(content)) && |content| == L0_NBLKS * BLKSIZE + 1 && fs.nextIno <= 21
    ensures FiledUnderZero(fs) && c < |fs.cbs| && 1 <= fs.cbs[c].ino <= 20
  {
    hide FileChunks, EntriesAt, TreeAt, NamesTree, CountAll, Entries, Links, OneFile, IndexOk;
    FileChunksCount(content);
    var h := ChildOfOneFile(fs, a, done, content);
    ChunkCount(fs, a, h);
    assert IndexOk(fs.cis[h], fs.cbs, a.idx[h], a.blks[h]);
    c := FirstIndex(fs, a, h);
  }

  lemma ChildOfOneFile(fs: Fs, a: Abs, done: set<nat>, content: seq<byte>) returns (h: nat)
    requires Sized(fs, a) && TreeAt(fs, a, done, 0, Dir(0, OneFile(content)), 0)
    ensures h < |fs.cis| && a.chunks[h] == FileChunks(content)
  {
    hide FileChunks;
    var ents := a.ents[0][2..];
    assert EntriesAt(fs, a, done, 0, ents, OneFile(content));
    h := ents[0].child;
    assert TreeAt(fs, a, done, h, OneFile(content)[0].node, 0);
  }

  lemma FirstIndex(fs: Fs, a: Abs, h: nat) returns (c: nat)
    requires Sized(fs, a) && Owned(fs, a) && h < |fs.cis| && |a.blks[h]| == 13 && fs.nextIno <= 21
    requires IndexOk(fs.cis[h], fs.cbs, a.idx[h], a.blks[h])
    ensures c < |fs.cbs| && 1 <= fs.cbs[c].ino <= 20
  {
    c := a.idx[h][0];
    assert fs.cbs[c].ino in a.owner;
  }
}
