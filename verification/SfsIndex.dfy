/**
 The block index of one cached inode: twelve direct pointers, one indirect block and one
 double-indirect block, built up by append_block through the cache pointers l1 and l2.
 */
module SfsIndex {
  import opened Wrappers
  import opened SfsFormat
  import opened SfsModel

  /** How many index blocks an inode with n blocks has: the indirect one, the double-indirect
      one, then one for every 1024 further blocks. */
  function IndexCount(n: nat): nat
  {
    if n <= L0_NBLKS then 0
    else if n <= L1_NBLKS then 1
    else 2 + (n - L1_NBLKS + NENTRY - 1) / NENTRY
  }

  /** Index blocks that the (n+1)st append allocates. */
  function NewIndexes(n: nat): (m: nat)
    ensures m == if n == L1_NBLKS then 2
                 else if n == L0_NBLKS || (n > L1_NBLKS && (n - L1_NBLKS) % NENTRY == 0) then 1
                 else 0
  {
    IndexCount(n + 1) - IndexCount(n)
  }

  /** Which index block holds position k, and where. */
  function IndexOf(k: nat): nat
  {
    if k < L1_NBLKS then 0 else 2 + (k - L1_NBLKS) / NENTRY
  }

  function SlotOf(k: nat): (s: nat)
    requires k >= L0_NBLKS
    ensures s < NENTRY
  {
    if k < L1_NBLKS then k - L0_NBLKS else (k - L1_NBLKS) % NENTRY
  }

  lemma IndexOfInRange(k: nat, n: nat)
    requires L0_NBLKS <= k < n
    ensures IndexOf(k) < IndexCount(n)
    ensures IndexOf(n - 1) == (if n <= L1_NBLKS then 0 else IndexCount(n) - 1)
  {
  }

  /** idx are the inode's index blocks in the order of allocation, blks its blocks. */
  ghost predicate IndexOk(ci: CacheInode, cbs: seq<CacheBlock>, idx: seq<nat>, blks: seq<nat>)
  {
    var n := |blks|;
    && ci.nblks == n <= LN_NBLKS
    && |idx| == IndexCount(n)
    && (forall i :: 0 <= i < |idx| ==> idx[i] < |cbs| && |cbs[idx[i]].data| == NENTRY && cbs[idx[i]].ino != 0)
    && (forall i, j :: 0 <= i < j < |idx| ==> idx[i] != idx[j])
    && Pointers(ci, cbs, idx, n)
    && (forall k :: 0 <= k < n ==> Holds(ci, cbs, idx, k, blks[k]))
  }

  /** The pointer to position k is x. */
  ghost predicate Holds(ci: CacheInode, cbs: seq<CacheBlock>, idx: seq<nat>, k: nat, x: nat)
  {
    if k < L0_NBLKS then k < |ci.inode.direct| && ci.inode.direct[k] == x
    else
      && IndexOf(k) < |idx| && idx[IndexOf(k)] < |cbs| && |cbs[idx[IndexOf(k)]].data| == NENTRY
      && cbs[idx[IndexOf(k)]].data[SlotOf(k)] == x
  }

  /** The inode and the double-indirect block name the index blocks, and the cache pointers
      are at the latest ones. */
  ghost predicate Pointers(ci: CacheInode, cbs: seq<CacheBlock>, idx: seq<nat>, n: nat)
    requires |idx| == IndexCount(n)
    requires forall i :: 0 <= i < |idx| ==> idx[i] < |cbs| && |cbs[idx[i]].data| == NENTRY
  {
    && |ci.inode.direct| == NDIRECT
    && ci.inode.indirect == (if n > L0_NBLKS then cbs[idx[0]].ino else 0)
    && ci.inode.dbIndirect == (if n > L1_NBLKS then cbs[idx[1]].ino else 0)
    && (n > L1_NBLKS ==> forall j :: 0 <= j < NENTRY ==>
          cbs[idx[1]].data[j] == if 2 + j < |idx| then cbs[idx[2 + j]].ino else 0)
    && ci.l1 == (if n > L0_NBLKS then Some(idx[|idx| - 1]) else None)
    && ci.l2 == (if n > L1_NBLKS then Some(idx[1]) else None)
  }

  /** A pointer cell that update_cache serves without a search. */
  ghost predicate Current(fs: Fs, cb: Option<nat>, ino: nat)
  {
    ino == 0 || (cb.Some? && cb.value < |fs.cbs| && fs.cbs[cb.value].ino == ino)
  }

  /** Handles of the m index blocks allocated next. */
  function Fresh(fs: Fs, m: nat): (r: seq<nat>)
    ensures |r| == m && forall j :: 0 <= j < m ==> r[j] == |fs.cbs| + j
  {
    seq(m, j requires 0 <= j => |fs.cbs| + j)
  }

  function Downto(n: nat): (r: seq<nat>)
    ensures |r| == n && forall i :: 0 <= i < n ==> r[i] == n - 1 - i
  {
    if n == 0 then [] else [n - 1] + Downto(n - 1)
  }

  /** Every cached index block is in the hash chain of number 0, latest first. */
  ghost predicate FiledUnderZero(fs: Fs)
  {
    && |fs.blockChains| == HASH_LIST_SIZE
    && fs.blockChains[0] == Downto(|fs.cbs|)
    && (forall b :: 1 <= b < HASH_LIST_SIZE ==> fs.blockChains[b] == [])
  }

  lemma {:induction false} FindsDown(cbs: seq<CacheBlock>, n: nat, c: nat)
    requires c < n <= |cbs|
    ensures FindBlock(cbs, Downto(n), cbs[c].ino).Some?
  {
    if c < n - 1 { FindsDown(cbs, n - 1, c); }
  }

  /** A search finds a cached index block by its number exactly when the number has the hash of 0:
      all of them are in the chain of 0, and any other number is looked for elsewhere. */
  lemma SearchHits(fs: Fs, c: nat)
    requires WellFormed(fs) && FiledUnderZero(fs) && c < |fs.cbs|
    ensures SearchCacheBlock(fs, fs.cbs[c].ino).Some? <==> Hash(fs.cbs[c].ino) == 0
  {
    hide Hash, WellFormed;
    if Hash(fs.cbs[c].ino) == 0 {
      FindsDown(fs.cbs, |fs.cbs|, c);
    } else {
      assert fs.blockChains[Hash(fs.cbs[c].ino)] == [];
    }
  }

  /** From fs to fs', inode h has taken m new index blocks; nothing but it and its index
      blocks idx has changed. */
  ghost predicate Grown(fs: Fs, fs': Fs, h: nat, idx: seq<nat>, m: nat)
  {
    && |fs.blockChains| == HASH_LIST_SIZE && |fs'.cis| == |fs.cis| && h < |fs.cis|
    && fs'.nextIno == fs.nextIno + m
    && |fs'.cbs| == |fs.cbs| + m
    && (forall c :: 0 <= c < |fs.cbs| ==> fs'.cbs[c].ino == fs.cbs[c].ino)
    && (forall c :: 0 <= c < |fs.cbs| && c !in idx ==> fs'.cbs[c] == fs.cbs[c])
    && (forall c :: |fs.cbs| <= c < |fs'.cbs| ==> fs'.cbs[c].ino == fs.nextIno + (c - |fs.cbs|))
    && (forall g :: 0 <= g < |fs.cis| && g != h ==> fs'.cis[g] == fs.cis[g])
    && fs'.cis[h].ino == fs.cis[h].ino && fs'.cis[h].realIno == fs.cis[h].realIno
    && fs'.cis[h].inode.typ == fs.cis[h].inode.typ && fs'.cis[h].inode.nlinks == fs.cis[h].inode.nlinks
    && (Conserved(fs) ==> Conserved(fs')) && (FiledUnderZero(fs) ==> FiledUnderZero(fs'))
    && fs' == fs.(nextIno := fs'.nextIno, unused := fs'.unused, cis := fs'.cis, cbs := fs'.cbs,
          blockChains := fs'.blockChains)
  }

  lemma AllocBlockGrows(fs: Fs)
    requires WellFormed(fs)
    ensures AllocCacheBlock(fs, 0).Some? <==> fs.nextIno < fs.ninos
    ensures AllocCacheBlock(fs, 0).Some? ==>
      var (fs', c) := AllocCacheBlock(fs, 0).value;
      && c == |fs.cbs| && fs'.cbs == fs.cbs + [CacheBlock(fs.nextIno, ZeroWords(NENTRY))]
      && fs'.nextIno == fs.nextIno + 1
      && (Conserved(fs) ==> Conserved(fs')) && (FiledUnderZero(fs) ==> FiledUnderZero(fs'))
      && fs' == fs.(nextIno := fs'.nextIno, unused := fs'.unused, cbs := fs'.cbs, blockChains := fs'.blockChains)
  {
    assert Hash(0) == 0;
  }

  lemma AppendDirect(fs: Fs, h: nat, ino: nat, idx: seq<nat>, blks: seq<nat>)
    requires WellFormed(fs) && h < |fs.cis| && IndexOk(fs.cis[h], fs.cbs, idx, blks) && |blks| < L0_NBLKS
    ensures var fs' := StoreDirect(fs, h, |blks|, ino);
      && Grown(fs, fs', h, idx, 0)
      && IndexOk(fs'.cis[h].(nblks := |blks| + 1), fs'.cbs, idx, blks + [ino])
  {
  }

  /** Positions 12 to 1035: the first of them allocates the indirect block. */
  lemma AppendIndirect(fs: Fs, h: nat, ino: nat, idx: seq<nat>, blks: seq<nat>) returns (idx': seq<nat>)
    requires WellFormed(fs) && h < |fs.cis| && IndexOk(fs.cis[h], fs.cbs, idx, blks)
    requires L0_NBLKS <= |blks| < L1_NBLKS && fs.nextIno > 0
    ensures Current(fs, fs.cis[h].l1, fs.cis[h].inode.indirect)
    ensures idx' == idx + Fresh(fs, NewIndexes(|blks|))
    ensures var r := StoreIndirect(fs, h, |blks| - L0_NBLKS, ino);
      && (r.Some? <==> fs.nextIno + NewIndexes(|blks|) <= fs.ninos || NewIndexes(|blks|) == 0)
      && (r.Some? ==>
            && Grown(fs, r.value, h, idx, NewIndexes(|blks|))
            && IndexOk(r.value.cis[h].(nblks := |blks| + 1), r.value.cbs, idx', blks + [ino]))
  {
    idx' := idx + Fresh(fs, NewIndexes(|blks|));
    hide Grown, WellFormed, StoreIndirect, IndexOk;
    if |blks| == L0_NBLKS {
      AppendFirstIndirect(fs, h, ino, idx, blks);
      assert idx' == idx + [|fs.cbs|];
    } else {
      AppendSameIndirect(fs, h, ino, idx, blks);
      assert idx' == idx;
    }
  }

  lemma AppendFirstIndirect(fs: Fs, h: nat, ino: nat, idx: seq<nat>, blks: seq<nat>)
    requires WellFormed(fs) && h < |fs.cis| && IndexOk(fs.cis[h], fs.cbs, idx, blks)
    requires |blks| == L0_NBLKS && fs.nextIno > 0
    ensures Current(fs, fs.cis[h].l1, fs.cis[h].inode.indirect)
    ensures var r := StoreIndirect(fs, h, 0, ino);
      && (r.Some? <==> fs.nextIno < fs.ninos)
      && (r.Some? ==>
            && Grown(fs, r.value, h, idx, 1)
            && IndexOk(r.value.cis[h].(nblks := |blks| + 1), r.value.cbs, idx + [|fs.cbs|], blks + [ino]))
  {
    StoreFirstIndirect(fs, h, 0, ino, idx);
    var r := StoreIndirect(fs, h, 0, ino);
    hide StoreIndirect, Grown, WellFormed;
    if r.Some? {
      var ci' := r.value.cis[h].(nblks := |blks| + 1);
      IndirectOk(fs.cis[h], fs.cbs, idx, blks, ino, ci', r.value.cbs, idx + [|fs.cbs|]);
    }
  }

  lemma AppendSameIndirect(fs: Fs, h: nat, ino: nat, idx: seq<nat>, blks: seq<nat>)
    requires WellFormed(fs) && h < |fs.cis| && IndexOk(fs.cis[h], fs.cbs, idx, blks)
    requires L0_NBLKS < |blks| < L1_NBLKS
    ensures Current(fs, fs.cis[h].l1, fs.cis[h].inode.indirect)
    ensures var r := StoreIndirect(fs, h, |blks| - L0_NBLKS, ino);
      && r.Some? && Grown(fs, r.value, h, idx, 0)
      && IndexOk(r.value.cis[h].(nblks := |blks| + 1), r.value.cbs, idx, blks + [ino])
  {
    assert idx[0] in idx;
    StoreSameIndirect(fs, h, |blks| - L0_NBLKS, ino, idx);
    var r := StoreIndirect(fs, h, |blks| - L0_NBLKS, ino);
    hide StoreIndirect, Grown, WellFormed;
    IndirectOk(fs.cis[h], fs.cbs, idx, blks, ino, r.value.cis[h].(nblks := |blks| + 1), r.value.cbs, idx);
  }

  /** Storing through an empty cell. */
  lemma StoreFirstIndirect(fs: Fs, h: nat, k: nat, ino: nat, idx: seq<nat>)
    requires WellFormed(fs) && h < |fs.cis| && k < NENTRY && fs.cis[h].inode.indirect == 0
    ensures var r, ci := StoreIndirect(fs, h, k, ino), fs.cis[h];
      && (r.Some? <==> fs.nextIno < fs.ninos)
      && (r.Some? ==>
            && Grown(fs, r.value, h, idx, 1)
            && r.value.cis[h] == ci.(l1 := Some(|fs.cbs|), inode := ci.inode.(indirect := fs.nextIno))
            && r.value.cbs == fs.cbs + [CacheBlock(fs.nextIno, ZeroWords(NENTRY)[k := ino])])
  {
    AllocBlockGrows(fs);
    if fs.nextIno < fs.ninos {
      var empty := CacheBlock(fs.nextIno, ZeroWords(NENTRY));
      assert (fs.cbs + [empty])[|fs.cbs| := empty.(data := empty.data[k := ino])]
          == fs.cbs + [empty.(data := empty.data[k := ino])];
    }
  }

  /** Storing through a current cell that is not empty. */
  lemma StoreSameIndirect(fs: Fs, h: nat, k: nat, ino: nat, idx: seq<nat>)
    requires WellFormed(fs) && h < |fs.cis| && k < NENTRY
    requires fs.cis[h].inode.indirect != 0 && Current(fs, fs.cis[h].l1, fs.cis[h].inode.indirect)
    requires fs.cis[h].l1.value in idx
    ensures var r, c := StoreIndirect(fs, h, k, ino), fs.cis[h].l1.value;
      && r.Some? && Grown(fs, r.value, h, idx, 0) && r.value.cis == fs.cis
      && r.value.cbs == fs.cbs[c := fs.cbs[c].(data := fs.cbs[c].data[k := ino])]
  {
    assert SetInode(fs, h, fs.cis[h]) == fs;
  }

  lemma IndirectOk(ci: CacheInode, cbs: seq<CacheBlock>, idx: seq<nat>, blks: seq<nat>, x: nat,
                   ci': CacheInode, cbs': seq<CacheBlock>, idx': seq<nat>)
    requires IndexOk(ci, cbs, idx, blks) && L0_NBLKS <= |blks| < L1_NBLKS
    requires |idx'| == 1 && idx <= idx' && idx'[0] < |cbs'| && (idx == [] || idx[0] < |cbs|)
    requires ci'.nblks == |blks| + 1 && ci'.inode.direct == ci.inode.direct
    requires ci'.inode.indirect == cbs'[idx'[0]].ino != 0 && ci'.inode.dbIndirect == ci.inode.dbIndirect
    requires ci'.l1 == Some(idx'[0]) && ci'.l2 == ci.l2
    requires |cbs'[idx'[0]].data| == NENTRY && cbs'[idx'[0]].data[|blks| - L0_NBLKS] == x
    requires idx != [] ==> cbs'[idx[0]].data == cbs[idx[0]].data[|blks| - L0_NBLKS := x]
    ensures IndexOk(ci', cbs', idx', blks + [x])
  {
    var n := |blks|;
    forall k | 0 <= k < n + 1 ensures Holds(ci', cbs', idx', k, (blks + [x])[k]) {
      if k < n { assert Holds(ci, cbs, idx, k, blks[k]); }
    }
  }

  /** Positions from 1036 on. */
  lemma AppendDouble(fs: Fs, h: nat, ino: nat, idx: seq<nat>, blks: seq<nat>) returns (idx': seq<nat>)
    requires WellFormed(fs) && h < |fs.cis| && IndexOk(fs.cis[h], fs.cbs, idx, blks)
    requires L1_NBLKS <= |blks| < LN_NBLKS && fs.nextIno > 0
    ensures Current(fs, fs.cis[h].l2, fs.cis[h].inode.dbIndirect)
    ensures |blks| > L1_NBLKS ==>
      Current(fs, fs.cis[h].l1, fs.cbs[fs.cis[h].l2.value].data[(|blks| - L1_NBLKS) / NENTRY])
    ensures idx' == idx + Fresh(fs, NewIndexes(|blks|))
    ensures var r := StoreDouble(fs, h, |blks| - L1_NBLKS, ino);
      && (r.Some? <==> fs.nextIno + NewIndexes(|blks|) <= fs.ninos || NewIndexes(|blks|) == 0)
      && (r.Some? ==>
            && Grown(fs, r.value, h, idx, NewIndexes(|blks|))
            && IndexOk(r.value.cis[h].(nblks := |blks| + 1), r.value.cbs, idx', blks + [ino]))
  {
    var n := |blks|;
    if n == L1_NBLKS {
      idx' := AppendFirstDouble(fs, h, ino, idx, blks);
    } else if (n - L1_NBLKS) % NENTRY == 0 {
      idx' := AppendNextDouble(fs, h, ino, idx, blks);
    } else {
      idx' := AppendSameDouble(fs, h, ino, idx, blks);
    }
  }

  /** Position 1036 allocates the double-indirect block and its first index block. */
  lemma AppendFirstDouble(fs: Fs, h: nat, ino: nat, idx: seq<nat>, blks: seq<nat>) returns (idx': seq<nat>)
    requires WellFormed(fs) && h < |fs.cis| && IndexOk(fs.cis[h], fs.cbs, idx, blks)
    requires L1_NBLKS == |blks| && fs.nextIno > 0
    ensures Current(fs, fs.cis[h].l2, fs.cis[h].inode.dbIndirect)
    ensures idx' == idx + Fresh(fs, 2)
    ensures var r := StoreDouble(fs, h, 0, ino);
      && (r.Some? <==> fs.nextIno + 2 <= fs.ninos)
      && (r.Some? ==>
            && Grown(fs, r.value, h, idx, 2)
            && IndexOk(r.value.cis[h].(nblks := |blks| + 1), r.value.cbs, idx', blks + [ino]))
  {
    var ci := fs.cis[h];
    idx' := idx + Fresh(fs, 2);
    assert idx' == idx + [|fs.cbs|, |fs.cbs| + 1];
    StoreFirstDouble(fs, h, ino, idx);
    var r := StoreDouble(fs, h, 0, ino);
    if r.Some? {
      FirstDoubleOk(ci, fs.cbs, idx, blks, fs.nextIno, ino, r.value.cis[h].(nblks := |blks| + 1), r.value.cbs);
    }
  }

  lemma StoreFirstDouble(fs: Fs, h: nat, ino: nat, idx: seq<nat>)
    requires WellFormed(fs) && h < |fs.cis| && fs.cis[h].inode.dbIndirect == 0 && fs.nextIno > 0
    ensures var r := StoreDouble(fs, h, 0, ino);
      && (r.Some? <==> fs.nextIno + 2 <= fs.ninos)
      && (r.Some? ==>
            && Grown(fs, r.value, h, idx, 2)
            && r.value.cis[h] == fs.cis[h].(l1 := Some(|fs.cbs| + 1), l2 := Some(|fs.cbs|),
                                            inode := fs.cis[h].inode.(dbIndirect := fs.nextIno))
            && r.value.cbs == fs.cbs + [CacheBlock(fs.nextIno, ZeroWords(NENTRY)[0 := fs.nextIno + 1]),
                                        CacheBlock(fs.nextIno + 1, ZeroWords(NENTRY)[0 := ino])])
  {
    var ci := fs.cis[h];
    AllocBlockGrows(fs);
    if fs.nextIno < fs.ninos {
      var (fs1, c2) := AllocCacheBlock(fs, 0).value;
      var fs2 := SetInode(fs1, h, ci.(l2 := Some(c2), inode := ci.inode.(dbIndirect := fs1.cbs[c2].ino)));
      assert Grown(fs, fs2, h, idx, 1);
      hide Grown, Conserved, FiledUnderZero;
      FirstThenNext(fs, fs2, h, ino);
      StoreNextDouble(fs2, h, 0, ino, idx + [c2]);
      var r := StoreDouble(fs2, h, 0, ino);
      if r.Some? {
        GrownTwice(fs, fs2, r.value, h, idx);
        var empty := CacheBlock(fs.nextIno, ZeroWords(NENTRY));
        SetThenAppend(fs.cbs, empty, empty.(data := empty.data[0 := fs.nextIno + 1]),
                      CacheBlock(fs.nextIno + 1, ZeroWords(NENTRY)[0 := ino]));
      }
    }
  }

  lemma SetThenAppend<T>(s: seq<T>, x: T, x': T, y: T)
    ensures (s + [x])[|s| := x'] + [y] == s + [x', y]
  {
  }

  /** Once the double-indirect block is there, its first cell is empty. */
  lemma FirstThenNext(fs: Fs, fs2: Fs, h: nat, ino: nat)
    requires WellFormed(fs) && h < |fs.cis| && fs.cis[h].inode.dbIndirect == 0 && 0 < fs.nextIno < fs.ninos
    requires var (fs1, c2) := AllocCacheBlock(fs, 0).value;
      fs2 == SetInode(fs1, h, fs.cis[h].(l2 := Some(c2), inode := fs.cis[h].inode.(dbIndirect := fs1.cbs[c2].ino)))
    ensures WellFormed(fs2)
    ensures StoreDouble(fs, h, 0, ino) == StoreDouble(fs2, h, 0, ino)
  {
    AllocBlockGrows(fs);
    assert SetInode(fs2, h, fs2.cis[h]) == fs2;
  }

  /** Storing through an empty cell of the double-indirect block. */
  lemma StoreNextDouble(fs: Fs, h: nat, k: nat, ino: nat, idx: seq<nat>)
    requires WellFormed(fs) && h < |fs.cis| && k < NENTRY * NENTRY
    requires var ci := fs.cis[h];
      && ci.inode.dbIndirect != 0 && Current(fs, ci.l2, ci.inode.dbIndirect)
      && ci.l2.value in idx && fs.cbs[ci.l2.value].data[k / NENTRY] == 0
    ensures var r, ci := StoreDouble(fs, h, k, ino), fs.cis[h];
      && (r.Some? <==> fs.nextIno + 1 <= fs.ninos)
      && (r.Some? ==>
            && Grown(fs, r.value, h, idx, 1)
            && r.value.cis[h] == ci.(l1 := Some(|fs.cbs|))
            && (var d := fs.cbs[ci.l2.value];
                r.value.cbs == fs.cbs[ci.l2.value := d.(data := d.data[k / NENTRY := fs.nextIno])]
                               + [CacheBlock(fs.nextIno, ZeroWords(NENTRY)[k % NENTRY := ino])]))
  {
    assert SetInode(fs, h, fs.cis[h]) == fs;
    AllocBlockGrows(fs);
  }

  lemma GrownTwice(fs: Fs, fs1: Fs, fs2: Fs, h: nat, idx: seq<nat>)
    requires Grown(fs, fs1, h, idx, 1) && Grown(fs1, fs2, h, idx + [|fs.cbs|], 1)
    ensures Grown(fs, fs2, h, idx, 2)
  {
  }

  lemma FirstDoubleOk(ci: CacheInode, cbs: seq<CacheBlock>, idx: seq<nat>, blks: seq<nat>, number: nat, x: nat,
                      ci': CacheInode, cbs': seq<CacheBlock>)
    requires IndexOk(ci, cbs, idx, blks) && |blks| == L1_NBLKS && number > 0
    requires ci' == ci.(nblks := |blks| + 1, l1 := Some(|cbs| + 1), l2 := Some(|cbs|),
                        inode := ci'.inode.(dbIndirect := number))
    requires ci'.inode.direct == ci.inode.direct && ci'.inode.indirect == ci.inode.indirect
    requires cbs' == cbs + [CacheBlock(number, ZeroWords(NENTRY)[0 := number + 1]),
                            CacheBlock(number + 1, ZeroWords(NENTRY)[0 := x])]
    ensures IndexOk(ci', cbs', idx + [|cbs|, |cbs| + 1], blks + [x])
  {
    var n, idx' := |blks|, idx + [|cbs|, |cbs| + 1];
    forall k | 0 <= k < n + 1 ensures Holds(ci', cbs', idx', k, (blks + [x])[k]) {
      if k < n { assert Holds(ci, cbs, idx, k, blks[k]); }
    }
  }

  /** Every 1024th position after it allocates the next index block. */
  lemma AppendNextDouble(fs: Fs, h: nat, ino: nat, idx: seq<nat>, blks: seq<nat>) returns (idx': seq<nat>)
    requires WellFormed(fs) && h < |fs.cis| && IndexOk(fs.cis[h], fs.cbs, idx, blks)
    requires L1_NBLKS < |blks| < LN_NBLKS && (|blks| - L1_NBLKS) % NENTRY == 0 && fs.nextIno > 0
    ensures Current(fs, fs.cis[h].l2, fs.cis[h].inode.dbIndirect)
    ensures fs.cbs[fs.cis[h].l2.value].data[(|blks| - L1_NBLKS) / NENTRY] == 0
    ensures idx' == idx + Fresh(fs, 1)
    ensures var r := StoreDouble(fs, h, |blks| - L1_NBLKS, ino);
      && (r.Some? <==> fs.nextIno + 1 <= fs.ninos)
      && (r.Some? ==>
            && Grown(fs, r.value, h, idx, 1)
            && IndexOk(r.value.cis[h].(nblks := |blks| + 1), r.value.cbs, idx', blks + [ino]))
  {
    hide StoreDouble, WellFormed;
    var n, ci := |blks|, fs.cis[h];
    idx' := idx + Fresh(fs, 1);
    assert idx' == idx + [|fs.cbs|];
    assert idx[1] in idx;
    StoreNextDouble(fs, h, n - L1_NBLKS, ino, idx);
    var r := StoreDouble(fs, h, n - L1_NBLKS, ino);
    if r.Some? {
      NextDoubleOk(ci, fs.cbs, idx, blks, fs.nextIno, ino, r.value.cis[h].(nblks := n + 1), r.value.cbs);
    }
  }

  lemma NextDoubleOk(ci: CacheInode, cbs: seq<CacheBlock>, idx: seq<nat>, blks: seq<nat>, number: nat, x: nat,
                     ci': CacheInode, cbs': seq<CacheBlock>)
    requires IndexOk(ci, cbs, idx, blks) && number > 0
    requires L1_NBLKS < |blks| < LN_NBLKS && (|blks| - L1_NBLKS) % NENTRY == 0
    requires ci' == ci.(nblks := |blks| + 1, l1 := Some(|cbs|), inode := ci'.inode)
    requires ci'.inode.direct == ci.inode.direct && ci'.inode.indirect == ci.inode.indirect
    requires ci'.inode.dbIndirect == ci.inode.dbIndirect
    requires var d := cbs[idx[1]];
      cbs' == cbs[idx[1] := d.(data := d.data[(|blks| - L1_NBLKS) / NENTRY := number])]
              + [CacheBlock(number, ZeroWords(NENTRY)[0 := x])]
    ensures IndexOk(ci', cbs', idx + [|cbs|], blks + [x])
  {
    var n, idx' := |blks|, idx + [|cbs|];
    forall k | 0 <= k < n + 1 ensures Holds(ci', cbs', idx', k, (blks + [x])[k]) {
      if k < n { KeptSlot(ci, cbs, idx, blks, ci', cbs', idx', k); }
    }
  }

  /** Writing to the double-indirect block moves no pointer. */
  lemma KeptSlot(ci: CacheInode, cbs: seq<CacheBlock>, idx: seq<nat>, blks: seq<nat>,
                 ci': CacheInode, cbs': seq<CacheBlock>, idx': seq<nat>, k: nat)
    requires IndexOk(ci, cbs, idx, blks) && k < |blks| && L1_NBLKS < |blks|
    requires idx <= idx' && |cbs| <= |cbs'| && ci'.inode.direct == ci.inode.direct
    requires forall c :: 0 <= c < |cbs| && c != idx[1] ==> cbs'[c] == cbs[c]
    ensures Holds(ci', cbs', idx', k, blks[k])
  {
    assert Holds(ci, cbs, idx, k, blks[k]);
    if k >= L0_NBLKS {
      IndexOfInRange(k, |blks|);
      assert IndexOf(k) != 1;
      assert idx[IndexOf(k)] != idx[1];
    }
  }

  /** Storing through current cells, neither of them empty. */
  lemma StoreSameDouble(fs: Fs, h: nat, k: nat, ino: nat, idx: seq<nat>)
    requires WellFormed(fs) && h < |fs.cis| && k < NENTRY * NENTRY
    requires var ci := fs.cis[h];
      && ci.inode.dbIndirect != 0 && Current(fs, ci.l2, ci.inode.dbIndirect)
      && fs.cbs[ci.l2.value].data[k / NENTRY] != 0
      && Current(fs, ci.l1, fs.cbs[ci.l2.value].data[k / NENTRY]) && ci.l1.value in idx
    ensures var r, c := StoreDouble(fs, h, k, ino), fs.cis[h].l1.value;
      && r.Some? && Grown(fs, r.value, h, idx, 0) && r.value.cis == fs.cis
      && r.value.cbs == fs.cbs[c := fs.cbs[c].(data := fs.cbs[c].data[k % NENTRY := ino])]
  {
    var ci := fs.cis[h];
    assert SetInode(fs, h, ci) == fs;
    var d := fs.cbs[ci.l2.value];
    assert d.(data := d.data[k / NENTRY := d.data[k / NENTRY]]) == d;
  }

  lemma SameDoubleOk(ci: CacheInode, cbs: seq<CacheBlock>, idx: seq<nat>, blks: seq<nat>, x: nat, cbs': seq<CacheBlock>)
    requires IndexOk(ci, cbs, idx, blks) && L1_NBLKS < |blks| < LN_NBLKS && (|blks| - L1_NBLKS) % NENTRY != 0
    requires var c := idx[|idx| - 1];
      cbs' == cbs[c := cbs[c].(data := cbs[c].data[(|blks| - L1_NBLKS) % NENTRY := x])]
    ensures IndexOk(ci.(nblks := |blks| + 1), cbs', idx, blks + [x])
  {
    var n, ci' := |blks|, ci.(nblks := |blks| + 1);
    forall k | 0 <= k < n + 1 ensures Holds(ci', cbs', idx, k, (blks + [x])[k]) {
      if k < n { assert Holds(ci, cbs, idx, k, blks[k]); }
    }
  }

  /** All other positions store into the latest index block. */
  lemma AppendSameDouble(fs: Fs, h: nat, ino: nat, idx: seq<nat>, blks: seq<nat>) returns (idx': seq<nat>)
    requires WellFormed(fs) && h < |fs.cis| && IndexOk(fs.cis[h], fs.cbs, idx, blks)
    requires L1_NBLKS < |blks| < LN_NBLKS && (|blks| - L1_NBLKS) % NENTRY != 0
    ensures Current(fs, fs.cis[h].l2, fs.cis[h].inode.dbIndirect)
    ensures Current(fs, fs.cis[h].l1, fs.cbs[fs.cis[h].l2.value].data[(|blks| - L1_NBLKS) / NENTRY])
    ensures idx' == idx
    ensures var r := StoreDouble(fs, h, |blks| - L1_NBLKS, ino);
      && r.Some?
      && Grown(fs, r.value, h, idx, 0)
      && IndexOk(r.value.cis[h].(nblks := |blks| + 1), r.value.cbs, idx', blks + [ino])
  {
    hide StoreDouble, WellFormed;
    var n, ci := |blks|, fs.cis[h];
    idx' := idx;
    assert fs.cbs[idx[1]].data[(n - L1_NBLKS) / NENTRY] == fs.cbs[idx[|idx| - 1]].ino;
    StoreSameDouble(fs, h, n - L1_NBLKS, ino, idx);
    SameDoubleOk(ci, fs.cbs, idx, blks, ino, StoreDouble(fs, h, n - L1_NBLKS, ino).value.cbs);
  }

  /** One call of append_block on an inode with blocks blks: it fails only for lack of room,
      never searches the hash chains, and enters ino behind blks. */
  lemma AppendBlockOk(fs: Fs, h: nat, size: nat, ino: nat, idx: seq<nat>, blks: seq<nat>) returns (idx': seq<nat>)
    requires WellFormed(fs) && h < |fs.cis| && IndexOk(fs.cis[h], fs.cbs, idx, blks)
    requires 0 < fs.nextIno <= fs.ninos
    ensures var r, n := AppendBlock(fs, h, size, ino), |blks|;
      && (r.Some? <==> size <= BLKSIZE && n < LN_NBLKS && fs.nextIno + NewIndexes(n) <= fs.ninos)
      && (r.Some? ==>
            && idx' == idx + Fresh(fs, NewIndexes(n))
            && Grown(fs, r.value, h, idx, NewIndexes(n))
            && IndexOk(r.value.cis[h], r.value.cbs, idx', blks + [ino])
            && Counted(fs.cis[h], r.value.cis[h], size))
  {
    hide Stored, WellFormed, Grown, Grow, Counted, NewIndexes;
    var n := |blks|;
    idx' := idx + Fresh(fs, NewIndexes(n));
    if size <= BLKSIZE && n < LN_NBLKS {
      var r := Stored(fs, h, n, ino);
      StoreOk(fs, h, ino, idx, blks);
      if r.Some? { GrowOk(fs, r.value, h, size, idx, idx', blks + [ino]); }
    }
  }

  /** The calls of update_cache that the append at position n makes, also one that follows another,
      are for current cells: none of them searches. */
  ghost predicate NextCurrent(fs: Fs, h: nat, n: nat)
    requires WellFormed(fs) && h < |fs.cis| && n < LN_NBLKS
  {
    var ci := fs.cis[h];
    if n < L0_NBLKS then true
    else if n < L1_NBLKS then Current(fs, ci.l1, ci.inode.indirect)
    else
      && Current(fs, ci.l2, ci.inode.dbIndirect)
      && (var first := UpdateCache(fs, ci.l2, ci.inode.dbIndirect);
          first.Some? ==>
            var (fs1, c2) := first.value;
            Current(fs1, ci.l1, fs1.cbs[c2].data[(n - L1_NBLKS) / NENTRY]))
  }

  lemma NextIsCurrent(fs: Fs, h: nat, idx: seq<nat>, blks: seq<nat>)
    requires WellFormed(fs) && h < |fs.cis| && IndexOk(fs.cis[h], fs.cbs, idx, blks) && |blks| < LN_NBLKS
    ensures NextCurrent(fs, h, |blks|)
  {
    var n := |blks|;
    if L1_NBLKS < n {
      var j := (n - L1_NBLKS) / NENTRY;
      if (n - L1_NBLKS) % NENTRY != 0 { assert 2 + j == |idx| - 1; }
    } else if L1_NBLKS == n {
      AllocBlockGrows(fs);
    }
  }

  /** One more block, size more bytes. */
  ghost predicate Counted(ci: CacheInode, ci': CacheInode, size: nat)
  {
    && ci'.inode.size == (ci.inode.size + size) % U32
    && ci'.inode.blocks == (ci.inode.blocks + 1) % U32
  }

  ghost predicate SameCounters(ci: CacheInode, ci': CacheInode)
  {
    ci'.nblks == ci.nblks && ci'.inode.size == ci.inode.size && ci'.inode.blocks == ci.inode.blocks
  }

  lemma StoredCounters(fs: Fs, h: nat, n: nat, ino: nat)
    requires WellFormed(fs) && h < |fs.cis| && n < LN_NBLKS && Stored(fs, h, n, ino).Some?
    ensures SameCounters(fs.cis[h], Stored(fs, h, n, ino).value.cis[h])
  {
    hide WellFormed, AllocCacheBlock, SearchCacheBlock;
  }

  lemma NoneFresh(fs: Fs, idx: seq<nat>)
    ensures idx + Fresh(fs, 0) == idx
  {
  }

  lemma StoreOk(fs: Fs, h: nat, ino: nat, idx: seq<nat>, blks: seq<nat>)
    requires WellFormed(fs) && h < |fs.cis| && IndexOk(fs.cis[h], fs.cbs, idx, blks)
    requires 0 < fs.nextIno <= fs.ninos && |blks| < LN_NBLKS
    ensures var r, n := Stored(fs, h, |blks|, ino), |blks|;
      && (r.Some? <==> fs.nextIno + NewIndexes(n) <= fs.ninos)
      && (r.Some? ==>
            && Grown(fs, r.value, h, idx, NewIndexes(n)) && SameCounters(fs.cis[h], r.value.cis[h])
            && IndexOk(r.value.cis[h].(nblks := n + 1), r.value.cbs, idx + Fresh(fs, NewIndexes(n)), blks + [ino]))
  {
    hide Grown, IndexOk, SameCounters, StoreDirect, StoreIndirect, StoreDouble, Fresh, WellFormed;
    var n := |blks|;
    if Stored(fs, h, n, ino).Some? { StoredCounters(fs, h, n, ino); }
    if n < L0_NBLKS {
      AppendDirect(fs, h, ino, idx, blks);
      NoneFresh(fs, idx);
    } else if n < L1_NBLKS {
      var idx' := AppendIndirect(fs, h, ino, idx, blks);
    } else {
      var idx' := AppendDouble(fs, h, ino, idx, blks);
    }
  }

  lemma GrowOk(fs: Fs, fs1: Fs, h: nat, size: nat, idx: seq<nat>, idx': seq<nat>, blks: seq<nat>)
    requires WellFormed(fs1) && h < |fs1.cis| && blks != [] && |idx| <= |idx'|
    requires Grown(fs, fs1, h, idx, |idx'| - |idx|) && IndexOk(fs1.cis[h].(nblks := |blks|), fs1.cbs, idx', blks)
    requires fs1.cis[h].nblks == |blks| - 1 && SameCounters(fs.cis[h], fs1.cis[h])
    ensures var fs2 := Grow(fs1, h, size);
      && Grown(fs, fs2, h, idx, |idx'| - |idx|)
      && IndexOk(fs2.cis[h], fs2.cbs, idx', blks)
      && Counted(fs.cis[h], fs2.cis[h], size)
  {
    var ci := Grow(fs1, h, size).cis[h];
    forall k | 0 <= k < |blks| ensures Holds(ci, fs1.cbs, idx', k, blks[k]) {
      assert Holds(fs1.cis[h].(nblks := |blks|), fs1.cbs, idx', k, blks[k]);
    }
  }
}
