/**
 What the builder accepts and what it lists, said of the host's tree alone.
 */
module SfsLimits {
  import opened Wrappers
  import opened SfsFormat
  import opened SfsModel
  import opened SfsRep
  import opened SfsTree
  import opened SfsWalk
  import opened SfsImage

  // ----- what is listed -----

  /** Names that start with a dot are not looked at. */
  predicate Dotted(name: Name)
  {
    name != [] && name[0] == '.' as int
  }

  /** Files, links and directories are entered, anything else is not. */
  predicate Listed(d: Dirent)
  {
    !Dotted(d.name) && (d.node.File? || d.node.Link? || d.node.Dir?)
  }

  /** The names of a directory as a reader finds them: what does not fit in 252 bytes is cut off. */
  function Listing(entries: seq<Dirent>): seq<Name>
  {
    if entries == [] then []
    else if Listed(entries[0]) then
      var name := entries[0].name;
      [if |name| <= 252 then name else name[..252]] + Listing(entries[1..])
    else Listing(entries[1..])
  }

  /** A shown directory lists its visible entries, in the order of the host. */
  lemma {:induction false} NamesListed(nodes: seq<NodeEntry>, entries: seq<Dirent>, dir: nat, files: map<nat, nat>)
    requires ShowsAll(nodes, entries, dir, files)
    ensures |nodes| == |Listing(entries)|
    ensures forall k :: 0 <= k < |nodes| ==> nodes[k].Sub? && nodes[k].name == Listing(entries)[k]
  {
    if entries == [] {
    } else if Listed(entries[0]) {
      NamesListed(nodes[1..], entries[1..], dir, files);
      hide Shows;
      forall k | 0 <= k < |nodes| ensures nodes[k].Sub? && nodes[k].name == Listing(entries)[k] {
        if k > 0 { assert nodes[k] == nodes[1..][k - 1]; }
      }
    } else {
      NamesListed(nodes, entries[1..], dir, files);
    }
  }

  // ----- what is accepted -----

  const FILE_LIMIT: nat := 128 * 1024 * 1024

  /** No name, content, target or directory is too long. */
  predicate Small(t: Host)
    decreases t, 1
  {
    match t
    case File(_, content) => |content| <= FILE_LIMIT
    case Link(_, target) => |target| < 4096
    case Dir(_, entries) => SmallAll(entries) && |Listing(entries)| <= 32766
    case Other => true
  }

  predicate SmallOne(d: Dirent)
    decreases d, 2
  {
    Dotted(d.name) || (|d.name| <= 255 && Small(d.node))
  }

  predicate SmallAll(entries: seq<Dirent>)
    decreases entries, 0
  {
    entries == [] || (SmallOne(entries[0]) && SmallAll(entries[1..]))
  }

  /** The host numbers of the directories at an entry and below, as often as they are entered. */
  function DirsOf(d: Dirent): seq<nat>
    decreases d, 1
  {
    if Listed(d) && d.node.Dir? then [d.node.realIno] + DirsOfAll(d.node.entries) else []
  }

  function DirsOfAll(entries: seq<Dirent>): seq<nat>
    decreases entries, 0
  {
    if entries == [] then [] else DirsOf(entries[0]) + DirsOfAll(entries[1..])
  }

  /** The host's tree breaks no limit and has no directory twice. */
  ghost predicate Acceptable(entries: seq<Dirent>)
  {
    SmallAll(entries) && |Listing(entries)| <= 32766 && NoRepeats(DirsOfAll(entries))
  }

  // ----- the budget accepts what is acceptable -----

  ghost predicate FilesFit(world: map<nat, Kind>, seen: set<nat>)
  {
    forall r :: r in seen && r in world && world[r].KFile? ==> |world[r].content| <= FILE_LIMIT
  }

  ghost predicate Apart(ds: seq<nat>, seen: set<nat>)
  {
    NoRepeats(ds) && forall i :: 0 <= i < |ds| ==> ds[i] !in seen
  }

  ghost predicate AllDirs(world: map<nat, Kind>, ds: seq<nat>)
  {
    forall i :: 0 <= i < |ds| ==> ds[i] in world && world[ds[i]].KDir?
  }

  /** Of the directories, exactly ds have been seen in addition. */
  ghost predicate SeenToo(world: map<nat, Kind>, seen: set<nat>, seen': set<nat>, ds: seq<nat>)
  {
    forall r :: r in world && world[r].KDir? ==> (r in seen' <==> r in seen || r in ds)
  }

  lemma ApartSplit(world: map<nat, Kind>, ds: seq<nat>, ds': seq<nat>, seen: set<nat>, seen1: set<nat>)
    requires AllDirs(world, ds) && AllDirs(world, ds') && SeenToo(world, seen, seen1, ds)
    ensures Apart(ds + ds', seen) <==> Apart(ds, seen) && Apart(ds', seen1)
  {
    var all := ds + ds';
    if Apart(ds, seen) && Apart(ds', seen1) {
      forall i, j | 0 <= i < j < |all| ensures all[i] != all[j] {
        if i < |ds| <= j { assert all[j] == ds'[j - |ds|]; }
      }
    }
    if Apart(all, seen) {
      assert forall i :: 0 <= i < |ds| ==> ds[i] == all[i];
      forall i | 0 <= i < |ds'| ensures ds'[i] == all[|ds| + i] && ds'[i] !in seen1 {
      }
    }
  }

  lemma SeenJoin(world: map<nat, Kind>, seen: set<nat>, seen1: set<nat>, seen2: set<nat>, ds: seq<nat>, ds': seq<nat>)
    requires SeenToo(world, seen, seen1, ds) && SeenToo(world, seen1, seen2, ds')
    ensures SeenToo(world, seen, seen2, ds + ds')
  {
  }

  lemma {:induction false} DirsInWorld(world: map<nat, Kind>, d: Dirent)
    requires Skipped(d) || Coherent(world, d.node)
    ensures AllDirs(world, DirsOf(d))
    decreases d, 1
  {
    if Listed(d) && d.node.Dir? { DirsInWorldAll(world, d.node.entries); }
  }

  lemma {:induction false} DirsInWorldAll(world: map<nat, Kind>, entries: seq<Dirent>)
    requires CoherentAll(world, entries)
    ensures AllDirs(world, DirsOfAll(entries))
    decreases entries, 0
  {
    if entries != [] {
      DirsInWorld(world, entries[0]);
      DirsInWorldAll(world, entries[1..]);
    }
  }

  /** What the budget says of an entry, and which host numbers have been seen behind it. */
  ghost predicate Agrees(world: map<nat, Kind>, b: Budget, n: nat, seen: set<nat>, small: bool, count: nat,
                         ds: seq<nat>)
  {
    && (b.ok <==> small && n + count <= LN_NBLKS && Apart(ds, seen))
    && (b.ok ==> b.entries == n + count && FilesFit(world, b.seen) && SeenToo(world, seen, b.seen, ds))
  }

  lemma FileSize(content: seq<byte>)
    ensures |FileChunks(content)| <= LN_NBLKS <==> |content| <= FILE_LIMIT
  {
    FileChunksCount(content);
  }

  lemma {:induction false} OneAgrees(world: map<nat, Kind>, d: Dirent, n: nat, seen: set<nat>)
    requires (Skipped(d) || Coherent(world, d.node)) && FilesFit(world, seen) && n <= LN_NBLKS
    ensures Agrees(world, OneBudget(d, n, seen), n, seen, SmallOne(d), if Listed(d) then 1 else 0, DirsOf(d))
    decreases d, 1
  {
    if Listed(d) && |d.name| <= MAX_FNAME_LEN {
      match d.node
      case Link(r, target) =>
      case File(r, content) => FileSize(content); hide FileChunks;
      case Dir(r, entries) =>
        AllAgrees(world, entries, 2, seen + {r});
        DirsInWorldAll(world, entries);
        assert SeenToo(world, seen, seen + {r}, [r]) && AllDirs(world, [r]);
        ApartSplit(world, [r], DirsOfAll(entries), seen, seen + {r});
        assert Apart([r], seen) <==> r !in seen by { assert [r][0] == r; }
        assert DirsOf(d) == [r] + DirsOfAll(entries);
        var below := AllBudget(entries, 2, seen + {r});
        if below.ok { SeenJoin(world, seen, seen + {r}, below.seen, [r], DirsOfAll(entries)); }
    }
  }

  lemma {:induction false} AllAgrees(world: map<nat, Kind>, entries: seq<Dirent>, n: nat, seen: set<nat>)
    requires CoherentAll(world, entries) && FilesFit(world, seen) && n <= LN_NBLKS
    ensures Agrees(world, AllBudget(entries, n, seen), n, seen, SmallAll(entries), |Listing(entries)|,
                   DirsOfAll(entries))
    decreases entries, 0
  {
    if entries != [] {
      var d, tail := entries[0], entries[1..];
      OneAgrees(world, d, n, seen);
      DirsInWorld(world, d);
      DirsInWorldAll(world, tail);
      var b := OneBudget(d, n, seen);
      if b.ok {
        AllAgrees(world, tail, b.entries, b.seen);
        ApartSplit(world, DirsOf(d), DirsOfAll(tail), seen, b.seen);
        var rest := AllBudget(tail, b.entries, b.seen);
        if rest.ok { SeenJoin(world, seen, b.seen, rest.seen, DirsOf(d), DirsOfAll(tail)); }
      } else {
        ApartFront(DirsOf(d), DirsOfAll(tail), seen);
      }
    }
  }

  lemma ApartFront(ds: seq<nat>, ds': seq<nat>, seen: set<nat>)
    ensures Apart(ds + ds', seen) ==> Apart(ds, seen)
  {
    assert forall i :: 0 <= i < |ds| ==> ds[i] == (ds + ds')[i];
  }

  /** Building succeeds exactly when the host's tree is acceptable and fits in the image file. */
  lemma BuildAccepts(imageSize: nat, info: seq<byte>, entries: seq<Dirent>, world: map<nat, Kind>)
    requires |info| == 32 && CoherentAll(world, entries) && 0 !in world
    ensures Build(imageSize, info, entries).Some? <==>
      var n := ImageBlocks(imageSize);
      FirstIno(n) < n && Acceptable(entries) && FirstIno(n) + RootBudget(entries).blocks <= n
  {
    hide Build, RootBudget, Acceptable, FirstIno, ImageBlocks;
    var a, done := BuildGood(imageSize, info, entries, world);
    AcceptedTrees(entries, world);
  }

  /** The tree breaks no limit of the builder exactly when the host's tree is acceptable. */
  lemma AcceptedTrees(entries: seq<Dirent>, world: map<nat, Kind>)
    requires CoherentAll(world, entries) && 0 !in world
    ensures RootBudget(entries).ok <==> Acceptable(entries)
  {
    AllAgrees(world, entries, 2, {0});
    DirsInWorldAll(world, entries);
    hide AllBudget, SmallAll, DirsOfAll;
  }
}
