// What newfs_drop_inode (fs/newfs/src/newfs_utils.c:367-417) does to the
// in-memory tree and to the inode bitmap, on heap values: the chain of every
// directory of the dropped subtree ends up empty, and the bit of every inode
// number of the subtree is cleared.  The dentries and inodes themselves are
// freed in the source; here they stay in the arena, unreachable.

module Drop {
  import opened Types
  import opened Tree
  import opened Bitmap

  // ---------------------------------------------------------------------
  // The subtree's inode numbers and directories
  // ---------------------------------------------------------------------

  /** The inode numbers (the `ino` fields) of the inodes `S`. */
  ghost function Inos(h: Heap, S: set<InodeId>): set<int>
  {
    set w | w in S && w in h.ins :: h.ins[w].ino
  }

  /** The directories among the inodes `S`, as NEWFS_IS_DIR decides it. */
  ghost function DirsOf(h: Heap, S: set<InodeId>): set<InodeId>
  {
    set w | w in S && w in h.ins && h.ins[w].dentry in h.ds && h.ds[h.ins[w].dentry].ftype == Dir
  }

  lemma InosUnion(h: Heap, A: set<InodeId>, B: set<InodeId>)
    ensures Inos(h, A + B) == Inos(h, A) + Inos(h, B)
  {
  }

  lemma DirsOfUnion(h: Heap, A: set<InodeId>, B: set<InodeId>)
    ensures DirsOf(h, A + B) == DirsOf(h, A) + DirsOf(h, B)
  {
  }

  /** Two heaps with the same dentries, and inodes with the same numbers,
      sizes and dentries, under the same ranks: only chains and owners may
      differ. */
  ghost predicate SameNodes(h: Heap, h': Heap)
  {
    && h'.ds == h.ds && h'.rank == h.rank && h'.lo == h.lo
    && (forall w :: w in h'.ins <==> w in h.ins)
    && (forall w :: w in h.ins ==>
          h'.ins[w].ino == h.ins[w].ino && h'.ins[w].size == h.ins[w].size && h'.ins[w].dentry == h.ins[w].dentry)
  }

  lemma SameNodesSets(h: Heap, h': Heap, S: set<InodeId>)
    requires SameNodes(h, h')
    ensures Inos(h', S) == Inos(h, S) && DirsOf(h', S) == DirsOf(h, S)
  {
    assert forall w :: w in S && w in h'.ins ==> h'.ins[w].ino == h.ins[w].ino;
  }

  // ---------------------------------------------------------------------
  // Emptying chains
  // ---------------------------------------------------------------------

  /** `h` with the chains of the inodes `E` emptied: no dentrys, a dir_cnt
      of 0, and their former dentries owned by nobody. */
  ghost function Emptied(h: Heap, E: set<InodeId>): Heap
  {
    h.(ins := map w | w in h.ins :: if w in E then h.ins[w].(dentrys := None, dirCnt := 0) else h.ins[w],
       chain := map w | w in h.chain :: if w in E then [] else h.chain[w],
       owner := map d | d in h.owner && h.owner[d] !in E :: h.owner[d])
  }

  lemma EmptiedSame(h: Heap, E: set<InodeId>)
    ensures SameNodes(h, Emptied(h, E))
  {
  }

  /** Emptying the chains of any inodes keeps the tree well formed. */
  lemma EmptiedOk(h: Heap, E: set<InodeId>)
    requires HeapOk(h)
    ensures HeapOk(Emptied(h, E))
  {
    EmptiedChains(h, E);
    EmptiedOwners(h, E);
  }

  lemma EmptiedChains(h: Heap, E: set<InodeId>)
    requires ChainsOk(h)
    ensures ChainsOk(Emptied(h, E))
  {
    var h' := Emptied(h, E);
    forall i | i in h'.ins
      ensures i in h'.chain && Linked(h'.ds, h'.ins[i].dentrys, h'.chain[i]) && h'.ins[i].dirCnt == |h'.chain[i]|
    {
    }
  }

  lemma EmptiedOwners(h: Heap, E: set<InodeId>)
    requires ChainsOk(h) && OwnersOk(h)
    ensures OwnersOk(Emptied(h, E))
  {
    var h' := Emptied(h, E);
    forall i, k | i in h'.ins && i in h'.chain && 0 <= k < |h'.chain[i]|
      ensures h'.chain[i][k] in h'.owner && h'.owner[h'.chain[i][k]] == i
    {
      assert h.chain[i][k] in h.owner;
    }
  }

  lemma EmptiedNothing(h: Heap)
    ensures Emptied(h, {}) == h
  {
    var h' := Emptied(h, {});
    assert h'.ins == h.ins && h'.chain == h.chain && h'.owner == h.owner;
  }

  lemma EmptiedTwice(h: Heap, A: set<InodeId>, B: set<InodeId>)
    ensures Emptied(Emptied(h, A), B) == Emptied(h, A + B)
  {
    var l, r := Emptied(Emptied(h, A), B), Emptied(h, A + B);
    assert l.ins == r.ins;
    assert l.chain == r.chain;
    assert l.owner == r.owner;
  }

  // ---------------------------------------------------------------------
  // Cutting the head of a chain
  // ---------------------------------------------------------------------

  /** `h` after the first `k` dentries of the chain of `i` were dropped from
      its head by newfs_drop_dentry, one at a time. */
  ghost function Cut(h: Heap, i: InodeId, k: int): Heap
    requires i in h.ins && i in h.chain && 0 <= k <= |h.chain[i]|
  {
    var c := h.chain[i];
    h.(ins := h.ins[i := h.ins[i].(dentrys := if k < |c| then Some(c[k]) else None, dirCnt := h.ins[i].dirCnt - k)],
       chain := h.chain[i := c[k..]],
       owner := map d | d in h.owner && d !in c[..k] :: h.owner[d])
  }

  lemma CutSame(h: Heap, i: InodeId, k: int)
    requires i in h.ins && i in h.chain && 0 <= k <= |h.chain[i]|
    ensures SameNodes(h, Cut(h, i, k))
  {
  }

  /** Nothing cut is the chain as it was. */
  lemma CutNothing(h: Heap, i: InodeId)
    requires HeapOk(h) && i in h.ins
    ensures Cut(h, i, 0) == h
  {
    var h' := Cut(h, i, 0);
    assert h.chain[i][0..] == h.chain[i];
    assert h'.ins[i] == h.ins[i];
    assert h'.ins == h.ins;
    assert h'.owner == h.owner;
  }

  /** Every dentry cut is the chain emptied. */
  lemma CutEverything(h: Heap, i: InodeId)
    requires HeapOk(h) && i in h.ins
    ensures Cut(h, i, |h.chain[i]|) == Emptied(h, {i})
  {
    var c := h.chain[i];
    forall d | d in h.owner
      ensures d in c <==> h.owner[d] == i
    {
      if d in c {
        var k :| 0 <= k < |c| && c[k] == d;
        assert h.owner[c[k]] == i;
      }
    }
    CutAll(h, i);
  }

  /** Cutting a whole chain, given that it holds exactly the dentries `i`
      owns and is dir_cnt long. */
  lemma CutAll(h: Heap, i: InodeId)
    requires i in h.ins && i in h.chain && h.ins[i].dirCnt == |h.chain[i]|
    requires forall d :: d in h.owner ==> (d in h.chain[i] <==> h.owner[d] == i)
    ensures Cut(h, i, |h.chain[i]|) == Emptied(h, {i})
  {
    var c := h.chain[i];
    var l, r := Cut(h, i, |c|), Emptied(h, {i});
    assert c[..|c|] == c && c[|c|..] == [];
    assert l.owner == r.owner;
    assert l.ins == r.ins;
    assert l.chain == r.chain;
  }

  /** newfs_drop_dentry of the head of what is left of the chain cuts one
      more dentry. */
  lemma CutNext(g: Heap, i: InodeId, k: int)
    requires i in g.ins && i in g.chain && 0 <= k < |g.chain[i]|
    requires Linked(g.ds, g.ins[i].dentrys, g.chain[i])
    ensures Cut(g, i, k).chain[i] == g.chain[i][k..]
    ensures RemoveAt(Cut(g, i, k), i, 0) == Cut(g, i, k + 1)
  {
    var c := g.chain[i];
    LinkedAt(g.ds, g.ins[i].dentrys, c, k);
    var l, r := RemoveAt(Cut(g, i, k), i, 0), Cut(g, i, k + 1);
    assert c[..k + 1] == c[..k] + [c[k]];
    assert c[k..][..0] + c[k..][1..] == c[k + 1..];
    assert l.ins[i] == r.ins[i];
    assert l.ins == r.ins;
    assert l.chain == r.chain;
    assert l.owner == r.owner;
  }

  lemma LinkedIn(ds: map<DentryId, Dentry>, head: Option<DentryId>, c: seq<DentryId>, k: int)
    requires Linked(ds, head, c) && 0 <= k <= |c|
    ensures forall m :: 0 <= m < |c[k..]| ==> c[k..][m] in ds
  {
    forall m | 0 <= m < |c[k..]|
      ensures c[k..][m] in ds
    {
      assert c[k..][m] == c[k + m];
    }
  }

  /** Emptying chains other than `i`'s commutes with cutting `i`'s. */
  lemma CutEmptied(g: Heap, F: set<InodeId>, i: InodeId, k: int)
    requires i in g.ins && i in g.chain && 0 <= k <= |g.chain[i]| && i !in F
    ensures Emptied(Cut(g, i, k), F) == Cut(Emptied(g, F), i, k)
  {
    var l, r := Emptied(Cut(g, i, k), F), Cut(Emptied(g, F), i, k);
    assert Emptied(g, F).chain[i] == g.chain[i];
    assert l.ins == r.ins;
    assert l.chain == r.chain;
    assert l.owner == r.owner;
  }

  // ---------------------------------------------------------------------
  // The loop of newfs_drop_inode over a directory's chain
  // ---------------------------------------------------------------------

  lemma {:induction false} DescUpToExcludes(h: Heap, i: InodeId, m: int)
    requires HeapOk(h) && i in h.ins && 0 <= m <= |h.chain[i]|
    ensures i !in DescUpTo(h, i, m)
  {
    if m > 0 {
      DescUpToExcludes(h, i, m - 1);
      ChildDescExcludes(h, i, m - 1);
    }
  }

  /** The state after `k` turns of the loop over the chain of `i`: the
      subtrees below the first `k` dentries are dropped, and those dentries
      are cut from the chain. */
  ghost predicate DropAt(h0: Heap, h: Heap, i: InodeId, k: int)
    requires HeapOk(h0) && i in h0.ins
  {
    && 0 <= k <= |h0.chain[i]| && i !in DescUpTo(h0, i, k)
    && h == Cut(Emptied(h0, DirsOf(h0, DescUpTo(h0, i, k))), i, k)
  }

  lemma DropStart(h0: Heap, i: InodeId)
    requires HeapOk(h0) && i in h0.ins
    ensures DropAt(h0, h0, i, 0)
  {
    assert DirsOf(h0, DescUpTo(h0, i, 0)) == {};
    EmptiedNothing(h0);
    CutNothing(h0, i);
  }

  /** Emptying chains other than those of `w` and `i`, and cutting that of
      `i`, leaves `w` as it was. */
  lemma DropKeeps(h: Heap, E: set<InodeId>, i: InodeId, k: int, w: InodeId)
    requires i in h.ins && i in h.chain && i !in E && 0 <= k <= |h.chain[i]|
    requires w in h.ins && w in h.chain && w !in E && w != i
    ensures var h' := Cut(Emptied(h, E), i, k);
      && w in h'.ins && h'.ins[w] == h.ins[w] && w in h'.chain && h'.chain[w] == h.chain[w]
  {
  }

  /** The subtree below dentry `k` is untouched by the turns before it. */
  lemma ChildFrame(h0: Heap, hk: Heap, i: InodeId, k: int)
    requires HeapOk(h0) && i in h0.ins && HeapOk(hk) && DropAt(h0, hk, i, k) && k < |h0.chain[i]|
    requires h0.ds[h0.chain[i][k]].inode.Some?
    ensures var y := h0.ds[h0.chain[i][k]].inode.value;
      && y in h0.ins && y in hk.ins && Desc(hk, y) == Desc(h0, y) == ChildDesc(h0, i, k)
      && forall w :: w in Desc(h0, y) ==> w in h0.ins && w in hk.ins && hk.chain[w] == h0.chain[w]
  {
    var c := h0.chain[i];
    var E := DirsOf(h0, DescUpTo(h0, i, k));
    var y := h0.ds[c[k]].inode.value;
    assert h0.owner[c[k]] == i;
    EmptiedSame(h0, E);
    CutSame(Emptied(h0, E), i, k);
    DescUpToDisjoint(h0, i, k, k);
    ChildDescExcludes(h0, i, k);
    forall w | w in Desc(h0, y)
      ensures w in h0.ins && w in hk.ins && hk.ins[w] == h0.ins[w] && hk.chain[w] == h0.chain[w] && hk.rank[w] == h0.rank[w]
    {
      DescRank(h0, y, w);
      DropKeeps(h0, E, i, k, w);
    }
    DescFrame(h0, hk, y);
  }

  /** What the turn at dentry `k` finds: the dentry, still at the head of
      the chain, has an inode `y` ranking below `i` that is not the root's,
      whose subtree is hydrated and is the one below that dentry at the
      start of the loop. */
  lemma ChildReady(h0: Heap, hk: Heap, i: InodeId, k: int, root: DentryId)
    requires HeapOk(h0) && i in h0.ins && IsDir(h0, i) && Hydrated(h0, i)
    requires HeapOk(hk) && DropAt(h0, hk, i, k) && k < |h0.chain[i]|
    requires root in hk.ds && root !in hk.owner
    ensures i in hk.ins && i in hk.chain && hk.chain[i] == h0.chain[i][k..]
    ensures h0.chain[i][k] in hk.ds && hk.ds[h0.chain[i][k]].inode.Some?
    ensures var y := hk.ds[h0.chain[i][k]].inode.value;
      && y in hk.ins && y in hk.rank && i in hk.rank && hk.rank[y] < hk.rank[i]
      && hk.ds[root].inode != Some(y)
      && Hydrated(hk, y)
      && Desc(hk, y) == ChildDesc(h0, i, k)
      && DirsOf(hk, Desc(hk, y)) == DirsOf(h0, ChildDesc(h0, i, k))
      && Inos(hk, Desc(hk, y)) == Inos(h0, ChildDesc(h0, i, k))
      && i !in DirsOf(h0, ChildDesc(h0, i, k))
  {
    var c := h0.chain[i];
    var E := DirsOf(h0, DescUpTo(h0, i, k));
    EmptiedSame(h0, E);
    CutSame(Emptied(h0, E), i, k);
    var d := c[k];
    assert d in h0.ds && h0.owner[d] == i;
    assert i in Desc(h0, i);
    var y := h0.ds[d].inode.value;
    assert d !in c[..k];
    assert d in hk.owner;
    assert h0.ins[y].dentry == d;
    ChildFrame(h0, hk, i, k);
    ChildDescExcludes(h0, i, k);
    ChildDescSub(h0, i, k);
    SameNodesSets(h0, hk, ChildDesc(h0, i, k));
    ChildHydrated(h0, hk, i, y);
  }

  /** A subtree within a hydrated one, with the same dentries and chains, is
      hydrated. */
  lemma ChildHydrated(h0: Heap, hk: Heap, i: InodeId, y: InodeId)
    requires HeapOk(h0) && HeapOk(hk) && i in h0.ins && y in h0.ins && y in hk.ins && Hydrated(h0, i)
    requires hk.ds == h0.ds && Desc(hk, y) == Desc(h0, y) && Desc(h0, y) <= Desc(h0, i)
    requires forall w :: w in Desc(h0, y) ==> w in h0.ins && w in hk.ins && hk.chain[w] == h0.chain[w] && hk.ins[w].dentry == h0.ins[w].dentry
    ensures Hydrated(hk, y)
  {
    forall w | w in Desc(hk, y) && w in hk.ins && IsDir(hk, w)
      ensures forall m :: 0 <= m < |hk.chain[w]| ==> hk.ds[hk.chain[w][m]].inode.Some?
    {
      assert w in Desc(h0, y) && w in Desc(h0, i) && IsDir(h0, w);
      assert hk.chain[w] == h0.chain[w];
    }
  }

  /** The turn at dentry `k`, newfs_drop_inode of its inode and then
      newfs_drop_dentry of it, leads to the state after `k + 1` turns. */
  lemma ChildDropped(h0: Heap, hk: Heap, h1: Heap, h2: Heap, i: InodeId, k: int)
    requires HeapOk(h0) && i in h0.ins && DropAt(h0, hk, i, k) && k < |h0.chain[i]|
    requires i !in DirsOf(h0, ChildDesc(h0, i, k))
    requires h1 == Emptied(hk, DirsOf(h0, ChildDesc(h0, i, k)))
    requires i in h1.ins && i in h1.chain && 0 < |h1.chain[i]|
    requires forall m :: 0 <= m < |h1.chain[i]| ==> h1.chain[i][m] in h1.ds
    requires h2 == RemoveAt(h1, i, 0)
    ensures DropAt(h0, h2, i, k + 1)
  {
    DescUpToNext(h0, i, k);
    DescUpToExcludes(h0, i, k + 1);
    StepChain(h0, DirsOf(h0, DescUpTo(h0, i, k)), DirsOf(h0, ChildDesc(h0, i, k)), i, k);
  }

  lemma StepChain(h0: Heap, E: set<InodeId>, F: set<InodeId>, i: InodeId, k: int)
    requires HeapOk(h0) && i in h0.ins && 0 <= k < |h0.chain[i]| && i !in E && i !in F
    ensures var h1 := Emptied(Cut(Emptied(h0, E), i, k), F);
      && i in h1.ins && i in h1.chain && 0 < |h1.chain[i]|
      && (forall m :: 0 <= m < |h1.chain[i]| ==> h1.chain[i][m] in h1.ds)
      && RemoveAt(h1, i, 0) == Cut(Emptied(h0, E + F), i, k + 1)
  {
    var g, g2 := Emptied(h0, E), Emptied(h0, E + F);
    CutEmptied(g, F, i, k);
    EmptiedTwice(h0, E, F);
    assert Emptied(Cut(g, i, k), F) == Cut(g2, i, k);
    EmptiedKeepsChain(h0, E + F, i);
    LinkedIn(h0.ds, h0.ins[i].dentrys, h0.chain[i], k);
    CutNext(g2, i, k);
  }

  /** The dentries below the first `k + 1` dentries of a chain, and their
      directories. */
  lemma DescUpToNext(h: Heap, i: InodeId, k: int)
    requires HeapOk(h) && i in h.ins && 0 <= k < |h.chain[i]|
    ensures DescUpTo(h, i, k + 1) == DescUpTo(h, i, k) + ChildDesc(h, i, k)
    ensures DirsOf(h, DescUpTo(h, i, k + 1)) == DirsOf(h, DescUpTo(h, i, k)) + DirsOf(h, ChildDesc(h, i, k))
    ensures Inos(h, DescUpTo(h, i, k + 1)) == Inos(h, DescUpTo(h, i, k)) + Inos(h, ChildDesc(h, i, k))
  {
    DirsOfUnion(h, DescUpTo(h, i, k), ChildDesc(h, i, k));
    InosUnion(h, DescUpTo(h, i, k), ChildDesc(h, i, k));
  }

  /** Emptying the chains of other inodes leaves `i` and its chain. */
  lemma EmptiedKeepsChain(h: Heap, E: set<InodeId>, i: InodeId)
    requires i in h.ins && i in h.chain && i !in E
    ensures var g := Emptied(h, E);
      && g.ds == h.ds && i in g.ins && g.ins[i] == h.ins[i] && i in g.chain && g.chain[i] == h.chain[i]
  {
  }

  /** The subtree of a directory is the directory and what lies below its
      chain; the subtree of a regular file is the file. */
  lemma DescSplit(h: Heap, i: InodeId)
    requires HeapOk(h) && i in h.ins
    ensures IsDir(h, i) ==> Desc(h, i) == {i} + DescUpTo(h, i, |h.chain[i]|)
    ensures !IsDir(h, i) ==> Desc(h, i) == {i}
  {
  }

  lemma OneInode(h: Heap, i: InodeId)
    requires i in h.ins && h.ins[i].dentry in h.ds
    ensures Inos(h, {i}) == {h.ins[i].ino}
    ensures DirsOf(h, {i}) == if h.ds[h.ins[i].dentry].ftype == Dir then {i} else {}
  {
    assert h.ins[i].ino in Inos(h, {i});
  }

  /** After the last turn, every directory chain of the subtree is empty. */
  lemma DropEnd(h0: Heap, h: Heap, i: InodeId)
    requires HeapOk(h0) && i in h0.ins && IsDir(h0, i) && DropAt(h0, h, i, |h0.chain[i]|)
    ensures h == Emptied(h0, DirsOf(h0, Desc(h0, i)))
    ensures Inos(h0, Desc(h0, i)) == {h0.ins[i].ino} + Inos(h0, DescUpTo(h0, i, |h0.chain[i]|))
  {
    var S := DescUpTo(h0, i, |h0.chain[i]|);
    EndChain(h0, DirsOf(h0, S), i);
    DescSplit(h0, i);
    OneInode(h0, i);
    DirsOfUnion(h0, {i}, S);
    InosUnion(h0, {i}, S);
  }

  lemma EndChain(h0: Heap, E: set<InodeId>, i: InodeId)
    requires HeapOk(h0) && i in h0.ins && i !in E
    ensures Cut(Emptied(h0, E), i, |h0.chain[i]|) == Emptied(h0, {i} + E)
  {
    EmptiedOk(h0, E);
    EmptiedKeepsChain(h0, E, i);
    CutEverything(Emptied(h0, E), i);
    EmptiedTwice(h0, E, {i});
    assert E + {i} == {i} + E;
  }

  /** A regular file's subtree is the file alone, and has no chain. */
  lemma DropFile(h0: Heap, i: InodeId)
    requires HeapOk(h0) && i in h0.ins && !IsDir(h0, i)
    ensures Emptied(h0, DirsOf(h0, Desc(h0, i))) == h0
    ensures Inos(h0, Desc(h0, i)) == {h0.ins[i].ino}
  {
    DescSplit(h0, i);
    OneInode(h0, i);
    EmptiedNothing(h0);
  }

  // ---------------------------------------------------------------------
  // The inode bitmap
  // ---------------------------------------------------------------------

  /** `m` is `m0` with exactly the bits whose indices are in `A` cleared. */
  predicate Cleared(m0: seq<bv8>, m: seq<bv8>, A: set<int>)
  {
    |m| == |m0| && forall j :: 0 <= j < UINT8_BITS * |m| ==> (Bit(m, j) <==> Bit(m0, j) && j !in A)
  }

  /** The bit scan of newfs_drop_inode clears the bit of its index, if the
      bitmap has one. */
  lemma ClearAtCleared(m: seq<bv8>, d: int)
    ensures Cleared(m, ClearAt(m, d), {d})
  {
    if 0 <= d < UINT8_BITS * |m| {
      forall j | 0 <= j < UINT8_BITS * |m|
        ensures Bit(ClearAt(m, d), j) <==> Bit(m, j) && j != d
      {
        ClearBitOnly(m, d, j);
      }
    }
  }

  lemma ClearedTrans(m0: seq<bv8>, m1: seq<bv8>, m2: seq<bv8>, A: set<int>, B: set<int>)
    requires Cleared(m0, m1, A) && Cleared(m1, m2, B)
    ensures Cleared(m0, m2, A + B)
  {
  }

  lemma ClearedNothing(m: seq<bv8>)
    ensures Cleared(m, m, {})
  {
  }

  // ---------------------------------------------------------------------
  // The loop of newfs_drop_inode, turn by turn
  // ---------------------------------------------------------------------

  /** Where the loop over the chain of `i` stands after `k` turns, started
      on heap `h0` and inode bitmap `m0`: the heap is DropAt(h0, h, i, k),
      with the dentries, ranks and bound as they were, and the bits of
      everything below the first `k` dentries are cleared. */
  ghost predicate Dropping(h0: Heap, m0: seq<bv8>, h: Heap, m: seq<bv8>, i: InodeId, k: int)
  {
    && HeapOk(h0) && i in h0.ins && DropAt(h0, h, i, k) && i in h.ins
    && h.ds == h0.ds && h.rank == h0.rank && h.lo == h0.lo
    && Cleared(m0, m, Inos(h0, DescUpTo(h0, i, k)))
  }

  lemma DroppingStart(h0: Heap, m: seq<bv8>, i: InodeId)
    requires HeapOk(h0) && i in h0.ins
    ensures Dropping(h0, m, h0, m, i, 0)
  {
    DropStart(h0, i);
    ClearedNothing(m);
  }

  /** Half a turn: the inode below the k-th dentry has been dropped,
      emptying the directories below it and clearing their bits; the chain
      of `i` still starts at that dentry. */
  ghost predicate ChildGone(h0: Heap, m0: seq<bv8>, hk: Heap, mk: seq<bv8>, h1: Heap, m1: seq<bv8>, i: InodeId, k: int)
  {
    && Dropping(h0, m0, hk, mk, i, k) && k < |h0.chain[i]|
    && i !in DirsOf(h0, ChildDesc(h0, i, k))
    && h1 == Emptied(hk, DirsOf(h0, ChildDesc(h0, i, k)))
    && Cleared(mk, m1, Inos(h0, ChildDesc(h0, i, k)))
    && i in h1.ins && i in h1.chain && h1.chain[i] == h0.chain[i][k..]
  }

  /** One turn: once the inode below the k-th dentry has been dropped and
      the dentry unlinked from the head of the chain, the loop stands after
      k + 1 turns. */
  lemma DroppingStep(h0: Heap, m0: seq<bv8>, hk: Heap, mk: seq<bv8>, h1: Heap, m1: seq<bv8>, h2: Heap, i: InodeId, k: int)
    requires ChildGone(h0, m0, hk, mk, h1, m1, i, k)
    requires forall m :: 0 <= m < |h1.chain[i]| ==> h1.chain[i][m] in h1.ds
    requires h2 == RemoveAt(h1, i, 0)
    ensures Dropping(h0, m0, h2, m1, i, k + 1)
  {
    ChildDropped(h0, hk, h1, h2, i, k);
    DescUpToNext(h0, i, k);
    ClearedTrans(m0, mk, m1, Inos(h0, DescUpTo(h0, i, k)), Inos(h0, ChildDesc(h0, i, k)));
  }

  /** The dentry a turn starts from heads what is left of the chain. */
  lemma HeadOfRest(h0: Heap, h1: Heap, i: InodeId, k: int)
    requires i in h0.chain && 0 <= k < |h0.chain[i]| && i in h1.chain && h1.chain[i] == h0.chain[i][k..]
    ensures h0.chain[i][k] in h1.chain[i] && Position(h1.chain[i], h0.chain[i][k]) == 0
  {
    assert h1.chain[i][0] == h0.chain[i][k];
  }

  /** After the last turn, with the bit of `i` itself cleared before the
      loop: every directory of the subtree of `i` is emptied and every bit
      of it cleared. */
  lemma DroppingEnd(h0: Heap, mA: seq<bv8>, mB: seq<bv8>, h: Heap, m: seq<bv8>, i: InodeId)
    requires HeapOk(h0) && i in h0.ins && IsDir(h0, i)
    requires Cleared(mA, mB, {h0.ins[i].ino}) && Dropping(h0, mB, h, m, i, |h0.chain[i]|)
    ensures h == Emptied(h0, DirsOf(h0, Desc(h0, i)))
    ensures Cleared(mA, m, Inos(h0, Desc(h0, i)))
  {
    DropEnd(h0, h, i);
    ClearedTrans(mA, mB, m, {h0.ins[i].ino}, Inos(h0, DescUpTo(h0, i, |h0.chain[i]|)));
  }

  /** The same for a regular file, which has no loop. */
  lemma DroppedFile(h0: Heap, mA: seq<bv8>, m: seq<bv8>, i: InodeId)
    requires HeapOk(h0) && i in h0.ins && !IsDir(h0, i) && Cleared(mA, m, {h0.ins[i].ino})
    ensures h0 == Emptied(h0, DirsOf(h0, Desc(h0, i)))
    ensures Cleared(mA, m, Inos(h0, Desc(h0, i)))
  {
    DropFile(h0, i);
  }
}
