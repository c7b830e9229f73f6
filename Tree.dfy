// The in-memory tree of newfs: dentries and inodes linked by pointers
// (struct newfs_dentry / struct newfs_inode in fs/newfs/include/types.h),
// held in an arena so that brother chains and parent back-links are plain
// ids.  The ghost part of a `Heap` records each directory's sibling chain as
// a sequence, the directory owning each chained dentry, and a rank that
// strictly decreases from a directory to the inodes below it.

module Tree {
  import opened Types

  datatype Heap = Heap(
    ds: map<DentryId, Dentry>,
    ins: map<InodeId, Inode>,
    chain: map<InodeId, seq<DentryId>>,
    owner: map<DentryId, InodeId>,
    rank: map<InodeId, int>,
    lo: int)

  /** `c` is the sibling chain that starts at `head` and follows the brother
      links to their end, each dentry once. */
  ghost predicate Linked(ds: map<DentryId, Dentry>, head: Option<DentryId>, c: seq<DentryId>)
  {
    && (forall k :: 0 <= k < |c| ==> c[k] in ds)
    && head == (if c == [] then None else Some(c[0]))
    && (forall k :: 0 <= k < |c| ==> ds[c[k]].brother == (if k + 1 < |c| then Some(c[k + 1]) else None))
    && (forall k, l :: 0 <= k < l < |c| ==> c[k] != c[l])
  }

  /** Every inode's `dentrys` list is its chain, and `dir_cnt` counts it. */
  ghost predicate ChainsOk(h: Heap)
  {
    forall i :: i in h.ins ==>
      && i in h.chain
      && Linked(h.ds, h.ins[i].dentrys, h.chain[i])
      && h.ins[i].dirCnt == |h.chain[i]|
  }

  /** A dentry is on at most one chain: `owner` names the inode whose chain
      holds it. */
  ghost predicate OwnersOk(h: Heap)
  {
    && (forall i, k :: i in h.ins && i in h.chain && 0 <= k < |h.chain[i]| ==>
          h.chain[i][k] in h.owner && h.owner[h.chain[i][k]] == i)
    && (forall d :: d in h.owner ==>
          d in h.ds && h.owner[d] in h.ins && h.owner[d] in h.chain && d in h.chain[h.owner[d]])
  }

  /** Pointers lead to live objects, and a dentry's inode points back to it. */
  ghost predicate LinksOk(h: Heap)
  {
    && (forall i :: i in h.ins ==> h.ins[i].dentry in h.ds)
    && (forall d :: d in h.ds && h.ds[d].inode.Some? ==>
          h.ds[d].inode.value in h.ins && h.ins[h.ds[d].inode.value].dentry == d)
  }

  /** An inode hanging below a chained dentry ranks below the chain's owner. */
  ghost predicate RanksOk(h: Heap)
  {
    && (forall i :: i in h.ins ==> i in h.rank && h.rank[i] >= h.lo)
    && (forall d :: d in h.owner && d in h.ds && h.ds[d].inode.Some? ==>
          h.owner[d] in h.rank && h.ds[d].inode.value in h.rank &&
          h.rank[h.ds[d].inode.value] < h.rank[h.owner[d]])
  }

  ghost predicate HeapOk(h: Heap)
  {
    ChainsOk(h) && OwnersOk(h) && LinksOk(h) && RanksOk(h)
  }

  /** NEWFS_IS_DIR(inode): decided by the ftype of the inode's own dentry. */
  ghost predicate IsDir(h: Heap, i: InodeId)
    requires LinksOk(h) && i in h.ins
  {
    h.ds[h.ins[i].dentry].ftype == Dir
  }

  // ---------------------------------------------------------------------
  // Chain operations on heap values
  // ---------------------------------------------------------------------

  /** The index of `x` in `c`, where it first occurs. */
  function Position<T(==)>(c: seq<T>, x: T): (k: nat)
    requires x in c
    ensures k < |c| && c[k] == x && x !in c[..k]
  {
    if c[0] == x then 0 else Position(c[1..], x) + 1
  }

  /** newfs_alloc_dentry: `d` becomes the head of inode `i`'s chain with the
      old head as its brother (left alone when the chain was empty), and
      dir_cnt grows by one. */
  ghost function InsertHead(h: Heap, i: InodeId, d: DentryId): Heap
    requires i in h.ins && d in h.ds && i in h.chain
  {
    var old_head := h.ins[i].dentrys;
    h.(ds := if old_head.None? then h.ds else h.ds[d := h.ds[d].(brother := old_head)],
       ins := h.ins[i := h.ins[i].(dentrys := Some(d), dirCnt := h.ins[i].dirCnt + 1)],
       chain := h.chain[i := [d] + h.chain[i]],
       owner := h.owner[d := i])
  }

  /** The conditions under which head insertion keeps the heap well formed:
      the dentry is on no chain, its brother is empty when the chain is, and
      its inode (if any) ranks below the directory. */
  ghost predicate CanInsert(h: Heap, i: InodeId, d: DentryId)
  {
    && HeapOk(h) && i in h.ins && d in h.ds && d !in h.owner
    && (h.ins[i].dentrys.None? ==> h.ds[d].brother.None?)
    && (h.ds[d].inode.Some? ==> h.rank[h.ds[d].inode.value] < h.rank[i])
  }

  lemma InsertHeadOk(h: Heap, i: InodeId, d: DentryId)
    requires CanInsert(h, i, d)
    ensures HeapOk(InsertHead(h, i, d))
    ensures InsertHead(h, i, d).chain[i] == [d] + h.chain[i]
    ensures InsertHead(h, i, d).ins[i].dirCnt == h.ins[i].dirCnt + 1
  {
    var h' := InsertHead(h, i, d);
    InsertHeadOwnChain(h, i, d);
    InsertHeadOtherChains(h, i, d);
    assert ChainsOk(h');
    InsertHeadOwners(h, i, d);
    InsertHeadLinksRanks(h, i, d);
  }

  lemma InsertHeadOwnChain(h: Heap, i: InodeId, d: DentryId)
    requires CanInsert(h, i, d)
    ensures Linked(InsertHead(h, i, d).ds, InsertHead(h, i, d).ins[i].dentrys, InsertHead(h, i, d).chain[i])
  {
    var h' := InsertHead(h, i, d);
    var c := h.chain[i];
    forall k | 0 <= k < |c|
      ensures c[k] != d && c[k] in h'.ds && h'.ds[c[k]].brother == h.ds[c[k]].brother
    {
      assert c[k] in h.owner;
    }
    LinkedFrame(h.ds, h'.ds, h.ins[i].dentrys, c);
    LinkedCons(h'.ds, d, h.ins[i].dentrys, c);
  }

  lemma LinkedAt(ds: map<DentryId, Dentry>, head: Option<DentryId>, c: seq<DentryId>, k: int)
    requires Linked(ds, head, c) && 0 <= k < |c|
    ensures c[k] in ds && ds[c[k]].brother == (if k + 1 < |c| then Some(c[k + 1]) else None)
  {
  }

  /** A dentry whose brother is a chain's head extends that chain. */
  lemma LinkedCons(ds: map<DentryId, Dentry>, d: DentryId, head: Option<DentryId>, c: seq<DentryId>)
    requires Linked(ds, head, c) && d in ds && d !in c && ds[d].brother == head
    ensures Linked(ds, Some(d), [d] + c)
  {
    var c' := [d] + c;
    forall k | 0 <= k < |c'|
      ensures ds[c'[k]].brother == (if k + 1 < |c'| then Some(c'[k + 1]) else None)
    {
      if k > 0 {
        assert c'[k] == c[k - 1];
        LinkedAt(ds, head, c, k - 1);
        assert k + 1 < |c'| ==> c'[k + 1] == c[k];
      } else if c != [] {
        assert c'[1] == c[0];
      }
    }
    forall k, l | 0 <= k < l < |c'|
      ensures c'[k] != c'[l]
    {
      assert c'[l] == c[l - 1];
      if k > 0 {
        assert c'[k] == c[k - 1];
      }
    }
    assert Linked(ds, Some(d), c');
  }

  lemma InsertHeadOtherChains(h: Heap, i: InodeId, d: DentryId)
    requires CanInsert(h, i, d)
    ensures forall j :: j in h.ins && j != i ==>
      Linked(InsertHead(h, i, d).ds, InsertHead(h, i, d).ins[j].dentrys, InsertHead(h, i, d).chain[j])
  {
    var h' := InsertHead(h, i, d);
    forall j | j in h.ins && j != i
      ensures Linked(h'.ds, h'.ins[j].dentrys, h'.chain[j])
    {
      forall m | 0 <= m < |h.chain[j]|
        ensures h.chain[j][m] in h'.ds && h'.ds[h.chain[j][m]].brother == h.ds[h.chain[j][m]].brother
      {
        assert h.chain[j][m] in h.owner;
      }
      LinkedFrame(h.ds, h'.ds, h.ins[j].dentrys, h.chain[j]);
    }
  }

  lemma InsertHeadOwners(h: Heap, i: InodeId, d: DentryId)
    requires OwnersOk(h) && i in h.ins && i in h.chain && d in h.ds && d !in h.owner
    ensures OwnersOk(InsertHead(h, i, d))
  {
    var h' := InsertHead(h, i, d);
    forall j, k | j in h'.ins && j in h'.chain && 0 <= k < |h'.chain[j]|
      ensures h'.chain[j][k] in h'.owner && h'.owner[h'.chain[j][k]] == j
    {
      if j == i && k > 0 {
        assert h'.chain[j][k] == h.chain[i][k - 1];
      }
    }
    forall e | e in h'.owner
      ensures e in h'.ds && h'.owner[e] in h'.ins && h'.owner[e] in h'.chain && e in h'.chain[h'.owner[e]]
    {
      if e != d && h.owner[e] == i {
        assert e in h.chain[i];
      }
    }
  }

  lemma InsertHeadLinksRanks(h: Heap, i: InodeId, d: DentryId)
    requires LinksOk(h) && RanksOk(h) && i in h.ins && i in h.chain && d in h.ds
    requires h.ds[d].inode.Some? ==> h.rank[h.ds[d].inode.value] < h.rank[i]
    ensures LinksOk(InsertHead(h, i, d)) && RanksOk(InsertHead(h, i, d))
  {
    var h' := InsertHead(h, i, d);
    assert forall e :: e in h'.ds ==> e in h.ds && h'.ds[e].inode == h.ds[e].inode;
    assert forall j :: j in h'.ins ==> j in h.ins && h'.ins[j].dentry == h.ins[j].dentry;
  }

  /** Rewriting dentries off a chain leaves the chain intact. */
  lemma LinkedFrame(ds: map<DentryId, Dentry>, ds': map<DentryId, Dentry>, head: Option<DentryId>, c: seq<DentryId>)
    requires Linked(ds, head, c)
    requires forall k :: 0 <= k < |c| ==> c[k] in ds' && ds'[c[k]].brother == ds[c[k]].brother
    ensures Linked(ds', head, c)
  {
  }

  /** newfs_drop_dentry of the dentry at position `k` of inode `i`'s chain:
      the head is unlinked through the inode's `dentrys`, an interior dentry
      through its predecessor's brother; dir_cnt drops by one. */
  ghost function RemoveAt(h: Heap, i: InodeId, k: int): Heap
    requires i in h.ins && i in h.chain && 0 <= k < |h.chain[i]|
    requires forall m :: 0 <= m < |h.chain[i]| ==> h.chain[i][m] in h.ds
  {
    var c := h.chain[i];
    var d := c[k];
    var next := h.ds[d].brother;
    h.(ds := UnlinkedDs(h.ds, c, k),
       ins := h.ins[i := h.ins[i].(
         dentrys := if k == 0 then next else h.ins[i].dentrys,
         dirCnt := h.ins[i].dirCnt - 1)],
       chain := h.chain[i := c[..k] + c[k + 1..]],
       owner := h.owner - {d})
  }

  lemma RemoveAtOk(h: Heap, i: InodeId, k: int)
    requires HeapOk(h) && i in h.ins && 0 <= k < |h.chain[i]|
    ensures HeapOk(RemoveAt(h, i, k))
    ensures RemoveAt(h, i, k).chain[i] == h.chain[i][..k] + h.chain[i][k + 1..]
    ensures RemoveAt(h, i, k).ins[i].dirCnt == h.ins[i].dirCnt - 1
    ensures h.chain[i][k] !in RemoveAt(h, i, k).owner
  {
    var h' := RemoveAt(h, i, k);
    RemoveAtOwnChain(h, i, k);
    RemoveAtOtherChains(h, i, k);
    assert ChainsOk(h');
    RemoveAtOwners(h, i, k);
    RemoveAtLinksRanks(h, i, k);
  }

  lemma RemoveAtOwnChain(h: Heap, i: InodeId, k: int)
    requires HeapOk(h) && i in h.ins && 0 <= k < |h.chain[i]|
    ensures Linked(RemoveAt(h, i, k).ds, RemoveAt(h, i, k).ins[i].dentrys, RemoveAt(h, i, k).chain[i])
  {
    LinkedRemove(h.ds, h.ins[i].dentrys, h.chain[i], k);
  }

  /** The dentry map once position `k` of chain `c` is bypassed: its
      predecessor (if any) takes over its brother. */
  ghost function UnlinkedDs(ds: map<DentryId, Dentry>, c: seq<DentryId>, k: int): map<DentryId, Dentry>
    requires 0 <= k < |c| && forall m :: 0 <= m < |c| ==> c[m] in ds
  {
    if k == 0 then ds else ds[c[k - 1] := ds[c[k - 1]].(brother := ds[c[k]].brother)]
  }

  /** Unlinking position `k` of a chain: through the head when k is 0,
      otherwise through the predecessor's brother. */
  lemma LinkedRemove(ds: map<DentryId, Dentry>, head: Option<DentryId>, c: seq<DentryId>, k: int)
    requires Linked(ds, head, c) && 0 <= k < |c|
    ensures Linked(UnlinkedDs(ds, c, k), if k == 0 then ds[c[k]].brother else head, c[..k] + c[k + 1..])
  {
    var next := ds[c[k]].brother;
    var ds' := UnlinkedDs(ds, c, k);
    var c' := c[..k] + c[k + 1..];
    assert |c'| == |c| - 1;
    assert forall m :: 0 <= m < |c'| ==> c'[m] == (if m < k then c[m] else c[m + 1]);
    LinkedAt(ds, head, c, k);
    forall m | 0 <= m < |c'|
      ensures c'[m] in ds' && ds'[c'[m]].brother == (if m + 1 < |c'| then Some(c'[m + 1]) else None)
    {
      if m == k - 1 {
        assert c'[m] == c[k - 1];
        assert m + 1 < |c'| ==> c'[m + 1] == c[k + 1];
      } else if m < k - 1 {
        assert c'[m] == c[m] && c[m] != c[k - 1];
        LinkedAt(ds, head, c, m);
        assert c'[m + 1] == c[m + 1];
      } else {
        assert c'[m] == c[m + 1];
        assert k > 0 ==> c[m + 1] != c[k - 1];
        LinkedAt(ds, head, c, m + 1);
        assert m + 1 < |c'| ==> c'[m + 1] == c[m + 2];
      }
    }
    forall m, l | 0 <= m < l < |c'|
      ensures c'[m] != c'[l]
    {
      var m0 := if m < k then m else m + 1;
      var l0 := if l < k then l else l + 1;
      assert c'[m] == c[m0] && c'[l] == c[l0] && m0 < l0;
    }
    if k == 0 && |c| > 1 {
      assert c'[0] == c[1];
    } else if k > 0 {
      assert c'[0] == c[0];
    }
    assert Linked(ds', if k == 0 then next else head, c');
  }

  lemma RemoveAtOtherChains(h: Heap, i: InodeId, k: int)
    requires HeapOk(h) && i in h.ins && 0 <= k < |h.chain[i]|
    ensures forall j :: j in h.ins && j != i ==>
      Linked(RemoveAt(h, i, k).ds, RemoveAt(h, i, k).ins[j].dentrys, RemoveAt(h, i, k).chain[j])
  {
    var h' := RemoveAt(h, i, k);
    var c := h.chain[i];
    forall j | j in h.ins && j != i
      ensures Linked(h'.ds, h'.ins[j].dentrys, h'.chain[j])
    {
      forall m | 0 <= m < |h.chain[j]|
        ensures h.chain[j][m] in h'.ds && h'.ds[h.chain[j][m]].brother == h.ds[h.chain[j][m]].brother
      {
        if k > 0 {
          assert h.owner[c[k - 1]] == i;
          assert h.owner[h.chain[j][m]] == j;
        }
      }
      LinkedFrame(h.ds, h'.ds, h.ins[j].dentrys, h.chain[j]);
    }
  }

  lemma RemoveAtOwners(h: Heap, i: InodeId, k: int)
    requires OwnersOk(h) && i in h.ins && i in h.chain && 0 <= k < |h.chain[i]|
    requires Linked(h.ds, h.ins[i].dentrys, h.chain[i])
    ensures OwnersOk(RemoveAt(h, i, k))
  {
    var h' := RemoveAt(h, i, k);
    var c := h.chain[i];
    var c' := h'.chain[i];
    var d := c[k];
    assert forall m :: 0 <= m < |c'| ==> c'[m] == (if m < k then c[m] else c[m + 1]);
    forall j, m | j in h'.ins && j in h'.chain && 0 <= m < |h'.chain[j]|
      ensures h'.chain[j][m] in h'.owner && h'.owner[h'.chain[j][m]] == j
    {
      if j == i {
        var m0 := if m < k then m else m + 1;
        assert h.owner[c[m0]] == i;
        assert h'.chain[j][m] == c[m0] && m0 != k;
      } else {
        assert h.owner[h.chain[j][m]] == j;
      }
    }
    forall e | e in h'.owner
      ensures e in h'.ds && h'.owner[e] in h'.ins && h'.owner[e] in h'.chain && e in h'.chain[h'.owner[e]]
    {
      if h.owner[e] == i {
        var m :| 0 <= m < |c| && c[m] == e;
        assert m != k;
        if m < k {
          assert c'[m] == e;
        } else {
          assert c'[m - 1] == e;
        }
      }
    }
  }

  lemma RemoveAtLinksRanks(h: Heap, i: InodeId, k: int)
    requires LinksOk(h) && RanksOk(h) && i in h.ins && i in h.chain && 0 <= k < |h.chain[i]|
    requires Linked(h.ds, h.ins[i].dentrys, h.chain[i])
    ensures LinksOk(RemoveAt(h, i, k)) && RanksOk(RemoveAt(h, i, k))
  {
    var h' := RemoveAt(h, i, k);
    assert forall e :: e in h'.ds ==> e in h.ds && h'.ds[e].inode == h.ds[e].inode;
    assert forall j :: j in h'.ins ==> j in h.ins && h'.ins[j].dentry == h.ins[j].dentry;
  }

  /** A fresh dentry enters the arena (the malloc of new_dentry). */
  ghost function AddDentry(h: Heap, d: DentryId, e: Dentry): Heap
  {
    h.(ds := h.ds[d := e])
  }

  lemma AddDentryOk(h: Heap, d: DentryId, e: Dentry)
    requires HeapOk(h) && d !in h.ds && e.inode.None?
    ensures HeapOk(AddDentry(h, d, e))
  {
    AddDentryChains(h, d, e);
    AddDentryOwners(h, d, e);
    AddDentryBackLinks(h, d, e);
    AddDentryRanks(h, d, e);
  }

  lemma AddDentryChains(h: Heap, d: DentryId, e: Dentry)
    requires ChainsOk(h) && OwnersOk(h) && d !in h.ds
    ensures ChainsOk(AddDentry(h, d, e))
  {
    var h' := AddDentry(h, d, e);
    forall i | i in h.ins
      ensures Linked(h'.ds, h'.ins[i].dentrys, h'.chain[i])
    {
      forall k | 0 <= k < |h.chain[i]|
        ensures h.chain[i][k] in h'.ds && h'.ds[h.chain[i][k]].brother == h.ds[h.chain[i][k]].brother
      {
        assert h.chain[i][k] in h.ds;
      }
      LinkedFrame(h.ds, h'.ds, h.ins[i].dentrys, h.chain[i]);
    }
  }

  lemma AddDentryOwners(h: Heap, d: DentryId, e: Dentry)
    requires OwnersOk(h)
    ensures OwnersOk(AddDentry(h, d, e))
  {
  }

  lemma AddDentryBackLinks(h: Heap, d: DentryId, e: Dentry)
    requires LinksOk(h) && d !in h.ds && e.inode.None?
    ensures LinksOk(AddDentry(h, d, e))
  {
    var h' := AddDentry(h, d, e);
    forall x | x in h'.ds && h'.ds[x].inode.Some?
      ensures h'.ds[x].inode.value in h'.ins && h'.ins[h'.ds[x].inode.value].dentry == x
    {
      assert x != d && h'.ds[x] == h.ds[x];
    }
  }

  lemma AddDentryRanks(h: Heap, d: DentryId, e: Dentry)
    requires RanksOk(h) && d !in h.ds && e.inode.None?
    ensures RanksOk(AddDentry(h, d, e))
  {
    var h' := AddDentry(h, d, e);
    forall x | x in h'.owner && x in h'.ds && h'.ds[x].inode.Some?
      ensures h'.owner[x] in h'.rank && h'.ds[x].inode.value in h'.rank
      ensures h'.rank[h'.ds[x].inode.value] < h'.rank[h'.owner[x]]
    {
      assert x != d && h'.ds[x] == h.ds[x];
    }
  }

  /** A fresh inode with an empty chain enters the arena, ranked below every
      inode already there. */
  ghost function AddInode(h: Heap, j: InodeId, n: Inode): Heap
  {
    h.(ins := h.ins[j := n], chain := h.chain[j := []], rank := h.rank[j := h.lo - 1], lo := h.lo - 1)
  }

  lemma AddInodeOk(h: Heap, j: InodeId, n: Inode)
    requires HeapOk(h) && j !in h.ins && n.dentry in h.ds && n.dentrys.None? && n.dirCnt == 0
    ensures HeapOk(AddInode(h, j, n))
  {
    AddInodeChains(h, j, n);
    AddInodeOwners(h, j, n);
    AddInodeLinksRanks(h, j, n);
  }

  lemma AddInodeChains(h: Heap, j: InodeId, n: Inode)
    requires ChainsOk(h) && j !in h.ins && n.dentrys.None? && n.dirCnt == 0
    ensures ChainsOk(AddInode(h, j, n))
  {
    var h' := AddInode(h, j, n);
    forall i | i in h'.ins
      ensures i in h'.chain && Linked(h'.ds, h'.ins[i].dentrys, h'.chain[i]) && h'.ins[i].dirCnt == |h'.chain[i]|
    {
      if i != j {
        assert h'.ins[i] == h.ins[i] && h'.chain[i] == h.chain[i];
      }
    }
  }

  lemma AddInodeOwners(h: Heap, j: InodeId, n: Inode)
    requires OwnersOk(h) && j !in h.ins
    ensures OwnersOk(AddInode(h, j, n))
  {
    var h' := AddInode(h, j, n);
    forall e | e in h'.owner
      ensures e in h'.ds && h'.owner[e] in h'.ins && h'.owner[e] in h'.chain && e in h'.chain[h'.owner[e]]
    {
      assert h.owner[e] != j;
    }
  }

  lemma AddInodeLinksRanks(h: Heap, j: InodeId, n: Inode)
    requires LinksOk(h) && RanksOk(h) && j !in h.ins && n.dentry in h.ds
    requires forall e :: e in h.owner ==> h.owner[e] in h.ins
    ensures LinksOk(AddInode(h, j, n)) && RanksOk(AddInode(h, j, n))
  {
    AddInodeLinks(h, j, n);
    AddInodeRanks(h, j, n);
  }

  lemma AddInodeLinks(h: Heap, j: InodeId, n: Inode)
    requires LinksOk(h) && j !in h.ins && n.dentry in h.ds
    ensures LinksOk(AddInode(h, j, n))
  {
    var h' := AddInode(h, j, n);
    forall e | e in h'.ds && h'.ds[e].inode.Some?
      ensures h'.ds[e].inode.value in h'.ins && h'.ins[h'.ds[e].inode.value].dentry == e
    {
      assert h.ds[e].inode.value != j;
    }
  }

  lemma AddInodeRanks(h: Heap, j: InodeId, n: Inode)
    requires LinksOk(h) && RanksOk(h) && j !in h.ins
    requires forall e :: e in h.owner ==> h.owner[e] in h.ins
    ensures RanksOk(AddInode(h, j, n))
  {
    var h' := AddInode(h, j, n);
    forall e | e in h'.owner && e in h'.ds && h'.ds[e].inode.Some?
      ensures h'.owner[e] in h'.rank && h'.ds[e].inode.value in h'.rank
      ensures h'.rank[h'.ds[e].inode.value] < h'.rank[h'.owner[e]]
    {
      assert h.ds[e].inode.value != j && h.owner[e] != j;
    }
  }

  /** A dentry is pointed at an inode whose back-link names it. */
  ghost function LinkInode(h: Heap, d: DentryId, j: InodeId): Heap
    requires d in h.ds
  {
    h.(ds := h.ds[d := h.ds[d].(inode := Some(j))])
  }

  ghost predicate CanLink(h: Heap, d: DentryId, j: InodeId)
  {
    && HeapOk(h) && d in h.ds && j in h.ins && h.ins[j].dentry == d
    && (d in h.owner ==> h.rank[j] < h.rank[h.owner[d]])
  }

  lemma LinkInodeOk(h: Heap, d: DentryId, j: InodeId)
    requires CanLink(h, d, j)
    ensures HeapOk(LinkInode(h, d, j))
  {
    var h' := LinkInode(h, d, j);
    forall i | i in h.ins
      ensures Linked(h'.ds, h'.ins[i].dentrys, h'.chain[i])
    {
      LinkedFrame(h.ds, h'.ds, h.ins[i].dentrys, h.chain[i]);
    }
  }

  /** LinkInodeOk for an arena given field by field. */
  lemma SetInodeOk(h: Heap, h': Heap, d: DentryId, j: InodeId)
    requires CanLink(h, d, j)
    requires h'.ds == h.ds[d := h.ds[d].(inode := Some(j))]
    requires h'.ins == h.ins && h'.chain == h.chain && h'.owner == h.owner && h'.rank == h.rank && h'.lo == h.lo
    ensures HeapOk(h')
  {
    forall i | i in h.ins
      ensures Linked(h'.ds, h'.ins[i].dentrys, h'.chain[i])
    {
      LinkedFrame(h.ds, h'.ds, h.ins[i].dentrys, h.chain[i]);
    }
  }

  /** The ino field of a dentry is rewritten. */
  ghost function SetIno(h: Heap, d: DentryId, ino: int): Heap
    requires d in h.ds
  {
    h.(ds := h.ds[d := h.ds[d].(ino := ino)])
  }

  lemma SetInoOk(h: Heap, d: DentryId, ino: int)
    requires HeapOk(h) && d in h.ds
    ensures HeapOk(SetIno(h, d, ino))
  {
    var h' := SetIno(h, d, ino);
    forall i | i in h.ins
      ensures Linked(h'.ds, h'.ins[i].dentrys, h'.chain[i])
    {
      LinkedFrame(h.ds, h'.ds, h.ins[i].dentrys, h.chain[i]);
    }
  }

  /** newfs_alloc_inode once the bitmap has granted `ino`: a fresh inode
      with no size and an empty chain, pointing back at `d`, which points at
      it and carries its number. */
  ghost function AttachInode(h: Heap, d: DentryId, j: InodeId, ino: int): Heap
    requires d in h.ds
  {
    var h1 := AddInode(h, j, Inode(ino, 0, 0, d, None));
    LinkInode(SetIno(h1, d, ino), d, j)
  }

  lemma AttachInodeOk(h: Heap, d: DentryId, j: InodeId, ino: int)
    requires HeapOk(h) && d in h.ds && j !in h.ins
    ensures var h' := AttachInode(h, d, j, ino);
      && HeapOk(h')
      && h'.ins == h.ins[j := Inode(ino, 0, 0, d, None)]
      && h'.ds == h.ds[d := h.ds[d].(ino := ino, inode := Some(j))]
      && h'.chain == h.chain[j := []]
  {
    var n := Inode(ino, 0, 0, d, None);
    var h1 := AddInode(h, j, n);
    AddInodeOk(h, j, n);
    var h2 := SetIno(h1, d, ino);
    SetInoOk(h1, d, ino);
    assert h2.rank[j] == h.lo - 1;
    assert d in h2.owner ==> h2.owner[d] in h.ins && h2.rank[h2.owner[d]] >= h.lo;
    LinkInodeOk(h2, d, j);
  }

  /** The position of `d` in a chain, when it is there. */
  lemma ChainIndex(h: Heap, i: InodeId, d: DentryId) returns (k: int)
    requires HeapOk(h) && i in h.ins && d in h.chain[i]
    ensures 0 <= k < |h.chain[i]| && h.chain[i][k] == d
  {
    k :| 0 <= k < |h.chain[i]| && h.chain[i][k] == d;
  }

  // ---------------------------------------------------------------------
  // Descendants
  // ---------------------------------------------------------------------

  /** The inodes reachable from `x` through the chains of directories, `x`
      included: the inodes newfs_sync_inode and newfs_drop_inode visit. */
  ghost function Desc(h: Heap, x: InodeId): set<InodeId>
    requires HeapOk(h) && x in h.ins
    decreases h.rank[x] - h.lo, 2, 0
  {
    {x} + (if IsDir(h, x) then DescUpTo(h, x, |h.chain[x]|) else {})
  }

  /** The descendants below the first `m` dentries of the chain of `x`. */
  ghost function DescUpTo(h: Heap, x: InodeId, m: int): set<InodeId>
    requires HeapOk(h) && x in h.ins && 0 <= m <= |h.chain[x]|
    decreases h.rank[x] - h.lo, 1, m
  {
    if m == 0 then {} else DescUpTo(h, x, m - 1) + ChildDesc(h, x, m - 1)
  }

  /** The descendants below the `k`-th dentry of the chain of `x`: none when
      that dentry has no inode in memory. */
  ghost function ChildDesc(h: Heap, x: InodeId, k: int): set<InodeId>
    requires HeapOk(h) && x in h.ins && 0 <= k < |h.chain[x]|
    decreases h.rank[x] - h.lo, 0, 0
  {
    var c := h.chain[x][k];
    assert h.owner[c] == x;
    match h.ds[c].inode
    case None => {}
    case Some(y) => Desc(h, y)
  }

  /** The directory whose chain holds the dentry of inode `z`. */
  ghost function ParentOf(h: Heap, z: InodeId): InodeId
    requires HeapOk(h) && z in h.ins && h.ins[z].dentry in h.owner
  {
    h.owner[h.ins[z].dentry]
  }

  /** Descendants rank no higher than their ancestor, strictly lower when
      they are proper descendants. */
  lemma {:induction false} DescRank(h: Heap, x: InodeId, z: InodeId)
    requires HeapOk(h) && x in h.ins && z in Desc(h, x)
    ensures z in h.ins && h.rank[z] <= h.rank[x]
    ensures z != x ==> h.rank[z] < h.rank[x]
    decreases h.rank[x] - h.lo, 2, 0
  {
    if z != x {
      DescUpToRank(h, x, |h.chain[x]|, z);
    }
  }

  lemma {:induction false} DescUpToRank(h: Heap, x: InodeId, m: int, z: InodeId)
    requires HeapOk(h) && x in h.ins && 0 <= m <= |h.chain[x]| && z in DescUpTo(h, x, m)
    ensures z in h.ins && h.rank[z] < h.rank[x]
    decreases h.rank[x] - h.lo, 1, m
  {
    if z in DescUpTo(h, x, m - 1) {
      DescUpToRank(h, x, m - 1, z);
    } else {
      var c := h.chain[x][m - 1];
      assert h.owner[c] == x;
      var y := h.ds[c].inode.value;
      DescRank(h, y, z);
    }
  }

  /** Later dentries of a chain add to the descendants seen so far. */
  lemma {:induction false} DescUpToMono(h: Heap, x: InodeId, m: int, m': int)
    requires HeapOk(h) && x in h.ins && 0 <= m <= m' <= |h.chain[x]|
    ensures DescUpTo(h, x, m) <= DescUpTo(h, x, m')
    decreases m'
  {
    if m < m' {
      DescUpToMono(h, x, m, m' - 1);
    }
  }

  /** The subtree below a dentry of a directory's chain lies within the
      directory's subtree. */
  lemma ChildDescSub(h: Heap, x: InodeId, k: int)
    requires HeapOk(h) && x in h.ins && IsDir(h, x) && 0 <= k < |h.chain[x]|
    ensures ChildDesc(h, x, k) <= Desc(h, x)
  {
    DescUpToMono(h, x, k + 1, |h.chain[x]|);
  }

  /** A proper descendant's parent directory is itself a descendant, and the
      descendant hangs below a dentry of that directory's chain. */
  lemma {:induction false} DescParent(h: Heap, x: InodeId, z: InodeId)
    requires HeapOk(h) && x in h.ins && z in Desc(h, x) && z != x
    ensures z in h.ins && h.ins[z].dentry in h.owner
    ensures ParentOf(h, z) in Desc(h, x)
    ensures h.ds[h.ins[z].dentry].inode == Some(z)
    decreases h.rank[x] - h.lo, 2, 0
  {
    DescUpToParent(h, x, |h.chain[x]|, z);
  }

  lemma {:induction false} DescUpToParent(h: Heap, x: InodeId, m: int, z: InodeId)
    requires HeapOk(h) && x in h.ins && IsDir(h, x) && 0 <= m <= |h.chain[x]| && z in DescUpTo(h, x, m)
    ensures z in h.ins && h.ins[z].dentry in h.owner
    ensures ParentOf(h, z) in Desc(h, x)
    ensures h.ds[h.ins[z].dentry].inode == Some(z)
    decreases h.rank[x] - h.lo, 1, m
  {
    if z in DescUpTo(h, x, m - 1) {
      DescUpToParent(h, x, m - 1, z);
    } else {
      var c := h.chain[x][m - 1];
      assert h.owner[c] == x;
      var y := h.ds[c].inode.value;
      assert z in Desc(h, y);
      ChildDescSub(h, x, m - 1);
      if z == y {
        assert h.ins[y].dentry == c;
      } else {
        DescParent(h, y, z);
      }
    }
  }

  /** Two subtrees that share an inode are nested. */
  lemma {:induction false} DescNested(h: Heap, a: InodeId, b: InodeId, z: InodeId)
    requires HeapOk(h) && a in h.ins && b in h.ins && z in h.ins && z in Desc(h, a) && z in Desc(h, b)
    ensures a in Desc(h, b) || b in Desc(h, a)
    decreases h.rank[a] - h.rank[z]
  {
    DescRank(h, a, z);
    if z != a && z != b {
      DescParent(h, a, z);
      DescParent(h, b, z);
      var p := ParentOf(h, z);
      DescRank(h, a, p);
      assert h.rank[z] < h.rank[p];
      DescRank(h, a, p);
      DescNested(h, a, b, p);
    }
  }

  /** The subtrees below two different dentries of one chain are disjoint. */
  lemma SiblingsDisjoint(h: Heap, x: InodeId, k1: int, k2: int)
    requires HeapOk(h) && x in h.ins && 0 <= k1 < |h.chain[x]| && 0 <= k2 < |h.chain[x]| && k1 != k2
    ensures ChildDesc(h, x, k1) !! ChildDesc(h, x, k2)
  {
    var c1, c2 := h.chain[x][k1], h.chain[x][k2];
    assert h.owner[c1] == x && h.owner[c2] == x;
    if z :| z in ChildDesc(h, x, k1) && z in ChildDesc(h, x, k2) {
      var y1, y2 := h.ds[c1].inode.value, h.ds[c2].inode.value;
      assert h.ins[y1].dentry == c1 && h.ins[y2].dentry == c2;
      DescRank(h, y1, z);
      DescNested(h, y1, y2, z);
      if y1 in Desc(h, y2) {
        DescParent(h, y2, y1);
        DescRank(h, y2, x);
      } else {
        DescParent(h, y1, y2);
        DescRank(h, y1, x);
      }
      assert false;
    }
  }

  /** The subtree below a later dentry of a chain is disjoint from those
      below the first `m` dentries. */
  lemma {:induction false} DescUpToDisjoint(h: Heap, x: InodeId, m: int, k: int)
    requires HeapOk(h) && x in h.ins && 0 <= m <= k < |h.chain[x]|
    ensures DescUpTo(h, x, m) !! ChildDesc(h, x, k)
  {
    if m > 0 {
      DescUpToDisjoint(h, x, m - 1, k);
      SiblingsDisjoint(h, x, m - 1, k);
    }
  }

  /** A directory is not among the descendants of its chain's dentries. */
  lemma ChildDescExcludes(h: Heap, x: InodeId, k: int)
    requires HeapOk(h) && x in h.ins && 0 <= k < |h.chain[x]|
    ensures x !in ChildDesc(h, x, k)
  {
    var c := h.chain[x][k];
    assert h.owner[c] == x;
    if h.ds[c].inode.Some? && x in ChildDesc(h, x, k) {
      DescRank(h, h.ds[c].inode.value, x);
    }
  }

  /** Descendants depend only on the dentries, and on the inodes, chains and
      ranks of the subtree itself. */
  lemma {:induction false} DescFrame(h: Heap, h': Heap, x: InodeId)
    requires HeapOk(h) && HeapOk(h') && x in h.ins && h'.ds == h.ds && h'.lo == h.lo
    requires forall w :: w in Desc(h, x) ==>
      w in h.ins && w in h'.ins && h'.ins[w] == h.ins[w] && h'.chain[w] == h.chain[w] && h'.rank[w] == h.rank[w]
    ensures x in h'.ins && Desc(h', x) == Desc(h, x)
    decreases h.rank[x] - h.lo, 2, 0
  {
    assert x in Desc(h, x);
    if IsDir(h, x) {
      DescUpToFrame(h, h', x, |h.chain[x]|);
    }
  }

  lemma {:induction false} DescUpToFrame(h: Heap, h': Heap, x: InodeId, m: int)
    requires HeapOk(h) && HeapOk(h') && x in h.ins && h'.ds == h.ds && h'.lo == h.lo
    requires IsDir(h, x) && 0 <= m <= |h.chain[x]|
    requires forall w :: w in Desc(h, x) ==>
      w in h.ins && w in h'.ins && h'.ins[w] == h.ins[w] && h'.chain[w] == h.chain[w] && h'.rank[w] == h.rank[w]
    ensures x in h'.ins && DescUpTo(h', x, m) == DescUpTo(h, x, m)
    decreases h.rank[x] - h.lo, 1, m
  {
    assert x in Desc(h, x);
    if m > 0 {
      DescUpToFrame(h, h', x, m - 1);
      ChildDescFrame(h, h', x, m - 1);
    }
  }

  lemma {:induction false} ChildDescFrame(h: Heap, h': Heap, x: InodeId, k: int)
    requires HeapOk(h) && HeapOk(h') && x in h.ins && h'.ds == h.ds && h'.lo == h.lo
    requires IsDir(h, x) && 0 <= k < |h.chain[x]|
    requires forall w :: w in Desc(h, x) ==>
      w in h.ins && w in h'.ins && h'.ins[w] == h.ins[w] && h'.chain[w] == h.chain[w] && h'.rank[w] == h.rank[w]
    ensures x in h'.ins && k < |h'.chain[x]| && ChildDesc(h', x, k) == ChildDesc(h, x, k)
    decreases h.rank[x] - h.lo, 0, 0
  {
    assert x in Desc(h, x);
    var c := h.chain[x][k];
    assert h.owner[c] == x;
    if h.ds[c].inode.Some? {
      var y := h.ds[c].inode.value;
      ChildDescSub(h, x, k);
      DescFrame(h, h', y);
    }
  }

  /** Every directory of the subtree has the inodes of its chain in memory:
      newfs_drop_inode follows each of them without a NULL check. */
  ghost predicate Hydrated(h: Heap, x: InodeId)
    requires HeapOk(h) && x in h.ins
  {
    forall w :: w in Desc(h, x) && w in h.ins && IsDir(h, w) ==>
      forall k :: 0 <= k < |h.chain[w]| ==> h.ds[h.chain[w][k]].inode.Some?
  }

  // ---------------------------------------------------------------------
  // The arena newfs_read_inode builds
  // ---------------------------------------------------------------------

  /** One child of newfs_read_inode: `kid` is added as dentry `d` and
      inserted at the head of the chain of `j` (newfs_alloc_dentry). */
  ghost function ReadStep(h: Heap, j: InodeId, d: DentryId, kid: Dentry): (r: Heap)
    requires j in h.ins && j in h.chain
    ensures j in r.ins && j in r.chain
    ensures r.ds == h.ds[d := if h.ins[j].dentrys.None? then kid else kid.(brother := h.ins[j].dentrys)]
    ensures r.ins == h.ins[j := h.ins[j].(dentrys := Some(d), dirCnt := h.ins[j].dirCnt + 1)]
    ensures r.chain == h.chain[j := [d] + h.chain[j]]
    ensures r.owner == h.owner[d := j] && r.rank == h.rank && r.lo == h.lo
  {
    InsertHead(AddDentry(h, d, kid), j, d)
  }

  /** The ids top, top-1, ..., top-n+1. */
  function Countdown(top: nat, n: nat): (c: seq<nat>)
    requires n <= top
    ensures |c| == n
    decreases n
  {
    if n == 0 then [] else [top] + Countdown(top - 1, n - 1)
  }

  lemma {:induction false} CountdownAt(top: nat, n: nat, k: int)
    requires n <= top && 0 <= k < n
    ensures Countdown(top, n)[k] == top - k
    decreases n
  {
    if k > 0 {
      CountdownAt(top - 1, n - 1, k - 1);
    }
  }

  /** Child `x - j - 1` of newfs_read_inode as it sits at id `x`: its brother
      is the child read before it. */
  function ReadKid(kids: seq<Dentry>, j: InodeId, x: int): (e: Dentry)
    requires j < x <= j + |kids|
    ensures e.brother == (if x == j + 1 then None else Some(x - 1))
  {
    kids[x - j - 1].(brother := if x == j + 1 then None else Some(x - 1))
  }

  /** What newfs_read_inode starts from: fresh ids from `j` on, an inode with
      an empty chain below a live dentry, and children that are not yet
      linked to anything. */
  ghost predicate ReadFresh(h: Heap, j: InodeId, n: Inode, kids: seq<Dentry>)
  {
    && (forall x :: x in h.ds ==> x < j) && (forall x :: x in h.ins ==> x < j)
    && (forall x :: x in h.owner ==> x < j)
    && n.dentry in h.ds && n.dentrys.None? && n.dirCnt == 0
    && forall k :: 0 <= k < |kids| ==> kids[k].inode.None? && kids[k].brother.None?
  }

  /** The dentries of `h` are kept, and the first `m` children are in: child
      k sits at id j+1+k with child k-1 as its brother. */
  ghost predicate ReadDentriesAt(h: Heap, r: Heap, j: InodeId, kids: seq<Dentry>, m: nat)
    requires m <= |kids|
  {
    && (forall x :: x in r.ds <==> x in h.ds || j < x <= j + m)
    && (forall x :: x in h.ds ==> r.ds[x] == h.ds[x])
    && (forall x :: j < x <= j + m ==> r.ds[x] == ReadKid(kids, j, x))
  }

  /** The children are owned by inode `j`; other owners stay. */
  ghost predicate ReadOwnersAt(h: Heap, r: Heap, j: InodeId, m: nat)
  {
    && (forall x :: x in r.owner <==> x in h.owner || j < x <= j + m)
    && (forall x :: x in h.owner ==> r.owner[x] == h.owner[x])
    && (forall x :: j < x <= j + m ==> r.owner[x] == j)
  }

  /** The arena newfs_read_inode has built from `h` after making inode `n`
      under id `j` and inserting the first `m` of `kids` in turn at the head
      of its chain: the inode counts them in dir_cnt and heads its chain with
      the last one read, its chain lists them from the last read to the
      first, and nothing that was there before changes. */
  ghost predicate ReadShape(h: Heap, r: Heap, j: InodeId, n: Inode, kids: seq<Dentry>, m: nat)
    requires m <= |kids|
  {
    && ReadDentriesAt(h, r, j, kids, m)
    && r.ins == h.ins[j := n.(dirCnt := n.dirCnt + m, dentrys := if m == 0 then n.dentrys else Some(j + m))]
    && r.chain == h.chain[j := Countdown(j + m, m)]
    && ReadOwnersAt(h, r, j, m)
    && r.rank == h.rank[j := h.lo - 1] && r.lo == h.lo - 1
  }

  /** Position k of the chain built after m children holds child m-1-k,
      since every child read is inserted at the head. */
  lemma ShapeKid(h: Heap, r: Heap, j: InodeId, n: Inode, kids: seq<Dentry>, m: nat, k: int)
    requires m <= |kids| && ReadShape(h, r, j, n, kids, m) && 0 <= k < m
    ensures j in r.chain && k < |r.chain[j]| && r.chain[j][k] in r.ds
    ensures r.ds[r.chain[j][k]] == kids[m - 1 - k].(brother := r.ds[r.chain[j][k]].brother)
  {
    CountdownAt(j + m, m, k);
    assert r.ds[j + m - k] == ReadKid(kids, j, j + m - k);
  }

  /** Making the inode: the shape with no child yet. */
  lemma ReadStart(h: Heap, j: InodeId, n: Inode, kids: seq<Dentry>)
    requires n.dentrys.None? && n.dirCnt == 0
    ensures ReadShape(h, AddInode(h, j, n), j, n, kids, 0)
  {
    assert n.(dirCnt := n.dirCnt + 0, dentrys := n.dentrys) == n;
  }

  /** Reading child k extends the shape by that child, whose id is still
      free and on no chain. */
  lemma ReadNext(h: Heap, r: Heap, j: InodeId, n: Inode, kids: seq<Dentry>, k: nat)
    requires ReadFresh(h, j, n, kids) && k < |kids|
    requires ReadShape(h, r, j, n, kids, k)
    ensures j in r.ins && j in r.chain && j + k + 1 !in r.ds && j + k + 1 !in r.owner
    ensures ReadShape(h, ReadStep(r, j, j + k + 1, kids[k]), j, n, kids, k + 1)
  {
    ReadNextDentries(h, r, j, kids, k);
    ReadNextChain(h, r, j, n, k, kids[k]);
    ReadNextOwners(h, r, j, k, kids[k]);
  }

  /** A fresh child with no brother and no inode keeps the arena well formed. */
  lemma ReadStepOk(r: Heap, j: InodeId, d: DentryId, kid: Dentry)
    requires HeapOk(r) && j in r.ins && j in r.chain && d !in r.ds && d !in r.owner
    requires kid.inode.None? && kid.brother.None?
    ensures HeapOk(ReadStep(r, j, d, kid))
  {
    AddDentryOk(r, d, kid);
    InsertHeadOk(AddDentry(r, d, kid), j, d);
  }

  lemma ReadNextDentries(h: Heap, r: Heap, j: InodeId, kids: seq<Dentry>, k: nat)
    requires forall x :: x in h.ds ==> x < j
    requires k < |kids| && kids[k].brother.None?
    requires j in r.ins && j in r.chain && ReadDentriesAt(h, r, j, kids, k)
    requires r.ins[j].dentrys == if k == 0 then None else Some(j + k)
    ensures ReadDentriesAt(h, ReadStep(r, j, j + k + 1, kids[k]), j, kids, k + 1)
  {
  }

  lemma ReadNextChain(h: Heap, r: Heap, j: InodeId, n: Inode, k: nat, kid: Dentry)
    requires j in r.ins && j in r.chain
    requires r.ins == h.ins[j := n.(dirCnt := n.dirCnt + k, dentrys := if k == 0 then n.dentrys else Some(j + k))]
    requires r.chain == h.chain[j := Countdown(j + k, k)]
    ensures var r' := ReadStep(r, j, j + k + 1, kid);
      && r'.ins == h.ins[j := n.(dirCnt := n.dirCnt + (k + 1), dentrys := Some(j + k + 1))]
      && r'.chain == h.chain[j := Countdown(j + k + 1, k + 1)]
  {
  }

  lemma ReadNextOwners(h: Heap, r: Heap, j: InodeId, k: nat, kid: Dentry)
    requires j in r.ins && j in r.chain && ReadOwnersAt(h, r, j, k)
    requires forall x :: x in h.owner ==> x < j
    ensures ReadOwnersAt(h, ReadStep(r, j, j + k + 1, kid), j, k + 1)
  {
  }

  /** The arena newfs_read_inode has built is well formed. */
  lemma ShapeOk(h: Heap, r: Heap, j: InodeId, n: Inode, kids: seq<Dentry>)
    requires HeapOk(h) && ReadFresh(h, j, n, kids) && ReadShape(h, r, j, n, kids, |kids|)
    ensures HeapOk(r)
  {
    CountdownAll(j + |kids|, |kids|);
    ShapeOwnChain(h, r, j, n, kids);
    ShapeChains(h, r, j, n, kids);
    ShapeOwners(h, r, j, n, kids);
    ShapeOldInodes(h, r, j, n, kids);
    ShapeLinks(h, r, j, n, kids);
    ShapeRanks(h, r, j, |kids|);
  }

  lemma CountdownAll(top: nat, n: nat)
    requires n <= top
    ensures forall k :: 0 <= k < n ==> Countdown(top, n)[k] == top - k
  {
    forall k | 0 <= k < n
      ensures Countdown(top, n)[k] == top - k
    {
      CountdownAt(top, n, k);
    }
  }

  /** The new inode's chain runs from the last child read to the first. */
  lemma ShapeOwnChain(h: Heap, r: Heap, j: InodeId, n: Inode, kids: seq<Dentry>)
    requires ReadFresh(h, j, n, kids) && ReadShape(h, r, j, n, kids, |kids|)
    requires forall k :: 0 <= k < |kids| ==> r.chain[j][k] == j + |kids| - k
    ensures Linked(r.ds, r.ins[j].dentrys, r.chain[j])
  {
    var m := |kids|;
    var c := r.chain[j];
    forall k | 0 <= k < m
      ensures c[k] in r.ds && r.ds[c[k]].brother == (if k + 1 < m then Some(c[k + 1]) else None)
    {
      assert r.ds[c[k]] == ReadKid(kids, j, j + m - k);
    }
    assert forall k, l :: 0 <= k < l < |c| ==> c[k] != c[l];
  }

  lemma ShapeChains(h: Heap, r: Heap, j: InodeId, n: Inode, kids: seq<Dentry>)
    requires ChainsOk(h) && ReadFresh(h, j, n, kids) && ReadShape(h, r, j, n, kids, |kids|)
    requires Linked(r.ds, r.ins[j].dentrys, r.chain[j])
    ensures ChainsOk(r)
  {
    forall i | i in r.ins && i != j
      ensures i in r.chain && Linked(r.ds, r.ins[i].dentrys, r.chain[i]) && r.ins[i].dirCnt == |r.chain[i]|
    {
      var c := h.chain[i];
      forall k | 0 <= k < |c|
        ensures c[k] in r.ds && r.ds[c[k]].brother == h.ds[c[k]].brother
      {
        assert c[k] in h.ds;
      }
      LinkedFrame(h.ds, r.ds, h.ins[i].dentrys, c);
    }
  }

  lemma ShapeOwners(h: Heap, r: Heap, j: InodeId, n: Inode, kids: seq<Dentry>)
    requires OwnersOk(h) && ReadFresh(h, j, n, kids) && ReadShape(h, r, j, n, kids, |kids|)
    requires forall k :: 0 <= k < |kids| ==> r.chain[j][k] == j + |kids| - k
    ensures OwnersOk(r)
  {
    var m := |kids|;
    forall d | d in r.owner
      ensures d in r.ds && r.owner[d] in r.ins && r.owner[d] in r.chain && d in r.chain[r.owner[d]]
    {
      if j < d <= j + m {
        assert r.chain[j][j + m - d] == d;
      }
    }
  }

  /** Only dentries that were there before hang an inode. */
  lemma ShapeOldInodes(h: Heap, r: Heap, j: InodeId, n: Inode, kids: seq<Dentry>)
    requires ReadFresh(h, j, n, kids) && ReadShape(h, r, j, n, kids, |kids|)
    ensures forall d :: d in r.ds && r.ds[d].inode.Some? ==> d in h.ds && r.ds[d] == h.ds[d]
  {
    forall d | j < d <= j + |kids|
      ensures r.ds[d].inode.None?
    {
      assert r.ds[d] == ReadKid(kids, j, d);
    }
  }

  lemma ShapeLinks(h: Heap, r: Heap, j: InodeId, n: Inode, kids: seq<Dentry>)
    requires LinksOk(h) && ReadFresh(h, j, n, kids) && ReadShape(h, r, j, n, kids, |kids|)
    requires forall d :: d in r.ds && r.ds[d].inode.Some? ==> d in h.ds && r.ds[d] == h.ds[d]
    ensures LinksOk(r)
  {
  }

  lemma ShapeRanks(h: Heap, r: Heap, j: InodeId, m: nat)
    requires RanksOk(h) && (forall d :: d in h.owner ==> h.owner[d] in h.ins)
    requires forall d :: d in h.ds && h.ds[d].inode.Some? ==> h.ds[d].inode.value in h.ins
    requires forall x :: x in h.ins ==> x < j
    requires forall x :: x in r.ins ==> x in h.ins || x == j
    requires r.rank == h.rank[j := h.lo - 1] && r.lo == h.lo - 1
    requires ReadOwnersAt(h, r, j, m)
    requires forall d :: d in r.ds && r.ds[d].inode.Some? ==> d in h.ds && r.ds[d] == h.ds[d]
    requires forall x :: x in h.ds ==> x < j
    ensures RanksOk(r)
  {
    forall i | i in r.ins
      ensures i in r.rank && r.rank[i] >= r.lo
    {
      if i != j {
        assert i in h.ins;
      }
    }
    forall d | d in r.owner && d in r.ds && r.ds[d].inode.Some?
      ensures r.owner[d] in r.rank && r.ds[d].inode.value in r.rank
      ensures r.rank[r.ds[d].inode.value] < r.rank[r.owner[d]]
    {
      assert d in h.ds && d in h.owner;
      var o, v := h.owner[d], h.ds[d].inode.value;
      assert o in h.ins && v in h.ins;
      assert r.owner[d] == o && r.ds[d].inode.value == v;
      assert r.rank[v] == h.rank[v] && r.rank[o] == h.rank[o];
    }
  }

  /** newfs_read_inode leaves the dentry it reads below exactly as it was:
      in particular, a dentry without an inode still has none, since the
      source leaves it to the caller to store the result. */
  lemma ReadLeavesDentryUnlinked(h: Heap, r: Heap, j: InodeId, n: Inode, kids: seq<Dentry>)
    requires ReadShape(h, r, j, n, kids, |kids|) && n.dentry in h.ds && h.ds[n.dentry].inode.None?
    ensures n.dentry in r.ds && r.ds[n.dentry].inode.None?
  {
  }

  // ---------------------------------------------------------------------
  // Growth of the arena
  // ---------------------------------------------------------------------

  /** `e'` is `e` with at most its missing inode filled in. */
  predicate Kept(e: Dentry, e': Dentry)
  {
    && e'.fname == e.fname && e'.ftype == e.ftype && e'.ino == e.ino
    && e'.parent == e.parent && e'.brother == e.brother
    && (e.inode.Some? ==> e'.inode == e.inode)
  }

  /** `h'` only adds to `h`: every dentry is kept up to a filled-in inode,
      and every inode, its chain and every owner stay as they were. */
  ghost predicate Extends(h: Heap, h': Heap)
  {
    && (forall d :: d in h.ds ==> d in h'.ds && Kept(h.ds[d], h'.ds[d]))
    && (forall i :: i in h.ins ==> i in h'.ins && h'.ins[i] == h.ins[i])
    && (forall i :: i in h.ins && i in h.chain ==> i in h'.chain && h'.chain[i] == h.chain[i])
    && (forall d :: d in h.owner ==> d in h'.owner && h'.owner[d] == h.owner[d])
  }

  lemma ExtendsTrans(h1: Heap, h2: Heap, h3: Heap)
    requires Extends(h1, h2) && Extends(h2, h3)
    ensures Extends(h1, h3)
  {
  }

  /** Reading an inode only adds to the arena. */
  lemma ReadExtends(h: Heap, r: Heap, j: InodeId, n: Inode, kids: seq<Dentry>)
    requires ReadFresh(h, j, n, kids) && ReadShape(h, r, j, n, kids, |kids|)
    ensures Extends(h, r)
  {
    assert j !in h.ins;
  }

  /** Storing the inode of a dentry that had none only adds to the arena. */
  lemma LinkExtends(h: Heap, h': Heap, d: DentryId, j: InodeId)
    requires d in h.ds && h.ds[d].inode.None?
    requires h'.ds == h.ds[d := h.ds[d].(inode := Some(j))]
    requires h'.ins == h.ins && h'.chain == h.chain && h'.owner == h.owner
    ensures Extends(h, h')
  {
  }
}
