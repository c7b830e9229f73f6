// The mounted file system: the in-memory super block of newfs (struct
// newfs_super in fs/newfs/include/types.h) with its two bitmaps, the device,
// and the arena of dentries and inodes, together with the operations of
// fs/newfs/src/newfs_utils.c that work on them.

module Fs {
  import opened Types
  import opened Driver
  import opened Bitmap
  import opened Layout
  import opened Tree
  import opened Entries
  import opened Store
  import opened Sync
  import opened Load
  import opened Path
  import opened Drop
  import opened Umount

  // ---------------------------------------------------------------------
  // Well-formedness of a mounted volume
  // ---------------------------------------------------------------------

  /** The arena is well formed, and its nodes are as the source's records
      need them: see ArenaOk. */
  ghost predicate NodesOk(h: Heap, next: nat, maxIno: int)
  {
    HeapOk(h) && ArenaOk(h, next, maxIno)
  }

  /** Every id is below the next one to be handed out, every name buffer is
      as new_dentry leaves it, and every inode number indexes the inode
      table. */
  ghost predicate ArenaOk(h: Heap, next: nat, maxIno: int)
  {
    && (forall d :: d in h.ds ==> d < next && Padded(h.ds[d].fname) && IsI32(h.ds[d].ino))
    && (forall i :: i in h.ins ==> i < next && 0 <= h.ins[i].ino < maxIno && IsI32(h.ins[i].size))
  }

  lemma InsertHeadNodesOk(h: Heap, i: InodeId, d: DentryId, next: nat, maxIno: int)
    requires NodesOk(h, next, maxIno) && CanInsert(h, i, d)
    ensures NodesOk(InsertHead(h, i, d), next, maxIno)
  {
    InsertHeadOk(h, i, d);
    InsertHeadArenaOk(h, i, d, next, maxIno);
  }

  lemma InsertHeadArenaOk(h: Heap, i: InodeId, d: DentryId, next: nat, maxIno: int)
    requires ArenaOk(h, next, maxIno) && i in h.ins && d in h.ds && i in h.chain
    ensures ArenaOk(InsertHead(h, i, d), next, maxIno)
  {
    var h' := InsertHead(h, i, d);
    assert forall e :: e in h'.ds ==> e in h.ds && h'.ds[e].fname == h.ds[e].fname && h'.ds[e].ino == h.ds[e].ino;
    assert forall j :: j in h'.ins ==> j in h.ins && h'.ins[j].ino == h.ins[j].ino && h'.ins[j].size == h.ins[j].size;
  }

  lemma RemoveAtNodesOk(h: Heap, i: InodeId, k: int, next: nat, maxIno: int)
    requires NodesOk(h, next, maxIno) && i in h.ins && 0 <= k < |h.chain[i]|
    ensures NodesOk(RemoveAt(h, i, k), next, maxIno)
  {
    RemoveAtOk(h, i, k);
    RemoveAtArenaOk(h, i, k, next, maxIno);
  }

  lemma RemoveAtArenaOk(h: Heap, i: InodeId, k: int, next: nat, maxIno: int)
    requires ArenaOk(h, next, maxIno) && i in h.ins && i in h.chain && 0 <= k < |h.chain[i]|
    requires forall m :: 0 <= m < |h.chain[i]| ==> h.chain[i][m] in h.ds
    ensures ArenaOk(RemoveAt(h, i, k), next, maxIno)
  {
    var h' := RemoveAt(h, i, k);
    assert forall e :: e in h'.ds ==> e in h.ds && h'.ds[e].fname == h.ds[e].fname && h'.ds[e].ino == h.ds[e].ino;
    assert forall j :: j in h'.ins ==> j in h.ins && h'.ins[j].ino == h.ins[j].ino && h'.ins[j].size == h.ins[j].size;
  }

  lemma AttachInodeNodesOk(h: Heap, d: DentryId, next: nat, ino: int, maxIno: int)
    requires NodesOk(h, next, maxIno) && d in h.ds && 0 <= ino < maxIno && IsI32(ino)
    ensures NodesOk(AttachInode(h, d, next, ino), next + 1, maxIno)
  {
    AttachInodeOk(h, d, next, ino);
    AttachInodeArenaOk(h, d, next, ino, maxIno);
  }

  lemma AttachInodeArenaOk(h: Heap, d: DentryId, next: nat, ino: int, maxIno: int)
    requires ArenaOk(h, next, maxIno) && d in h.ds && 0 <= ino < maxIno && IsI32(ino)
    ensures ArenaOk(AttachInode(h, d, next, ino), next + 1, maxIno)
  {
    var h' := AttachInode(h, d, next, ino);
    assert h'.ds == h.ds[d := h.ds[d].(ino := ino, inode := Some(next))];
    assert h'.ins == h.ins[next := Inode(ino, 0, 0, d, None)];
  }

  /** The directory entry records newfs_sync_inode writes for the chain of
      `i`, in chain order. */
  ghost function ChainRecords(h: Heap, i: InodeId, next: nat, maxIno: int): (rs: seq<DentryD>)
    requires NodesOk(h, next, maxIno) && i in h.ins
    ensures |rs| == |h.chain[i]|
    ensures forall k :: 0 <= k < |rs| ==> DentryDOk(rs[k])
  {
    ChainInArena(h, i, next, maxIno);
    var c := h.chain[i];
    seq(|c|, k requires 0 <= k < |c| => RecordOf(h.ds[c[k]]))
  }

  /** Every dentry on a chain is live and has a record. */
  lemma ChainInArena(h: Heap, i: InodeId, next: nat, maxIno: int)
    requires NodesOk(h, next, maxIno) && i in h.ins
    ensures i in h.chain
    ensures forall k :: 0 <= k < |h.chain[i]| ==>
      h.chain[i][k] in h.ds && IsNameBuf(h.ds[h.chain[i][k]].fname) && IsI32(h.ds[h.chain[i][k]].ino)
  {
    assert Linked(h.ds, h.ins[i].dentrys, h.chain[i]);
  }

  /** The `k`-th dentry of `i`'s chain: its record is the `k`-th of
      ChainRecords, its brother is the next one, and an inode below it ranks
      below `i`. */
  lemma ChainChild(h: Heap, i: InodeId, k: int, next: nat, maxIno: int) returns (e: Dentry)
    requires NodesOk(h, next, maxIno) && i in h.ins && 0 <= k < |h.chain[i]|
    ensures h.chain[i][k] in h.ds && e == h.ds[h.chain[i][k]]
    ensures e.brother == (if k + 1 < |h.chain[i]| then Some(h.chain[i][k + 1]) else None)
    ensures ChainRecords(h, i, next, maxIno)[k] == RecordOf(e)
    ensures e.inode.Some? ==> e.inode.value in h.ins && h.lo <= h.rank[e.inode.value] < h.rank[i]
  {
    LinkedAt(h.ds, h.ins[i].dentrys, h.chain[i], k);
    e := h.ds[h.chain[i][k]];
    assert h.owner[h.chain[i][k]] == i;
  }

  // ---------------------------------------------------------------------
  // Reading an inode back
  // ---------------------------------------------------------------------

  /** The dentries newfs_read_inode makes from a directory's records, in the
      order it reads them, each with `parent` as its parent. */
  function Children(es: seq<DentryD>, parent: DentryId): (kids: seq<Dentry>)
    requires forall k :: 0 <= k < |es| ==> DentryDOk(es[k])
    ensures |kids| == |es|
    ensures forall k :: 0 <= k < |es| ==> DentryDOk(es[k]) && kids[k] == ChildOf(es[k], parent)
  {
    seq(|es|, k requires 0 <= k < |es| && DentryDOk(es[k]) => ChildOf(es[k], parent))
  }

  /** A well-formed arena meets what newfs_read_inode starts from, with the
      next id for the new inode. */
  lemma ReadFreshFromNodes(h: Heap, next: nat, maxIno: int, n: Inode, es: seq<DentryD>)
    requires NodesOk(h, next, maxIno) && n.dentry in h.ds && n.dentrys.None? && n.dirCnt == 0
    requires forall k :: 0 <= k < |es| ==> DentryDOk(es[k])
    ensures ReadFresh(h, next, n, Children(es, n.dentry))
  {
    assert forall x :: x in h.owner ==> x in h.ds;
  }

  /** Child k read: the arena grows by that child. */
  lemma ReadAfter(h0: Heap, r: Heap, r': Heap, j: InodeId, n: Inode, kids: seq<Dentry>, k: int)
    requires ReadFresh(h0, j, n, kids) && 0 <= k < |kids|
    requires ReadShape(h0, r, j, n, kids, k)
    requires j in r.ins && j in r.chain && r' == ReadStep(r, j, j + k + 1, kids[k])
    ensures ReadShape(h0, r', j, n, kids, k + 1)
  {
    ReadNext(h0, r, j, n, kids, k);
  }

  /** The arena newfs_read_inode builds keeps every id below the next one,
      every name buffer padded and every inode number in the table. */
  lemma ReadArenaOk(h: Heap, r: Heap, j: nat, n: Inode, es: seq<DentryD>, maxIno: int)
    requires ArenaOk(h, j, maxIno) && 0 <= n.ino < maxIno && IsI32(n.size)
    requires forall k :: 0 <= k < |es| ==> DentryDOk(es[k])
    requires ReadShape(h, r, j, n, Children(es, n.dentry), |es|)
    ensures ArenaOk(r, j + |es| + 1, maxIno)
  {
    var kids := Children(es, n.dentry);
    forall x | j < x <= j + |es|
      ensures Padded(r.ds[x].fname) && IsI32(r.ds[x].ino)
    {
      assert r.ds[x] == ReadKid(kids, j, x);
    }
  }

  /** The new inode may hang below its own dentry: it ranks below every
      inode that was there, so below the dentry's owner. */
  lemma ReadLinkOk(h: Heap, r: Heap, j: nat, n: Inode, kids: seq<Dentry>, maxIno: int)
    requires NodesOk(h, j, maxIno) && n.dentry in h.ds
    requires HeapOk(r) && ReadShape(h, r, j, n, kids, |kids|)
    ensures CanLink(r, n.dentry, j)
  {
    var d := n.dentry;
    if d in r.owner {
      assert r.owner[d] == h.owner[d] && h.owner[d] in h.ins;
    }
  }

  /** Reading an inode leaves every older dentry as it was and on no new
      chain; in particular the root dentry stays unowned. */
  lemma ReadKeepsDentry(h0: Heap, r: Heap, j: InodeId, n: Inode, kids: seq<Dentry>, m: nat,
                        x: DentryId, maxIno: int)
    requires ArenaOk(h0, j, maxIno) && m <= |kids| && ReadShape(h0, r, j, n, kids, m)
    requires x in h0.ds && x !in h0.owner
    ensures x in r.ds && r.ds[x] == h0.ds[x] && x !in r.owner
  {
  }

  /** What newfs_read_inode finds after newfs_sync_inode of a directory: the
      dentry the new inode's chain holds at position k carries the name,
      type and ino of the dentry the synced chain held at the mirrored
      position |c|-1-k.  The order is reversed because every child read is
      inserted at the head. */
  lemma ReadReversesChain(h: Heap, i: InodeId, next: nat, maxIno: int,
                          h0: Heap, r: Heap, j: InodeId, n: Inode, k: int)
    requires NodesOk(h, next, maxIno) && i in h.ins
    requires ReadShape(h0, r, j, n, Children(ChainRecords(h, i, next, maxIno), n.dentry), |h.chain[i]|)
    requires 0 <= k < |h.chain[i]|
    ensures r.chain[j][k] in r.ds
    ensures r.ds[r.chain[j][k]].fname == h.ds[h.chain[i][|h.chain[i]| - 1 - k]].fname
    ensures r.ds[r.chain[j][k]].ftype == h.ds[h.chain[i][|h.chain[i]| - 1 - k]].ftype
    ensures r.ds[r.chain[j][k]].ino == h.ds[h.chain[i][|h.chain[i]| - 1 - k]].ino
    ensures r.ds[r.chain[j][k]].parent == Some(n.dentry) && r.ds[r.chain[j][k]].inode.None?
  {
    var m := |h.chain[i]|;
    var rs := ChainRecords(h, i, next, maxIno);
    var kids := Children(rs, n.dentry);
    ShapeKid(h0, r, j, n, kids, m, k);
    var o := ChainChild(h, i, m - 1 - k, next, maxIno);
    assert Padded(o.fname) && IsI32(o.ino) by {
      ChainInArena(h, i, next, maxIno);
    }
    RecordRoundTrip(o, n.dentry);
    assert kids[m - 1 - k] == ChildOf(RecordOf(o), n.dentry);
  }

  /** Storing an inode pointer changes no name and no ino. */
  lemma SetInodeArenaOk(h: Heap, h': Heap, d: DentryId, j: InodeId, next: nat, maxIno: int)
    requires ArenaOk(h, next, maxIno) && d in h.ds
    requires h'.ds == h.ds[d := h.ds[d].(inode := Some(j))] && h'.ins == h.ins
    ensures ArenaOk(h', next, maxIno)
  {
    assert forall x :: x in h'.ds ==> x in h.ds && h'.ds[x].fname == h.ds[x].fname && h'.ds[x].ino == h.ds[x].ino;
  }

  /** Storing inode `j` as the inode of `d`, which had none. */
  lemma LinkStepOk(h: Heap, h': Heap, d: DentryId, j: InodeId, next: nat, maxIno: int)
    requires CanLink(h, d, j) && ArenaOk(h, next, maxIno) && h.ds[d].inode.None?
    requires h'.ds == h.ds[d := h.ds[d].(inode := Some(j))]
    requires h'.ins == h.ins && h'.chain == h.chain && h'.owner == h.owner && h'.rank == h.rank && h'.lo == h.lo
    ensures NodesOk(h', next, maxIno) && Extends(h, h')
  {
    SetInodeOk(h, h', d, j);
    SetInodeArenaOk(h, h', d, j, next, maxIno);
    LinkExtends(h, h', d, j);
  }

  /** The inode read for a dentry without one may be stored as its inode,
      and the arena read only adds to the one before. */
  lemma ReadLinkable(h0: Heap, h1: Heap, j: nat, n: Inode, es: seq<DentryD>, maxIno: int)
    requires NodesOk(h0, j, maxIno) && n.dentry in h0.ds && h0.ds[n.dentry].inode.None?
    requires forall k :: 0 <= k < |es| ==> DentryDOk(es[k])
    requires ReadFresh(h0, j, n, Children(es, n.dentry))
    requires HeapOk(h1) && ReadShape(h0, h1, j, n, Children(es, n.dentry), |es|)
    ensures CanLink(h1, n.dentry, j) && h1.ds[n.dentry].inode.None? && Extends(h0, h1)
  {
    var kids := Children(es, n.dentry);
    ReadExtends(h0, h1, j, n, kids);
    ReadLinkOk(h0, h1, j, n, kids, maxIno);
    ReadLeavesDentryUnlinked(h0, h1, j, n, kids);
  }

  // ---------------------------------------------------------------------
  // Resolving a path
  // ---------------------------------------------------------------------

  /** What newfs_lookup hands back: the dentry it returns, and what it
      stores through is_find and is_root. */
  datatype Found = Found(dentry: DentryId, isFind: bool, isRoot: bool)

  /** One level of newfs_lookup: go on below the dentry found, find the
      dentry named by the last component, stop at the current dentry with a
      result, or stop where the source dereferences a NULL pointer. */
  datatype Level = Into(next: DentryId) | Hit(child: DentryId) | Stop(found: Found) | Stuck

  /** The dentry at position k of the chain of `i` is named `tok`, and none
      before it is. */
  ghost predicate FirstAt(h: Heap, i: InodeId, k: int, tok: string)
    requires i in h.chain && 0 <= k < |h.chain[i]|
  {
    && (forall m :: 0 <= m <= k ==> h.chain[i][m] in h.ds)
    && Matches(h.ds[h.chain[i][k]].fname, tok)
    && (forall m :: 0 <= m < k ==> !Matches(h.ds[h.chain[i][m]].fname, tok))
  }

  /** `d` is the first dentry of the chain of `i` named `tok`: the one the
      child scan of newfs_lookup stops at. */
  ghost predicate FirstMatch(h: Heap, i: InodeId, d: DentryId, tok: string)
  {
    i in h.chain && exists k :: 0 <= k < |h.chain[i]| && h.chain[i][k] == d && FirstAt(h, i, k, tok)
  }

  /** No dentry of the chain of `i` is named `tok`. */
  ghost predicate NoMatch(h: Heap, i: InodeId, tok: string)
  {
    i in h.chain && forall k :: 0 <= k < |h.chain[i]| ==> h.chain[i][k] in h.ds && !Matches(h.ds[h.chain[i][k]].fname, tok)
  }

  /** `d` is where the components `ts` lead from the root dentry: each names
      the first match on the chain of the inode of the dentry reached
      before it. */
  ghost predicate Reaches(h: Heap, root: DentryId, d: DentryId, ts: seq<string>)
    decreases |ts|
  {
    if ts == [] then d == root
    else
      && d in h.owner && h.owner[d] in h.ins
      && FirstMatch(h, h.owner[d], d, ts[|ts| - 1])
      && var p := h.ins[h.owner[d]].dentry;
         && p in h.ds && h.ds[p].inode == Some(h.owner[d])
         && Reaches(h, root, p, ts[..|ts| - 1])
  }

  /** Where a path leads stays where it leads while the arena grows. */
  lemma {:induction false} ReachesExtends(h: Heap, h': Heap, root: DentryId, d: DentryId, ts: seq<string>)
    requires Reaches(h, root, d, ts) && Extends(h, h')
    ensures Reaches(h', root, d, ts)
    decreases |ts|
  {
    if ts != [] {
      var i := h.owner[d];
      var tok := ts[|ts| - 1];
      ReachesExtends(h, h', root, h.ins[i].dentry, ts[..|ts| - 1]);
      var k :| 0 <= k < |h.chain[i]| && h.chain[i][k] == d && FirstAt(h, i, k, tok);
      assert FirstAt(h', i, k, tok);
    }
  }

  /** One more component: the first match below the dentry reached. */
  lemma ReachesChild(h: Heap, root: DentryId, p: DentryId, ts: seq<string>, i: InodeId, d: DentryId, tok: string)
    requires HeapOk(h) && Reaches(h, root, p, ts)
    requires p in h.ds && h.ds[p].inode == Some(i) && FirstMatch(h, i, d, tok)
    ensures Reaches(h, root, d, ts + [tok])
  {
    var k :| 0 <= k < |h.chain[i]| && h.chain[i][k] == d && FirstAt(h, i, k, tok);
    assert h.owner[d] == i;
    assert (ts + [tok])[..|ts|] == ts;
  }

  /** The outcome of one turn of newfs_lookup's loop at `cursor`, for the
      component `tok`, with `last` telling whether lvl == total_lvl and
      `failed` whether the cursor's inode cannot be read. */
  ghost predicate Turned(h: Heap, failed: bool, cursor: DentryId, tok: string, last: bool, isFind: bool, s: Level)
    requires cursor in h.ds
  {
    var e := h.ds[cursor];
    && (e.inode.None? ==> s.Stuck? && failed)
    && (e.inode.Some? && e.ftype == RegFile ==> s == if last then Stuck else Stop(Found(cursor, isFind, false)))
    && (e.inode.Some? && e.ftype == Dir ==>
          && (NoMatch(h, e.inode.value, tok) ==> s == Stop(Found(cursor, false, false)))
          && (!NoMatch(h, e.inode.value, tok) && last ==> s.Hit? && FirstMatch(h, e.inode.value, s.child, tok))
          && (!NoMatch(h, e.inode.value, tok) && !last ==> s.Into? && FirstMatch(h, e.inode.value, s.next, tok)))
  }

  /** What newfs_lookup returns when the walk stopped at `at` after the
      first `depth` components of `ts`: the root for "/", the dentry named
      by the last component when all of them were found, the directory
      missing the next component, a regular file met before the last level,
      and no result (a NULL dereference in the source) for a regular file
      at the last level or an inode that cannot be read. */
  ghost predicate Outcome(h: Heap, bytes: seq<bv8>, sb: SuperD, szBlk: int, root: DentryId, ts: seq<string>,
                          isFind: bool, r: Option<Found>, at: DentryId, depth: nat)
    requires szBlk >= DENTRY_D_SIZE
  {
    && at in h.ds && depth <= |ts| && Reaches(h, root, at, ts[..depth])
    && (r.Some? ==> r.value.dentry == at)
    && (ts == [] ==> r == Some(Found(root, true, true)))
    && (ts != [] && depth == |ts| ==> r == Some(Found(at, true, false)))
    && (depth < |ts| ==>
          var e := h.ds[at];
          && (e.inode.None? ==> r.None? && LoadInode(bytes, sb, szBlk, e.ino, e.ftype == Dir).None?)
          && (e.inode.Some? && e.ftype == Dir ==> r == Some(Found(at, false, false)) && NoMatch(h, e.inode.value, ts[depth]))
          && (e.inode.Some? && e.ftype == RegFile ==>
                r == if depth + 1 == |ts| then None else Some(Found(at, isFind, false))))
  }

  function Answer(s: Level): Option<Found>
  {
    match s
    case Hit(d) => Some(Found(d, true, false))
    case Stop(f) => Some(f)
    case _ => None
  }

  function StopAt(s: Level, cursor: DentryId): DentryId
  {
    if s.Hit? then s.child else cursor
  }

  function StopDepth(s: Level, lvl: nat): nat
  {
    if s.Hit? then lvl + 1 else lvl
  }

  /** A turn at the dentry reached by the first `lvl` components either goes
      on to the dentry reached by one more, before the last level, or ends
      the walk with its outcome. */
  lemma TurnOutcome(h: Heap, bytes: seq<bv8>, sb: SuperD, szBlk: int, root: DentryId, ts: seq<string>,
                    isFind: bool, lvl: nat, cursor: DentryId, s: Level)
    requires szBlk >= DENTRY_D_SIZE
    requires HeapOk(h) && lvl < |ts| && cursor in h.ds && Reaches(h, root, cursor, ts[..lvl])
    requires Turned(h, LoadInode(bytes, sb, szBlk, h.ds[cursor].ino, h.ds[cursor].ftype == Dir).None?,
                    cursor, ts[lvl], lvl + 1 == |ts|, isFind, s)
    ensures s.Into? ==> lvl + 1 < |ts| && s.next in h.ds && Reaches(h, root, s.next, ts[..lvl + 1])
    ensures !s.Into? ==> Outcome(h, bytes, sb, szBlk, root, ts, isFind, Answer(s), StopAt(s, cursor), StopDepth(s, lvl))
  {
    if s.Into? || s.Hit? {
      var d := if s.Into? then s.next else s.child;
      TurnChild(h, root, ts, lvl, cursor, d);
      if s.Hit? {
        WholePrefix(ts, lvl + 1);
      }
    } else {
      TurnStop(h, bytes, sb, szBlk, root, ts, isFind, lvl, cursor, s);
    }
  }

  lemma PrefixSnoc<T>(s: seq<T>, n: int)
    requires 0 <= n < |s|
    ensures s[..n] + [s[n]] == s[..n + 1]
  {
  }

  lemma WholePrefix<T>(s: seq<T>, n: int)
    requires n == |s|
    ensures s[..n] == s
  {
  }

  /** The dentry a turn moves to is reached by one more component. */
  lemma TurnChild(h: Heap, root: DentryId, ts: seq<string>, lvl: nat, cursor: DentryId, d: DentryId)
    requires HeapOk(h) && lvl < |ts| && cursor in h.ds && Reaches(h, root, cursor, ts[..lvl])
    requires h.ds[cursor].inode.Some? && FirstMatch(h, h.ds[cursor].inode.value, d, ts[lvl])
    ensures d in h.ds && Reaches(h, root, d, ts[..lvl + 1])
  {
    PrefixSnoc(ts, lvl);
    ReachesChild(h, root, cursor, ts[..lvl], h.ds[cursor].inode.value, d, ts[lvl]);
  }

  /** A turn that stays at its cursor ends the walk there. */
  lemma TurnStop(h: Heap, bytes: seq<bv8>, sb: SuperD, szBlk: int, root: DentryId, ts: seq<string>,
                 isFind: bool, lvl: nat, cursor: DentryId, s: Level)
    requires szBlk >= DENTRY_D_SIZE
    requires lvl < |ts| && cursor in h.ds && Reaches(h, root, cursor, ts[..lvl])
    requires Turned(h, LoadInode(bytes, sb, szBlk, h.ds[cursor].ino, h.ds[cursor].ftype == Dir).None?,
                    cursor, ts[lvl], lvl + 1 == |ts|, isFind, s)
    requires s.Stop? || s.Stuck?
    ensures Outcome(h, bytes, sb, szBlk, root, ts, isFind, Answer(s), cursor, lvl)
  {
  }

  /** The outcome of a walk that returned a dentry stays its outcome while
      the arena grows, as it does when the dentry is hydrated. */
  lemma OutcomeExtends(h: Heap, h': Heap, bytes: seq<bv8>, sb: SuperD, szBlk: int, root: DentryId, ts: seq<string>,
                       isFind: bool, r: Option<Found>, at: DentryId, depth: nat)
    requires szBlk >= DENTRY_D_SIZE
    requires HeapOk(h) && Outcome(h, bytes, sb, szBlk, root, ts, isFind, r, at, depth) && r.Some? && Extends(h, h')
    ensures Outcome(h', bytes, sb, szBlk, root, ts, isFind, r, at, depth)
  {
    ReachesExtends(h, h', root, at, ts[..depth]);
    if depth < |ts| {
      var i := h.ds[at].inode.value;
      assert h'.ds[at].inode == Some(i);
      if h.ds[at].ftype == Dir {
        assert NoMatch(h', i, ts[depth]);
      }
    }
  }

  // ---------------------------------------------------------------------
  // The file system object
  // ---------------------------------------------------------------------

  /** struct newfs_super while the volume is mounted.  The layout fields,
      the bitmaps and the root dentry are fixed by newfs_mount; the arena of
      dentries and inodes stands for the heap objects reached from the root
      dentry. */
  class Newfs {
    const disk: Disk
    const szBlk: int
    const sb: SuperD
    const mapInode: array<bv8>
    const mapData: array<bv8>
    const rootDentry: DentryId
    var ds: map<DentryId, Dentry>
    var ins: map<InodeId, Inode>
    var nextId: nat
    ghost var chain: map<InodeId, seq<DentryId>>
    ghost var owner: map<DentryId, InodeId>
    ghost var rank: map<InodeId, int>
    ghost var lo: int

    ghost function H(): Heap
      reads this
    {
      Heap(ds, ins, chain, owner, rank, lo)
    }

    ghost predicate Valid()
      reads this
    {
      && disk.ioSz > 0 && szBlk == 2 * disk.ioSz
      && GeometryOk(sb, szBlk, disk.szDisk)
      && mapInode.Length == BlksSz(sb.mapInodeBlks, szBlk)
      && mapData.Length == BlksSz(sb.mapDataBlks, szBlk)
      && mapInode != mapData
      && NodesOk(H(), nextId, sb.maxIno)
      && rootDentry in ds && rootDentry !in owner && ds[rootDentry].ftype == Dir
    }

    /** The state newfs_mount builds before the root inode is read: the
        layout, the bitmaps and a root dentry with nothing below it. */
    constructor (disk: Disk, szBlk: int, sb: SuperD, mapInode: array<bv8>, mapData: array<bv8>, root: Dentry)
      requires disk.ioSz > 0 && szBlk == 2 * disk.ioSz && GeometryOk(sb, szBlk, disk.szDisk)
      requires mapInode.Length == BlksSz(sb.mapInodeBlks, szBlk)
      requires mapData.Length == BlksSz(sb.mapDataBlks, szBlk) && mapInode != mapData
      requires Padded(root.fname) && IsI32(root.ino) && root.ftype == Dir && root.inode.None?
      ensures Valid()
      ensures this.disk == disk && this.szBlk == szBlk && this.sb == sb
      ensures this.mapInode == mapInode && this.mapData == mapData
      ensures ds == map[0 := root] && ins == map[] && rootDentry == 0 && nextId == 1
    {
      this.disk := disk;
      this.szBlk := szBlk;
      this.sb := sb;
      this.mapInode := mapInode;
      this.mapData := mapData;
      rootDentry := 0;
      ds := map[0 := root];
      ins := map[];
      nextId := 1;
      chain := map[];
      owner := map[];
      rank := map[];
      lo := 0;
    }

    // -------------------------------------------------------------------
    // The sibling chain
    // -------------------------------------------------------------------

    /** newfs_alloc_dentry: head insertion of `d` into the chain of `i`;
        returns the new dir_cnt. */
    method AllocDentry(i: InodeId, d: DentryId) returns (r: int)
      requires Valid() && CanInsert(H(), i, d) && d != rootDentry
      modifies this
      ensures Valid() && nextId == old(nextId)
      ensures H() == InsertHead(old(H()), i, d)
      ensures r == old(ins[i].dirCnt) + 1
    {
      InsertHeadNodesOk(H(), i, d, nextId, sb.maxIno);
      LinkHead(i, d);
      r := ins[i].dirCnt;
    }

    /** The pointer updates of newfs_alloc_dentry. */
    method LinkHead(i: InodeId, d: DentryId)
      requires i in ins && d in ds && i in chain
      modifies this
      ensures H() == InsertHead(old(H()), i, d) && nextId == old(nextId)
    {
      var n := ins[i];
      if n.dentrys.Some? {
        ds := ds[d := ds[d].(brother := n.dentrys)];
      }
      ins := ins[i := n.(dentrys := Some(d), dirCnt := n.dirCnt + 1)];
      chain := chain[i := [d] + chain[i]];
      owner := owner[d := i];
    }

    /** newfs_drop_dentry: unlinks `d` from the chain of `i`, through the
        inode when it is the head and through its predecessor otherwise, and
        returns the new dir_cnt; -ENOENT when `d` is not on the chain.  The
        scan for the predecessor is the source's loop; the rewrite it does
        before breaking out is done by Unlink once the loop has stopped. */
    method DropDentry(i: InodeId, d: DentryId) returns (r: int)
      requires Valid() && i in ins
      modifies this
      ensures Valid() && nextId == old(nextId)
      ensures d !in old(chain[i]) ==> r == -NEWFS_ERROR_NOTFOUND && H() == old(H())
      ensures d in old(chain[i]) ==>
        && H() == RemoveAt(old(H()), i, Position(old(chain[i]), d))
        && r == old(ins[i].dirCnt) - 1
    {
      var isFind, pre, pos := FindBefore(i, d);
      if !isFind {
        return -NEWFS_ERROR_NOTFOUND;
      }
      ghost var h0 := H();
      Unlink(i, d, pos, pre);
      r := ins[i].dirCnt;
      assert rootDentry in ds && rootDentry !in owner && ds[rootDentry].ftype == Dir;
      assert NodesOk(H(), nextId, sb.maxIno) by {
        RemoveAtNodesOk(h0, i, pos, nextId, sb.maxIno);
      }
    }

    /** The scan of newfs_drop_dentry: whether `d` is on the chain of `i`,
        and if so the dentry before it (none when it is the head). */
    method FindBefore(i: InodeId, d: DentryId) returns (isFind: bool, pre: Option<DentryId>, ghost pos: int)
      requires i in ins && i in chain && Linked(ds, ins[i].dentrys, chain[i])
      ensures isFind <==> d in chain[i]
      ensures isFind ==>
        && pos == Position(chain[i], d)
        && pre == if pos == 0 then None else Some(chain[i][pos - 1])
    {
      ghost var c := chain[i];
      pos := 0;
      pre := None;
      isFind := false;
      var cursor := ins[i].dentrys;
      if cursor == Some(d) {
        isFind := true;
      } else {
        ghost var k := 0;
        while cursor.Some?
          invariant 0 <= k <= |c|
          invariant cursor == if k < |c| then Some(c[k]) else None
          invariant forall m :: 0 <= m <= k && m < |c| ==> c[m] != d
          decreases |c| - k
        {
          LinkedAt(ds, ins[i].dentrys, c, k);
          var next := ds[cursor.value].brother;
          if next == Some(d) {
            pre := cursor;
            isFind := true;
            pos := k + 1;
            break;
          }
          cursor := next;
          k := k + 1;
        }
      }
      if isFind {
        assert Position(c, d) == pos;
      } else {
        assert d !in c;
      }
    }

    /** The pointer updates of newfs_drop_dentry once `d` is found at
        position `k` of the chain of `i`, `pre` being the dentry before it. */
    method Unlink(i: InodeId, d: DentryId, ghost k: int, pre: Option<DentryId>)
      requires i in ins && i in chain && 0 <= k < |chain[i]| && chain[i][k] == d
      requires forall m :: 0 <= m < |chain[i]| ==> chain[i][m] in ds
      requires pre == if k == 0 then None else Some(chain[i][k - 1])
      modifies this
      ensures H() == RemoveAt(old(H()), i, k) && nextId == old(nextId)
    {
      var next := ds[d].brother;
      if pre.None? {
        ins := ins[i := ins[i].(dentrys := next, dirCnt := ins[i].dirCnt - 1)];
      } else {
        ds := ds[pre.value := ds[pre.value].(brother := next)];
        ins := ins[i := ins[i].(dirCnt := ins[i].dirCnt - 1)];
      }
      chain := chain[i := chain[i][..k] + chain[i][k + 1..]];
      owner := owner - {d};
    }

    /** newfs_get_dentry: the `dir`-th dentry of the chain of `i`, counting
        from the head, or none when the chain is shorter. */
    method GetDentry(i: InodeId, dir: int) returns (r: Option<DentryId>)
      requires Valid() && i in ins
      ensures r == if 0 <= dir < |chain[i]| then Some(chain[i][dir]) else None
    {
      ghost var c := chain[i];
      var cursor := ins[i].dentrys;
      var cnt := 0;
      while cursor.Some?
        invariant 0 <= cnt <= |c|
        invariant cursor == if cnt < |c| then Some(c[cnt]) else None
        invariant dir < 0 || cnt <= dir
        decreases |c| - cnt
      {
        if dir == cnt {
          return cursor;
        }
        LinkedAt(ds, ins[i].dentrys, c, cnt);
        cnt := cnt + 1;
        cursor := ds[cursor.value].brother;
      }
      r := None;
    }

    // -------------------------------------------------------------------
    // The allocators
    // -------------------------------------------------------------------

    /** newfs_alloc_inode: claims the first clear bit of the inode bitmap
        below max_ino and hangs a fresh inode with that number under `d`. */
    method AllocInode(d: DentryId) returns (r: Option<InodeId>)
      requires Valid() && d in ds
      modifies this, mapInode
      ensures Valid()
      ensures var a := Alloc(old(mapInode[..]), sb.maxIno);
        && mapInode[..] == a.bits
        && (a.ret < 0 ==> r.None? && H() == old(H()) && nextId == old(nextId))
        && (a.ret >= 0 ==>
              && r == Some(old(nextId)) && nextId == old(nextId) + 1
              && H() == AttachInode(old(H()), d, old(nextId), a.ret))
    {
      AllocStaysBelowMax(mapInode[..], sb.maxIno);
      var ino := AllocScan(mapInode, sb.maxIno);
      if ino < 0 {
        return None;
      }
      r := Some(nextId);
      AttachInodeNodesOk(H(), d, nextId, ino, sb.maxIno);
      Attach(d, ino);
    }

    /** The pointer updates of newfs_alloc_inode once `ino` is granted: the
        new inode takes the next id. */
    method Attach(d: DentryId, ino: int)
      requires d in ds
      modifies this
      ensures H() == AttachInode(old(H()), d, old(nextId), ino) && nextId == old(nextId) + 1
    {
      var j := nextId;
      ins := ins[j := Inode(ino, 0, 0, d, None)];
      ds := ds[d := ds[d].(ino := ino, inode := Some(j))];
      chain := chain[j := []];
      rank := rank[j := lo - 1];
      lo := lo - 1;
      nextId := nextId + 1;
    }

    /** What newfs_sync_inode of `i` leaves behind when it succeeds: the
        blocks it claimed were free in `m0` and are taken in `m1`; a
        directory has one block per PerBlk records and its stored dir_cnt
        counts them; a regular file has one block per block of content, at
        most six; the inode record holds the inode's fields and the claimed
        pointers padded with -1; and the k-th entry record of a directory is
        that of the k-th dentry of its chain. */
    ghost predicate Synced(bytes: seq<bv8>, m0: seq<bv8>, m1: seq<bv8>, i: InodeId, ptrs: seq<int>, leftover: seq<int>)
      reads this
      requires Valid() && i in ins && |leftover| == NEWFS_DATA_PER_FILE
    {
      var n := ins[i];
      var isDir := IsDir(H(), i);
      && (isDir ==> Wrap32(n.dirCnt) == n.dirCnt)
      && |ptrs| <= NEWFS_DATA_PER_FILE
      && SyncedAs(bytes, m0, m1, sb, szBlk, ptrs,
                  if isDir then BlocksFor(|chain[i]|, PerBlk(szBlk)) else FileBlocks(n.size, szBlk),
                  InodeD(n.ino, n.size, Wrap32(n.dirCnt), ds[n.dentry].ftype, Pad(ptrs, leftover)),
                  if isDir then ChainRecords(H(), i, nextId, sb.maxIno) else [])
    }

    /** The sync/read round trip: what a successful newfs_sync_inode of `i`
        stores, newfs_read_inode reads back: the inode's number and size
        and, for a directory, one entry record per dentry of its chain, in
        chain order. */
    lemma SyncedLoads(bytes: seq<bv8>, m0: seq<bv8>, m1: seq<bv8>, i: InodeId, ptrs: seq<int>, leftover: seq<int>)
      requires Valid() && i in ins && |leftover| == NEWFS_DATA_PER_FILE && Synced(bytes, m0, m1, i, ptrs, leftover)
      ensures LoadInode(bytes, sb, szBlk, ins[i].ino, IsDir(H(), i))
        == Some(Loaded(ins[i].ino, ins[i].size, if IsDir(H(), i) then ChainRecords(H(), i, nextId, sb.maxIno) else []))
    {
      var n := ins[i];
      var isDir := IsDir(H(), i);
      var rs := if isDir then ChainRecords(H(), i, nextId, sb.maxIno) else [];
      var rec := InodeD(n.ino, n.size, Wrap32(n.dirCnt), ds[n.dentry].ftype, Pad(ptrs, leftover));
      StoredLoads(bytes, sb, szBlk, n.ino, rec, rs, isDir);
    }

    /** newfs_sync_inode: writes out a directory's entries (syncing the
        inode below each one after its entry) or claims a regular file's
        data blocks, then writes the inode record.  Returns -ENOSPC only
        when the data bitmap is full below max_dno or a directory needs more
        than six blocks for its entries; the results of the
        nested syncs are not looked at.  `leftover` is what the uninitialised
        local inode_d holds in the pointer slots after the -1 sentinel, which
        are stored as they are; the nested syncs are given the same. */
    method SyncInode(i: InodeId, leftover: seq<int>) returns (r: int, ptrs: seq<int>)
      requires Valid() && disk.Valid() && i in ins && LeftoverOk(leftover)
      modifies disk, mapData
      ensures disk.Valid()
      ensures Confined(old(disk.bytes), disk.bytes, old(mapData[..]), sb, szBlk)
      ensures Grows(old(mapData[..]), mapData[..])
      ensures r == NEWFS_ERROR_NONE || r == -NEWFS_ERROR_NOSPACE
      ensures r == NEWFS_ERROR_NONE ==> Synced(disk.bytes, old(mapData[..]), mapData[..], i, ptrs, leftover)
      ensures r == -NEWFS_ERROR_NOSPACE ==>
        Full(mapData[..], sb.maxDno) || (IsDir(H(), i) && BlocksFor(|chain[i]|, PerBlk(szBlk)) > NEWFS_DATA_PER_FILE)
      decreases rank[i] - lo, 3
    {
      var n := ins[i];
      var t := ds[n.dentry].ftype;
      ghost var rs := if t == Dir then ChainRecords(H(), i, nextId, sb.maxIno) else [];
      ghost var want := if t == Dir then BlocksFor(|chain[i]|, PerBlk(szBlk)) else FileBlocks(n.size, szBlk);
      ghost var m0 := mapData[..];
      if t == Dir {
        r, ptrs := SyncDir(i, leftover);
        if r == NEWFS_ERROR_NONE {
          DirCountFits(disk.bytes, m0, mapData[..], sb, szBlk, disk.szDisk, ptrs, rs);
        }
      } else {
        r, ptrs := SyncReg(i);
      }
      if r != NEWFS_ERROR_NONE {
        return;
      }
      ghost var m1 := mapData[..];
      var rec := InodeD(n.ino, n.size, Wrap32(n.dirCnt), t, Pad(ptrs, leftover));
      ghost var b1 := disk.bytes;
      WriteInodeRecord(disk, sb, szBlk, m0, m1, rec, ptrs, want, rs);
      ConfinedTrans(old(disk.bytes), b1, disk.bytes, m0, m1, sb, szBlk);
    }

    /** The directory part of newfs_sync_inode: the first block is claimed
        only when the chain is not empty. */
    method SyncDir(i: InodeId, leftover: seq<int>) returns (r: int, ptrs: seq<int>)
      requires Valid() && disk.Valid() && i in ins && LeftoverOk(leftover)
      modifies disk, mapData
      ensures disk.Valid()
      ensures Confined(old(disk.bytes), disk.bytes, old(mapData[..]), sb, szBlk)
      ensures Grows(old(mapData[..]), mapData[..])
      ensures r == NEWFS_ERROR_NONE || r == -NEWFS_ERROR_NOSPACE
      ensures r == NEWFS_ERROR_NONE ==>
        DirStored(disk.bytes, old(mapData[..]), mapData[..], sb, szBlk, ptrs, ChainRecords(H(), i, nextId, sb.maxIno))
      ensures r == -NEWFS_ERROR_NOSPACE ==> Full(mapData[..], sb.maxDno) || BlocksFor(|chain[i]|, PerBlk(szBlk)) > NEWFS_DATA_PER_FILE
      decreases rank[i] - lo, 2
    {
      ghost var rs := ChainRecords(H(), i, nextId, sb.maxIno);
      if ins[i].dentrys.None? {
        return NEWFS_ERROR_NONE, [];
      }
      var blks, cnt, offset;
      r, blks, cnt, offset := FirstDirBlock(disk, mapData, sb, szBlk, |rs|);
      if r != NEWFS_ERROR_NONE {
        return r, [];
      }
      r, ptrs := SyncEntries(i, leftover, disk.bytes, old(mapData[..]), blks, cnt, offset);
    }

    /** The loop of the directory part of newfs_sync_inode: walks the
        chain, storing each dentry's record and then syncing the inode
        below it, if any. */
    method SyncEntries(i: InodeId, leftover: seq<int>, ghost b0: seq<bv8>, ghost m0: seq<bv8>,
                       blks0: seq<int>, cnt0: int, offset0: int)
      returns (r: int, ptrs: seq<int>)
      requires Valid() && disk.Valid() && i in ins && |chain[i]| > 0 && LeftoverOk(leftover)
      requires DirProgress(disk.bytes, mapData[..], b0, m0, sb, szBlk, disk.szDisk, blks0, cnt0, offset0, 0,
                           ChainRecords(H(), i, nextId, sb.maxIno))
      modifies disk, mapData
      ensures disk.Valid()
      ensures |disk.bytes| == |b0| && Confined(b0, disk.bytes, m0, sb, szBlk) && Grows(m0, mapData[..])
      ensures r == NEWFS_ERROR_NONE || r == -NEWFS_ERROR_NOSPACE
      ensures r == NEWFS_ERROR_NONE ==>
        DirStored(disk.bytes, m0, mapData[..], sb, szBlk, ptrs, ChainRecords(H(), i, nextId, sb.maxIno))
      ensures r == -NEWFS_ERROR_NOSPACE ==> Full(mapData[..], sb.maxDno) || BlocksFor(|chain[i]|, PerBlk(szBlk)) > NEWFS_DATA_PER_FILE
      decreases rank[i] - lo, 1
    {
      ghost var c := chain[i];
      ghost var rs := ChainRecords(H(), i, nextId, sb.maxIno);
      var cursor := ins[i].dentrys;
      var blks, cnt, offset := blks0, cnt0, offset0;
      ghost var k := 0;
      while cursor.Some?
        invariant 0 <= k <= |c| && c == chain[i] && |rs| == |c|
        invariant cursor == if k < |c| then Some(c[k]) else None
        invariant disk.Valid()
        invariant DirProgress(disk.bytes, mapData[..], b0, m0, sb, szBlk, disk.szDisk, blks, cnt, offset, k, rs)
        invariant k > 0 ==> cnt >= 1
        decreases |c| - k
      {
        ghost var e0 := ChainChild(H(), i, k, nextId, sb.maxIno);
        var e := ds[cursor.value];
        var st;
        st, blks, cnt, offset := StoreEntry(disk, mapData, sb, szBlk, b0, m0, blks, cnt, offset, k, rs, RecordOf(e));
        if st != NEWFS_ERROR_NONE {
          if !Full(mapData[..], sb.maxDno) {
            BlocksForPastSix(|c|, PerBlk(szBlk));
          }
          return st, blks;
        }
        if e.inode.Some? {
          SyncChild(i, k, e.inode.value, leftover, b0, m0, blks, cnt, offset, rs);
        }
        cursor := e.brother;
        k := k + 1;
      }
      DirProgressDone(disk.bytes, mapData[..], b0, m0, sb, szBlk, disk.szDisk, blks, cnt, offset, k, rs);
      ptrs := blks;
      r := NEWFS_ERROR_NONE;
    }

    /** The nested sync of the directory loop: the inode `j` below the
        `k`-th dentry of `i`'s chain is synced, which keeps the loop's
        progress whatever it returns. */
    method SyncChild(i: InodeId, ghost k: int, j: InodeId, leftover: seq<int>, ghost b0: seq<bv8>, ghost m0: seq<bv8>,
                     ghost blks: seq<int>, ghost cnt: int, ghost offset: int, ghost rs: seq<DentryD>)
      requires Valid() && disk.Valid() && i in ins && 0 <= k < |chain[i]| && LeftoverOk(leftover)
      requires ds[chain[i][k]].inode == Some(j)
      requires DirProgress(disk.bytes, mapData[..], b0, m0, sb, szBlk, disk.szDisk, blks, cnt, offset, k + 1, rs)
      modifies disk, mapData
      ensures disk.Valid()
      ensures DirProgress(disk.bytes, mapData[..], b0, m0, sb, szBlk, disk.szDisk, blks, cnt, offset, k + 1, rs)
      decreases rank[i] - lo, 0
    {
      ghost var e := ChainChild(H(), i, k, nextId, sb.maxIno);
      ghost var bc := disk.bytes;
      ghost var mc := mapData[..];
      var _, _ := SyncInode(j, leftover);
      DirProgressConfined(bc, disk.bytes, mc, mapData[..], b0, m0, sb, szBlk, disk.szDisk, blks, cnt, offset, k + 1, rs);
    }

    /** The regular-file part of newfs_sync_inode: one data block per
        sz_blk bytes of content, stopping at NEWFS_DATA_PER_FILE blocks.
        The content itself is not modelled. */
    method SyncReg(i: InodeId) returns (r: int, ptrs: seq<int>)
      requires Valid() && i in ins
      modifies mapData
      ensures Grows(old(mapData[..]), mapData[..])
      ensures r == NEWFS_ERROR_NONE || r == -NEWFS_ERROR_NOSPACE
      ensures r == NEWFS_ERROR_NONE ==>
        && |ptrs| == FileBlocks(ins[i].size, szBlk)
        && Claimed(ptrs, old(mapData[..]), mapData[..], sb.maxDno)
      ensures r == -NEWFS_ERROR_NOSPACE ==> Full(mapData[..], sb.maxDno)
    {
      r, ptrs := ClaimBlocks(mapData, sb.maxDno, ins[i].size, szBlk);
    }

    /** newfs_alloc_data_blk: claims the first clear bit of the data bitmap
        below max_dno. */
    method AllocDataBlk() returns (r: int)
      requires Valid()
      modifies mapData
      ensures mapData[..] == Alloc(old(mapData[..]), sb.maxDno).bits
      ensures r == Alloc(old(mapData[..]), sb.maxDno).ret
    {
      r := AllocScan(mapData, sb.maxDno);
    }

    /** newfs_free_data_blk: refuses a block number at or past max_dno with
        -1, and otherwise clears that bit. */
    method FreeDataBlk(dno: int) returns (r: int)
      requires Valid()
      modifies mapData
      ensures mapData[..] == Free(old(mapData[..]), sb.maxDno, dno).bits
      ensures r == Free(old(mapData[..]), sb.maxDno, dno).ret
    {
      if dno >= sb.maxDno {
        return -1;
      }
      ClearScan(mapData, dno);
      r := NEWFS_ERROR_NONE;
    }

    // -------------------------------------------------------------------
    // newfs_read_inode
    // -------------------------------------------------------------------

    /** newfs_read_inode(dentry, ino): reads the inode record of `ino` and,
        when `d` is a directory dentry, its dir_cnt entry records, then makes
        a new inode below `d` (without setting d's inode pointer, which the
        callers do) and a child dentry per record, each inserted at the head
        of the new inode's chain by newfs_alloc_dentry.  Returns none, and
        changes nothing, when a read fails. */
    method ReadInode(d: DentryId, ino: int) returns (r: Option<InodeId>)
      requires Valid() && disk.Valid() && d in ds
      modifies this
      ensures Valid()
      ensures var isDir := old(ds[d].ftype) == Dir;
        var L := LoadInode(disk.bytes, sb, szBlk, ino, isDir);
        && (L.None? ==> r.None? && H() == old(H()) && nextId == old(nextId))
        && (L.Some? ==>
              && r == Some(old(nextId))
              && nextId == old(nextId) + |L.value.entries| + 1
              && ReadShape(old(H()), H(), old(nextId), Inode(L.value.ino, L.value.size, 0, d, None),
                           Children(L.value.entries, d), |L.value.entries|))
    {
      var L := ReadRecords(disk, sb, szBlk, ino, ds[d].ftype == Dir);
      if L.None? {
        return None;
      }
      var j := nextId;
      var n := Inode(L.value.ino, L.value.size, 0, d, None);
      var kids := Children(L.value.entries, d);
      ghost var h0 := H();
      ReadFreshFromNodes(h0, j, sb.maxIno, n, L.value.entries);
      ReadStart(h0, j, n, kids);
      PutInode(j, n);
      ReadChildren(h0, j, n, kids);
      nextId := j + |kids| + 1;
      ShapeOk(h0, H(), j, n, kids);
      ReadArenaOk(h0, H(), j, n, L.value.entries, sb.maxIno);
      ReadKeepsDentry(h0, H(), j, n, kids, |kids|, rootDentry, sb.maxIno);
      r := Some(j);
    }

    /** The new inode enters the arena with an empty chain. */
    method PutInode(j: InodeId, n: Inode)
      modifies this
      ensures H() == AddInode(old(H()), j, n) && nextId == old(nextId)
    {
      ins := ins[j := n];
      chain := chain[j := []];
      rank := rank[j := lo - 1];
      lo := lo - 1;
    }

    /** The child loop of newfs_read_inode: child k takes id j+1+k and goes
        to the head of the chain of inode `j`. */
    method ReadChildren(ghost h0: Heap, j: InodeId, n: Inode, kids: seq<Dentry>)
      requires ReadFresh(h0, j, n, kids) && ReadShape(h0, H(), j, n, kids, 0)
      modifies this
      ensures ReadShape(h0, H(), j, n, kids, |kids|) && nextId == old(nextId)
    {
      var k := 0;
      while k < |kids|
        invariant 0 <= k <= |kids| && nextId == old(nextId)
        invariant ReadShape(h0, H(), j, n, kids, k)
      {
        ReadChild(h0, j, n, kids, k);
        k := k + 1;
      }
    }

    /** Child k of the directory being read enters the arena. */
    method ReadChild(ghost h0: Heap, j: InodeId, n: Inode, kids: seq<Dentry>, k: int)
      requires ReadFresh(h0, j, n, kids) && 0 <= k < |kids| && ReadShape(h0, H(), j, n, kids, k)
      modifies this
      ensures ReadShape(h0, H(), j, n, kids, k + 1) && nextId == old(nextId)
    {
      ghost var r := H();
      AddChild(j, j + k + 1, kids[k]);
      ReadAfter(h0, r, H(), j, n, kids, k);
    }

    /** new_dentry's result enters the arena as `d`, and newfs_alloc_dentry
        puts it at the head of the chain of `j`. */
    method AddChild(j: InodeId, d: DentryId, kid: Dentry)
      requires j in ins && j in chain
      modifies this
      ensures H() == ReadStep(old(H()), j, d, kid) && nextId == old(nextId)
    {
      ds := ds[d := kid];
      LinkHead(j, d);
    }
  
    // -------------------------------------------------------------------
    // Path resolution
    // -------------------------------------------------------------------

    /** `if (dentry->inode == NULL) dentry->inode = newfs_read_inode(dentry,
        dentry->ino)`, as newfs_lookup does for the dentry it returns and as
        it evidently means to do for each dentry it walks through: returns
        whether `d` has an inode afterwards. */
    method Hydrate(d: DentryId) returns (ok: bool)
      requires Valid() && disk.Valid() && d in ds
      modifies this
      ensures Valid() && Extends(old(H()), H()) && d in ds
      ensures ok <==> ds[d].inode.Some?
      ensures old(ds[d].inode).Some? ==> H() == old(H())
      ensures old(ds[d].inode).None? ==>
        var L := LoadInode(disk.bytes, sb, szBlk, old(ds[d].ino), old(ds[d].ftype) == Dir);
        && (L.None? ==> H() == old(H()))
        && (L.Some? ==> ds[d].inode == Some(old(nextId)) && ins[old(nextId)].ino == L.value.ino)
    {
      if ds[d].inode.Some? {
        return true;
      }
      ghost var h0 := H();
      ghost var L := LoadInode(disk.bytes, sb, szBlk, ds[d].ino, ds[d].ftype == Dir);
      var r := ReadInode(d, ds[d].ino);
      if r.None? {
        return false;
      }
      var j := r.value;
      ghost var n := Inode(L.value.ino, L.value.size, 0, d, None);
      ghost var h1 := H();
      ReadFreshFromNodes(h0, j, sb.maxIno, n, L.value.entries);
      ReadLinkable(h0, h1, j, n, L.value.entries, sb.maxIno);
      SetInode(d, j);
      LinkStepOk(h1, H(), d, j, nextId, sb.maxIno);
      ExtendsTrans(h0, h1, H());
      ok := true;
    }

    /** `dentry->inode = inode`. */
    method SetInode(d: DentryId, j: InodeId)
      requires d in ds
      modifies this
      ensures ds == old(ds)[d := old(ds)[d].(inode := Some(j))] && nextId == old(nextId)
      ensures ins == old(ins) && chain == old(chain) && owner == old(owner) && rank == old(rank) && lo == old(lo)
    {
      ds := ds[d := ds[d].(inode := Some(j))];
    }

    /** The child scan of newfs_lookup: follows the brother links from the
        head of the chain of `i` to the first dentry named `tok`, with the
        comparison evidently intended at line 566 (see Path.Matches). */
    method FindChild(i: InodeId, tok: string) returns (hit: Option<DentryId>)
      requires i in ins && i in chain && Linked(ds, ins[i].dentrys, chain[i])
      ensures hit.None? ==> NoMatch(H(), i, tok)
      ensures hit.Some? ==> FirstMatch(H(), i, hit.value, tok)
    {
      ghost var c := chain[i];
      var cursor := ins[i].dentrys;
      ghost var k := 0;
      while cursor.Some?
        invariant 0 <= k <= |c|
        invariant cursor == if k < |c| then Some(c[k]) else None
        invariant forall m :: 0 <= m < k ==> c[m] in ds && !Matches(ds[c[m]].fname, tok)
        decreases |c| - k
      {
        LinkedAt(ds, ins[i].dentrys, c, k);
        if Matches(ds[cursor.value].fname, tok) {
          assert FirstAt(H(), i, k, tok);
          return cursor;
        }
        cursor := ds[cursor.value].brother;
        k := k + 1;
      }
      hit := None;
    }

    /** One turn of the loop of newfs_lookup at `cursor` with the component
        `tok`: the cursor is hydrated first; a regular file before the last
        level is the answer, one at the last level leaves dentry_ret NULL,
        and a directory is scanned for `tok`. */
    method Descend(cursor: DentryId, tok: string, last: bool, isFind: bool) returns (s: Level)
      requires Valid() && disk.Valid() && cursor in ds
      modifies this
      ensures Valid() && Extends(old(H()), H()) && cursor in ds
      ensures Turned(H(), LoadInode(disk.bytes, sb, szBlk, ds[cursor].ino, ds[cursor].ftype == Dir).None?,
                     cursor, tok, last, isFind, s)
    {
      var ok := Hydrate(cursor);
      if !ok {
        return Stuck;
      }
      var i := ds[cursor].inode.value;
      if ds[ins[i].dentry].ftype == RegFile {
        return if last then Stuck else Stop(Found(cursor, isFind, false));
      }
      var hit := FindChild(i, tok);
      if hit.None? {
        return Stop(Found(cursor, false, false));
      }
      if last {
        return Hit(hit.value);
      }
      return Into(hit.value);
    }

    /** The loop of newfs_lookup over the components of `path`, up to the
        dentry_ret it settles on; `at` is where the walk stopped and `depth`
        how many components led there. */
    method Walk(path: string, isFind: bool) returns (r: Option<Found>, ghost at: DentryId, ghost depth: nat)
      requires Valid() && disk.Valid() && IsCString(path) && Normal(path)
      modifies this
      ensures Valid() && Extends(old(H()), H())
      ensures Outcome(H(), disk.bytes, sb, szBlk, rootDentry, Tokens(path), isFind, r, at, depth)
    {
      var total := CalcLvl(path);
      LvlCountsTokens(path);
      var ts := Tokens(path);
      if total == 0 {
        return Some(Found(rootDentry, true, true)), rootDentry, 0;
      }
      var cursor, lvl := rootDentry, 0;
      while true
        invariant Valid() && Extends(old(H()), H())
        invariant lvl < |ts| && cursor in ds && Reaches(H(), rootDentry, cursor, ts[..lvl])
        decreases |ts| - lvl
      {
        ghost var h := H();
        var st := Descend(cursor, ts[lvl], lvl + 1 == total, isFind);
        ReachesExtends(h, H(), rootDentry, cursor, ts[..lvl]);
        ExtendsTrans(old(H()), h, H());
        TurnOutcome(H(), disk.bytes, sb, szBlk, rootDentry, ts, isFind, lvl, cursor, st);
        if !st.Into? {
          return Answer(st), StopAt(st, cursor), StopDepth(st, lvl);
        }
        cursor, lvl := st.next, lvl + 1;
      }
    }

    /** newfs_lookup: the walk, then `if (dentry_ret->inode == NULL)
        dentry_ret->inode = newfs_read_inode(...)` on the dentry returned,
        which is left without an inode only when it cannot be read. */
    method Lookup(path: string, isFind: bool) returns (r: Option<Found>, ghost at: DentryId, ghost depth: nat)
      requires Valid() && disk.Valid() && IsCString(path) && Normal(path)
      modifies this
      ensures Valid() && Extends(old(H()), H())
      ensures Outcome(H(), disk.bytes, sb, szBlk, rootDentry, Tokens(path), isFind, r, at, depth)
      ensures r.Some? && ds[at].inode.None? ==> LoadInode(disk.bytes, sb, szBlk, ds[at].ino, ds[at].ftype == Dir).None?
    {
      r, at, depth := Walk(path, isFind);
      if r.Some? {
        ghost var h := H();
        var _ := Hydrate(r.value.dentry);
        OutcomeExtends(h, H(), disk.bytes, sb, szBlk, rootDentry, Tokens(path), isFind, r, at, depth);
        ExtendsTrans(old(H()), h, H());
      }
    }

    // -------------------------------------------------------------------
    // newfs_drop_inode
    // -------------------------------------------------------------------

    /** newfs_drop_inode: refuses the inode of the root dentry with
        NEWFS_ERROR_INVAL, returned as a positive number and changing
        nothing; otherwise clears the inode bitmap bit of `i` and, for a
        directory, drops the inode of every dentry of its chain and unlinks
        that dentry, then returns NEWFS_ERROR_NONE.  In all, the bits of the
        whole subtree are cleared and every directory in it is left with an
        empty chain.  The nodes stay in the arena: releasing their memory is
        not modelled. */
    method DropInode(i: InodeId) returns (r: int)
      requires Valid() && i in ins && Hydrated(H(), i)
      modifies this, mapInode
      ensures Valid() && nextId == old(nextId)
      ensures old(ds[rootDentry].inode) == Some(i) ==>
        r == NEWFS_ERROR_INVAL && H() == old(H()) && mapInode[..] == old(mapInode[..])
      ensures old(ds[rootDentry].inode) != Some(i) ==>
        && r == NEWFS_ERROR_NONE
        && H() == Emptied(old(H()), DirsOf(old(H()), Desc(old(H()), i)))
        && Cleared(old(mapInode[..]), mapInode[..], Inos(old(H()), Desc(old(H()), i)))
      decreases rank[i] - lo, 3
    {
      if ds[rootDentry].inode == Some(i) {
        return NEWFS_ERROR_INVAL;
      }
      ghost var h0, m0 := H(), mapInode[..];
      ClearScan(mapInode, ins[i].ino);
      ClearAtCleared(m0, h0.ins[i].ino);
      if ds[ins[i].dentry].ftype == Dir {
        ghost var m1 := mapInode[..];
        DropChildren(i);
        DroppingEnd(h0, m0, m1, H(), mapInode[..], i);
      } else {
        DroppedFile(h0, m0, mapInode[..], i);
      }
      r := NEWFS_ERROR_NONE;
    }

    /** The loop of newfs_drop_inode over the chain of directory `i`, the
        cursor moving from `dentrys` along `brother`: after it, every dentry
        of the chain is unlinked and everything below them dropped. */
    method DropChildren(i: InodeId)
      requires Valid() && i in ins && IsDir(H(), i) && Hydrated(H(), i)
      modifies this, mapInode
      ensures Valid() && nextId == old(nextId)
      ensures Dropping(old(H()), old(mapInode[..]), H(), mapInode[..], i, |old(chain[i])|)
      decreases rank[i] - lo, 2
    {
      ghost var h0, m0 := H(), mapInode[..];
      ghost var c := chain[i];
      ghost var k := 0;
      var cursor := ins[i].dentrys;
      DroppingStart(h0, m0, i);
      while cursor.Some?
        invariant Valid() && nextId == old(nextId) && i in ins
        invariant Dropping(h0, m0, H(), mapInode[..], i, k)
        invariant cursor == if k < |c| then Some(c[k]) else None
        decreases |c| - k
      {
        DropChild(h0, m0, i, k, cursor.value);
        LinkedAt(h0.ds, h0.ins[i].dentrys, c, k);
        cursor := ds[cursor.value].brother;
        k := k + 1;
      }
    }

    /** One turn of the loop of newfs_drop_inode: drops the inode of `d`,
        the k-th dentry of the chain of `i` as it was before the loop, then
        unlinks `d`, by then the head of the chain. */
    method DropChild(ghost h0: Heap, ghost m0: seq<bv8>, i: InodeId, ghost k: int, d: DentryId)
      requires Valid() && i in ins && Dropping(h0, m0, H(), mapInode[..], i, k)
      requires IsDir(h0, i) && Hydrated(h0, i) && k < |h0.chain[i]| && d == h0.chain[i][k]
      modifies this, mapInode
      ensures Valid() && nextId == old(nextId) && i in ins
      ensures Dropping(h0, m0, H(), mapInode[..], i, k + 1)
      decreases rank[i] - lo, 1
    {
      ghost var hk, mk := H(), mapInode[..];
      DropBelow(h0, m0, i, k, d);
      ghost var h1, m1 := H(), mapInode[..];
      HeadOfRest(h0, h1, i, k);
      UnlinkHead(i, d);
      DroppingStep(h0, m0, hk, mk, h1, m1, H(), i, k);
    }

    /** The second half of a turn: newfs_drop_dentry on `d`, the head of the
        chain of `i` by then. */
    method UnlinkHead(i: InodeId, d: DentryId)
      requires Valid() && i in ins && i in chain && d in chain[i] && Position(chain[i], d) == 0
      modifies this
      ensures Valid() && nextId == old(nextId) && i in ins
      ensures H() == RemoveAt(old(H()), i, 0) && mapInode[..] == old(mapInode[..])
    {
      var _ := DropDentry(i, d);
    }

    /** The first half of a turn: drop_inode on the inode of `d`. */
    method DropBelow(ghost h0: Heap, ghost m0: seq<bv8>, i: InodeId, ghost k: int, d: DentryId)
      requires Valid() && i in ins && Dropping(h0, m0, H(), mapInode[..], i, k)
      requires IsDir(h0, i) && Hydrated(h0, i) && k < |h0.chain[i]| && d == h0.chain[i][k]
      modifies this, mapInode
      ensures Valid() && nextId == old(nextId) && i in ins
      ensures ChildGone(h0, m0, old(H()), old(mapInode[..]), H(), mapInode[..], i, k)
      decreases rank[i] - lo, 0
    {
      ChildReady(h0, H(), i, k, rootDentry);
      ghost var hk := H();
      var _ := DropInode(ds[d].inode.value);
      EmptiedKeepsChain(hk, DirsOf(h0, ChildDesc(h0, i, k)), i);
    }

    // -------------------------------------------------------------------
    // newfs_umount
    // -------------------------------------------------------------------

    /** What the metadata writes of newfs_umount keep: the inode records and
        directory entries a sync stored lie past the bitmaps, so they are
        still read back. */
    lemma SyncedUnmounted(b: seq<bv8>, mi: seq<bv8>, md: seq<bv8>, m0: seq<bv8>, m1: seq<bv8>, i: InodeId,
                          ptrs: seq<int>, leftover: seq<int>)
      requires Valid() && i in ins && |b| == disk.szDisk && MetaFits(sb, mi, md, |b|) && |leftover| == NEWFS_DATA_PER_FILE
      requires Synced(b, m0, m1, i, ptrs, leftover)
      ensures Synced(Unmounted(b, sb, mi, md), m0, m1, i, ptrs, leftover)
      ensures LoadInode(Unmounted(b, sb, mi, md), sb, szBlk, ins[i].ino, IsDir(H(), i))
        == Some(Loaded(ins[i].ino, ins[i].size, if IsDir(H(), i) then ChainRecords(H(), i, nextId, sb.maxIno) else []))
    {
      var n := ins[i];
      var isDir := IsDir(H(), i);
      var rs := if isDir then ChainRecords(H(), i, nextId, sb.maxIno) else [];
      var want := if isDir then BlocksFor(|chain[i]|, PerBlk(szBlk)) else FileBlocks(n.size, szBlk);
      var rec := InodeD(n.ino, n.size, Wrap32(n.dirCnt), ds[n.dentry].ftype, Pad(ptrs, leftover));
      MulNonNeg(|ptrs|, PerBlk(szBlk));
      SyncedAsUnmounted(b, sb, mi, md, m0, m1, szBlk, ptrs, want, rec, rs);
      SyncedLoads(Unmounted(b, sb, mi, md), m0, m1, i, ptrs, leftover);
    }

    /** newfs_umount on a mounted volume: syncs the tree below the root
        inode, whose result is not looked at, then stores the in-memory
        layout with NEWFS_MAGIC_NUM at offset 0 followed by the inode and
        data bitmaps, and returns NEWFS_ERROR_NONE.  The next mount adopts
        that layout and those bitmaps, and when the sync succeeded it reads
        the root inode and its directory entries back.  `leftover` is what
        the uninitialised pointer array of newfs_sync_inode holds. */
    method Umount(leftover: seq<int>) returns (r: int, ghost ok: bool, ghost ptrs: seq<int>)
      requires Valid() && disk.Valid() && ds[rootDentry].inode.Some? && LeftoverOk(leftover)
      modifies disk, mapData
      ensures disk.Valid() && r == NEWFS_ERROR_NONE
      ensures Grows(old(mapData[..]), mapData[..])
      ensures MetaStored(disk.bytes, sb, mapInode[..], mapData[..], szBlk)
      ensures ok ==> var j := ds[rootDentry].inode.value;
        && Synced(disk.bytes, old(mapData[..]), mapData[..], j, ptrs, leftover)
        && LoadInode(disk.bytes, sb, szBlk, ins[j].ino, IsDir(H(), j))
           == Some(Loaded(ins[j].ino, ins[j].size, if IsDir(H(), j) then ChainRecords(H(), j, nextId, sb.maxIno) else []))
      ensures !ok ==> var j := ds[rootDentry].inode.value;
        Full(mapData[..], sb.maxDno) || (IsDir(H(), j) && BlocksFor(|chain[j]|, PerBlk(szBlk)) > NEWFS_DATA_PER_FILE)
    {
      var j := ds[rootDentry].inode.value;
      ghost var m0 := mapData[..];
      var sr;
      sr, ptrs := SyncInode(j, leftover);
      ok := sr == NEWFS_ERROR_NONE;
      ghost var b := disk.bytes;
      GeometryMetaFits(sb, szBlk, disk.szDisk, mapInode[..], mapData[..]);
      WriteBack(disk, sb, mapInode[..], mapData[..]);
      UnmountedReadsBack(b, sb, mapInode[..], mapData[..], szBlk);
      if ok {
        SyncedUnmounted(b, mapInode[..], mapData[..], m0, mapData[..], j, ptrs, leftover);
      }
      r := NEWFS_ERROR_NONE;
    }
  }
}
