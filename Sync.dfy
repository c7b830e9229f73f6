// The writes of newfs_sync_inode (fs/newfs/src/newfs_utils.c) in terms
// of the device and the data bitmap alone: claiming a regular file's blocks,
// packing a directory's entry records into its blocks, and storing the inode
// record.  The walk over the in-memory tree that drives them is in Fs.

module Sync {
  import opened Types
  import opened Driver
  import opened Bitmap
  import opened Entries
  import opened Store

  /** The block loop of newfs_sync_inode for a regular file: claims one
      data block per `szBlk` bytes of `size`, at most NEWFS_DATA_PER_FILE,
      and gives up with -ENOSPC only when the bitmap has none left below
      `maxDno`. */
  method ClaimBlocks(m: array<bv8>, maxDno: int, size: int, szBlk: int) returns (r: int, ptrs: seq<int>)
    requires szBlk > 0
    modifies m
    ensures Grows(old(m[..]), m[..])
    ensures r == NEWFS_ERROR_NONE || r == -NEWFS_ERROR_NOSPACE
    ensures r == -NEWFS_ERROR_NOSPACE ==> Full(m[..], maxDno)
    ensures r == NEWFS_ERROR_NONE ==>
      && |ptrs| == FileBlocks(size, szBlk)
      && Claimed(ptrs, old(m[..]), m[..], maxDno)
  {
    ghost var m0 := m[..];
    var rest := size;
    ptrs := [];
    while rest > 0
      invariant |ptrs| < NEWFS_DATA_PER_FILE && rest == size - |ptrs| * szBlk
      invariant |ptrs| > 0 ==> (|ptrs| - 1) * szBlk < size
      invariant Grows(m0, m[..])
      invariant Claimed(ptrs, m0, m[..], maxDno)
      decreases rest
    {
      ghost var m1 := m[..];
      AllocGrows(m1, maxDno);
      var dno := AllocScan(m, maxDno);
      if dno == -NEWFS_ERROR_NOSPACE {
        return -NEWFS_ERROR_NOSPACE, ptrs;
      }
      ClaimedAppend(ptrs, m0, m1, m[..], maxDno, dno);
      assert (|ptrs| + 1) * szBlk == |ptrs| * szBlk + szBlk;
      ptrs := ptrs + [dno];
      rest := rest - szBlk;
      if |ptrs| >= NEWFS_DATA_PER_FILE {
        break;
      }
    }
    FileBlocksUnique(size, szBlk, |ptrs|);
    r := NEWFS_ERROR_NONE;
  }

  /** How far the directory loop of newfs_sync_inode has got: records
      0..k-1 of `rs` are stored in the blocks `blks`, claimed from what was
      free in `m0`; the last block holds `cnt` records and `offset` is where
      the next one goes; nothing outside the inode table and the blocks free
      in `m0` has changed since `b0`. */
  ghost predicate DirProgress(bytes: seq<bv8>, m: seq<bv8>, b0: seq<bv8>, m0: seq<bv8>, l: SuperD, szBlk: int,
                              len: int, blks: seq<int>, cnt: int, offset: int, k: int, rs: seq<DentryD>)
  {
    && GeometryOk(l, szBlk, len) && |bytes| == len
    && Confined(b0, bytes, m0, l, szBlk) && Grows(m0, m)
    && 1 <= |blks| <= NEWFS_DATA_PER_FILE
    && 0 <= cnt <= PerBlk(szBlk) && k == (|blks| - 1) * PerBlk(szBlk) + cnt
    && offset == DataOfs(l.dataOffset, szBlk, blks[|blks| - 1]) + cnt * DENTRY_D_SIZE
    && Claimed(blks, m0, m, l.maxDno)
    && 0 <= k <= |rs|
    && (forall j :: 0 <= j < k ==> EntryStored(bytes, l.dataOffset, szBlk, blks, j, rs[j]))
  }

  /** The first block of a non-empty directory, claimed before the loop. */
  method FirstDirBlock(disk: Disk, m: array<bv8>, l: SuperD, szBlk: int, ghost n: int)
    returns (r: int, blks: seq<int>, cnt: int, offset: int)
    requires disk.Valid() && GeometryOk(l, szBlk, disk.szDisk) && n >= 0
    modifies m
    ensures r == NEWFS_ERROR_NONE || r == -NEWFS_ERROR_NOSPACE
    ensures r != NEWFS_ERROR_NONE ==> m[..] == old(m[..]) && Full(m[..], l.maxDno)
    ensures r == NEWFS_ERROR_NONE ==>
      DirProgress(disk.bytes, m[..], disk.bytes, old(m[..]), l, szBlk, disk.szDisk, blks, cnt, offset, 0, [])
  {
    ghost var m0 := m[..];
    AllocGrows(m0, l.maxDno);
    var dno := AllocScan(m, l.maxDno);
    if dno == -NEWFS_ERROR_NOSPACE {
      return -NEWFS_ERROR_NOSPACE, [], 0, 0;
    }
    ClaimedAppend([], m0, m0, m[..], l.maxDno, dno);
    r, blks, cnt, offset := NEWFS_ERROR_NONE, [dno], 0, DataOfs(l.dataOffset, szBlk, dno);
  }

  /** The claim at line 306 as written stores the allocator's result
      without looking at it: with the data bitmap full the result is
      -ENOSPC, and the block the next record is written to lies wholly
      below the data region. */
  lemma UncheckedClaimAsWritten(m: seq<bv8>, maxDno: int, dataOffset: int, szBlk: int)
    requires szBlk > 0
    requires forall j :: 0 <= j < UINT8_BITS * |m| ==> Bit(m, j)
    ensures AllocAsWritten(m, maxDno).ret == -NEWFS_ERROR_NOSPACE
    ensures DataOfs(dataOffset, szBlk, AllocAsWritten(m, maxDno).ret) + szBlk <= dataOffset
  {
    assert FirstClear(m, 0) == -1;
    assert -NEWFS_ERROR_NOSPACE * szBlk + szBlk <= 0;
  }

  /** One step of the directory loop: when the last block is full a new
      one is claimed (-ENOSPC once six are in use, that is when record `k`
      is past what six blocks hold, or when the bitmap is exhausted), then
      record `k` is written at `offset`. */
  method StoreEntry(disk: Disk, m: array<bv8>, l: SuperD, szBlk: int, ghost b0: seq<bv8>, ghost m0: seq<bv8>,
                    blks: seq<int>, cnt: int, offset: int, ghost k: int, ghost rs: seq<DentryD>, rec: DentryD)
    returns (r: int, blks': seq<int>, cnt': int, offset': int)
    requires disk.Valid() && 0 <= k < |rs| && rs[k] == rec && DentryDOk(rec)
    requires DirProgress(disk.bytes, m[..], b0, m0, l, szBlk, disk.szDisk, blks, cnt, offset, k, rs)
    modifies disk, m
    ensures disk.Valid()
    ensures r == NEWFS_ERROR_NONE || r == -NEWFS_ERROR_NOSPACE
    ensures r != NEWFS_ERROR_NONE ==>
      |disk.bytes| == |b0| && Confined(b0, disk.bytes, m0, l, szBlk) && Grows(m0, m[..])
    ensures r != NEWFS_ERROR_NONE ==> k == NEWFS_DATA_PER_FILE * PerBlk(szBlk) || Full(m[..], l.maxDno)
    ensures r == NEWFS_ERROR_NONE ==>
      cnt' >= 1 && DirProgress(disk.bytes, m[..], b0, m0, l, szBlk, disk.szDisk, blks', cnt', offset', k + 1, rs)
  {
    blks', cnt', offset' := blks, cnt, offset;
    if cnt == szBlk / DENTRY_D_SIZE {
      if |blks| == NEWFS_DATA_PER_FILE {
        return -NEWFS_ERROR_NOSPACE, blks', cnt', offset';
      }
      ghost var m1 := m[..];
      AllocGrows(m1, l.maxDno);
      var dno := AllocScan(m, l.maxDno);
      if dno == -NEWFS_ERROR_NOSPACE {
        return -NEWFS_ERROR_NOSPACE, blks', cnt', offset';
      }
      NewBlockProgress(disk.bytes, m1, m[..], b0, m0, l, szBlk, disk.szDisk, blks, offset, k, rs, dno);
      blks' := blks + [dno];
      cnt' := 0;
      offset' := DataOfs(l.dataOffset, szBlk, dno);
    }
    WriteEntryProgress(disk.bytes, m[..], b0, m0, l, szBlk, disk.szDisk, blks', cnt', offset', k, rs);
    disk.DriverWrite(offset', EncodeDentryD(rec));
    offset' := offset' + DENTRY_D_SIZE;
    cnt' := cnt' + 1;
    r := NEWFS_ERROR_NONE;
  }

  /** Claiming block `dno` when the last block is full starts a new one. */
  lemma NewBlockProgress(b: seq<bv8>, m1: seq<bv8>, m2: seq<bv8>, b0: seq<bv8>, m0: seq<bv8>, l: SuperD, szBlk: int,
                         len: int, blks: seq<int>, offset: int, k: int, rs: seq<DentryD>, dno: int)
    requires szBlk >= DENTRY_D_SIZE
    requires DirProgress(b, m1, b0, m0, l, szBlk, len, blks, PerBlk(szBlk), offset, k, rs)
    requires |blks| < NEWFS_DATA_PER_FILE && Grows(m1, m2)
    requires 0 <= dno < l.maxDno && dno < UINT8_BITS * |m1| && !Bit(m1, dno) && Bit(m2, dno)
    ensures DirProgress(b, m2, b0, m0, l, szBlk, len, blks + [dno], 0, DataOfs(l.dataOffset, szBlk, dno), k, rs)
  {
    var per := PerBlk(szBlk);
    ClaimedAppend(blks, m0, m1, m2, l.maxDno, dno);
    assert (|blks + [dno]| - 1) * per + 0 == (|blks| - 1) * per + per;
    forall j | 0 <= j < k
      ensures EntryStored(b, l.dataOffset, szBlk, blks + [dno], j, rs[j])
    {
      EntryStoredExtend(b, l.dataOffset, szBlk, blks, [dno], j, rs[j]);
    }
  }

  /** Writing record `k` at `offset` stores it and keeps the records before
      it, within a block that was free in `m0`. */
  lemma WriteEntryProgress(b: seq<bv8>, m: seq<bv8>, b0: seq<bv8>, m0: seq<bv8>, l: SuperD, szBlk: int,
                           len: int, blks: seq<int>, cnt: int, offset: int, k: int, rs: seq<DentryD>)
    requires DirProgress(b, m, b0, m0, l, szBlk, len, blks, cnt, offset, k, rs)
    requires cnt < PerBlk(szBlk) && k < |rs| && DentryDOk(rs[k])
    ensures 0 <= offset && offset + DENTRY_D_SIZE <= |b|
    ensures DirProgress(Overwrite(b, offset, EncodeDentryD(rs[k])), m, b0, m0, l, szBlk, len,
                        blks, cnt + 1, offset + DENTRY_D_SIZE, k + 1, rs)
  {
    var last := blks[|blks| - 1];
    var input := EncodeDentryD(rs[k]);
    EntrySlotInDevice(l, szBlk, len, blks, cnt, offset, k);
    var b' := Overwrite(b, offset, input);
    WriteFreeBlockConfined(b, offset, input, m0, l, szBlk, last);
    ConfinedTrans(b0, b, b', m0, m0, l, szBlk);
    EntriesAfterWrite(b, l, szBlk, blks, rs, k, m);
    assert k + 1 == (|blks| - 1) * PerBlk(szBlk) + (cnt + 1);
  }

  /** The slot of record `k` in the last block lies inside that block,
      within the device. */
  lemma EntrySlotInDevice(l: SuperD, szBlk: int, len: int, blks: seq<int>, cnt: int, offset: int, k: int)
    requires GeometryOk(l, szBlk, len) && 1 <= |blks|
    requires 0 <= blks[|blks| - 1] < l.maxDno && 0 <= cnt < PerBlk(szBlk)
    requires k == (|blks| - 1) * PerBlk(szBlk) + cnt
    requires offset == DataOfs(l.dataOffset, szBlk, blks[|blks| - 1]) + cnt * DENTRY_D_SIZE
    ensures 0 <= k && k / PerBlk(szBlk) == |blks| - 1 && offset == EntryOfs(l.dataOffset, szBlk, blks, k)
    ensures 0 <= DataOfs(l.dataOffset, szBlk, blks[|blks| - 1]) <= offset
    ensures offset + DENTRY_D_SIZE <= DataOfs(l.dataOffset, szBlk, blks[|blks| - 1]) + szBlk <= len
  {
    EntryInLastBlock(l.dataOffset, szBlk, blks, k, cnt);
    EntryInBlock(l.dataOffset, szBlk, blks, k);
    DataBlockInDevice(l, szBlk, len, blks[|blks| - 1]);
    GeometryFacts(l, szBlk, len);
  }

  /** A confined step that only claims more bits keeps the loop's progress. */
  lemma DirProgressConfined(b1: seq<bv8>, b2: seq<bv8>, m1: seq<bv8>, m2: seq<bv8>, b0: seq<bv8>, m0: seq<bv8>,
                            l: SuperD, szBlk: int, len: int, blks: seq<int>, cnt: int, offset: int, k: int, rs: seq<DentryD>)
    requires DirProgress(b1, m1, b0, m0, l, szBlk, len, blks, cnt, offset, k, rs)
    requires Confined(b1, b2, m1, l, szBlk) && Grows(m1, m2)
    ensures DirProgress(b2, m2, b0, m0, l, szBlk, len, blks, cnt, offset, k, rs)
  {
    ConfinedTrans(b0, b1, b2, m0, m1, l, szBlk);
    EntriesAfterConfined(b1, b2, m1, l, szBlk, blks, rs, k);
    ClaimedGrows(blks, m0, m1, m2, l.maxDno);
  }

  /** What the directory part of newfs_sync_inode leaves behind: one block
      per PerBlk records, at most six, claimed between `m0` and `m`, with
      record k of `rs` in slot k. */
  ghost predicate DirStored(bytes: seq<bv8>, m0: seq<bv8>, m: seq<bv8>, l: SuperD, szBlk: int, ptrs: seq<int>, rs: seq<DentryD>)
  {
    && szBlk >= DENTRY_D_SIZE
    && |ptrs| == BlocksFor(|rs|, PerBlk(szBlk)) <= NEWFS_DATA_PER_FILE
    && Claimed(ptrs, m0, m, l.maxDno)
    && forall k :: 0 <= k < |rs| ==> EntryStored(bytes, l.dataOffset, szBlk, ptrs, k, rs[k])
  }

  /** At the end of the chain the blocks in use are exactly those needed. */
  lemma DirProgressDone(bytes: seq<bv8>, m: seq<bv8>, b0: seq<bv8>, m0: seq<bv8>, l: SuperD, szBlk: int,
                        len: int, blks: seq<int>, cnt: int, offset: int, k: int, rs: seq<DentryD>)
    requires DirProgress(bytes, m, b0, m0, l, szBlk, len, blks, cnt, offset, k, rs) && k == |rs| > 0 && cnt >= 1
    ensures DirStored(bytes, m0, m, l, szBlk, blks, rs)
  {
    BlocksForFilled(k, PerBlk(szBlk), |blks|, cnt);
  }

  /** A directory whose records fit in six blocks counts them in a 32-bit
      dir_cnt. */
  lemma DirCountFits(bytes: seq<bv8>, m0: seq<bv8>, m: seq<bv8>, l: SuperD, szBlk: int, len: int,
                     ptrs: seq<int>, rs: seq<DentryD>)
    requires GeometryOk(l, szBlk, len) && DirStored(bytes, m0, m, l, szBlk, ptrs, rs)
    ensures IsI32(|rs|)
  {
    var per := PerBlk(szBlk);
    if |rs| > 0 {
      assert 0 <= ptrs[0] < l.maxDno;
      GeometryFacts(l, szBlk, len);
      MulAtLeast(l.maxDno, szBlk);
    }
    MulMonotone(BlocksFor(|rs|, per), NEWFS_DATA_PER_FILE, per);
  }

  /** What newfs_sync_inode leaves behind for the inode record `rec`: the
      `want` blocks it needed were free in `m0` and are taken in `m1`, the
      record lists them followed by the sentinel -1, it sits in its slot of the inode
      table, and record k of `rs` sits in slot k of those blocks. */
  ghost predicate SyncedAs(bytes: seq<bv8>, m0: seq<bv8>, m1: seq<bv8>, l: SuperD, szBlk: int,
                           ptrs: seq<int>, want: int, rec: InodeD, rs: seq<DentryD>)
  {
    && |ptrs| == want && |ptrs| <= NEWFS_DATA_PER_FILE
    && Claimed(ptrs, m0, m1, l.maxDno)
    && PointersOf(rec.blkPointer, ptrs)
    && Stored(bytes, l, szBlk, rec.ino, rec, rs)
  }

  /** The last write of newfs_sync_inode: the inode record at its slot of
      the inode table, which leaves the entry records alone. */
  method WriteInodeRecord(disk: Disk, l: SuperD, szBlk: int, ghost m0: seq<bv8>, ghost m1: seq<bv8>, rec: InodeD,
                          ghost ptrs: seq<int>, ghost want: int, ghost rs: seq<DentryD>)
    requires disk.Valid() && GeometryOk(l, szBlk, disk.szDisk)
    requires 0 <= rec.ino < l.maxIno && IsI32(rec.size) && IsI32(rec.dirCnt)
    requires |ptrs| == want && PointersOf(rec.blkPointer, ptrs) && Claimed(ptrs, m0, m1, l.maxDno)
    requires forall x :: |ptrs| < x < NEWFS_DATA_PER_FILE ==> IsI32(rec.blkPointer[x])
    requires forall j :: 0 <= j < |rs| ==> EntryStored(disk.bytes, l.dataOffset, szBlk, ptrs, j, rs[j])
    modifies disk
    ensures disk.Valid()
    ensures Confined(old(disk.bytes), disk.bytes, m1, l, szBlk)
    ensures SyncedAs(disk.bytes, m0, m1, l, szBlk, ptrs, want, rec, rs)
  {
    InodeRecordInTable(l, szBlk, disk.szDisk, rec.ino);
    GeometryFacts(l, szBlk, disk.szDisk);
    assert InodeDOk(rec);
    var o := InoOfs(l.inodeOffset, rec.ino);
    var input := EncodeInodeD(rec);
    assert l.inodeOffset <= o && o + |input| <= InoOfs(l.inodeOffset, l.maxIno) <= disk.szDisk;
    ghost var b := disk.bytes;
    disk.DriverWrite(o, input);
    WriteTableConfined(b, o, input, m1, l, szBlk);
    EntriesAfterTableWrite(b, o, input, l, szBlk, disk.szDisk, ptrs, rs);
    EntriesPadded(disk.bytes, l.dataOffset, szBlk, ptrs, rec.blkPointer, rs);
  }
}
