// The volume as newfs_sync_inode leaves it and as newfs_read_inode finds it
// (fs/newfs/src/newfs_utils.c:264-338 and 425-482): where the regions of a
// layout lie, which bytes a sync may change, what it stores for an inode,
// and the loader that reads an inode record and its directory entries back.

module Store {
  import opened Types
  import opened Driver
  import opened Bitmap
  import opened Entries

  // ---------------------------------------------------------------------
  // Regions
  // ---------------------------------------------------------------------

  /** The regions of a layout lie back to back inside a device of `len`
      bytes: super block, inode bitmap, data bitmap, inode table, data
      blocks; and a block holds at least one directory entry record. */
  predicate GeometryOk(l: SuperD, szBlk: int, len: int)
  {
    && SuperDOk(l)
    && DENTRY_D_SIZE <= szBlk && len < TWO_31
    && SUPER_D_SIZE <= l.mapInodeOffset
    && 0 <= l.mapInodeBlks && 0 <= l.mapDataBlks
    && l.mapInodeOffset + BlksSz(l.mapInodeBlks, szBlk) <= l.mapDataOffset
    && l.mapDataOffset + BlksSz(l.mapDataBlks, szBlk) <= l.inodeOffset
    && 0 <= l.maxIno && InoOfs(l.inodeOffset, l.maxIno) <= l.dataOffset
    && 0 <= l.maxDno && DataOfs(l.dataOffset, szBlk, l.maxDno) <= len
  }

  /** The inode table starts after the bitmaps and ends before the data
      blocks, which end within the device. */
  lemma GeometryFacts(l: SuperD, szBlk: int, len: int)
    requires GeometryOk(l, szBlk, len)
    ensures 0 < l.inodeOffset <= InoOfs(l.inodeOffset, l.maxIno) <= l.dataOffset
    ensures l.dataOffset <= DataOfs(l.dataOffset, szBlk, l.maxDno) <= len
  {
    MulNonNeg(l.mapInodeBlks, szBlk);
    MulNonNeg(l.mapDataBlks, szBlk);
    MulNonNeg(l.maxIno, INODE_D_SIZE);
    MulNonNeg(l.maxDno, szBlk);
  }

  /** Inode record `ino` lies in the inode table when `ino` is below
      max_ino. */
  lemma InodeRecordInTable(l: SuperD, szBlk: int, len: int, ino: int)
    requires GeometryOk(l, szBlk, len) && 0 <= ino < l.maxIno
    ensures l.inodeOffset <= InoOfs(l.inodeOffset, ino)
    ensures InoOfs(l.inodeOffset, ino) + INODE_D_SIZE <= InoOfs(l.inodeOffset, l.maxIno)
  {
    MulNonNeg(ino, INODE_D_SIZE);
    MulMonotone(ino + 1, l.maxIno, INODE_D_SIZE);
  }

  /** Data block `dno` below max_dno lies after the inode table and within
      the device. */
  lemma DataBlockInDevice(l: SuperD, szBlk: int, len: int, dno: int)
    requires GeometryOk(l, szBlk, len) && 0 <= dno < l.maxDno
    ensures InoOfs(l.inodeOffset, l.maxIno) <= DataOfs(l.dataOffset, szBlk, dno)
    ensures DataOfs(l.dataOffset, szBlk, dno) + szBlk <= len
  {
    GeometryFacts(l, szBlk, len);
    MulNonNeg(dno, szBlk);
    MulMonotone(dno + 1, l.maxDno, szBlk);
  }

  /** Byte `p` belongs to the inode table. */
  predicate InTable(l: SuperD, p: int)
  {
    l.inodeOffset <= p < InoOfs(l.inodeOffset, l.maxIno)
  }

  /** Byte `p` belongs to a data block that bitmap `m` shows as free. */
  predicate InFreeBlock(l: SuperD, szBlk: int, m: seq<bv8>, p: int)
    requires szBlk > 0
  {
    && l.dataOffset <= p
    && (p - l.dataOffset) / szBlk < l.maxDno
    && (p - l.dataOffset) / szBlk < UINT8_BITS * |m|
    && !Bit(m, (p - l.dataOffset) / szBlk)
  }

  /** The block a byte of a data block belongs to. */
  lemma BlockOfByte(l: SuperD, szBlk: int, dno: int, p: int)
    requires szBlk > 0 && DataOfs(l.dataOffset, szBlk, dno) <= p < DataOfs(l.dataOffset, szBlk, dno) + szBlk
    ensures (p - l.dataOffset) / szBlk == dno
  {
    DivUnique(p - l.dataOffset, szBlk, dno);
  }

  // ---------------------------------------------------------------------
  // What a sync may change
  // ---------------------------------------------------------------------

  /** From `b0` to `b1` only inode records and data blocks free in `m`
      changed. */
  ghost predicate Confined(b0: seq<bv8>, b1: seq<bv8>, m: seq<bv8>, l: SuperD, szBlk: int)
    requires szBlk > 0
  {
    && |b1| == |b0|
    && forall p :: 0 <= p < |b0| && !InTable(l, p) && !InFreeBlock(l, szBlk, m, p) ==> b1[p] == b0[p]
  }

  /** Every bit set in `m0` is still set in `m1`. */
  ghost predicate Grows(m0: seq<bv8>, m1: seq<bv8>)
  {
    && |m1| == |m0|
    && forall j :: 0 <= j < UINT8_BITS * |m0| && Bit(m0, j) ==> Bit(m1, j)
  }

  /** The blocks a sync claimed between bitmaps `m0` and `m1`: each was
      free in `m0`, and they are distinct, valid and taken in `m1`. */
  ghost predicate Claimed(ptrs: seq<int>, m0: seq<bv8>, m1: seq<bv8>, maxDno: int)
  {
    && (forall x :: 0 <= x < |ptrs| ==> 0 <= ptrs[x] < UINT8_BITS * |m0| && !Bit(m0, ptrs[x]))
    && PtrsTaken(ptrs, m1, maxDno)
  }

  /** A block that was free before the sync and has just been taken joins
      the claimed blocks. */
  lemma ClaimedAppend(ptrs: seq<int>, m0: seq<bv8>, m1: seq<bv8>, m2: seq<bv8>, maxDno: int, dno: int)
    requires Claimed(ptrs, m0, m1, maxDno) && Grows(m1, m2) && Grows(m0, m1)
    requires 0 <= dno < maxDno && dno < UINT8_BITS * |m1| && !Bit(m1, dno) && Bit(m2, dno)
    ensures Claimed(ptrs + [dno], m0, m2, maxDno)
  {
    PtrsTakenGrows(ptrs, m1, m2, maxDno);
  }

  /** Claimed blocks stay claimed while bits are only set. */
  lemma ClaimedGrows(ptrs: seq<int>, m0: seq<bv8>, m1: seq<bv8>, m2: seq<bv8>, maxDno: int)
    requires Claimed(ptrs, m0, m1, maxDno) && Grows(m1, m2)
    ensures Claimed(ptrs, m0, m2, maxDno)
  {
    PtrsTakenGrows(ptrs, m1, m2, maxDno);
  }

  /** Confinement composes: a later step confined by a grown bitmap stays
      within what the earlier bitmap left free. */
  lemma ConfinedTrans(b0: seq<bv8>, b1: seq<bv8>, b2: seq<bv8>, m0: seq<bv8>, m1: seq<bv8>, l: SuperD, szBlk: int)
    requires szBlk > 0
    requires Confined(b0, b1, m0, l, szBlk) && Confined(b1, b2, m1, l, szBlk) && Grows(m0, m1)
    ensures Confined(b0, b2, m0, l, szBlk)
  {
  }

  /** First-fit allocation only sets bits, and a granted block was free. */
  lemma AllocGrows(m: seq<bv8>, max: int)
    ensures Grows(m, Alloc(m, max).bits)
    ensures var a := Alloc(m, max);
      a.ret >= 0 ==> a.ret < max && a.ret < UINT8_BITS * |m| && !Bit(m, a.ret) && Bit(a.bits, a.ret)
    ensures Alloc(m, max).ret < 0 ==>
      Alloc(m, max).ret == -NEWFS_ERROR_NOSPACE && Alloc(m, max).bits == m && Full(m, max)
  {
    AllocFirstFit(m, max);
  }

  /** A write inside the inode table is confined. */
  lemma WriteTableConfined(b: seq<bv8>, o: int, input: seq<bv8>, m: seq<bv8>, l: SuperD, szBlk: int)
    requires szBlk > 0 && 0 <= o && o + |input| <= |b|
    requires l.inodeOffset <= o && o + |input| <= InoOfs(l.inodeOffset, l.maxIno)
    ensures Confined(b, Overwrite(b, o, input), m, l, szBlk)
  {
  }

  /** A write inside a data block that `m` shows as free is confined. */
  lemma WriteFreeBlockConfined(b: seq<bv8>, o: int, input: seq<bv8>, m: seq<bv8>, l: SuperD, szBlk: int, dno: int)
    requires szBlk > 0 && 0 <= o && o + |input| <= |b|
    requires 0 <= dno < l.maxDno && dno < UINT8_BITS * |m| && !Bit(m, dno)
    requires DataOfs(l.dataOffset, szBlk, dno) <= o && o + |input| <= DataOfs(l.dataOffset, szBlk, dno) + szBlk
    ensures Confined(b, Overwrite(b, o, input), m, l, szBlk)
  {
    var b' := Overwrite(b, o, input);
    forall p | 0 <= p < |b| && !InTable(l, p) && !InFreeBlock(l, szBlk, m, p)
      ensures b'[p] == b[p]
    {
      if o <= p < o + |input| {
        BlockOfByte(l, szBlk, dno, p);
        assert false;
      }
    }
  }

  /** A data block that `m` shows as taken keeps its bytes across a
      confined change. */
  lemma TakenBlockKept(b0: seq<bv8>, b1: seq<bv8>, m: seq<bv8>, l: SuperD, szBlk: int, dno: int, o: int, len: int)
    requires szBlk > 0 && Confined(b0, b1, m, l, szBlk)
    requires InoOfs(l.inodeOffset, l.maxIno) <= l.dataOffset
    requires 0 <= dno && dno < UINT8_BITS * |m| && Bit(m, dno)
    requires DataOfs(l.dataOffset, szBlk, dno) <= o && 0 <= len && o + len <= DataOfs(l.dataOffset, szBlk, dno) + szBlk
    requires o + len <= |b0|
    ensures 0 <= o ==> b1[o..o + len] == b0[o..o + len]
  {
    MulNonNeg(dno, szBlk);
    if 0 <= o {
      forall p | o <= p < o + len
        ensures b1[p] == b0[p]
      {
        BlockOfByte(l, szBlk, dno, p);
      }
    }
  }

  // ---------------------------------------------------------------------
  // Directory entries stored in blocks
  // ---------------------------------------------------------------------

  /** Record `k` of a directory whose block pointers are `ptrs` holds `r`. */
  predicate EntryStored(bytes: seq<bv8>, dataOffset: int, szBlk: int, ptrs: seq<int>, k: int, r: DentryD)
  {
    && szBlk >= DENTRY_D_SIZE && 0 <= k && k / PerBlk(szBlk) < |ptrs| && DentryDOk(r)
    && 0 <= EntryOfs(dataOffset, szBlk, ptrs, k)
    && EntryOfs(dataOffset, szBlk, ptrs, k) + DENTRY_D_SIZE <= |bytes|
    && bytes[EntryOfs(dataOffset, szBlk, ptrs, k)..EntryOfs(dataOffset, szBlk, ptrs, k) + DENTRY_D_SIZE]
       == EncodeDentryD(r)
  }

  /** Pointers appended after the ones a record uses do not move it. */
  lemma EntryStoredExtend(bytes: seq<bv8>, dataOffset: int, szBlk: int, ptrs: seq<int>, more: seq<int>, k: int, r: DentryD)
    requires EntryStored(bytes, dataOffset, szBlk, ptrs, k, r)
    ensures EntryStored(bytes, dataOffset, szBlk, ptrs + more, k, r)
  {
    assert (ptrs + more)[k / PerBlk(szBlk)] == ptrs[k / PerBlk(szBlk)];
  }

  /** Blocks holding records: valid, distinct, and taken in bitmap `m`. */
  ghost predicate PtrsTaken(ptrs: seq<int>, m: seq<bv8>, maxDno: int)
  {
    && (forall x :: 0 <= x < |ptrs| ==> 0 <= ptrs[x] < maxDno && ptrs[x] < UINT8_BITS * |m| && Bit(m, ptrs[x]))
    && (forall s, t :: 0 <= s < t < |ptrs| ==> ptrs[s] != ptrs[t])
  }

  /** A write that misses a stored record keeps it. */
  lemma EntryAfterWrite(b: seq<bv8>, o: int, input: seq<bv8>, dataOffset: int, szBlk: int, ptrs: seq<int>, j: int, r: DentryD)
    requires 0 <= o && o + |input| <= |b|
    requires EntryStored(b, dataOffset, szBlk, ptrs, j, r)
    requires o + |input| <= EntryOfs(dataOffset, szBlk, ptrs, j)
          || EntryOfs(dataOffset, szBlk, ptrs, j) + DENTRY_D_SIZE <= o
    ensures EntryStored(Overwrite(b, o, input), dataOffset, szBlk, ptrs, j, r)
  {
    var b' := Overwrite(b, o, input);
    var oj := EntryOfs(dataOffset, szBlk, ptrs, j);
    assert b'[oj..oj + DENTRY_D_SIZE] == b[oj..oj + DENTRY_D_SIZE] by {
      forall p | oj <= p < oj + DENTRY_D_SIZE
        ensures b'[p] == b[p]
      {
      }
    }
  }

  /** Writing record `k` keeps records 0 .. k-1 and stores record `k`. */
  lemma EntriesAfterWrite(b: seq<bv8>, l: SuperD, szBlk: int, ptrs: seq<int>, rs: seq<DentryD>, k: int, m: seq<bv8>)
    requires szBlk >= DENTRY_D_SIZE && 0 <= k < |rs| && k / PerBlk(szBlk) < |ptrs| && DentryDOk(rs[k])
    requires PtrsTaken(ptrs, m, l.maxDno)
    requires forall j :: 0 <= j < k ==> EntryStored(b, l.dataOffset, szBlk, ptrs, j, rs[j])
    requires 0 <= EntryOfs(l.dataOffset, szBlk, ptrs, k)
    requires EntryOfs(l.dataOffset, szBlk, ptrs, k) + DENTRY_D_SIZE <= |b|
    ensures var b' := Overwrite(b, EntryOfs(l.dataOffset, szBlk, ptrs, k), EncodeDentryD(rs[k]));
      forall j :: 0 <= j <= k ==> EntryStored(b', l.dataOffset, szBlk, ptrs, j, rs[j])
  {
    var o := EntryOfs(l.dataOffset, szBlk, ptrs, k);
    var input := EncodeDentryD(rs[k]);
    forall j | 0 <= j < k
      ensures EntryStored(Overwrite(b, o, input), l.dataOffset, szBlk, ptrs, j, rs[j])
    {
      assert EntryStored(b, l.dataOffset, szBlk, ptrs, j, rs[j]);
      EntriesDisjoint(l.dataOffset, szBlk, ptrs, j, k);
      EntryAfterWrite(b, o, input, l.dataOffset, szBlk, ptrs, j, rs[j]);
    }
  }

  /** Records in taken blocks survive a confined change. */
  lemma EntriesAfterConfined(b0: seq<bv8>, b1: seq<bv8>, m: seq<bv8>, l: SuperD, szBlk: int, ptrs: seq<int>, rs: seq<DentryD>, k: int)
    requires szBlk >= DENTRY_D_SIZE && Confined(b0, b1, m, l, szBlk)
    requires InoOfs(l.inodeOffset, l.maxIno) <= l.dataOffset
    requires PtrsTaken(ptrs, m, l.maxDno) && 0 <= k <= |rs|
    requires forall j :: 0 <= j < k ==> EntryStored(b0, l.dataOffset, szBlk, ptrs, j, rs[j])
    ensures forall j :: 0 <= j < k ==> EntryStored(b1, l.dataOffset, szBlk, ptrs, j, rs[j])
  {
    forall j | 0 <= j < k
      ensures EntryStored(b1, l.dataOffset, szBlk, ptrs, j, rs[j])
    {
      assert EntryStored(b0, l.dataOffset, szBlk, ptrs, j, rs[j]);
      var dno := ptrs[j / PerBlk(szBlk)];
      EntryInBlock(l.dataOffset, szBlk, ptrs, j);
      TakenBlockKept(b0, b1, m, l, szBlk, dno, EntryOfs(l.dataOffset, szBlk, ptrs, j), DENTRY_D_SIZE);
    }
  }

  /** Taken blocks stay taken as the bitmap grows. */
  lemma PtrsTakenGrows(ptrs: seq<int>, m: seq<bv8>, m': seq<bv8>, maxDno: int)
    requires PtrsTaken(ptrs, m, maxDno) && Grows(m, m')
    ensures PtrsTaken(ptrs, m', maxDno)
  {
    forall x | 0 <= x < |ptrs|
      ensures ptrs[x] < UINT8_BITS * |m'| && Bit(m', ptrs[x])
    {
    }
  }

  /** A write inside the inode table keeps every stored record. */
  lemma EntriesAfterTableWrite(b: seq<bv8>, o: int, input: seq<bv8>, l: SuperD, szBlk: int, len: int, ptrs: seq<int>, rs: seq<DentryD>)
    requires GeometryOk(l, szBlk, len) && 0 <= o && o + |input| <= |b|
    requires o + |input| <= InoOfs(l.inodeOffset, l.maxIno)
    requires forall x :: 0 <= x < |ptrs| ==> 0 <= ptrs[x] < l.maxDno
    requires forall j :: 0 <= j < |rs| ==> EntryStored(b, l.dataOffset, szBlk, ptrs, j, rs[j])
    ensures forall j :: 0 <= j < |rs| ==> EntryStored(Overwrite(b, o, input), l.dataOffset, szBlk, ptrs, j, rs[j])
  {
    forall j | 0 <= j < |rs|
      ensures EntryStored(Overwrite(b, o, input), l.dataOffset, szBlk, ptrs, j, rs[j])
    {
      assert EntryStored(b, l.dataOffset, szBlk, ptrs, j, rs[j]);
      EntryInBlock(l.dataOffset, szBlk, ptrs, j);
      DataBlockInDevice(l, szBlk, len, ptrs[j / PerBlk(szBlk)]);
      EntryAfterWrite(b, o, input, l.dataOffset, szBlk, ptrs, j, rs[j]);
    }
  }

  /** The records stay where they are whatever follows the claimed
      pointers in the stored array. */
  lemma EntriesPadded(b: seq<bv8>, dataOffset: int, szBlk: int, ptrs: seq<int>, p: seq<int>, rs: seq<DentryD>)
    requires PointersOf(p, ptrs)
    requires forall j :: 0 <= j < |rs| ==> EntryStored(b, dataOffset, szBlk, ptrs, j, rs[j])
    ensures forall j :: 0 <= j < |rs| ==> EntryStored(b, dataOffset, szBlk, p, j, rs[j])
  {
    var more := p[|ptrs|..];
    assert p == ptrs + more;
    forall j | 0 <= j < |rs|
      ensures EntryStored(b, dataOffset, szBlk, p, j, rs[j])
    {
      EntryStoredExtend(b, dataOffset, szBlk, ptrs, more, j, rs[j]);
    }
  }

  /** Pointer k/per of record `k` once `k` = (blocks - 1) * per + cnt with
      the last block not yet full: the record sits `cnt` records into the
      last block. */
  lemma EntryInLastBlock(dataOffset: int, szBlk: int, ptrs: seq<int>, k: int, cnt: int)
    requires szBlk >= DENTRY_D_SIZE && |ptrs| >= 1 && 0 <= cnt < PerBlk(szBlk)
    requires k == (|ptrs| - 1) * PerBlk(szBlk) + cnt
    ensures 0 <= k && k / PerBlk(szBlk) == |ptrs| - 1
    ensures EntryOfs(dataOffset, szBlk, ptrs, k)
         == DataOfs(dataOffset, szBlk, ptrs[|ptrs| - 1]) + cnt * DENTRY_D_SIZE
  {
    var per := PerBlk(szBlk);
    MulNonNeg(|ptrs| - 1, per);
    DivUnique(k, per, |ptrs| - 1);
  }

  /** The blocks a directory of `k` records needs once the records fill
      `blocks` blocks, the last one holding `cnt` of them. */
  lemma BlocksForFilled(k: int, per: int, blocks: int, cnt: int)
    requires per >= 1 && blocks >= 1 && 1 <= cnt <= per && k == (blocks - 1) * per + cnt
    ensures BlocksFor(k, per) == blocks
  {
    var b := BlocksFor(k, per);
    assert (blocks - 1) * per < k <= blocks * per;
    if b < blocks {
      MulMonotone(b, blocks - 1, per);
    } else if b > blocks {
      MulMonotone(blocks, b - 1, per);
    }
  }

  // ---------------------------------------------------------------------
  // What a sync stores for an inode
  // ---------------------------------------------------------------------

  /** Data blocks claimed for a regular file of `size` bytes: one per block
      of content, at most NEWFS_DATA_PER_FILE. */
  function FileBlocks(size: int, szBlk: int): (b: int)
    requires szBlk > 0
    ensures 0 <= b <= NEWFS_DATA_PER_FILE
    ensures b < NEWFS_DATA_PER_FILE ==> size <= b * szBlk
    ensures b > 0 ==> (b - 1) * szBlk < size
  {
    if size <= 0 then 0
    else
      var b := BlocksFor(size, szBlk);
      if b < NEWFS_DATA_PER_FILE then b
      else
        MulMonotone(NEWFS_DATA_PER_FILE - 1, b - 1, szBlk);
        NEWFS_DATA_PER_FILE
  }

  /** FileBlocks is the only count with its bounds. */
  lemma FileBlocksUnique(size: int, szBlk: int, t: int)
    requires szBlk > 0 && 0 <= t <= NEWFS_DATA_PER_FILE
    requires t < NEWFS_DATA_PER_FILE ==> size <= t * szBlk
    requires t > 0 ==> (t - 1) * szBlk < size
    ensures FileBlocks(size, szBlk) == t
  {
    var b := FileBlocks(size, szBlk);
    if b < t {
      MulMonotone(b, t - 1, szBlk);
    } else if b > t {
      MulMonotone(t, b - 1, szBlk);
    }
  }

  /** The pointers the regular-file loop of newfs_sync_inode as written
      fills, `size` bytes still to go after `n` of them: the pointer is
      stored before the test at line 326, which only stops the loop once
      more than NEWFS_DATA_PER_FILE are filled. */
  function FileLoopAsWritten(size: int, szBlk: int, n: int): int
    requires szBlk > 0
    decreases if size > 0 then size else 0
  {
    if size <= 0 then n
    else if n + 1 > NEWFS_DATA_PER_FILE then n + 1
    else FileLoopAsWritten(size - szBlk, szBlk, n + 1)
  }

  /** A file of seven 1024-byte blocks makes the loop as written store a
      seventh pointer, at index 6 of the six-slot array, where the corrected
      count stops at six. */
  lemma FileLoopAsWrittenOverflows()
    ensures FileLoopAsWritten(7 * 1024, 1024, 0) == NEWFS_DATA_PER_FILE + 1
    ensures FileBlocks(7 * 1024, 1024) == NEWFS_DATA_PER_FILE
  {
    assert FileLoopAsWritten(1024, 1024, 6) == 7;
    assert FileLoopAsWritten(2048, 1024, 5) == 7;
    assert FileLoopAsWritten(3072, 1024, 4) == 7;
    assert FileLoopAsWritten(4096, 1024, 3) == 7;
    assert FileLoopAsWritten(5120, 1024, 2) == 7;
    assert FileLoopAsWritten(6144, 1024, 1) == 7;
    FileBlocksUnique(7 * 1024, 1024, NEWFS_DATA_PER_FILE);
  }

  /** What newfs_sync_inode leaves in the blk_pointer array of its local
      inode_d: the claimed pointers, then the sentinel -1 in the next slot
      when there is one.  The slots after the sentinel are never written. */
  predicate PointersOf(p: seq<int>, ptrs: seq<int>)
  {
    && |p| == NEWFS_DATA_PER_FILE && |ptrs| <= NEWFS_DATA_PER_FILE
    && p[..|ptrs|] == ptrs
    && (|ptrs| < NEWFS_DATA_PER_FILE ==> p[|ptrs|] == -1)
  }

  /** Contents an uninitialised blk_pointer array may hold: six values
      of 32 bits. */
  predicate LeftoverOk(leftover: seq<int>)
  {
    |leftover| == NEWFS_DATA_PER_FILE && forall k :: 0 <= k < |leftover| ==> IsI32(leftover[k])
  }

  /** The blk_pointer array after line 329: the claimed pointers, the
      sentinel, and in the slots after it whatever the uninitialised local
      held before (`leftover`). */
  function Pad(ptrs: seq<int>, leftover: seq<int>): (r: seq<int>)
    requires |ptrs| <= NEWFS_DATA_PER_FILE && |leftover| == NEWFS_DATA_PER_FILE
    ensures PointersOf(r, ptrs)
    ensures forall x :: |ptrs| < x < NEWFS_DATA_PER_FILE ==> r[x] == leftover[x]
  {
    if |ptrs| < NEWFS_DATA_PER_FILE then ptrs + [-1] + leftover[|ptrs| + 1..] else ptrs
  }

  /** The inode record of `ino` holds `rec`, and record k of `entries` is
      the k-th directory entry under rec's block pointers. */
  predicate Stored(bytes: seq<bv8>, l: SuperD, szBlk: int, ino: int, rec: InodeD, entries: seq<DentryD>)
  {
    && InodeDOk(rec)
    && 0 <= InoOfs(l.inodeOffset, ino) && InoOfs(l.inodeOffset, ino) + INODE_D_SIZE <= |bytes|
    && bytes[InoOfs(l.inodeOffset, ino)..InoOfs(l.inodeOffset, ino) + INODE_D_SIZE] == EncodeInodeD(rec)
    && forall k :: 0 <= k < |entries| ==> EntryStored(bytes, l.dataOffset, szBlk, rec.blkPointer, k, entries[k])
  }

  // ---------------------------------------------------------------------
  // What a read finds
  // ---------------------------------------------------------------------

  /** The fields of an inode newfs_read_inode keeps, and the directory
      entry records it found. */
  datatype Loaded = Loaded(ino: int, size: int, entries: seq<DentryD>)

  /** Record `k` of a directory as newfs_read_inode reads it: none when it
      lies past the six block pointers or outside the device, or when its
      type tag is neither NEWFS_REG_FILE nor NEWFS_DIR. */
  function EntryAt(bytes: seq<bv8>, dataOffset: int, szBlk: int, ptrs: seq<int>, k: int): (r: Option<DentryD>)
    requires szBlk >= DENTRY_D_SIZE && k >= 0
    ensures r.Some? ==> DentryDOk(r.value)
  {
    if k / PerBlk(szBlk) >= |ptrs| then None
    else
      var o := EntryOfs(dataOffset, szBlk, ptrs, k);
      if o < 0 || o + DENTRY_D_SIZE > |bytes| then None
      else DecodeDentryD(bytes[o..o + DENTRY_D_SIZE])
  }

  /** Records 0 .. n-1 of a directory, or none when one of them cannot be
      read. */
  function LoadEntries(bytes: seq<bv8>, dataOffset: int, szBlk: int, ptrs: seq<int>, n: int): (r: Option<seq<DentryD>>)
    requires szBlk >= DENTRY_D_SIZE
    ensures r.Some? ==> |r.value| == (if n < 0 then 0 else n)
    ensures r.Some? ==> forall k :: 0 <= k < |r.value| ==> DentryDOk(r.value[k])
    decreases n
  {
    if n <= 0 then Some([])
    else match LoadEntries(bytes, dataOffset, szBlk, ptrs, n - 1)
      case None => None
      case Some(es) =>
        match EntryAt(bytes, dataOffset, szBlk, ptrs, n - 1)
        case None => None
        case Some(e) => Some(es + [e])
  }

  /** newfs_read_inode's view of inode number `ino`: its record, and for a
      directory its `dir_cnt` entries; none when the record lies outside the
      device, names an inode outside the table, or an entry is unreadable. */
  function LoadInode(bytes: seq<bv8>, l: SuperD, szBlk: int, ino: int, isDir: bool): (r: Option<Loaded>)
    requires szBlk >= DENTRY_D_SIZE
    ensures r.Some? ==> 0 <= r.value.ino < l.maxIno && IsI32(r.value.size)
    ensures r.Some? ==> forall k :: 0 <= k < |r.value.entries| ==> DentryDOk(r.value.entries[k])
    ensures r.Some? && !isDir ==> r.value.entries == []
  {
    var o := InoOfs(l.inodeOffset, ino);
    if o < 0 || o + INODE_D_SIZE > |bytes| then None
    else
      var f := DecodeI32s(bytes[o..o + INODE_D_SIZE], 10);
      if !(0 <= f[0] < l.maxIno) then None
      else if !isDir then Some(Loaded(f[0], f[1], []))
      else match LoadEntries(bytes, l.dataOffset, szBlk, f[4..], f[2])
        case None => None
        case Some(es) => Some(Loaded(f[0], f[1], es))
  }

  /** A stored record is read back: the entries as stored, in order. */
  lemma {:induction false} StoredEntriesLoad(bytes: seq<bv8>, dataOffset: int, szBlk: int, ptrs: seq<int>, es: seq<DentryD>, n: int)
    requires szBlk >= DENTRY_D_SIZE && 0 <= n <= |es|
    requires forall k :: 0 <= k < |es| ==> EntryStored(bytes, dataOffset, szBlk, ptrs, k, es[k])
    ensures LoadEntries(bytes, dataOffset, szBlk, ptrs, n) == Some(es[..n])
  {
    if n > 0 {
      StoredEntriesLoad(bytes, dataOffset, szBlk, ptrs, es, n - 1);
      StoredEntryLoads(bytes, dataOffset, szBlk, ptrs, n - 1, es[n - 1]);
      assert es[..n] == es[..n - 1] + [es[n - 1]];
    }
  }

  /** One stored record is read back at its slot. */
  lemma StoredEntryLoads(bytes: seq<bv8>, dataOffset: int, szBlk: int, ptrs: seq<int>, k: int, e: DentryD)
    requires EntryStored(bytes, dataOffset, szBlk, ptrs, k, e)
    ensures EntryAt(bytes, dataOffset, szBlk, ptrs, k) == Some(e)
  {
    DentryDRoundTrip(e);
  }

  /** What a sync stores, a read finds: the inode's number and size, and
      for a directory the entry records in their stored order. */
  lemma StoredLoads(bytes: seq<bv8>, l: SuperD, szBlk: int, ino: int, rec: InodeD, es: seq<DentryD>, isDir: bool)
    requires szBlk >= DENTRY_D_SIZE && Stored(bytes, l, szBlk, ino, rec, es)
    requires 0 <= rec.ino < l.maxIno && (isDir ==> rec.dirCnt == |es|)
    ensures LoadInode(bytes, l, szBlk, ino, isDir) == Some(Loaded(rec.ino, rec.size, if isDir then es else []))
  {
    var o := InoOfs(l.inodeOffset, ino);
    var f := InodeDFields(rec);
    I32sRoundTrip(f);
    assert bytes[o..o + INODE_D_SIZE] == EncodeI32s(f);
    assert DecodeI32s(bytes[o..o + INODE_D_SIZE], 10) == f;
    assert f[4..] == rec.blkPointer;
    if isDir {
      StoredEntriesLoad(bytes, l.dataOffset, szBlk, rec.blkPointer, es, |es|);
      assert es[..|es|] == es;
    }
  }
}
