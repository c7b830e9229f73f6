// What newfs_umount leaves on the device (fs/newfs/src/newfs_utils.c:726-761):
// after the sync of the root inode, the in-memory layout with NEWFS_MAGIC_NUM
// at offset 0, then the inode bitmap and the data bitmap at their offsets.

module Umount {
  import opened Types
  import opened Driver
  import opened Layout
  import opened Entries
  import opened Store
  import opened Sync

  /** Where the three writes of newfs_umount go: the super record, then the
      two bitmaps, each before the next and all before the inode table. */
  predicate MetaFits(l: SuperD, mi: seq<bv8>, md: seq<bv8>, len: int)
  {
    && SuperDOk(l)
    && SUPER_D_SIZE <= l.mapInodeOffset
    && l.mapInodeOffset + |mi| <= l.mapDataOffset
    && l.mapDataOffset + |md| <= l.inodeOffset <= len
  }

  /** Bitmaps of the sizes a layout gives them fit where newfs_umount
      writes them. */
  lemma GeometryMetaFits(l: SuperD, szBlk: int, len: int, mi: seq<bv8>, md: seq<bv8>)
    requires GeometryOk(l, szBlk, len)
    requires |mi| == BlksSz(l.mapInodeBlks, szBlk) && |md| == BlksSz(l.mapDataBlks, szBlk)
    ensures MetaFits(l, mi, md, len)
  {
    GeometryFacts(l, szBlk, len);
  }

  /** The device after newfs_umount's three newfs_driver_write calls. */
  function Unmounted(dev: seq<bv8>, l: SuperD, mi: seq<bv8>, md: seq<bv8>): (r: seq<bv8>)
    requires MetaFits(l, mi, md, |dev|)
    ensures |r| == |dev|
  {
    var d1 := Overwrite(dev, NEWFS_SUPER_OFS, EncodeSuperD(UmountRecord(l)));
    var d2 := Overwrite(d1, l.mapInodeOffset, mi);
    Overwrite(d2, l.mapDataOffset, md)
  }

  /** What the next newfs_mount finds on `dev`: a super record carrying the
      magic number, so that the layout `l` is adopted verbatim, and the
      bitmaps `mi` and `md` at the offsets that layout gives them. */
  predicate MetaStored(dev: seq<bv8>, l: SuperD, mi: seq<bv8>, md: seq<bv8>, szBlk: int)
  {
    && MetaFits(l, mi, md, |dev|) && szBlk >= INODE_D_SIZE
    && (var m := MountLayout(DecodeSuperD(dev[NEWFS_SUPER_OFS..NEWFS_SUPER_OFS + SUPER_D_SIZE]), |dev|, szBlk);
        !m.isInit && m.layout == l.(magicNum := NEWFS_MAGIC_NUM))
    && dev[l.mapInodeOffset..l.mapInodeOffset + |mi|] == mi
    && dev[l.mapDataOffset..l.mapDataOffset + |md|] == md
  }

  /** The next newfs_mount finds what newfs_umount stored, and the inode
      table and the data blocks are not touched. */
  lemma UnmountedReadsBack(dev: seq<bv8>, l: SuperD, mi: seq<bv8>, md: seq<bv8>, szBlk: int)
    requires MetaFits(l, mi, md, |dev|) && szBlk >= INODE_D_SIZE
    ensures MetaStored(Unmounted(dev, l, mi, md), l, mi, md, szBlk)
    ensures Unmounted(dev, l, mi, md)[l.inodeOffset..] == dev[l.inodeOffset..]
  {
    var d1 := Overwrite(dev, NEWFS_SUPER_OFS, EncodeSuperD(UmountRecord(l)));
    var d2 := Overwrite(d1, l.mapInodeOffset, mi);
    var r := Overwrite(d2, l.mapDataOffset, md);
    UmountThenMountAdopts(dev, l, |dev|, szBlk);
    assert r[..SUPER_D_SIZE] == d1[..SUPER_D_SIZE] by {
      forall p | 0 <= p < SUPER_D_SIZE
        ensures r[p] == d1[p]
      {
        assert r[p] == d2[p];
      }
    }
    assert r[l.mapInodeOffset..l.mapInodeOffset + |mi|] == d2[l.mapInodeOffset..l.mapInodeOffset + |mi|] by {
      forall p | l.mapInodeOffset <= p < l.mapInodeOffset + |mi|
        ensures r[p] == d2[p]
      {
      }
    }
    assert r[l.inodeOffset..] == dev[l.inodeOffset..] by {
      forall p | l.inodeOffset <= p < |dev|
        ensures r[p] == dev[p]
      {
        assert r[p] == d2[p] && d2[p] == d1[p];
      }
    }
  }

  /** A record past the last block in use would need a block beyond those
      claimed. */
  lemma RecordInClaimedBlock(k: int, per: int, blocks: int)
    requires per >= 1 && 0 <= k < blocks * per
    ensures k / per < blocks
  {
    if k / per >= blocks {
      MulMonotone(blocks, k / per, per);
    }
  }

  /** A write that ends before the inode table keeps what a sync stored,
      when the directory's records sit in the blocks the sync claimed. */
  lemma SyncedAsAfterLowWrite(b: seq<bv8>, o: int, input: seq<bv8>, m0: seq<bv8>, m1: seq<bv8>, l: SuperD,
                              szBlk: int, ptrs: seq<int>, want: int, rec: InodeD, rs: seq<DentryD>)
    requires GeometryOk(l, szBlk, |b|) && 0 <= o && o + |input| <= l.inodeOffset
    requires 0 <= rec.ino && |rs| <= |ptrs| * PerBlk(szBlk)
    requires SyncedAs(b, m0, m1, l, szBlk, ptrs, want, rec, rs)
    ensures SyncedAs(Overwrite(b, o, input), m0, m1, l, szBlk, ptrs, want, rec, rs)
  {
    var b' := Overwrite(b, o, input);
    var io := InoOfs(l.inodeOffset, rec.ino);
    MulNonNeg(rec.ino, INODE_D_SIZE);
    assert b'[io..io + INODE_D_SIZE] == b[io..io + INODE_D_SIZE] by {
      forall p | io <= p < io + INODE_D_SIZE
        ensures b'[p] == b[p]
      {
      }
    }
    GeometryFacts(l, szBlk, |b|);
    forall k | 0 <= k < |rs|
      ensures EntryStored(b', l.dataOffset, szBlk, rec.blkPointer, k, rs[k])
    {
      var x := k / PerBlk(szBlk);
      RecordInClaimedBlock(k, PerBlk(szBlk), |ptrs|);
      assert rec.blkPointer[x] == rec.blkPointer[..|ptrs|][x] == ptrs[x];
      MulNonNeg(ptrs[x], szBlk);
      EntryInBlock(l.dataOffset, szBlk, rec.blkPointer, k);
      EntryAfterWrite(b, o, input, l.dataOffset, szBlk, rec.blkPointer, k, rs[k]);
    }
  }

  /** The metadata newfs_umount stores keeps what the sync before it stored. */
  lemma SyncedAsUnmounted(b: seq<bv8>, l: SuperD, mi: seq<bv8>, md: seq<bv8>, m0: seq<bv8>, m1: seq<bv8>,
                          szBlk: int, ptrs: seq<int>, want: int, rec: InodeD, rs: seq<DentryD>)
    requires GeometryOk(l, szBlk, |b|) && MetaFits(l, mi, md, |b|)
    requires 0 <= rec.ino && |rs| <= |ptrs| * PerBlk(szBlk)
    requires SyncedAs(b, m0, m1, l, szBlk, ptrs, want, rec, rs)
    ensures SyncedAs(Unmounted(b, l, mi, md), m0, m1, l, szBlk, ptrs, want, rec, rs)
  {
    var d1 := Overwrite(b, NEWFS_SUPER_OFS, EncodeSuperD(UmountRecord(l)));
    SyncedAsAfterLowWrite(b, NEWFS_SUPER_OFS, EncodeSuperD(UmountRecord(l)), m0, m1, l, szBlk, ptrs, want, rec, rs);
    var d2 := Overwrite(d1, l.mapInodeOffset, mi);
    SyncedAsAfterLowWrite(d1, l.mapInodeOffset, mi, m0, m1, l, szBlk, ptrs, want, rec, rs);
    SyncedAsAfterLowWrite(d2, l.mapDataOffset, md, m0, m1, l, szBlk, ptrs, want, rec, rs);
  }

  /** newfs_umount's writes, in the order it makes them; a failing
      newfs_driver_write (-EIO) is not modelled. */
  method WriteBack(disk: Disk, l: SuperD, mi: seq<bv8>, md: seq<bv8>)
    requires disk.Valid() && MetaFits(l, mi, md, disk.szDisk)
    modifies disk
    ensures disk.Valid()
    ensures disk.bytes == Unmounted(old(disk.bytes), l, mi, md)
  {
    disk.DriverWrite(NEWFS_SUPER_OFS, EncodeSuperD(UmountRecord(l)));
    disk.DriverWrite(l.mapInodeOffset, mi);
    disk.DriverWrite(l.mapDataOffset, md);
  }
}
