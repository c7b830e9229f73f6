// Disk layout: the fresh-volume computation and the adopt-if-magic-matches
// decision of newfs_mount, and the superblock record newfs_umount writes back
// (fs/newfs/src/newfs_utils.c:632, 642-680, 732-748).

module Layout {
  import opened Types
  import opened Driver

  /** sz_blk = sz_io << 1. */
  function BlkSz(szIo: int): (b: int)
    requires szIo >= 0
    ensures b == szIo + szIo
  {
    2 * szIo
  }

  /** NEWFS_ROUND_UP(sizeof(struct newfs_super_d), NEWFS_BLK_SZ()) / NEWFS_BLK_SZ(). */
  function SuperBlks(szBlk: int): int
    requires szBlk > 0
  {
    CDiv(RoundUp(SUPER_D_SIZE, szBlk), szBlk)
  }

  /** tot_num: the whole blocks of the device. */
  function TotNum(szDisk: int, szBlk: int): int
    requires szBlk > 0
  {
    CDiv(szDisk, szBlk)
  }

  /** inode_per_blk: whole inode records per block. */
  function InodePerBlk(szBlk: int): int
  {
    CDiv(szBlk, INODE_D_SIZE)
  }

  /** max_ino: the blocks left after the superblock and both bitmaps, shared
      out one inode per NEWFS_DATA_PER_FILE data blocks, rounded up to a whole
      number of inode-table blocks. */
  function MaxIno(szDisk: int, szBlk: int): int
    requires szBlk >= INODE_D_SIZE
  {
    var estimate := CDiv(TotNum(szDisk, szBlk) - 1 - 1 - SuperBlks(szBlk), NEWFS_DATA_PER_FILE + 1);
    RoundUp(estimate, InodePerBlk(szBlk))
  }

  /** The layout of an uninitialised volume.  Every field of the record is
      computed except the magic number, which keeps the value read from the
      device: newfs_mount never sets it, only newfs_umount does.  The block
      must hold at least one inode record, since inode_per_blk divides. */
  function FreshLayout(stale: SuperD, szDisk: int, szBlk: int): SuperD
    requires szBlk >= INODE_D_SIZE
  {
    var inodePerBlk := InodePerBlk(szBlk);
    var maxIno := MaxIno(szDisk, szBlk);
    var mapInodeOffset := NEWFS_SUPER_OFS + BlksSz(SuperBlks(szBlk), szBlk);
    var mapDataOffset := mapInodeOffset + BlksSz(NEWFS_INODE_MAP_BLKS, szBlk);
    var inodeOffset := mapDataOffset + szBlk;
    var inodeBlks := CDiv(maxIno, inodePerBlk);
    var dataOffset := inodeOffset + inodeBlks * szBlk;
    SuperD(
      stale.magicNum, 0, maxIno, NEWFS_INODE_MAP_BLKS, mapInodeOffset,
      TotNum(szDisk, szBlk) - 3 - inodeBlks, NEWFS_DATA_MAP_BLKS, mapDataOffset,
      inodeOffset, dataOffset, inodePerBlk, inodeBlks)
  }

  /** The layout a mount works with, and whether the volume is initialised
      by this mount (is_init). */
  datatype Mounted = Mounted(layout: SuperD, isInit: bool)

  /** newfs_mount: adopts the record read from offset 0 when its magic
      number matches, and lays the volume out afresh otherwise. */
  function MountLayout(read: SuperD, szDisk: int, szBlk: int): Mounted
    requires read.magicNum != NEWFS_MAGIC_NUM ==> szBlk >= INODE_D_SIZE
  {
    if read.magicNum != NEWFS_MAGIC_NUM then Mounted(FreshLayout(read, szDisk, szBlk), true)
    else Mounted(read, false)
  }

  /** newfs_umount: the in-memory layout fields stored with NEWFS_MAGIC_NUM. */
  function UmountRecord(mem: SuperD): SuperD
  {
    mem.(magicNum := NEWFS_MAGIC_NUM)
  }

  // ---------------------------------------------------------------------
  // Arithmetic helpers
  // ---------------------------------------------------------------------

  /** C division of a non-negative multiple is exact. */
  lemma CDivExact(a: int, b: int)
    requires a >= 0 && b > 0 && a % b == 0
    ensures CDiv(a, b) * b == a
  {
    var q := CDiv(a, b);
    assert a == (a / b) * b + a % b;
    DivUnique(a, b, q);
  }

  lemma Distrib(a: int, b: int, c: int)
    ensures a * c + b * c == (a + b) * c
  {
  }

  /** With a block of at least 48 bytes the superblock takes exactly one block. */
  lemma OneSuperBlock(szBlk: int)
    requires szBlk >= SUPER_D_SIZE
    ensures SuperBlks(szBlk) == 1
  {
    var s := RoundUp(SUPER_D_SIZE, szBlk);
    if szBlk > SUPER_D_SIZE {
      var q := CDiv(SUPER_D_SIZE, szBlk);
      if q >= 1 {
        MulAtLeast(q, szBlk);
      } else if q <= -1 {
        MulNonPos(q + 1, szBlk);
        Distrib(q, 1, szBlk);
      }
      assert q == 0;
      assert s == (q + 1) * szBlk;
    }
    assert s == szBlk;
    var r := CDiv(s, szBlk);
    if r >= 2 {
      MulAtLeast(r - 1, szBlk);
      Distrib(r - 1, 1, szBlk);
    } else if r <= 0 {
      MulNonPos(r, szBlk);
    }
  }

  lemma TotNumFacts(szDisk: int, szBlk: int)
    requires szDisk >= 0 && szBlk > 0
    ensures TotNum(szDisk, szBlk) == szDisk / szBlk
    ensures TotNum(szDisk, szBlk) >= 0 && TotNum(szDisk, szBlk) * szBlk <= szDisk
  {
    var t := TotNum(szDisk, szBlk);
    assert t * szBlk <= szDisk < t * szBlk + szBlk;
    DivUnique(szDisk, szBlk, t);
    if t < 0 {
      MulNonPos(t + 1, szBlk);
      Distrib(t, 1, szBlk);
      assert false;
    }
  }

  lemma InodePerBlkFacts(szBlk: int)
    requires szBlk >= SUPER_D_SIZE
    ensures InodePerBlk(szBlk) >= 1 && InodePerBlk(szBlk) * INODE_D_SIZE <= szBlk
  {
  }

  lemma MaxInoFacts(szDisk: int, szBlk: int)
    requires szDisk >= 0 && szBlk >= SUPER_D_SIZE
    ensures var t := TotNum(szDisk, szBlk);
      var estimate := CDiv(t - 3, NEWFS_DATA_PER_FILE + 1);
      var ipb := InodePerBlk(szBlk);
      && estimate >= 0
      && (t >= 3 ==> estimate <= t - 3)
      && estimate <= MaxIno(szDisk, szBlk) < estimate + ipb
      && MaxIno(szDisk, szBlk) % ipb == 0
  {
    OneSuperBlock(szBlk);
    TotNumFacts(szDisk, szBlk);
    InodePerBlkFacts(szBlk);
  }

  /** The inode table: a whole number of blocks holding exactly max_ino
      records, and no more blocks than the estimate asks for. */
  lemma InodeBlksFacts(szDisk: int, szBlk: int)
    requires szDisk >= 0 && szBlk >= SUPER_D_SIZE
    ensures var ipb := InodePerBlk(szBlk);
      var maxIno := MaxIno(szDisk, szBlk);
      var inodeBlks := CDiv(maxIno, ipb);
      var t := TotNum(szDisk, szBlk);
      && inodeBlks >= 0
      && inodeBlks * ipb == maxIno
      && maxIno * INODE_D_SIZE <= inodeBlks * szBlk
      && (t >= 3 ==> inodeBlks <= t - 3)
  {
    MaxInoFacts(szDisk, szBlk);
    InodePerBlkFacts(szBlk);
    var ipb := InodePerBlk(szBlk);
    var maxIno := MaxIno(szDisk, szBlk);
    CDivExact(maxIno, ipb);
    TableArith(ipb, maxIno, CDiv(TotNum(szDisk, szBlk) - 3, NEWFS_DATA_PER_FILE + 1), szBlk, CDiv(maxIno, ipb));
  }

  lemma TableArith(ipb: int, maxIno: int, estimate: int, szBlk: int, blks: int)
    requires ipb >= 1 && ipb * INODE_D_SIZE <= szBlk
    requires 0 <= estimate <= maxIno < estimate + ipb
    requires blks * ipb == maxIno
    ensures 0 <= blks <= estimate
    ensures maxIno * INODE_D_SIZE <= blks * szBlk
  {
    if blks < 0 {
      MulNonPos(blks, ipb);
      MulAtLeast(1, ipb);
      assert false;
    }
    assert (blks * ipb) * INODE_D_SIZE == blks * (ipb * INODE_D_SIZE);
    MulMonotone(ipb * INODE_D_SIZE, szBlk, blks);
    if blks >= 1 {
      Distrib(blks - 1, 1, ipb);
      MulMonotone(1, ipb, blks - 1);
    }
  }

  /** The fresh layout places its regions back to back in the order
      superblock, inode bitmap, data bitmap, inode table, data region; the
      inode count is a whole number of table blocks; and the data region ends
      at the last whole block of the device. */
  lemma FreshLayoutRegions(stale: SuperD, szDisk: int, szBlk: int)
    requires szBlk >= SUPER_D_SIZE && szDisk >= 0
    ensures var s := FreshLayout(stale, szDisk, szBlk);
      var totNum := szDisk / szBlk;
      && s.magicNum == stale.magicNum && s.szUsage == 0
      && s.mapInodeBlks == 1 && s.mapDataBlks == 1
      && s.mapInodeOffset == szBlk
      && s.mapDataOffset == s.mapInodeOffset + szBlk
      && s.inodeOffset == s.mapDataOffset + szBlk
      && s.dataOffset == s.inodeOffset + s.inodeBlks * szBlk
      && s.inodePerBlk >= 1 && s.inodePerBlk * INODE_D_SIZE <= szBlk
      && s.maxIno >= 0 && s.maxIno % s.inodePerBlk == 0
      && s.inodeBlks * s.inodePerBlk == s.maxIno
      && s.inodeOffset + s.maxIno * INODE_D_SIZE <= s.dataOffset
      && s.maxDno == totNum - 3 - s.inodeBlks
      && (totNum >= 3 ==> s.maxDno >= 0 && s.dataOffset + s.maxDno * szBlk == totNum * szBlk <= szDisk)
  {
    var s := FreshLayout(stale, szDisk, szBlk);
    OneSuperBlock(szBlk);
    TotNumFacts(szDisk, szBlk);
    InodePerBlkFacts(szBlk);
    MaxInoFacts(szDisk, szBlk);
    InodeBlksFacts(szDisk, szBlk);
    var t := TotNum(szDisk, szBlk);
    var ib := s.inodeBlks;
    assert s.dataOffset == 3 * szBlk + ib * szBlk;
    Distrib(3, ib, szBlk);
    Distrib(3 + ib, t - 3 - ib, szBlk);
  }

  /** A fresh mount rounds the estimated inode count up to a whole table
      block and never below the estimate. */
  lemma FreshMaxInoCoversEstimate(stale: SuperD, szDisk: int, szBlk: int)
    requires szBlk >= SUPER_D_SIZE && szDisk >= 0
    ensures var s := FreshLayout(stale, szDisk, szBlk);
      var estimate := CDiv(szDisk / szBlk - 3, NEWFS_DATA_PER_FILE + 1);
      estimate <= s.maxIno < estimate + s.inodePerBlk
  {
    TotNumFacts(szDisk, szBlk);
    MaxInoFacts(szDisk, szBlk);
  }

  /** A mount adopts a record that carries the magic number, and lays the
      volume out afresh otherwise. */
  lemma MountAdoptsIffMagic(read: SuperD, szDisk: int, szBlk: int)
    requires szBlk >= INODE_D_SIZE
    ensures !MountLayout(read, szDisk, szBlk).isInit <==> read.magicNum == NEWFS_MAGIC_NUM
    ensures !MountLayout(read, szDisk, szBlk).isInit ==> MountLayout(read, szDisk, szBlk).layout == read
  {
  }

  /** The record newfs_umount writes at offset 0, read back by the next
      newfs_mount, is adopted verbatim: the next mount works with the same
      layout and usage as the volume had when it was unmounted. */
  lemma UmountThenMountAdopts(dev: seq<bv8>, mem: SuperD, szDisk: int, szBlk: int)
    requires SuperDOk(mem) && |dev| >= SUPER_D_SIZE && szBlk >= INODE_D_SIZE
    ensures var dev' := Overwrite(dev, NEWFS_SUPER_OFS, EncodeSuperD(UmountRecord(mem)));
      var m := MountLayout(DecodeSuperD(dev'[NEWFS_SUPER_OFS..NEWFS_SUPER_OFS + SUPER_D_SIZE]), szDisk, szBlk);
      && !m.isInit
      && m.layout == mem.(magicNum := NEWFS_MAGIC_NUM)
  {
    var rec := UmountRecord(mem);
    assert SuperDOk(rec);
    var dev' := Overwrite(dev, NEWFS_SUPER_OFS, EncodeSuperD(rec));
    assert dev'[NEWFS_SUPER_OFS..NEWFS_SUPER_OFS + SUPER_D_SIZE] == EncodeSuperD(rec);
    SuperDRoundTrip(rec);
  }
}
