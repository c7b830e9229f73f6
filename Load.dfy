// The reads of newfs_read_inode (fs/newfs/src/newfs_utils.c:425-465) in
// terms of the device alone: the inode record, and for a directory its
// dir_cnt entry records.  Building the in-memory dentries from them is in Fs.

module Load {
  import opened Types
  import opened Driver
  import opened Entries
  import opened Store

  /** Once a record cannot be read, no longer prefix can be read either. */
  lemma {:induction false} LoadEntriesNoneStays(bytes: seq<bv8>, dataOffset: int, szBlk: int, ptrs: seq<int>, i: int, n: int)
    requires szBlk >= DENTRY_D_SIZE && 0 <= i <= n
    requires LoadEntries(bytes, dataOffset, szBlk, ptrs, i).None?
    ensures LoadEntries(bytes, dataOffset, szBlk, ptrs, n).None?
    decreases n - i
  {
    if i < n {
      LoadEntriesNoneStays(bytes, dataOffset, szBlk, ptrs, i, n - 1);
    }
  }

  /** Record `i` sits in block `blk` at slot `cnt` when i == blk*per + cnt. */
  lemma SlotOfRecord(szBlk: int, i: int, blk: int, cnt: int)
    requires szBlk >= DENTRY_D_SIZE && 0 <= blk && 0 <= cnt < PerBlk(szBlk)
    requires i == blk * PerBlk(szBlk) + cnt
    ensures i / PerBlk(szBlk) == blk && SlotOfs(i, PerBlk(szBlk)) == cnt * DENTRY_D_SIZE
  {
    DivUnique(i, PerBlk(szBlk), blk);
  }

  lemma NextBlock(blk: int, per: int)
    ensures (blk + 1) * per == blk * per + per
  {
  }

  /** Whether the record at slot `cnt` of block `blk` can be read: its
      block pointer exists and the record lies inside the device. */
  predicate SlotReadable(len: int, dataOffset: int, szBlk: int, ptrs: seq<int>, blk: int, cnt: int)
  {
    && 0 <= blk < |ptrs|
    && 0 <= DataOfs(dataOffset, szBlk, ptrs[blk]) + cnt * DENTRY_D_SIZE
    && DataOfs(dataOffset, szBlk, ptrs[blk]) + cnt * DENTRY_D_SIZE + DENTRY_D_SIZE <= len
  }

  /** Reading record i = blk*per + cnt after records 0 .. i-1: the prefix
      grows by the decoded record, or cannot be read when the slot is not
      readable or the record's type tag is unknown. */
  lemma LoadNext(bytes: seq<bv8>, dataOffset: int, szBlk: int, ptrs: seq<int>, i: int, blk: int, cnt: int, es: seq<DentryD>)
    requires szBlk >= DENTRY_D_SIZE && 0 <= blk && 0 <= cnt < PerBlk(szBlk) && i == blk * PerBlk(szBlk) + cnt
    requires LoadEntries(bytes, dataOffset, szBlk, ptrs, i) == Some(es)
    ensures !SlotReadable(|bytes|, dataOffset, szBlk, ptrs, blk, cnt) ==>
              LoadEntries(bytes, dataOffset, szBlk, ptrs, i + 1).None?
    ensures SlotReadable(|bytes|, dataOffset, szBlk, ptrs, blk, cnt) ==>
              var o := DataOfs(dataOffset, szBlk, ptrs[blk]) + cnt * DENTRY_D_SIZE;
              LoadEntries(bytes, dataOffset, szBlk, ptrs, i + 1)
                == if DecodeDentryD(bytes[o..o + DENTRY_D_SIZE]).None? then None
                   else Some(es + [DecodeDentryD(bytes[o..o + DENTRY_D_SIZE]).value])
  {
    SlotOfRecord(szBlk, i, blk, cnt);
  }

  /** The entry loop of newfs_read_inode: reads records 0 .. n-1 of a
      directory, moving to the next block pointer when a block holds no
      further whole record, and failing when the pointers run out, a record
      lies outside the device or its type tag is unknown. */
  method ReadEntries(disk: Disk, dataOffset: int, szBlk: int, ptrs: seq<int>, n: int)
    returns (r: Option<seq<DentryD>>)
    requires disk.Valid() && szBlk >= DENTRY_D_SIZE
    ensures r == LoadEntries(disk.bytes, dataOffset, szBlk, ptrs, n)
  {
    var per := szBlk / DENTRY_D_SIZE;
    assert per == PerBlk(szBlk);
    var es: seq<DentryD> := [];
    var i, blk, cnt := 0, 0, 0;
    while i < n
      invariant 0 <= i && (i <= n || i == 0)
      invariant 0 <= blk && 0 <= cnt <= per && i == blk * per + cnt
      invariant LoadEntries(disk.bytes, dataOffset, szBlk, ptrs, i) == Some(es)
      decreases n - i
    {
      if cnt == per {
        NextBlock(blk, per);
        blk, cnt := blk + 1, 0;
      }
      LoadNext(disk.bytes, dataOffset, szBlk, ptrs, i, blk, cnt, es);
      if !SlotReadable(disk.szDisk, dataOffset, szBlk, ptrs, blk, cnt) {
        LoadEntriesNoneStays(disk.bytes, dataOffset, szBlk, ptrs, i + 1, n);
        return None;
      }
      var o := DataOfs(dataOffset, szBlk, ptrs[blk]) + cnt * DENTRY_D_SIZE;
      var raw := disk.DriverRead(o, DENTRY_D_SIZE);
      var e := DecodeDentryD(raw);
      if e.None? {
        LoadEntriesNoneStays(disk.bytes, dataOffset, szBlk, ptrs, i + 1, n);
        return None;
      }
      es := es + [e.value];
      i, cnt := i + 1, cnt + 1;
    }
    r := Some(es);
  }

  /** newfs_read_inode's reads: the inode record of `ino` through
      newfs_driver_read, then for a directory its entry records. */
  method ReadRecords(disk: Disk, l: SuperD, szBlk: int, ino: int, isDir: bool) returns (r: Option<Loaded>)
    requires disk.Valid() && szBlk >= DENTRY_D_SIZE
    ensures r == LoadInode(disk.bytes, l, szBlk, ino, isDir)
  {
    var o := InoOfs(l.inodeOffset, ino);
    if o < 0 || o + INODE_D_SIZE > disk.szDisk {
      return None;
    }
    var raw := disk.DriverRead(o, INODE_D_SIZE);
    var f := DecodeI32s(raw, 10);
    if !(0 <= f[0] < l.maxIno) {
      return None;
    }
    if !isDir {
      return Some(Loaded(f[0], f[1], []));
    }
    var es := ReadEntries(disk, l.dataOffset, szBlk, f[4..], f[2]);
    if es.None? {
      return None;
    }
    r := Some(Loaded(f[0], f[1], es.value));
  }
}
