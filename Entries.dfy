// Directory entries on disk: where newfs_sync_inode writes the i-th
// newfs_dentry_d record of a directory and where newfs_read_inode looks for
// it (fs/newfs/src/newfs_utils.c:276-304 and 444-463), and the conversion
// between an in-memory dentry and its record.

module Entries {
  import opened Types

  // ---------------------------------------------------------------------
  // Record <-> dentry
  // ---------------------------------------------------------------------

  /** A name buffer as new_dentry leaves it: byte characters, and zeros from
      the end of the name to the end of the buffer. */
  predicate Padded(buf: string)
  {
    && IsNameBuf(buf)
    && forall k :: CStrLen(buf) <= k < |buf| ==> buf[k] == '\0'
  }

  /** The newfs_dentry_d that newfs_sync_inode fills from a dentry. */
  function RecordOf(e: Dentry): (r: DentryD)
    requires IsNameBuf(e.fname) && IsI32(e.ino)
    ensures DentryDOk(r)
  {
    DentryD(NameToBytes(e.fname), e.ftype, e.ino)
  }

  /** The dentry newfs_read_inode builds from a record: new_dentry on the
      stored name (up to its first zero byte) and type, then the stored ino. */
  function ChildOf(r: DentryD, parent: DentryId): (e: Dentry)
    requires |r.fname| == NEWFS_MAX_FILE_NAME
    ensures Padded(e.fname) && e.ftype == r.ftype && e.ino == r.ino
    ensures e.parent == Some(parent) && e.brother == None && e.inode == None
  {
    var name := NameOf(BytesToName(r.fname));
    NameIsCString(BytesToName(r.fname));
    NewDentryPadded(name, r.ftype);
    NewDentry(name, r.ftype).(parent := Some(parent), ino := r.ino)
  }

  /** The bytes of a name buffer before its first zero are a C string. */
  lemma NameIsCString(buf: string)
    requires forall k :: 0 <= k < |buf| ==> buf[k] as int < 256
    ensures IsCString(NameOf(buf)) && |NameOf(buf)| <= |buf|
  {
    var n := CStrLen(buf);
    forall k | 0 <= k < n
      ensures 0 < NameOf(buf)[k] as int < 256
    {
      assert NameOf(buf)[k] == buf[k] && buf[k] != '\0';
    }
  }

  lemma NewDentryPadded(name: string, t: FileType)
    requires |name| <= NEWFS_MAX_FILE_NAME && IsCString(name)
    ensures Padded(NewDentry(name, t).fname)
    ensures NameOf(NewDentry(name, t).fname) == name
  {
    NewDentryNameOf(name, t);
    var buf := NewDentry(name, t).fname;
    CStrLenOfTerminated(buf, |name|);
  }

  /** A padded name buffer is rebuilt exactly by new_dentry on its name. */
  lemma PaddedRebuilt(buf: string, t: FileType)
    requires Padded(buf)
    ensures NewDentry(NameOf(buf), t).fname == buf
  {
    var b := NewDentry(NameOf(buf), t).fname;
    assert |b| == |buf|;
    forall k | 0 <= k < |buf|
      ensures b[k] == buf[k]
    {
      if k < CStrLen(buf) {
        assert b[k] == NameOf(buf)[k];
      }
    }
  }

  /** Writing a dentry's record and building a dentry from it again gives
      back its name, type and ino. */
  lemma RecordRoundTrip(e: Dentry, parent: DentryId)
    requires Padded(e.fname) && IsI32(e.ino)
    ensures var c := ChildOf(RecordOf(e), parent);
            c.fname == e.fname && c.ftype == e.ftype && c.ino == e.ino
  {
    NameBytesRoundTrip(e.fname);
    PaddedRebuilt(e.fname, e.ftype);
  }

  // ---------------------------------------------------------------------
  // Packing of records into the directory's data blocks
  // ---------------------------------------------------------------------

  /** Whole records per block: each record lies inside one block. */
  function PerBlk(szBlk: int): (per: int)
    requires szBlk >= DENTRY_D_SIZE
    ensures per >= 1 && per * DENTRY_D_SIZE <= szBlk
  {
    var per := szBlk / DENTRY_D_SIZE;
    DivUnique(szBlk, DENTRY_D_SIZE, per);
    per
  }

  /** Blocks holding `n` records, `per` to a block. */
  function BlocksFor(n: int, per: int): (b: int)
    requires n >= 0 && per >= 1
    ensures (b - 1) * per < n <= b * per
    ensures b >= 0 && (n == 0 <==> b == 0)
  {
    var b := (n + per - 1) / per;
    DivUnique(n + per - 1, per, b);
    b
  }

  /** More records than six blocks hold need more than six blocks. */
  lemma BlocksForPastSix(n: int, per: int)
    requires per >= 1 && n > NEWFS_DATA_PER_FILE * per
    ensures BlocksFor(n, per) > NEWFS_DATA_PER_FILE
  {
    var b := BlocksFor(n, per);
    if b <= NEWFS_DATA_PER_FILE {
      MulMonotone(b, NEWFS_DATA_PER_FILE, per);
    }
  }

  /** Position of record `k` within its block, in bytes. */
  function SlotOfs(k: int, per: int): (o: int)
    requires k >= 0 && per >= 1
    ensures 0 <= o && o + DENTRY_D_SIZE <= per * DENTRY_D_SIZE
  {
    var s := k % per;
    assert s + 1 <= per;
    MulMonotone(s + 1, per, DENTRY_D_SIZE);
    s * DENTRY_D_SIZE
  }

  /** Byte offset of record `k` of a directory whose blocks are `ptrs`. */
  function EntryOfs(dataOffset: int, szBlk: int, ptrs: seq<int>, k: int): int
    requires szBlk >= DENTRY_D_SIZE && k >= 0 && k / PerBlk(szBlk) < |ptrs|
  {
    DataOfs(dataOffset, szBlk, ptrs[k / PerBlk(szBlk)]) + SlotOfs(k, PerBlk(szBlk))
  }

  /** Record `k` lies inside block `ptrs[k / per]`. */
  lemma EntryInBlock(dataOffset: int, szBlk: int, ptrs: seq<int>, k: int)
    requires szBlk >= DENTRY_D_SIZE && k >= 0 && k / PerBlk(szBlk) < |ptrs|
    ensures var b := DataOfs(dataOffset, szBlk, ptrs[k / PerBlk(szBlk)]);
            b <= EntryOfs(dataOffset, szBlk, ptrs, k)
            && EntryOfs(dataOffset, szBlk, ptrs, k) + DENTRY_D_SIZE <= b + szBlk
  {
  }

  /** Two different records in the same block have disjoint slots. */
  lemma SlotsDisjoint(k1: int, k2: int, per: int)
    requires 0 <= k1 && 0 <= k2 && k1 != k2 && per >= 1 && k1 / per == k2 / per
    ensures SlotOfs(k1, per) + DENTRY_D_SIZE <= SlotOfs(k2, per)
         || SlotOfs(k2, per) + DENTRY_D_SIZE <= SlotOfs(k1, per)
  {
    var s1, s2 := k1 % per, k2 % per;
    assert s1 != s2 by {
      DivUnique(k1, per, k1 / per);
      DivUnique(k2, per, k2 / per);
    }
    if s1 < s2 {
      MulMonotone(s1 + 1, s2, DENTRY_D_SIZE);
    } else {
      MulMonotone(s2 + 1, s1, DENTRY_D_SIZE);
    }
  }

  /** Two different records of a directory whose blocks are distinct occupy
      disjoint byte ranges. */
  lemma EntriesDisjoint(dataOffset: int, szBlk: int, ptrs: seq<int>, k1: int, k2: int)
    requires szBlk >= DENTRY_D_SIZE && 0 <= k1 && 0 <= k2 && k1 != k2
    requires k1 / PerBlk(szBlk) < |ptrs| && k2 / PerBlk(szBlk) < |ptrs|
    requires forall s, t :: 0 <= s < t < |ptrs| ==> ptrs[s] != ptrs[t]
    ensures var o1 := EntryOfs(dataOffset, szBlk, ptrs, k1);
            var o2 := EntryOfs(dataOffset, szBlk, ptrs, k2);
            o1 + DENTRY_D_SIZE <= o2 || o2 + DENTRY_D_SIZE <= o1
  {
    var per := PerBlk(szBlk);
    var b1, b2 := k1 / per, k2 / per;
    if b1 == b2 {
      SlotsDisjoint(k1, k2, per);
    } else {
      assert ptrs[b1] != ptrs[b2] by { DistinctAt(ptrs, b1, b2); }
      EntryInBlock(dataOffset, szBlk, ptrs, k1);
      EntryInBlock(dataOffset, szBlk, ptrs, k2);
      InDistinctBlocks(dataOffset, szBlk, ptrs[b1], ptrs[b2],
                       EntryOfs(dataOffset, szBlk, ptrs, k1), EntryOfs(dataOffset, szBlk, ptrs, k2));
    }
  }

  /** Different positions of a sequence without repeats hold different values. */
  lemma DistinctAt(ptrs: seq<int>, b1: int, b2: int)
    requires forall s, t :: 0 <= s < t < |ptrs| ==> ptrs[s] != ptrs[t]
    requires 0 <= b1 < |ptrs| && 0 <= b2 < |ptrs| && b1 != b2
    ensures ptrs[b1] != ptrs[b2]
  {
    if b2 < b1 {
      assert ptrs[b2] != ptrs[b1];
    }
  }

  /** Records inside two different blocks do not overlap. */
  lemma InDistinctBlocks(dataOffset: int, szBlk: int, p1: int, p2: int, o1: int, o2: int)
    requires szBlk > 0 && p1 != p2
    requires DataOfs(dataOffset, szBlk, p1) <= o1 && o1 + DENTRY_D_SIZE <= DataOfs(dataOffset, szBlk, p1) + szBlk
    requires DataOfs(dataOffset, szBlk, p2) <= o2 && o2 + DENTRY_D_SIZE <= DataOfs(dataOffset, szBlk, p2) + szBlk
    ensures o1 + DENTRY_D_SIZE <= o2 || o2 + DENTRY_D_SIZE <= o1
  {
    DataBlocksDisjoint(dataOffset, szBlk, p1, p2);
  }

  // ---------------------------------------------------------------------
  // The packing as written
  // ---------------------------------------------------------------------

  /** The count at which the source considers a block full: the first `cnt`
      with cnt * 136 >= sz_blk. */
  function FullAt(szBlk: int): (f: int)
    requires szBlk > 0
    ensures f >= 1 && (f - 1) * DENTRY_D_SIZE < szBlk <= f * DENTRY_D_SIZE
  {
    var f := (szBlk + DENTRY_D_SIZE - 1) / DENTRY_D_SIZE;
    DivUnique(szBlk + DENTRY_D_SIZE - 1, DENTRY_D_SIZE, f);
    f
  }

  /** (pointer index, byte offset in block) where newfs_sync_inode as
      written puts record `k`: its `cnt` is never reset, so after the first
      block fills every later record starts a block of its own. */
  function WriteSlotAsWritten(szBlk: int, k: int): (int, int)
    requires szBlk > 0 && k >= 0
  {
    var f := FullAt(szBlk);
    if k < f then (0, k * DENTRY_D_SIZE) else (k - f + 1, 0)
  }

  /** (pointer index, byte offset in block) where newfs_read_inode as written
      looks for record `k`: it resets its count, FullAt records per block. */
  function ReadSlotAsWritten(szBlk: int, k: int): (int, int)
    requires szBlk > 0 && k >= 0
  {
    var f := FullAt(szBlk);
    (k / f, (k % f) * DENTRY_D_SIZE)
  }

  /** With 1024-byte blocks the write side and the read side disagree from
      the tenth record on; the eighth record already runs past the end of
      its block; and the fourteenth record needs pointer slot 6 of a
      six-slot array. */
  lemma PackingAsWrittenDisagrees()
    ensures WriteSlotAsWritten(1024, 9) == (2, 0)
    ensures ReadSlotAsWritten(1024, 9) == (1, DENTRY_D_SIZE)
    ensures WriteSlotAsWritten(1024, 7).1 + DENTRY_D_SIZE > 1024
    ensures WriteSlotAsWritten(1024, 13).0 == NEWFS_DATA_PER_FILE
  {
    assert FullAt(1024) == 8;
  }

  /** With 1024-byte blocks newfs_read_inode as written takes the eighth
      record from the end of the first block, where it runs past the block,
      while the corrected packing reads it from the start of the second. */
  lemma ReadSlotAsWrittenOverrunsBlock()
    ensures ReadSlotAsWritten(1024, 7) == (0, 7 * DENTRY_D_SIZE)
    ensures ReadSlotAsWritten(1024, 7).1 + DENTRY_D_SIZE > 1024
    ensures 7 / PerBlk(1024) == 1 && SlotOfs(7, PerBlk(1024)) == 0
  {
    assert FullAt(1024) == 8;
    assert PerBlk(1024) == 7;
  }

  /** Whether newfs_read_inode as written gets past the guard at line 450
      up to record `k`: before each move to a new block it gives up only when
      the pointer index it is leaving is already past NEWFS_DATA_PER_FILE. */
  predicate ReadReachesAsWritten(szBlk: int, k: int)
    requires szBlk > 0 && k >= 0
  {
    k / FullAt(szBlk) <= NEWFS_DATA_PER_FILE + 1
  }

  /** With 1024-byte blocks the guard lets the reader use pointer indices 6
      and 7 of the six-slot array. */
  lemma ReadGuardAsWrittenOverruns()
    ensures ReadReachesAsWritten(1024, 48) && ReadSlotAsWritten(1024, 48).0 == NEWFS_DATA_PER_FILE
    ensures ReadReachesAsWritten(1024, 56) && ReadSlotAsWritten(1024, 56).0 == NEWFS_DATA_PER_FILE + 1
  {
    assert FullAt(1024) == 8;
  }

  /** The corrected packing keeps every record inside its block, and the
      writer and the reader use the same position. */
  lemma PackingCorrected(szBlk: int, k: int)
    requires szBlk >= DENTRY_D_SIZE && k >= 0
    ensures var per := PerBlk(szBlk);
            0 <= SlotOfs(k, per) && SlotOfs(k, per) + DENTRY_D_SIZE <= szBlk
    ensures k < NEWFS_DATA_PER_FILE * PerBlk(szBlk) ==> k / PerBlk(szBlk) < NEWFS_DATA_PER_FILE
  {
    var per := PerBlk(szBlk);
    if k < NEWFS_DATA_PER_FILE * per {
      assert k / per < NEWFS_DATA_PER_FILE by {
        DivUnique(k, per, k / per);
        if k / per >= NEWFS_DATA_PER_FILE {
          MulMonotone(NEWFS_DATA_PER_FILE, k / per, per);
        }
      }
    }
  }
}
