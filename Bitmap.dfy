// The inode and data bitmaps: the bit view of a byte buffer, first-fit
// allocation and freeing (newfs_alloc_inode, newfs_alloc_data_blk,
// newfs_free_data_blk and the bit-clear step of newfs_drop_inode in
// fs/newfs/src/newfs_utils.c).

module Bitmap {
  import opened Types

  // ---------------------------------------------------------------------
  // Bits of a byte
  // ---------------------------------------------------------------------

  /** 0x1 << bit_cursor as a byte mask. */
  function Mask(k: nat): bv8
    requires k < UINT8_BITS
  {
    (1 as bv8) << k
  }

  predicate ByteBit(b: bv8, k: nat)
    requires k < UINT8_BITS
  {
    b & Mask(k) != 0
  }

  lemma SetByteBit(b: bv8, k: nat, j: nat)
    requires k < UINT8_BITS && j < UINT8_BITS
    ensures ByteBit(b | Mask(k), j) == (j == k || ByteBit(b, j))
  {
  }

  lemma ClearByteBit(b: bv8, k: nat, j: nat)
    requires k < UINT8_BITS && j < UINT8_BITS
    ensures ByteBit(b & !Mask(k), j) == (j != k && ByteBit(b, j))
  {
  }

  /** Setting a clear bit and clearing it again gives the byte back. */
  lemma SetClearByte(b: bv8, k: nat)
    requires k < UINT8_BITS && !ByteBit(b, k)
    ensures (b | Mask(k)) & !Mask(k) == b
  {
  }

  // ---------------------------------------------------------------------
  // The bit view of a bitmap buffer
  // ---------------------------------------------------------------------

  /** Bit `i` of a bitmap lives in byte i / 8 under the mask 1 << (i % 8). */
  predicate Bit(m: seq<bv8>, i: int)
    requires 0 <= i < UINT8_BITS * |m|
  {
    ByteBit(m[i / UINT8_BITS], i % UINT8_BITS)
  }

  function SetBit(m: seq<bv8>, i: int): (r: seq<bv8>)
    requires 0 <= i < UINT8_BITS * |m|
    ensures |r| == |m|
  {
    m[i / UINT8_BITS := m[i / UINT8_BITS] | Mask(i % UINT8_BITS)]
  }

  function ClearBit(m: seq<bv8>, i: int): (r: seq<bv8>)
    requires 0 <= i < UINT8_BITS * |m|
    ensures |r| == |m|
  {
    m[i / UINT8_BITS := m[i / UINT8_BITS] & !Mask(i % UINT8_BITS)]
  }

  /** Setting bit `i` sets that bit and leaves every other bit as it was. */
  lemma SetBitOnly(m: seq<bv8>, i: int, j: int)
    requires 0 <= i < UINT8_BITS * |m| && 0 <= j < UINT8_BITS * |m|
    ensures Bit(SetBit(m, i), j) == (j == i || Bit(m, j))
  {
    if j / UINT8_BITS == i / UINT8_BITS {
      SetByteBit(m[i / UINT8_BITS], i % UINT8_BITS, j % UINT8_BITS);
    }
  }

  /** Clearing bit `i` clears that bit and leaves every other bit as it was. */
  lemma ClearBitOnly(m: seq<bv8>, i: int, j: int)
    requires 0 <= i < UINT8_BITS * |m| && 0 <= j < UINT8_BITS * |m|
    ensures Bit(ClearBit(m, i), j) == (j != i && Bit(m, j))
  {
    if j / UINT8_BITS == i / UINT8_BITS {
      ClearByteBit(m[i / UINT8_BITS], i % UINT8_BITS, j % UINT8_BITS);
    }
  }

  /** Clearing a bit that was just set restores the buffer byte for byte. */
  lemma ClearUndoesSet(m: seq<bv8>, i: int)
    requires 0 <= i < UINT8_BITS * |m| && !Bit(m, i)
    ensures ClearBit(SetBit(m, i), i) == m
  {
    SetClearByte(m[i / UINT8_BITS], i % UINT8_BITS);
  }

  /** The lowest clear bit at index `from` or above, or -1 when every bit
      from there to the end of the buffer is set. */
  function FirstClear(m: seq<bv8>, from: nat): (r: int)
    requires from <= UINT8_BITS * |m|
    ensures r == -1 || from <= r < UINT8_BITS * |m|
    ensures r == -1 ==> forall j :: from <= j < UINT8_BITS * |m| ==> Bit(m, j)
    ensures r != -1 ==> !Bit(m, r) && forall j :: from <= j < r ==> Bit(m, j)
    decreases UINT8_BITS * |m| - from
  {
    if from == UINT8_BITS * |m| then -1
    else if !Bit(m, from) then from
    else FirstClear(m, from + 1)
  }

  // ---------------------------------------------------------------------
  // Allocation and freeing on buffer values
  // ---------------------------------------------------------------------

  /** Every index below `max` that the buffer covers is taken: what makes
      the allocator fail. */
  predicate Full(m: seq<bv8>, max: int)
  {
    forall j :: 0 <= j < max && j < UINT8_BITS * |m| ==> Bit(m, j)
  }

  /** The new buffer and the return value of an allocator. */
  datatype Alloced = Alloced(bits: seq<bv8>, ret: int)

  /** newfs_alloc_inode / newfs_alloc_data_blk as written: the first clear
      bit is set before the exhaustion test, and the test compares the index
      with `max` by equality only. */
  function AllocAsWritten(m: seq<bv8>, max: int): Alloced
  {
    var f := FirstClear(m, 0);
    if f == -1 then Alloced(m, -NEWFS_ERROR_NOSPACE)
    else Alloced(SetBit(m, f), if f == max then -NEWFS_ERROR_NOSPACE else f)
  }

  /** First-fit allocation below `max`: claims the lowest clear bit under
      `max`, and on exhaustion fails without touching the buffer. */
  function Alloc(m: seq<bv8>, max: int): Alloced
  {
    var f := FirstClear(m, 0);
    if f == -1 || f >= max then Alloced(m, -NEWFS_ERROR_NOSPACE)
    else Alloced(SetBit(m, f), f)
  }

  /** The bit-clear scan of newfs_free_data_blk and newfs_drop_inode: an
      index outside the buffer is never met by the scan, so nothing changes. */
  function ClearAt(m: seq<bv8>, d: int): (r: seq<bv8>)
    ensures |r| == |m|
  {
    if 0 <= d < UINT8_BITS * |m| then ClearBit(m, d) else m
  }

  /** newfs_free_data_blk(dno) against the bound `max` (max_dno). */
  function Free(m: seq<bv8>, max: int, d: int): Alloced
  {
    if d >= max then Alloced(m, -1) else Alloced(ClearAt(m, d), NEWFS_ERROR_NONE)
  }

  /** Allocation is first fit: it returns the lowest clear index below `max`,
      sets exactly that bit, and fails with -ENOSPC, leaving the buffer as it
      was, exactly when every bit below `max` is already set. */
  lemma AllocFirstFit(m: seq<bv8>, max: int)
    ensures var a := Alloc(m, max);
      && (a.ret == -NEWFS_ERROR_NOSPACE <==> forall j :: 0 <= j < max && j < UINT8_BITS * |m| ==> Bit(m, j))
      && (a.ret == -NEWFS_ERROR_NOSPACE ==> a.bits == m)
      && (a.ret != -NEWFS_ERROR_NOSPACE ==>
            && 0 <= a.ret < max && a.ret < UINT8_BITS * |m|
            && !Bit(m, a.ret)
            && (forall j :: 0 <= j < a.ret ==> Bit(m, j))
            && |a.bits| == |m|
            && forall j :: 0 <= j < UINT8_BITS * |m| ==> Bit(a.bits, j) == (j == a.ret || Bit(m, j)))
  {
    var f := FirstClear(m, 0);
    if f != -1 && f < max {
      forall j | 0 <= j < UINT8_BITS * |m|
        ensures Bit(SetBit(m, f), j) == (j == f || Bit(m, j))
      {
        SetBitOnly(m, f, j);
      }
    }
  }

  /** Freeing an index the allocator just handed out restores the buffer. */
  lemma FreeUndoesAlloc(m: seq<bv8>, max: int)
    requires Alloc(m, max).ret >= 0
    ensures Free(Alloc(m, max).bits, max, Alloc(m, max).ret).bits == m
    ensures Free(Alloc(m, max).bits, max, Alloc(m, max).ret).ret == NEWFS_ERROR_NONE
  {
    ClearUndoesSet(m, FirstClear(m, 0));
  }

  /** After an index below every clear bit is freed, the allocator hands that
      same index out next. */
  lemma FreedIndexReusedFirst(m: seq<bv8>, max: int, d: int)
    requires 0 <= d < max && d < UINT8_BITS * |m|
    requires forall j :: 0 <= j <= d ==> Bit(m, j)
    ensures Alloc(Free(m, max, d).bits, max).ret == d
  {
    var m' := ClearBit(m, d);
    forall j | 0 <= j < d
      ensures Bit(m', j)
    {
      ClearBitOnly(m, d, j);
    }
    ClearBitOnly(m, d, d);
    FirstClearIs(m', 0, d);
  }

  /** FirstClear finds a clear bit once all bits before it are set. */
  lemma {:induction false} FirstClearIs(m: seq<bv8>, from: nat, d: int)
    requires from <= d < UINT8_BITS * |m| && !Bit(m, d)
    requires forall j :: from <= j < d ==> Bit(m, j)
    ensures FirstClear(m, from) == d
    decreases d - from
  {
    if from < d {
      FirstClearIs(m, from + 1, d);
    }
  }

  /** Freeing checks only the upper bound: an index at or past `max` fails
      with -1 and leaves the buffer alone; any other index clears exactly that
      bit, when the buffer has it. */
  lemma FreeClearsOnly(m: seq<bv8>, max: int, d: int)
    ensures var f := Free(m, max, d);
      && (d >= max ==> f.ret == -1 && f.bits == m)
      && (d < max ==>
            && f.ret == NEWFS_ERROR_NONE && |f.bits| == |m|
            && forall j :: 0 <= j < UINT8_BITS * |m| ==> Bit(f.bits, j) == (j != d && Bit(m, j)))
  {
    if d < max {
      forall j | 0 <= j < UINT8_BITS * |m|
        ensures Bit(ClearAt(m, d), j) == (j != d && Bit(m, j))
      {
        if 0 <= d < UINT8_BITS * |m| {
          ClearBitOnly(m, d, j);
        }
      }
    }
  }

  /** The allocator as written leaks on exhaustion: when every index below
      `max` is taken and bit `max` exists, the call fails with -ENOSPC yet
      leaves bit `max` set, and the next call hands out an index above `max`. */
  lemma AllocAsWrittenEscapesMax(m: seq<bv8>, max: int)
    requires 0 <= max && max + 1 < UINT8_BITS * |m|
    requires forall j :: 0 <= j < max ==> Bit(m, j)
    requires !Bit(m, max) && !Bit(m, max + 1)
    ensures AllocAsWritten(m, max).ret == -NEWFS_ERROR_NOSPACE
    ensures AllocAsWritten(m, max).bits != m
    ensures AllocAsWritten(AllocAsWritten(m, max).bits, max).ret == max + 1
  {
    FirstClearIs(m, 0, max);
    var m1 := SetBit(m, max);
    SetBitOnly(m, max, max);
    forall j | 0 <= j <= max
      ensures Bit(m1, j)
    {
      SetBitOnly(m, max, j);
    }
    SetBitOnly(m, max, max + 1);
    FirstClearIs(m1, 0, max + 1);
  }

  /** The corrected allocator under the same conditions fails cleanly. */
  lemma AllocStaysBelowMax(m: seq<bv8>, max: int)
    ensures Alloc(m, max).ret == -NEWFS_ERROR_NOSPACE || 0 <= Alloc(m, max).ret < max
    ensures Alloc(m, max).ret == -NEWFS_ERROR_NOSPACE ==> Alloc(m, max).bits == m
  {
  }

  // ---------------------------------------------------------------------
  // The scans over the in-memory buffers
  // ---------------------------------------------------------------------

  /** The nested byte/bit loop of both allocators: finds the first clear bit,
      lowest byte first and least-significant bit first within a byte.
      `cursor` counts the bits passed over. */
  method ScanClear(bits: array<bv8>) returns (found: bool, cursor: int)
    ensures found <==> FirstClear(bits[..], 0) != -1
    ensures found ==> cursor == FirstClear(bits[..], 0)
    ensures !found ==> cursor == UINT8_BITS * bits.Length
  {
    var byteCursor := 0;
    cursor := 0;
    found := false;
    while byteCursor < bits.Length
      invariant 0 <= byteCursor <= bits.Length
      invariant !found
      invariant cursor == UINT8_BITS * byteCursor
      invariant forall j :: 0 <= j < cursor ==> Bit(bits[..], j)
    {
      var bitCursor := 0;
      while bitCursor < UINT8_BITS
        invariant 0 <= bitCursor <= UINT8_BITS
        invariant !found
        invariant cursor == UINT8_BITS * byteCursor + bitCursor
        invariant forall j :: 0 <= j < cursor ==> Bit(bits[..], j)
      {
        if bits[byteCursor] & Mask(bitCursor) == 0 {
          assert !Bit(bits[..], cursor) by {
            assert cursor / UINT8_BITS == byteCursor && cursor % UINT8_BITS == bitCursor;
          }
          found := true;
          break;
        }
        cursor := cursor + 1;
        bitCursor := bitCursor + 1;
      }
      if found {
        break;
      }
      byteCursor := byteCursor + 1;
    }
    if found {
      FirstClearIs(bits[..], 0, cursor);
    }
  }

  method SetBitIn(bits: array<bv8>, i: int)
    requires 0 <= i < UINT8_BITS * bits.Length
    modifies bits
    ensures bits[..] == SetBit(old(bits[..]), i)
  {
    bits[i / UINT8_BITS] := bits[i / UINT8_BITS] | Mask(i % UINT8_BITS);
  }

  /** The allocator scan as written (lines 160-178 and 220-237). */
  method AllocScanAsWritten(bits: array<bv8>, max: int) returns (r: int)
    modifies bits
    ensures bits[..] == AllocAsWritten(old(bits[..]), max).bits
    ensures r == AllocAsWritten(old(bits[..]), max).ret
  {
    var found, cursor := ScanClear(bits);
    if found {
      SetBitIn(bits, cursor);
    }
    if !found || cursor == max {
      return -NEWFS_ERROR_NOSPACE;
    }
    r := cursor;
  }

  /** The allocator scan with the exhaustion test made before the bit is
      claimed, and made against every index at or past `max`. */
  method AllocScan(bits: array<bv8>, max: int) returns (r: int)
    modifies bits
    ensures bits[..] == Alloc(old(bits[..]), max).bits
    ensures r == Alloc(old(bits[..]), max).ret
  {
    var found, cursor := ScanClear(bits);
    if !found || cursor >= max {
      return -NEWFS_ERROR_NOSPACE;
    }
    SetBitIn(bits, cursor);
    r := cursor;
  }

  /** The nested byte/bit loop that clears the bit whose index equals `d`
      (lines 245-259 and 382-395). */
  method ClearScan(bits: array<bv8>, d: int)
    modifies bits
    ensures bits[..] == ClearAt(old(bits[..]), d)
  {
    var byteCursor := 0;
    var cursor := 0;
    var isFind := false;
    while byteCursor < bits.Length
      invariant 0 <= byteCursor <= bits.Length
      invariant !isFind
      invariant cursor == UINT8_BITS * byteCursor
      invariant 0 <= d < UINT8_BITS * bits.Length ==> cursor <= d
      invariant bits[..] == old(bits[..])
    {
      var bitCursor := 0;
      while bitCursor < UINT8_BITS
        invariant 0 <= bitCursor <= UINT8_BITS
        invariant !isFind
        invariant cursor == UINT8_BITS * byteCursor + bitCursor
        invariant 0 <= d < UINT8_BITS * bits.Length ==> cursor <= d
        invariant bits[..] == old(bits[..])
      {
        if cursor == d {
          assert byteCursor == d / UINT8_BITS && bitCursor == d % UINT8_BITS;
          bits[byteCursor] := bits[byteCursor] & !Mask(bitCursor);
          isFind := true;
          break;
        }
        cursor := cursor + 1;
        bitCursor := bitCursor + 1;
      }
      if isFind {
        break;
      }
      byteCursor := byteCursor + 1;
    }
  }
}
