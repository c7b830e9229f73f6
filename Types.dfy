// Constants, arithmetic macros, in-memory records and on-disk records of the
// newfs file system (fs/newfs/include/types.h).

module Types {

  datatype Option<T> = None | Some(value: T)

  // ---------------------------------------------------------------------
  // Constants
  // ---------------------------------------------------------------------

  const NEWFS_MAGIC_NUM: int := 0x52415453
  const NEWFS_SUPER_OFS: int := 0
  const NEWFS_ROOT_INO: int := 0
  const NEWFS_INODE_MAP_BLKS: int := 1
  const NEWFS_DATA_MAP_BLKS: int := 1
  const NEWFS_MAX_FILE_NAME: int := 128
  const NEWFS_DATA_PER_FILE: int := 6
  const UINT8_BITS: int := 8

  // Error codes are the Linux errno values the macros expand to.
  const NEWFS_ERROR_NONE: int := 0
  const NEWFS_ERROR_NOTFOUND: int := 2   // ENOENT
  const NEWFS_ERROR_IO: int := 5         // EIO
  const NEWFS_ERROR_INVAL: int := 22     // EINVAL
  const NEWFS_ERROR_NOSPACE: int := 28   // ENOSPC

  // sizeof of the three on-disk records (4-byte fields, a 4-byte enum).
  const SUPER_D_SIZE: int := 48
  const INODE_D_SIZE: int := 40
  const DENTRY_D_SIZE: int := 136

  const TWO_32: int := 0x1_0000_0000
  const TWO_31: int := 0x8000_0000

  /** The value range of a C `int` / the bit patterns of a `uint32_t`. */
  predicate IsI32(x: int) { -TWO_31 <= x < TWO_31 }

  /** What an int field holds once stored in 32 bits, two's complement. */
  function Wrap32(x: int): (r: int)
    ensures IsI32(r) && (IsI32(x) ==> r == x)
  {
    if IsI32(x) then x
    else
      var u := x % TWO_32;
      if u >= TWO_31 then u - TWO_32 else u
  }

  // ---------------------------------------------------------------------
  // C integer division (truncates toward zero) and the rounding macros
  // ---------------------------------------------------------------------

  // Small facts about multiplication and division that the solver does not
  // find on its own.

  lemma MulNonNeg(d: int, b: int)
    requires d >= 0 && b >= 0
    ensures d * b >= 0
  {
  }

  lemma MulAtLeast(d: int, b: int)
    requires d >= 1 && b > 0
    ensures d * b >= b
  {
    MulNonNeg(d - 1, b);
    assert d * b == (d - 1) * b + b;
  }

  lemma MulMonotone(x: int, y: int, c: int)
    requires c >= 0 && x <= y
    ensures x * c <= y * c
  {
    MulNonNeg(y - x, c);
    assert (y - x) * c == y * c - x * c;
  }

  /** Euclidean division is pinned down by its bounds. */
  lemma DivUnique(a: int, b: int, q: int)
    requires b > 0 && q * b <= a < q * b + b
    ensures a / b == q && a % b == a - q * b
  {
    var q' := a / b;
    assert a == q' * b + a % b;
    assert (q' - q) * b == q' * b - q * b;
    assert (q - q') * b == q * b - q' * b;
    if q' > q {
      MulAtLeast(q' - q, b);
    } else if q' < q {
      MulAtLeast(q - q', b);
    }
  }

  lemma MultipleMod(k: int, b: int)
    requires b > 0
    ensures (k * b) % b == 0 && (k * b) / b == k
  {
    DivUnique(k * b, b, k);
  }

  lemma MulNonPos(d: int, b: int)
    requires d <= 0 && b >= 0
    ensures d * b <= 0
  {
    MulNonNeg(-d, b);
    assert d * b == -((-d) * b);
  }

  /** Two distinct multiples of `r` are at least `r` apart. */
  lemma MultiplesApart(x: int, y: int, r: int)
    requires r > 0 && x % r == 0 && y % r == 0 && x > y
    ensures x >= y + r
  {
    var d := x / r - y / r;
    assert x == (x / r) * r + x % r;
    assert y == (y / r) * r + y % r;
    assert x - y == d * r;
    if d >= 1 {
      MulAtLeast(d, r);
    } else {
      MulNonPos(d, r);
      assert false;
    }
  }

  /** A value rounded up stays below any multiple of `r` that bounds it. */
  lemma RoundUpWithin(v: int, m: int, r: int)
    requires r > 0 && 0 <= v <= m && m % r == 0
    ensures RoundUp(v, r) <= m
  {
    if RoundUp(v, r) > m {
      MultiplesApart(RoundUp(v, r), m, r);
    }
  }

  lemma DiffOfMultiples(x: int, y: int, r: int)
    requires r > 0 && x % r == 0 && y % r == 0
    ensures (x - y) % r == 0
  {
    assert x == (x / r) * r + x % r;
    assert y == (y / r) * r + y % r;
    assert x - y == (x / r - y / r) * r;
    MultipleMod(x / r - y / r, r);
  }

  function CDiv(a: int, b: int): (q: int)
    requires b > 0
    ensures a >= 0 ==> q * b <= a < q * b + b
    ensures a < 0 ==> q * b - b < a <= q * b
  {
    if a >= 0 then
      assert a == (a / b) * b + a % b;
      a / b
    else
      var m := -a;
      assert m == (m / b) * b + m % b;
      assert (-(m / b)) * b == -((m / b) * b);
      -(m / b)
  }

  function CMod(a: int, b: int): int
    requires b > 0
  {
    a - CDiv(a, b) * b
  }

  lemma CModZeroIsMultiple(a: int, b: int)
    requires b > 0
    ensures (CMod(a, b) == 0) == (a % b == 0)
  {
    if a >= 0 {
      DivUnique(a, b, CDiv(a, b));
    } else {
      var m := -a;
      var q := m / b;
      assert m == q * b + m % b;
      assert CDiv(a, b) * b == -(q * b);
      assert CMod(a, b) == -(m % b);
      if m % b == 0 {
        assert a == (-q) * b;
        MultipleMod(-q, b);
      }
      if a % b == 0 {
        var k := a / b;
        assert a == k * b + a % b;
        assert m == (-k) * b;
        MultipleMod(-k, b);
      }
    }
  }

  /** NEWFS_ROUND_DOWN(value, round): the multiple of `round` nearest to
      `value` in the direction of zero. */
  function RoundDown(value: int, round: int): (r: int)
    requires round > 0
    ensures r % round == 0
    ensures value % round == 0 ==> r == value
    ensures value >= 0 ==> value - round < r <= value
    ensures value < 0 ==> value <= r < value + round
  {
    CModZeroIsMultiple(value, round);
    MultipleMod(CDiv(value, round), round);
    if CMod(value, round) == 0 then value else CDiv(value, round) * round
  }

  /** NEWFS_ROUND_UP(value, round): for a non-negative value, the smallest
      multiple of `round` that is at least `value`. */
  function RoundUp(value: int, round: int): (r: int)
    requires round > 0
    ensures r % round == 0
    ensures value % round == 0 ==> r == value
    ensures value >= 0 ==> value <= r < value + round
    ensures value < 0 && value % round != 0 ==> value + round < r < value + 2 * round
  {
    CModZeroIsMultiple(value, round);
    MultipleMod(CDiv(value, round) + 1, round);
    assert (CDiv(value, round) + 1) * round == CDiv(value, round) * round + round;
    if CMod(value, round) == 0 then value else (CDiv(value, round) + 1) * round
  }

  /** Both rounding macros are idempotent. */
  lemma RoundingIdempotent(value: int, round: int)
    requires round > 0
    ensures RoundDown(RoundDown(value, round), round) == RoundDown(value, round)
    ensures RoundUp(RoundUp(value, round), round) == RoundUp(value, round)
  {
  }

  // ---------------------------------------------------------------------
  // Size and offset macros
  // ---------------------------------------------------------------------

  /** NEWFS_BLKS_SZ(blks). */
  function BlksSz(blks: int, szBlk: int): int { blks * szBlk }

  /** NEWFS_INO_OFS(ino): byte offset of inode record `ino`. */
  function InoOfs(inodeOffset: int, ino: int): int { inodeOffset + ino * INODE_D_SIZE }

  /** NEWFS_DATA_OFS(dno): byte offset of data block `dno`. */
  function DataOfs(dataOffset: int, szBlk: int, dno: int): int { dataOffset + dno * szBlk }

  /** Distinct inode indices address non-overlapping inode records. */
  lemma InoRecordsDisjoint(inodeOffset: int, i: int, j: int)
    requires i != j
    ensures InoOfs(inodeOffset, i) + INODE_D_SIZE <= InoOfs(inodeOffset, j)
         || InoOfs(inodeOffset, j) + INODE_D_SIZE <= InoOfs(inodeOffset, i)
  {
  }

  /** Distinct data block numbers address non-overlapping blocks. */
  lemma DataBlocksDisjoint(dataOffset: int, szBlk: int, i: int, j: int)
    requires szBlk > 0 && i != j
    ensures DataOfs(dataOffset, szBlk, i) + szBlk <= DataOfs(dataOffset, szBlk, j)
         || DataOfs(dataOffset, szBlk, j) + szBlk <= DataOfs(dataOffset, szBlk, i)
  {
    if i < j {
      MulAtLeast(j - i, szBlk);
      assert (j - i) * szBlk == j * szBlk - i * szBlk;
    } else {
      MulAtLeast(i - j, szBlk);
      assert (i - j) * szBlk == i * szBlk - j * szBlk;
    }
  }

  // ---------------------------------------------------------------------
  // File types
  // ---------------------------------------------------------------------

  /** NEWFS_FILE_TYPE: NEWFS_REG_FILE = 0, NEWFS_DIR = 1. */
  datatype FileType = RegFile | Dir

  function FileTypeCode(t: FileType): int
  {
    match t
    case RegFile => 0
    case Dir => 1
  }

  function DecodeFileType(v: int): (t: Option<FileType>)
    ensures t.Some? <==> v == 0 || v == 1
    ensures t.Some? ==> FileTypeCode(t.value) == v
  {
    if v == 0 then Some(RegFile) else if v == 1 then Some(Dir) else None
  }

  // ---------------------------------------------------------------------
  // In-memory structures (struct newfs_dentry, struct newfs_inode)
  // ---------------------------------------------------------------------

  /** A pointer to a heap object is an index into an arena. */
  type DentryId = nat
  type InodeId = nat

  /** struct newfs_dentry.  `fname` is the whole 128-byte name buffer. */
  datatype Dentry = Dentry(
    fname: string,
    parent: Option<DentryId>,
    brother: Option<DentryId>,
    ino: int,
    inode: Option<InodeId>,
    ftype: FileType)

  /** struct newfs_inode, without the file content buffer. */
  datatype Inode = Inode(
    ino: int,
    size: int,
    dirCnt: int,
    dentry: DentryId,
    dentrys: Option<DentryId>)

  /** A C string: no byte is NUL and every character is one byte. */
  predicate IsCString(s: string)
  {
    forall k :: 0 <= k < |s| ==> 0 < s[k] as int < 256
  }

  /** A 128-byte name field holding byte characters. */
  predicate IsNameBuf(buf: string)
  {
    |buf| == NEWFS_MAX_FILE_NAME && forall k :: 0 <= k < |buf| ==> buf[k] as int < 256
  }

  /** strlen on a buffer that may lack its terminator: stops at the first NUL
      or at the end of the buffer. */
  function CStrLen(buf: string): (n: nat)
    ensures n <= |buf|
    ensures forall k :: 0 <= k < n ==> buf[k] != '\0'
    ensures n < |buf| ==> buf[n] == '\0'
  {
    if |buf| == 0 || buf[0] == '\0' then 0 else 1 + CStrLen(buf[1..])
  }

  /** The name a buffer holds: its bytes before the first NUL. */
  function NameOf(buf: string): string
  {
    buf[..CStrLen(buf)]
  }

  /** new_dentry(fname, ftype): a zeroed dentry holding the name's bytes,
      the given type, ino -1 and no links. */
  function NewDentry(fname: string, ftype: FileType): (d: Dentry)
    requires |fname| <= NEWFS_MAX_FILE_NAME
    ensures |d.fname| == NEWFS_MAX_FILE_NAME
    ensures d.fname[..|fname|] == fname
    ensures forall k :: |fname| <= k < NEWFS_MAX_FILE_NAME ==> d.fname[k] == '\0'
    ensures d.ino == -1 && d.ftype == ftype
    ensures d.inode == None && d.parent == None && d.brother == None
  {
    Dentry(fname + seq(NEWFS_MAX_FILE_NAME - |fname|, _ => '\0'), None, None, -1, None, ftype)
  }

  /** The name stored by new_dentry is read back by strlen unchanged. */
  lemma {:induction false} NewDentryNameOf(fname: string, ftype: FileType)
    requires |fname| <= NEWFS_MAX_FILE_NAME && IsCString(fname)
    ensures NameOf(NewDentry(fname, ftype).fname) == fname
    ensures IsCString(fname) ==> IsNameBuf(NewDentry(fname, ftype).fname)
  {
    var buf := NewDentry(fname, ftype).fname;
    CStrLenOfTerminated(buf, |fname|);
  }

  lemma {:induction false} CStrLenOfTerminated(buf: string, n: nat)
    requires n <= |buf|
    requires forall k :: 0 <= k < n ==> buf[k] != '\0'
    requires n < |buf| ==> buf[n] == '\0'
    ensures CStrLen(buf) == n
  {
    if n > 0 {
      CStrLenOfTerminated(buf[1..], n - 1);
    }
  }

  // ---------------------------------------------------------------------
  // On-disk records (struct newfs_super_d, newfs_inode_d, newfs_dentry_d)
  // ---------------------------------------------------------------------

  datatype SuperD = SuperD(
    magicNum: int,
    szUsage: int,
    maxIno: int,
    mapInodeBlks: int,
    mapInodeOffset: int,
    maxDno: int,
    mapDataBlks: int,
    mapDataOffset: int,
    inodeOffset: int,
    dataOffset: int,
    inodePerBlk: int,
    inodeBlks: int)

  datatype InodeD = InodeD(ino: int, size: int, dirCnt: int, ftype: FileType, blkPointer: seq<int>)

  datatype DentryD = DentryD(fname: seq<bv8>, ftype: FileType, ino: int)

  predicate SuperDOk(s: SuperD)
  {
    && IsI32(s.magicNum) && IsI32(s.szUsage) && IsI32(s.maxIno) && IsI32(s.mapInodeBlks)
    && IsI32(s.mapInodeOffset) && IsI32(s.maxDno) && IsI32(s.mapDataBlks) && IsI32(s.mapDataOffset)
    && IsI32(s.inodeOffset) && IsI32(s.dataOffset) && IsI32(s.inodePerBlk) && IsI32(s.inodeBlks)
  }

  predicate InodeDOk(r: InodeD)
  {
    && IsI32(r.ino) && IsI32(r.size) && IsI32(r.dirCnt)
    && |r.blkPointer| == NEWFS_DATA_PER_FILE
    && forall k :: 0 <= k < |r.blkPointer| ==> IsI32(r.blkPointer[k])
  }

  predicate DentryDOk(r: DentryD)
  {
    |r.fname| == NEWFS_MAX_FILE_NAME && IsI32(r.ino)
  }

  // ---------------------------------------------------------------------
  // Byte encodings: every 4-byte field is little-endian two's complement
  // ---------------------------------------------------------------------

  function EncodeI32(x: int): (b: seq<bv8>)
    requires IsI32(x)
    ensures |b| == 4
  {
    var u := if x < 0 then x + TWO_32 else x;
    [(u % 256) as bv8, ((u / 256) % 256) as bv8, ((u / 65536) % 256) as bv8, (u / 16777216) as bv8]
  }

  function DecodeI32(b: seq<bv8>): (x: int)
    requires |b| == 4
    ensures IsI32(x)
  {
    var u := b[0] as int + 256 * (b[1] as int) + 65536 * (b[2] as int) + 16777216 * (b[3] as int);
    if u >= TWO_31 then u - TWO_32 else u
  }

  lemma ByteRoundTrip(x: int)
    requires 0 <= x < 256
    ensures (x as bv8) as int == x
  {
    assert x % 256 == x;
  }

  /** The four base-256 digits of an unsigned 32-bit value, as EncodeI32
      takes them apart. */
  lemma Base256Digits(u: int)
    requires 0 <= u < TWO_32
    ensures u == u % 256 + 256 * ((u / 256) % 256) + 65536 * ((u / 65536) % 256) + 16777216 * (u / 16777216)
    ensures 0 <= u / 16777216 < 256
  {
    var q1 := u / 256;
    var q2 := q1 / 256;
    var q3 := q2 / 256;
    assert u == 256 * q1 + u % 256 && q1 == 256 * q2 + q1 % 256 && q2 == 256 * q3 + q2 % 256;
    DivUnique(u, 65536, q2);
    DivUnique(u, 16777216, q3);
  }

  /** The bytes EncodeI32 produces hold the digits of the unsigned value. */
  lemma EncodedDigits(x: int)
    requires IsI32(x)
    ensures var u := if x < 0 then x + TWO_32 else x;
      && EncodeI32(x)[0] as int == u % 256 && EncodeI32(x)[1] as int == (u / 256) % 256
      && EncodeI32(x)[2] as int == (u / 65536) % 256 && EncodeI32(x)[3] as int == u / 16777216
  {
    var u := if x < 0 then x + TWO_32 else x;
    Base256Digits(u);
    ByteRoundTrip(u % 256);
    ByteRoundTrip((u / 256) % 256);
    ByteRoundTrip((u / 65536) % 256);
    ByteRoundTrip(u / 16777216);
  }

  lemma I32RoundTrip(x: int)
    requires IsI32(x)
    ensures DecodeI32(EncodeI32(x)) == x
  {
    var u := if x < 0 then x + TWO_32 else x;
    Base256Digits(u);
    EncodedDigits(x);
  }

  /** A sequence of 32-bit fields, back to back. */
  function EncodeI32s(xs: seq<int>): (b: seq<bv8>)
    requires forall k :: 0 <= k < |xs| ==> IsI32(xs[k])
    ensures |b| == 4 * |xs|
  {
    if xs == [] then [] else EncodeI32(xs[0]) + EncodeI32s(xs[1..])
  }

  function DecodeI32s(b: seq<bv8>, n: nat): (xs: seq<int>)
    requires |b| == 4 * n
    ensures |xs| == n && forall k :: 0 <= k < n ==> IsI32(xs[k])
  {
    if n == 0 then [] else [DecodeI32(b[..4])] + DecodeI32s(b[4..], n - 1)
  }

  lemma {:induction false} I32sRoundTrip(xs: seq<int>)
    requires forall k :: 0 <= k < |xs| ==> IsI32(xs[k])
    ensures DecodeI32s(EncodeI32s(xs), |xs|) == xs
  {
    if xs != [] {
      var b := EncodeI32s(xs);
      I32RoundTrip(xs[0]);
      assert b[..4] == EncodeI32(xs[0]);
      assert b[4..] == EncodeI32s(xs[1..]);
      I32sRoundTrip(xs[1..]);
    }
  }

  function SuperDFields(s: SuperD): seq<int>
  {
    [s.magicNum, s.szUsage, s.maxIno, s.mapInodeBlks, s.mapInodeOffset, s.maxDno,
     s.mapDataBlks, s.mapDataOffset, s.inodeOffset, s.dataOffset, s.inodePerBlk, s.inodeBlks]
  }

  function EncodeSuperD(s: SuperD): (b: seq<bv8>)
    requires SuperDOk(s)
    ensures |b| == SUPER_D_SIZE
  {
    EncodeI32s(SuperDFields(s))
  }

  function DecodeSuperD(b: seq<bv8>): SuperD
    requires |b| == SUPER_D_SIZE
  {
    var f := DecodeI32s(b, 12);
    SuperD(f[0], f[1], f[2], f[3], f[4], f[5], f[6], f[7], f[8], f[9], f[10], f[11])
  }

  /** The superblock record read back is the record written. */
  lemma SuperDRoundTrip(s: SuperD)
    requires SuperDOk(s)
    ensures DecodeSuperD(EncodeSuperD(s)) == s
  {
    I32sRoundTrip(SuperDFields(s));
  }

  function InodeDFields(r: InodeD): seq<int>
    requires |r.blkPointer| == NEWFS_DATA_PER_FILE
  {
    [r.ino, r.size, r.dirCnt, FileTypeCode(r.ftype)] + r.blkPointer
  }

  function EncodeInodeD(r: InodeD): (b: seq<bv8>)
    requires InodeDOk(r)
    ensures |b| == INODE_D_SIZE
  {
    EncodeI32s(InodeDFields(r))
  }

  /** Decodes an inode record; a type tag that is neither 0 nor 1 is
      rejected. */
  function DecodeInodeD(b: seq<bv8>): Option<InodeD>
    requires |b| == INODE_D_SIZE
  {
    var f := DecodeI32s(b, 10);
    match DecodeFileType(f[3])
    case None => None
    case Some(t) => Some(InodeD(f[0], f[1], f[2], t, f[4..]))
  }

  /** The inode record read back is the record written. */
  lemma InodeDRoundTrip(r: InodeD)
    requires InodeDOk(r)
    ensures DecodeInodeD(EncodeInodeD(r)) == Some(r)
  {
    var f := InodeDFields(r);
    I32sRoundTrip(f);
    assert f[4..] == r.blkPointer;
  }

  function EncodeDentryD(r: DentryD): (b: seq<bv8>)
    requires DentryDOk(r)
    ensures |b| == DENTRY_D_SIZE
  {
    r.fname + EncodeI32(FileTypeCode(r.ftype)) + EncodeI32(r.ino)
  }

  /** Decodes a directory entry record; a type tag that is neither 0 nor 1 is
      rejected. */
  function DecodeDentryD(b: seq<bv8>): Option<DentryD>
    requires |b| == DENTRY_D_SIZE
  {
    match DecodeFileType(DecodeI32(b[128..132]))
    case None => None
    case Some(t) => Some(DentryD(b[..128], t, DecodeI32(b[132..136])))
  }

  /** The directory entry record read back is the record written. */
  lemma DentryDRoundTrip(r: DentryD)
    requires DentryDOk(r)
    ensures DecodeDentryD(EncodeDentryD(r)) == Some(r)
  {
    var b := EncodeDentryD(r);
    assert b[..128] == r.fname;
    assert b[128..132] == EncodeI32(FileTypeCode(r.ftype));
    assert b[132..136] == EncodeI32(r.ino);
    I32RoundTrip(FileTypeCode(r.ftype));
    I32RoundTrip(r.ino);
  }

  // ---------------------------------------------------------------------
  // Name buffers as bytes (memcpy of a char array into a record)
  // ---------------------------------------------------------------------

  function NameToBytes(buf: string): (b: seq<bv8>)
    requires forall k :: 0 <= k < |buf| ==> buf[k] as int < 256
    ensures |b| == |buf|
  {
    seq(|buf|, k requires 0 <= k < |buf| => (buf[k] as int) as bv8)
  }

  function BytesToName(b: seq<bv8>): (buf: string)
    ensures |buf| == |b|
  {
    seq(|b|, k requires 0 <= k < |b| => (b[k] as int) as char)
  }

  lemma NameBytesRoundTrip(buf: string)
    requires forall k :: 0 <= k < |buf| ==> buf[k] as int < 256
    ensures BytesToName(NameToBytes(buf)) == buf
  {
    var r := BytesToName(NameToBytes(buf));
    forall k | 0 <= k < |buf| ensures r[k] == buf[k] {
      ByteRoundTrip(buf[k] as int);
    }
  }
}
