// Aligned block I/O over the block device (newfs_driver_read and
// newfs_driver_write in fs/newfs/src/newfs_utils.c).

module Driver {
  import opened Types

  /** The content of a device after `input` is stored at `offset`: the written
      range reads back as `input` and every other byte keeps its value. */
  function Overwrite(dev: seq<bv8>, offset: int, input: seq<bv8>): (r: seq<bv8>)
    requires 0 <= offset && offset + |input| <= |dev|
    ensures |r| == |dev|
    ensures r[offset..offset + |input|] == input
    ensures forall p :: 0 <= p < |dev| && !(offset <= p < offset + |input|) ==> r[p] == dev[p]
  {
    dev[..offset] + input + dev[offset + |input|..]
  }

  /** The aligned window of newfs_driver_read/write: the request
      [offset, offset + size) starts `bias` bytes into a window that begins
      and ends on I/O-unit boundaries and lies within the device. */
  lemma AlignedWindow(offset: int, size: int, io: int, len: int)
    requires io > 0 && len % io == 0 && 0 <= offset && 0 <= size && offset + size <= len
    ensures var offsetAligned := RoundDown(offset, io);
            var bias := offset - offsetAligned;
            var sizeAligned := RoundUp(size + bias, io);
            && 0 <= offsetAligned && 0 <= bias < io
            && bias + size <= sizeAligned
            && offsetAligned + sizeAligned <= len
            && sizeAligned % io == 0 && offsetAligned % io == 0
  {
    var offsetAligned := RoundDown(offset, io);
    if offsetAligned < 0 {
      MultiplesApart(0, offsetAligned, io);
      assert false;
    }
    var bias := offset - offsetAligned;
    DiffOfMultiples(len, offsetAligned, io);
    assert 0 <= size + bias <= len - offsetAligned;
    RoundUpWithin(size + bias, len - offsetAligned, io);
  }

  /** Splicing `input` into a window read from `dev` and writing the window
      back is the same as overwriting `dev` at the request's offset. */
  lemma SpliceWindow(dev: seq<bv8>, start: int, total: int, bias: int, input: seq<bv8>)
    requires 0 <= start && 0 <= bias && bias + |input| <= total && start + total <= |dev|
    ensures var w := dev[start..start + total];
            dev[..start] + (w[..bias] + input + w[bias + |input|..]) + dev[start + total..]
              == Overwrite(dev, start + bias, input)
  {
    var w := dev[start..start + total];
    var lhs := dev[..start] + (w[..bias] + input + w[bias + |input|..]) + dev[start + total..];
    var rhs := Overwrite(dev, start + bias, input);
    assert |lhs| == |rhs|;
    forall p | 0 <= p < |lhs|
      ensures lhs[p] == rhs[p]
    {
      if p < start {
      } else if p < start + bias {
      } else if p < start + bias + |input| {
        assert rhs[p] == rhs[start + bias..start + bias + |input|][p - start - bias];
      } else if p < start + total {
      } else {
      }
    }
  }

  /** A piece of a window is the same piece of the device. */
  lemma SliceOfSlice(dev: seq<bv8>, start: int, total: int, bias: int, size: int)
    requires 0 <= start && 0 <= bias && 0 <= size && bias + size <= total && start + total <= |dev|
    ensures dev[start..start + total][bias..bias + size] == dev[start + bias..start + bias + size]
  {
    var w := dev[start..start + total];
    var lhs, rhs := w[bias..bias + size], dev[start + bias..start + bias + size];
    forall p | 0 <= p < size
      ensures lhs[p] == rhs[p]
    {
      assert lhs[p] == w[bias + p];
    }
  }

  /** The block device behind the ddriver capability: a byte sequence of the
      size the device reports (IOC_REQ_DEVICE_SIZE), a whole number of I/O
      units (IOC_REQ_DEVICE_IO_SZ), transferred one unit at a time. */
  class Disk {
    var bytes: seq<bv8>
    const ioSz: int
    const szDisk: int

    ghost predicate Valid()
      reads this
    {
      ioSz > 0 && |bytes| == szDisk && szDisk % ioSz == 0
    }

    constructor (content: seq<bv8>, io: int)
      requires io > 0 && |content| % io == 0
      ensures Valid() && bytes == content && ioSz == io && szDisk == |content|
    {
      bytes := content;
      ioSz := io;
      szDisk := |content|;
    }

    /** ddriver_read: one I/O unit from position `pos`. */
    method ReadUnit(pos: int) returns (unit: seq<bv8>)
      requires Valid() && 0 <= pos && pos + ioSz <= |bytes|
      ensures unit == bytes[pos..pos + ioSz]
    {
      unit := bytes[pos..pos + ioSz];
    }

    /** ddriver_write: one I/O unit at position `pos`. */
    method WriteUnit(pos: int, unit: seq<bv8>)
      requires Valid() && 0 <= pos && pos + ioSz <= |bytes| && |unit| == ioSz
      modifies this
      ensures Valid()
      ensures bytes == old(bytes)[..pos] + unit + old(bytes)[pos + ioSz..]
    {
      bytes := bytes[..pos] + unit + bytes[pos + ioSz..];
    }

    /** newfs_driver_read: reads the I/O-unit-aligned window around
        [offset, offset + size) and hands back exactly the requested bytes. */
    method DriverRead(offset: int, size: int) returns (out: seq<bv8>)
      requires Valid() && 0 <= offset && 0 <= size && offset + size <= |bytes|
      ensures out == bytes[offset..offset + size]
    {
      var offsetAligned := RoundDown(offset, ioSz);
      var bias := offset - offsetAligned;
      var sizeAligned := RoundUp(size + bias, ioSz);
      AlignedWindow(offset, size, ioSz, |bytes|);
      var temp := ReadWindow(offsetAligned, sizeAligned);
      out := temp[bias..bias + size];
      SliceOfSlice(bytes, offsetAligned, sizeAligned, bias, size);
    }

    /** The read loop of newfs_driver_read: `total` bytes from the aligned
        position `start` on, one I/O unit at a time. */
    method ReadWindow(start: int, total: int) returns (temp: seq<bv8>)
      requires Valid() && 0 <= start && 0 <= total && start + total <= |bytes| && total % ioSz == 0
      ensures temp == bytes[start..start + total]
    {
      var sizeAligned := total;
      temp := [];
      var cur := start;
      while sizeAligned != 0
        invariant 0 <= sizeAligned && sizeAligned % ioSz == 0
        invariant cur + sizeAligned == start + total
        invariant start <= cur
        invariant temp == bytes[start..cur]
        decreases sizeAligned
      {
        MultiplesApart(sizeAligned, 0, ioSz);
        var unit := ReadUnit(cur);
        temp := temp + unit;
        cur := cur + ioSz;
        DiffOfMultiples(sizeAligned, ioSz, ioSz);
        sizeAligned := sizeAligned - ioSz;
      }
    }

    /** The write-back loop of newfs_driver_write: stores `temp` one I/O unit
        at a time from the aligned position `start` on. */
    method WriteWindow(start: int, temp: seq<bv8>)
      requires Valid() && 0 <= start && start + |temp| <= |bytes| && |temp| % ioSz == 0
      modifies this
      ensures Valid()
      ensures bytes == old(bytes)[..start] + temp + old(bytes)[start + |temp|..]
    {
      var sizeAligned := |temp|;
      var cur := start;
      var k := 0;
      while sizeAligned != 0
        invariant 0 <= sizeAligned && sizeAligned % ioSz == 0
        invariant cur == start + k && k + sizeAligned == |temp|
        invariant Valid() && |bytes| == |old(bytes)|
        invariant bytes == old(bytes)[..start] + temp[..k] + old(bytes)[cur..]
        decreases sizeAligned
      {
        MultiplesApart(sizeAligned, 0, ioSz);
        WriteUnit(cur, temp[k..k + ioSz]);
        assert temp[..k + ioSz] == temp[..k] + temp[k..k + ioSz];
        cur := cur + ioSz;
        k := k + ioSz;
        DiffOfMultiples(sizeAligned, ioSz, ioSz);
        sizeAligned := sizeAligned - ioSz;
      }
      assert temp[..k] == temp;
    }

    /** newfs_driver_write: read-modify-write of the aligned window around
        [offset, offset + |input|). */
    method DriverWrite(offset: int, input: seq<bv8>)
      requires Valid() && 0 <= offset && offset + |input| <= |bytes|
      modifies this
      ensures Valid()
      ensures bytes == Overwrite(old(bytes), offset, input)
    {
      var size := |input|;
      var offsetAligned := RoundDown(offset, ioSz);
      var bias := offset - offsetAligned;
      var sizeAligned := RoundUp(size + bias, ioSz);
      AlignedWindow(offset, size, ioSz, |bytes|);
      var window := DriverRead(offsetAligned, sizeAligned);
      var temp := window[..bias] + input + window[bias + size..];
      SpliceWindow(bytes, offsetAligned, sizeAligned, bias, input);
      WriteWindow(offsetAligned, temp);
    }
  }
}
