/** The emulated block device: a host file of at least the device's capacity. */
module Storage {
  import opened Bits
  import opened Bytes
  import opened Wrappers

  const BLOCK_SIZE := 4096
  const STORAGE_CAPACITY := 32 * 1024 * 1024 * 1024
  const TOTAL_BLOCKS := 8388608

  datatype IoError = InvalidInput | InvalidData | PermissionDenied | NotFound

  /** What a region sees of a write inside it. */
  lemma SpliceInside(file: seq<byte>, start: nat, size: nat, offset: nat, data: seq<byte>)
    requires start + size <= |file| && offset + |data| <= size
    ensures Splice(file, start + offset, data)[start..start + size] == Splice(file[start..start + size], offset, data)
  {
    var whole := Splice(file, start + offset, data)[start..start + size];
    var part := Splice(file[start..start + size], offset, data);
    forall k | 0 <= k < size ensures whole[k] == part[k] {
      if k < offset {
      } else if k < offset + |data| {
      } else {
        assert whole[k] == file[start + k];
      }
    }
  }

  /** What a region sees of a write outside it. */
  lemma SpliceOutside(file: seq<byte>, start: nat, size: nat, offset: nat, data: seq<byte>)
    requires start + size <= |file| && offset + |data| <= |file|
    requires start + size <= offset || offset + |data| <= start
    ensures Splice(file, offset, data)[start..start + size] == file[start..start + size]
  {
  }

  class EmulatedStorage {
    var file: seq<byte>
    var capacity: u64
    var blockSize: u64
    var writeProtected: bool

    ghost predicate Valid()
      reads this
    {
      capacity == STORAGE_CAPACITY && blockSize == BLOCK_SIZE && capacity <= |file|
    }

    /** A missing or short image is extended with zeros to the full capacity. */
    constructor Open(image: seq<byte>)
      ensures Valid() && !writeProtected
      ensures image <= file && (|image| >= STORAGE_CAPACITY ==> file == image)
      ensures forall k :: |image| <= k < |file| ==> file[k] == 0
    {
      if |image| < STORAGE_CAPACITY {
        file := image + seq(STORAGE_CAPACITY - |image|, _ => 0);
      } else {
        file := image;
      }
      capacity, blockSize, writeProtected := STORAGE_CAPACITY, BLOCK_SIZE, false;
    }

    function TotalBlocks(): nat
      requires Valid()
      reads this
      ensures TotalBlocks() == TOTAL_BLOCKS
    {
      capacity / blockSize
    }

    method SetWriteProtected(wp: bool)
      modifies `writeProtected
      ensures writeProtected == wp
    {
      writeProtected := wp;
    }

    /** `read_exact` into the first `n` bytes of a buffer. */
    method ReadExact(offset: nat, buf: array<byte>, n: nat)
      requires offset + n <= |file| && n <= buf.Length
      modifies buf
      ensures buf[..] == file[offset..offset + n] + old(buf[n..])
    {
      forall i | 0 <= i < n {
        buf[i] := file[offset + i];
      }
    }

    method ReadBlock(index: u64, buf: array<byte>) returns (r: Result<nat, IoError>)
      requires Valid()
      modifies buf
      ensures r == if buf.Length == BLOCK_SIZE && index < TOTAL_BLOCKS then Ok(BLOCK_SIZE) else Err(InvalidInput)
      ensures buf[..] == if r.Ok? then file[index * BLOCK_SIZE..(index + 1) * BLOCK_SIZE] else old(buf[..])
    {
      if buf.Length != blockSize {
        return Err(InvalidInput);
      }
      if index >= TotalBlocks() {
        return Err(InvalidInput);
      }
      var offset := index * blockSize;
      ReadExact(offset, buf, buf.Length);
      return Ok(buf.Length);
    }

    method WriteBlock(index: u64, buf: seq<byte>) returns (r: Result<(), IoError>)
      requires Valid()
      modifies `file
      ensures Valid()
      ensures r == if writeProtected then Err(PermissionDenied)
                   else if |buf| != BLOCK_SIZE || index >= TOTAL_BLOCKS then Err(InvalidInput) else Ok(())
      ensures file == if r.Ok? then Splice(old(file), index * BLOCK_SIZE, buf) else old(file)
    {
      if writeProtected {
        return Err(PermissionDenied);
      }
      if |buf| != blockSize {
        return Err(InvalidInput);
      }
      if index >= TotalBlocks() {
        return Err(InvalidInput);
      }
      file := Splice(file, index * blockSize, buf);
      return Ok(());
    }

    method ReadBlocks(start: u64, count: u64, buf: array<byte>) returns (r: Result<nat, IoError>)
      requires Valid() && start + count < 0x1_0000_0000_0000_0000 && count * BLOCK_SIZE < 0x1_0000_0000_0000_0000
      modifies buf
      ensures r == if count * BLOCK_SIZE <= buf.Length && start + count <= TOTAL_BLOCKS
                   then Ok(count * BLOCK_SIZE) else Err(InvalidInput)
      ensures buf[..] == if r.Ok?
                         then file[start * BLOCK_SIZE..(start + count) * BLOCK_SIZE] + old(buf[count * BLOCK_SIZE..])
                         else old(buf[..])
    {
      var expectedLen := count * blockSize;
      if buf.Length < expectedLen {
        return Err(InvalidInput);
      }
      if start + count > TotalBlocks() {
        return Err(InvalidInput);
      }
      ReadExact(start * blockSize, buf, expectedLen);
      return Ok(expectedLen);
    }

    method WriteBlocks(start: u64, count: u64, buf: seq<byte>) returns (r: Result<(), IoError>)
      requires Valid() && start + count < 0x1_0000_0000_0000_0000 && count * BLOCK_SIZE < 0x1_0000_0000_0000_0000
      modifies `file
      ensures Valid()
      ensures r == if writeProtected then Err(PermissionDenied)
                   else if |buf| < count * BLOCK_SIZE || start + count > TOTAL_BLOCKS then Err(InvalidInput) else Ok(())
      ensures file == if r.Ok? then Splice(old(file), start * BLOCK_SIZE, buf[..count * BLOCK_SIZE]) else old(file)
    {
      if writeProtected {
        return Err(PermissionDenied);
      }
      var expectedLen := count * blockSize;
      if |buf| < expectedLen {
        return Err(InvalidInput);
      }
      if start + count > TotalBlocks() {
        return Err(InvalidInput);
      }
      file := Splice(file, start * blockSize, buf[..expectedLen]);
      return Ok(());
    }

    method ReadBytes(offset: u64, buf: array<byte>) returns (r: Result<nat, IoError>)
      requires Valid() && offset + buf.Length < 0x1_0000_0000_0000_0000
      modifies buf
      ensures r == if offset + buf.Length <= STORAGE_CAPACITY then Ok(buf.Length) else Err(InvalidInput)
      ensures buf[..] == if r.Ok? then file[offset..offset + buf.Length] else old(buf[..])
    {
      if offset + buf.Length > capacity {
        return Err(InvalidInput);
      }
      ReadExact(offset, buf, buf.Length);
      return Ok(buf.Length);
    }

    method WriteBytes(offset: u64, buf: seq<byte>) returns (r: Result<(), IoError>)
      requires Valid() && offset + |buf| < 0x1_0000_0000_0000_0000
      modifies `file
      ensures Valid()
      ensures r == if writeProtected then Err(PermissionDenied)
                   else if offset + |buf| > STORAGE_CAPACITY then Err(InvalidInput) else Ok(())
      ensures file == if r.Ok? then Splice(old(file), offset, buf) else old(file)
    {
      if writeProtected {
        return Err(PermissionDenied);
      }
      if offset + |buf| > capacity {
        return Err(InvalidInput);
      }
      file := Splice(file, offset, buf);
      return Ok(());
    }
  }

  /** A block of a spliced run of blocks. */
  lemma BlocksReadBack(file: seq<byte>, start: nat, data: seq<byte>, k: nat)
    requires start * BLOCK_SIZE + |data| <= |file| && (k + 1) * BLOCK_SIZE <= |data|
    ensures Splice(file, start * BLOCK_SIZE, data)[(start + k) * BLOCK_SIZE..(start + k + 1) * BLOCK_SIZE]
         == data[k * BLOCK_SIZE..(k + 1) * BLOCK_SIZE]
  {
    var after, base := Splice(file, start * BLOCK_SIZE, data), start * BLOCK_SIZE;
    assert after[base..base + |data|] == data;
    assert after[base + k * BLOCK_SIZE..base + (k + 1) * BLOCK_SIZE] == data[k * BLOCK_SIZE..(k + 1) * BLOCK_SIZE];
  }

  /** Blocks written at once read back one by one, and what was accepted for writing can be read. */
  method WriteThenReadBlock(storage: EmulatedStorage, start: u64, data: seq<byte>, k: nat, block: array<byte>)
    returns (w: Result<(), IoError>, r: Result<nat, IoError>)
    requires storage.Valid() && |data| < 0x1_0000_0000_0000_0000 && block.Length == BLOCK_SIZE
    requires |data| % BLOCK_SIZE == 0 && k < |data| / BLOCK_SIZE
    requires start + |data| / BLOCK_SIZE < 0x1_0000_0000_0000_0000
    modifies storage`file, block
    ensures storage.Valid() && (w.Ok? <==> !storage.writeProtected && start + |data| / BLOCK_SIZE <= TOTAL_BLOCKS)
    ensures w.Ok? ==> r.Ok? && block[..] == data[k * BLOCK_SIZE..(k + 1) * BLOCK_SIZE]
  {
    w := storage.WriteBlocks(start, |data| / BLOCK_SIZE, data);
    if w.Err? {
      return w, Err(InvalidInput);
    }
    BlocksReadBack(old(storage.file), start, data, k);
    r := storage.ReadBlock(start + k, block);
  }
}
