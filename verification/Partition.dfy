/** The default partition layout of the emulated NAND. */
module Partition {
  import opened Bits
  import opened Wrappers
  import opened Bytes
  import opened Storage

  datatype PartitionId = ProdInfo | ProdInfoF | Safe | System | User

  const ALL := [ProdInfo, ProdInfoF, Safe, System, User]

  function Name(id: PartitionId): string {
    match id
    case ProdInfo => "PRODINFO"
    case ProdInfoF => "PRODINFOF"
    case Safe => "SAFE"
    case System => "SYSTEM"
    case User => "USER"
  }

  /** The last block is inclusive. Its underflow is that of the program: an entry that ends before it starts has no
      block count. */
  datatype GptEntry = GptEntry(name: string, startBlock: u64, endBlock: u64, typeGuid: seq<byte>,
                               uniqueGuid: seq<byte>) {
    function BlockCount(): nat
      requires startBlock <= endBlock
    {
      endBlock - startBlock + 1
    }

    function SizeBytes(blockSize: nat): nat
      requires startBlock <= endBlock
    {
      BlockCount() * blockSize
    }
  }

  function MakeGuid(seed: byte): (guid: seq<byte>)
    ensures |guid| == 16
  {
    [seed, 0, 0, 0, 0x0B, 0, 0x40, 0, 0x80, 0, 0, 0, 0, 0, 0, 0]
  }

  const MIB := 1024 * 1024 / 4096
  const GIB := 1024 * MIB

  const RESERVED_BLOCKS := 34
  const BACKUP_BLOCKS := 33
  const USER_START := 1069090

  function DefaultPartitionTable(totalBlocks: u64): (table: seq<GptEntry>)
    requires totalBlocks >= BACKUP_BLOCKS + 1
    ensures |table| == 5
  {
    var lastUsable := totalBlocks - BACKUP_BLOCKS - 1;
    var prodinfoStart := RESERVED_BLOCKS;
    var prodinfofStart := prodinfoStart + 8 * MIB;
    var safeStart := prodinfofStart + 8 * MIB;
    var systemStart := safeStart + 64 * MIB;
    var userStart := systemStart + 4 * GIB;
    [ GptEntry("PRODINFO", prodinfoStart, prodinfoStart + 8 * MIB - 1, MakeGuid(0x01), MakeGuid(0x11)),
      GptEntry("PRODINFOF", prodinfofStart, prodinfofStart + 8 * MIB - 1, MakeGuid(0x02), MakeGuid(0x12)),
      GptEntry("SAFE", safeStart, safeStart + 64 * MIB - 1, MakeGuid(0x03), MakeGuid(0x13)),
      GptEntry("SYSTEM", systemStart, systemStart + 4 * GIB - 1, MakeGuid(0x04), MakeGuid(0x14)),
      GptEntry("USER", userStart, lastUsable, MakeGuid(0x05), MakeGuid(0x15)) ]
  }

  /** The entries lie one after the other, none empty, from block 34 to the backup area. */
  ghost predicate Tiles(table: seq<GptEntry>, totalBlocks: nat) {
    && |table| > 0
    && table[0].startBlock == RESERVED_BLOCKS
    && (forall k :: 0 <= k < |table| ==> table[k].startBlock <= table[k].endBlock)
    && (forall k :: 0 < k < |table| ==> table[k].startBlock == table[k - 1].endBlock + 1)
    && table[|table| - 1].endBlock + 1 + BACKUP_BLOCKS == totalBlocks
  }

  /** The default layout tiles a device exactly when there is room for one user block. */
  lemma DefaultTableTiles(totalBlocks: u64)
    requires totalBlocks >= BACKUP_BLOCKS + 1
    ensures Tiles(DefaultPartitionTable(totalBlocks), totalBlocks) <==> USER_START + 1 + BACKUP_BLOCKS <= totalBlocks
  {
    var table := DefaultPartitionTable(totalBlocks);
    assert table[4].startBlock == USER_START;
  }

  /** Entry lookup by name: the first match. */
  function FindByName(entries: seq<GptEntry>, name: string): (e: Option<GptEntry>)
    ensures e.Some? ==> e.value in entries && e.value.name == name
    ensures e.None? ==> forall k :: 0 <= k < |entries| ==> entries[k].name != name
  {
    if entries == [] then None
    else if entries[0].name == name then Some(entries[0])
    else FindByName(entries[1..], name)
  }

  function Position(id: PartitionId): (k: nat)
    ensures k < 5 && ALL[k] == id
  {
    match id case ProdInfo => 0 case ProdInfoF => 1 case Safe => 2 case System => 3 case User => 4
  }

  /** Each identifier finds its own entry. */
  lemma FindOwnEntry(totalBlocks: u64, id: PartitionId)
    requires totalBlocks >= BACKUP_BLOCKS + 1
    ensures var table := DefaultPartitionTable(totalBlocks);
      FindByName(table, Name(id)) == Some(table[Position(id)])
  {
    var table := DefaultPartitionTable(totalBlocks);
    assert forall k :: 0 <= k < 5 ==> table[k].name == Name(ALL[k]);
    NamesDiffer();
    FindAt(table, Name(id), Position(id));
  }

  lemma NamesDiffer()
    ensures forall a, b :: a != b ==> Name(a) != Name(b)
  {
    assert |Name(ProdInfo)| == 8 && |Name(ProdInfoF)| == 9 && |Name(System)| == 6;
    assert Name(Safe)[0] == 'S' && Name(User)[0] == 'U';
  }

  lemma {:induction false} FindAt(entries: seq<GptEntry>, name: string, k: nat)
    requires k < |entries| && entries[k].name == name
    requires forall j :: 0 <= j < k ==> entries[j].name != name
    ensures FindByName(entries, name) == Some(entries[k])
  {
    if k > 0 {
      FindAt(entries[1..], name, k - 1);
    }
  }

  class PartitionTable {
    const entries: seq<GptEntry>

    constructor NewDefault(totalBlocks: u64)
      requires totalBlocks >= BACKUP_BLOCKS + 1
      ensures entries == DefaultPartitionTable(totalBlocks)
    {
      entries := DefaultPartitionTable(totalBlocks);
    }

    function Find(id: PartitionId): Option<GptEntry> { FindByName(entries, Name(id)) }

    /** Where the methods find a partition. */
    lemma Located(storage: EmulatedStorage, id: PartitionId)
      requires storage.Valid() && entries == DefaultPartitionTable(TOTAL_BLOCKS)
      ensures Find(id).Some? && EntryFits(Find(id).value, storage.blockSize, Start(id), Size(id))
    {
      Extents(id);
    }

    method ReadPartition(storage: EmulatedStorage, id: PartitionId, offset: u64, buf: array<byte>)
      returns (r: Result<nat, IoError>)
      requires storage.Valid() && entries == DefaultPartitionTable(TOTAL_BLOCKS)
      requires offset + buf.Length < 0x1_0000_0000_0000_0000
      modifies buf
      ensures r == if offset + buf.Length <= Size(id) then Ok(buf.Length) else Err(InvalidInput)
      ensures buf[..] == if r.Ok? then storage.file[Start(id) + offset..Start(id) + offset + buf.Length]
                         else old(buf[..])
    {
      Located(storage, id);
      var entry := Find(id);
      if entry.None? {
        return Err(NotFound);
      }
      r := ReadEntry(storage, entry.value, Start(id), Size(id), offset, buf);
    }

    /** Once the entry is found: the bounds check, and the read on the device. */
    method ReadEntry(storage: EmulatedStorage, entry: GptEntry, ghost start: nat, ghost size: nat, offset: u64,
                     buf: array<byte>)
      returns (r: Result<nat, IoError>)
      requires storage.Valid() && EntryFits(entry, storage.blockSize, start, size)
      requires offset + buf.Length < 0x1_0000_0000_0000_0000
      modifies buf
      ensures r == if offset + buf.Length <= size then Ok(buf.Length) else Err(InvalidInput)
      ensures buf[..] == if r.Ok? then storage.file[start + offset..start + offset + buf.Length] else old(buf[..])
    {
      var partSize := entry.SizeBytes(storage.blockSize);
      if offset + buf.Length > partSize {
        return Err(InvalidInput);
      }
      var absOffset := entry.startBlock * storage.blockSize + offset;
      r := storage.ReadBytes(absOffset, buf);
    }

    method WritePartition(storage: EmulatedStorage, id: PartitionId, offset: u64, buf: seq<byte>)
      returns (r: Result<(), IoError>)
      requires storage.Valid() && entries == DefaultPartitionTable(TOTAL_BLOCKS)
      requires offset + |buf| < 0x1_0000_0000_0000_0000
      modifies storage`file
      ensures storage.Valid()
      ensures r == if offset + |buf| > Size(id) then Err(InvalidInput)
                   else if storage.writeProtected then Err(PermissionDenied) else Ok(())
      ensures storage.file == if r.Ok? then Splice(old(storage.file), Start(id) + offset, buf) else old(storage.file)
    {
      Located(storage, id);
      var entry := Find(id);
      if entry.None? {
        return Err(NotFound);
      }
      r := WriteEntry(storage, entry.value, Start(id), Size(id), offset, buf);
    }

    /** Once the entry is found: the bounds check, and the write on the device. */
    method WriteEntry(storage: EmulatedStorage, entry: GptEntry, ghost start: nat, ghost size: nat, offset: u64,
                      buf: seq<byte>)
      returns (r: Result<(), IoError>)
      requires storage.Valid() && EntryFits(entry, storage.blockSize, start, size)
      requires offset + |buf| < 0x1_0000_0000_0000_0000
      modifies storage`file
      ensures storage.Valid()
      ensures r == if offset + |buf| > size then Err(InvalidInput)
                   else if storage.writeProtected then Err(PermissionDenied) else Ok(())
      ensures storage.file == if r.Ok? then Splice(old(storage.file), start + offset, buf) else old(storage.file)
    {
      var partSize := entry.SizeBytes(storage.blockSize);
      if offset + |buf| > partSize {
        return Err(InvalidInput);
      }
      var absOffset := entry.startBlock * storage.blockSize + offset;
      r := storage.WriteBytes(absOffset, buf);
    }
  }

  /** The entry has this first byte and this size, and lies on the device. */
  ghost predicate EntryFits(entry: GptEntry, blockSize: nat, start: nat, size: nat) {
    && entry.startBlock <= entry.endBlock && entry.startBlock * blockSize == start
    && entry.SizeBytes(blockSize) == size && start + size <= STORAGE_CAPACITY
  }

  /** First byte and size of each partition of the 32 GB device. */
  function Start(id: PartitionId): nat {
    match id
    case ProdInfo => 34 * BLOCK_SIZE
    case ProdInfoF => 2082 * BLOCK_SIZE
    case Safe => 4130 * BLOCK_SIZE
    case System => 20514 * BLOCK_SIZE
    case User => USER_START * BLOCK_SIZE
  }

  function Size(id: PartitionId): nat {
    match id
    case ProdInfo => 2048 * BLOCK_SIZE
    case ProdInfoF => 2048 * BLOCK_SIZE
    case Safe => 16384 * BLOCK_SIZE
    case System => 1048576 * BLOCK_SIZE
    case User => (TOTAL_BLOCKS - BACKUP_BLOCKS - USER_START) * BLOCK_SIZE
  }

  /** Looking a partition up on the 32 GB device gives its extent, which lies inside the device. */
  lemma Extents(id: PartitionId)
    ensures var e := FindByName(DefaultPartitionTable(TOTAL_BLOCKS), Name(id));
      && e.Some? && e.value.startBlock <= e.value.endBlock
      && e.value.startBlock * BLOCK_SIZE == Start(id) && e.value.SizeBytes(BLOCK_SIZE) == Size(id)
    ensures Start(id) + Size(id) <= STORAGE_CAPACITY
  {
    FindOwnEntry(TOTAL_BLOCKS, id);
    EntryExtent(id);
  }

  lemma EntryExtent(id: PartitionId)
    ensures var e := DefaultPartitionTable(TOTAL_BLOCKS)[Position(id)];
      && e.startBlock <= e.endBlock
      && e.startBlock * BLOCK_SIZE == Start(id) && e.SizeBytes(BLOCK_SIZE) == Size(id)
  {
    var table := DefaultPartitionTable(TOTAL_BLOCKS);
    assert table[0].startBlock == 34 && table[1].startBlock == 2082 && table[2].startBlock == 4130;
    assert table[3].startBlock == 20514 && table[4].startBlock == USER_START;
  }

  /** The entry that a name finds has these first and last blocks. */
  ghost predicate EntryAt(table: seq<GptEntry>, name: string, first: nat, last: nat) {
    var e := FindByName(table, name);
    e.Some? && e.value.startBlock == first && e.value.endBlock == last
  }

  /** The layout of the 32 GB device in numbers of blocks. */
  lemma EntryNumbers(table: seq<GptEntry>)
    requires table == DefaultPartitionTable(8388608)
    ensures EntryAt(table, "PRODINFO", 34, 2081) && EntryAt(table, "PRODINFOF", 2082, 4129)
    ensures EntryAt(table, "SAFE", 4130, 20513) && EntryAt(table, "SYSTEM", 20514, 1069089)
    ensures EntryAt(table, "USER", 1069090, 8388574)
  {
    EntryInNumbers(table, ProdInfo, "PRODINFO", 34, 2081);
    EntryInNumbers(table, ProdInfoF, "PRODINFOF", 2082, 4129);
    EntryInNumbers(table, Safe, "SAFE", 4130, 20513);
    EntryInNumbers(table, System, "SYSTEM", 20514, 1069089);
    EntryInNumbers(table, User, "USER", 1069090, 8388574);
  }

  lemma EntryInNumbers(table: seq<GptEntry>, id: PartitionId, name: string, first: nat, last: nat)
    requires table == DefaultPartitionTable(8388608) && name == Name(id)
    requires first == Start(id) / 4096 && last == (Start(id) + Size(id)) / 4096 - 1
    ensures EntryAt(table, name, first, last)
  {
    FindOwnEntry(TOTAL_BLOCKS, id);
    EntryExtent(id);
  }

  /** And in bytes: blocks of 4096 bytes; 8 MB, 8 MB, 64 MB and 4 GB for the first four partitions, and the rest for the
      last. */
  lemma Geometry()
    ensures BLOCK_SIZE == 4096 && STORAGE_CAPACITY == 34359738368 && TOTAL_BLOCKS == 8388608
    ensures Start(ProdInfo) == 139264 && Size(ProdInfo) == 8388608
    ensures Start(ProdInfoF) == 8527872 && Size(ProdInfoF) == 8388608
    ensures Start(Safe) == 16916480 && Size(Safe) == 67108864
    ensures Start(System) == 84025344 && Size(System) == 4294967296
    ensures Start(User) == 4378992640 && Size(User) == 29980610560
  {
  }

  /** No partition reaches into the GPT areas. */
  lemma WithinDevice(id: PartitionId)
    ensures RESERVED_BLOCKS * BLOCK_SIZE <= Start(id)
    ensures Start(id) + Size(id) <= STORAGE_CAPACITY - BACKUP_BLOCKS * BLOCK_SIZE
  {
  }

  lemma ExtentsDisjoint(a: PartitionId, b: PartitionId)
    requires a != b
    ensures Start(a) + Size(a) <= Start(b) || Start(b) + Size(b) <= Start(a)
  {
  }
}
