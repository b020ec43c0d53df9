/** The NAND as its callers see it: five independent byte arrays. */
module Nand {
  import opened Bits
  import opened Wrappers
  import opened Bytes
  import opened Storage
  import opened Partition

  class Nand {
    const storage: EmulatedStorage
    const partitions: PartitionTable

    ghost predicate Valid()
      reads storage
    {
      storage.Valid() && partitions.entries == DefaultPartitionTable(TOTAL_BLOCKS)
    }

    ghost function Contents(): (d: Disk)
      requires Valid()
      reads storage
      ensures ValidDisk(d)
    {
      Disk(storage.file, storage.writeProtected)
    }

    constructor Open(image: seq<byte>)
      ensures Valid() && fresh(storage) && image <= storage.file
    {
      var s := new EmulatedStorage.Open(image);
      storage := s;
      partitions := new PartitionTable.NewDefault(s.TotalBlocks());
    }

    method Read(id: PartitionId, offset: u64, buf: array<byte>) returns (r: Result<nat, IoError>)
      requires Valid() && offset + buf.Length < 0x1_0000_0000_0000_0000
      modifies buf
      ensures DiskRead(Contents(), id, offset, buf.Length) == if r.Ok? then Ok(buf[..]) else Err(r.error)
      ensures r.Ok? ==> r.value == buf.Length
      ensures r.Err? ==> buf[..] == old(buf[..])
    {
      ReadLands(Contents(), id, offset, buf.Length);
      r := partitions.ReadPartition(storage, id, offset, buf);
    }

    method Write(id: PartitionId, offset: u64, buf: seq<byte>) returns (r: Result<(), IoError>)
      requires Valid() && offset + |buf| < 0x1_0000_0000_0000_0000
      modifies storage`file
      ensures Valid()
      ensures (Contents(), r) == DiskWrite(old(Contents()), id, offset, buf)
    {
      Extents(id);
      r := partitions.WritePartition(storage, id, offset, buf);
    }
  }

  // -- The device as a value -------------------------------------------------------

  datatype Disk = Disk(file: seq<byte>, writeProtected: bool)

  ghost predicate ValidDisk(d: Disk) { |d.file| >= STORAGE_CAPACITY }

  function DiskRead(d: Disk, id: PartitionId, offset: nat, len: nat): Result<seq<byte>, IoError>
    requires ValidDisk(d)
  {
    WithinDevice(id);
    if offset + len > Size(id) then Err(InvalidInput)
    else if Start(id) + offset + len > STORAGE_CAPACITY then Err(InvalidInput)
    else Ok(d.file[Start(id) + offset..Start(id) + offset + len])
  }

  /** The device's own bounds check never rejects a read that the partition check let through. */
  lemma ReadLands(d: Disk, id: PartitionId, offset: nat, len: nat)
    requires ValidDisk(d)
    ensures Start(id) + Size(id) <= STORAGE_CAPACITY
    ensures DiskRead(d, id, offset, len) ==
            if offset + len <= Size(id) then Ok(d.file[Start(id) + offset..Start(id) + offset + len])
            else Err(InvalidInput)
  {
    WithinDevice(id);
  }

  function DiskWrite(d: Disk, id: PartitionId, offset: nat, data: seq<byte>): (r: (Disk, Result<(), IoError>))
    requires ValidDisk(d)
    ensures ValidDisk(r.0) && |r.0.file| == |d.file| && r.0.writeProtected == d.writeProtected
  {
    if offset + |data| > Size(id) then (d, Err(InvalidInput))
    else if d.writeProtected then (d, Err(PermissionDenied))
    else if Start(id) + offset + |data| > STORAGE_CAPACITY then (d, Err(InvalidInput))
    else (d.(file := Splice(d.file, Start(id) + offset, data)), Ok(()))
  }

  // -- Five byte arrays --------------------------------------------------------------

  datatype Drive = Drive(part: PartitionId -> seq<byte>, writeProtected: bool)

  function ArrayRead(a: seq<byte>, offset: nat, len: nat): Result<seq<byte>, IoError> {
    if offset + len <= |a| then Ok(a[offset..offset + len]) else Err(InvalidInput)
  }

  function ArrayWrite(a: seq<byte>, offset: nat, data: seq<byte>, wp: bool): (seq<byte>, Result<(), IoError>) {
    if offset + |data| > |a| then (a, Err(InvalidInput))
    else if wp then (a, Err(PermissionDenied))
    else (Splice(a, offset, data), Ok(()))
  }

  function View(d: Disk, id: PartitionId): (a: seq<byte>)
    requires ValidDisk(d)
    ensures |a| == Size(id)
  {
    WithinDevice(id);
    d.file[Start(id)..Start(id) + Size(id)]
  }

  /** The GPT areas before and after the partitions, and anything past the device's capacity. */
  function Outside(d: Disk): (seq<byte>, seq<byte>)
    requires ValidDisk(d)
  {
    (d.file[..RESERVED_BLOCKS * BLOCK_SIZE], d.file[(TOTAL_BLOCKS - BACKUP_BLOCKS) * BLOCK_SIZE..])
  }

  lemma ReadRefines(d: Disk, id: PartitionId, offset: nat, len: nat)
    requires ValidDisk(d)
    ensures DiskRead(d, id, offset, len) == ArrayRead(View(d, id), offset, len)
  {
    WithinDevice(id);
    if offset + len <= Size(id) {
      SliceOfSlice(d.file, Start(id), Size(id), offset, len);
    }
  }

  lemma SliceOfSlice(s: seq<byte>, start: nat, size: nat, offset: nat, len: nat)
    requires start + size <= |s| && offset + len <= size
    ensures s[start..start + size][offset..offset + len] == s[start + offset..start + offset + len]
  {
    var region := s[start..start + size];
    forall k | offset <= k < offset + len ensures region[k] == s[start + k] {
    }
  }

  /** Where a write lands, it is an array write to its own partition. The device's own bounds check
      never rejects what the partition check let through. */
  lemma WriteOwn(d: Disk, id: PartitionId, offset: nat, data: seq<byte>)
    requires ValidDisk(d)
    ensures var (d', r) := DiskWrite(d, id, offset, data);
      (View(d', id), r) == ArrayWrite(View(d, id), offset, data, d.writeProtected)
  {
    WithinDevice(id);
    if offset + |data| <= Size(id) {
      SpliceInside(d.file, Start(id), Size(id), offset, data);
    }
  }

  lemma WrittenFile(d: Disk, id: PartitionId, offset: nat, data: seq<byte>)
    requires ValidDisk(d)
    ensures Start(id) + Size(id) <= |d.file|
    ensures DiskWrite(d, id, offset, data).0.file ==
            if offset + |data| <= Size(id) && !d.writeProtected then Splice(d.file, Start(id) + offset, data)
            else d.file
  {
    WithinDevice(id);
  }

  /** Every other partition stays as it was. */
  lemma WriteOther(d: Disk, id: PartitionId, offset: nat, data: seq<byte>, other: PartitionId)
    requires ValidDisk(d) && other != id
    ensures View(DiskWrite(d, id, offset, data).0, other) == View(d, other)
  {
    WrittenFile(d, id, offset, data);
    WithinDevice(other);
    ExtentsDisjoint(id, other);
    if offset + |data| <= Size(id) {
      SpliceOutside(d.file, Start(other), Size(other), Start(id) + offset, data);
    }
  }

  /** The first 34 blocks, and everything from the last 33 on, stay as they were. */
  lemma WriteOutside(d: Disk, id: PartitionId, offset: nat, data: seq<byte>)
    requires ValidDisk(d)
    ensures Outside(DiskWrite(d, id, offset, data).0) == Outside(d)
  {
    WithinDevice(id);
    if offset + |data| <= Size(id) && !d.writeProtected {
      var at, file := Start(id) + offset, d.file;
      var after := Splice(file, at, data);
      var low, high := RESERVED_BLOCKS * BLOCK_SIZE, (TOTAL_BLOCKS - BACKUP_BLOCKS) * BLOCK_SIZE;
      assert after[..low] == file[..low];
      assert after[high..] == file[high..];
    }
  }

  lemma WriteRefines(d: Disk, id: PartitionId, offset: nat, data: seq<byte>)
    requires ValidDisk(d)
    ensures var (d', r) := DiskWrite(d, id, offset, data);
      && (View(d', id), r) == ArrayWrite(View(d, id), offset, data, d.writeProtected)
      && (forall other :: other != id ==> View(d', other) == View(d, other))
      && Outside(d') == Outside(d) && d'.writeProtected == d.writeProtected
  {
    WriteOwn(d, id, offset, data);
    WriteOutside(d, id, offset, data);
    forall other | other != id ensures View(DiskWrite(d, id, offset, data).0, other) == View(d, other) {
      WriteOther(d, id, offset, data, other);
    }
  }

  // -- Runs --------------------------------------------------------------------------

  datatype Request =
    | ReadRequest(id: PartitionId, offset: nat, len: nat)
    | WriteRequest(id: PartitionId, offset: nat, data: seq<byte>)
    | ProtectRequest(wp: bool)

  datatype Reply = Data(bytes: Result<seq<byte>, IoError>) | Written(result: Result<(), IoError>) | Done

  function DiskStep(d: Disk, q: Request): (r: (Disk, Reply))
    requires ValidDisk(d)
    ensures ValidDisk(r.0)
  {
    match q
    case ReadRequest(id, offset, len) => (d, Data(DiskRead(d, id, offset, len)))
    case WriteRequest(id, offset, data) => var (d', r) := DiskWrite(d, id, offset, data); (d', Written(r))
    case ProtectRequest(wp) => (d.(writeProtected := wp), Done)
  }

  ghost function DriveStep(s: Drive, q: Request): (Drive, Reply) {
    match q
    case ReadRequest(id, offset, len) => (s, Data(ArrayRead(s.part(id), offset, len)))
    case WriteRequest(id, offset, data) =>
      var (a, r) := ArrayWrite(s.part(id), offset, data, s.writeProtected);
      (s.(part := x => if x == id then a else s.part(x)), Written(r))
    case ProtectRequest(wp) => (s.(writeProtected := wp), Done)
  }

  function RunDisk(d: Disk, qs: seq<Request>): (r: (Disk, seq<Reply>))
    requires ValidDisk(d)
    ensures ValidDisk(r.0)
    decreases |qs|
  {
    if qs == [] then (d, [])
    else
      var (d1, reply) := DiskStep(d, qs[0]);
      var (d2, replies) := RunDisk(d1, qs[1..]);
      (d2, [reply] + replies)
  }

  ghost function RunDrive(s: Drive, qs: seq<Request>): (Drive, seq<Reply>)
    decreases |qs|
  {
    if qs == [] then (s, [])
    else
      var (s1, reply) := DriveStep(s, qs[0]);
      var (s2, replies) := RunDrive(s1, qs[1..]);
      (s2, [reply] + replies)
  }

  /** The disk shows what the five arrays hold. */
  ghost predicate Shows(d: Disk, s: Drive) {
    ValidDisk(d) && d.writeProtected == s.writeProtected && forall id :: View(d, id) == s.part(id)
  }

  lemma StepRefines(d: Disk, s: Drive, q: Request)
    requires Shows(d, s)
    ensures DiskStep(d, q).1 == DriveStep(s, q).1 && Shows(DiskStep(d, q).0, DriveStep(s, q).0)
    ensures Outside(DiskStep(d, q).0) == Outside(d)
  {
    match q
    case ReadRequest(id, offset, len) =>
      ReadRefines(d, id, offset, len);
    case WriteRequest(id, offset, data) =>
      WriteRefines(d, id, offset, data);
    case ProtectRequest(wp) =>
      var d' := d.(writeProtected := wp);
      assert forall id :: View(d', id) == View(d, id);
  }

  /** Any run of reads, writes and protection changes on the device gives exactly the replies of five
      independent byte arrays, and never touches the GPT areas. */
  lemma {:induction false} RunRefines(d: Disk, s: Drive, qs: seq<Request>)
    requires Shows(d, s)
    ensures RunDisk(d, qs).1 == RunDrive(s, qs).1 && Shows(RunDisk(d, qs).0, RunDrive(s, qs).0)
    ensures Outside(RunDisk(d, qs).0) == Outside(d)
    decreases |qs|
  {
    if qs != [] {
      StepRefines(d, s, qs[0]);
      RunRefines(DiskStep(d, qs[0]).0, DriveStep(s, qs[0]).0, qs[1..]);
    }
  }
}
