/** Block files: space is handed out at once, written later, and must be readable from then on. */
module BlockStorage {
  import opened ByteOrder
  import opened Options

  const MAX_BLOCKFILE_SIZE: nat := 0x800_0000
  const MAX_BLOCK_SIZE: nat := 2 * 1024 * 1024
  const PREFIX: nat := 8

  datatype DiskPos = DiskPos(file: nat, position: nat)

  /** A block to be written: its place and its serialised form. */
  datatype Job = Job(pos: DiskPos, data: seq<byte>) {
    function End(): nat {
      pos.position + PREFIX + |data|
    }
  }

  predicate Disjoint(j: Job, k: Job) {
    j.pos.file != k.pos.file || j.End() <= k.pos.position || k.End() <= j.pos.position
  }

  // ----- files as bytes

  /** A file after a seek and a write; a gap before the written bytes reads as zeros. */
  function PutAt(file: seq<byte>, pos: nat, bytes: seq<byte>): seq<byte> {
    var before := if pos <= |file| then file[..pos] else file + Zeros(pos - |file|);
    var after := if pos + |bytes| < |file| then file[pos + |bytes|..] else [];
    before + bytes + after
  }

  lemma WrittenIsThere(file: seq<byte>, pos: nat, bytes: seq<byte>)
    ensures pos + |bytes| <= |PutAt(file, pos, bytes)| && PutAt(file, pos, bytes)[pos..pos + |bytes|] == bytes
  {
  }

  lemma OthersStay(file: seq<byte>, pos: nat, bytes: seq<byte>, a: nat, b: nat)
    requires a <= b <= |file| && (b <= pos || pos + |bytes| <= a)
    ensures b <= |PutAt(file, pos, bytes)| && PutAt(file, pos, bytes)[a..b] == file[a..b]
  {
    var n := PutAt(file, pos, bytes);
    forall i | a <= i < b ensures n[i] == file[i] {
    }
    assert n[a..b] == file[a..b];
  }

  type Disk = map<nat, seq<byte>>

  function Contents(disk: Disk, file: nat): seq<byte> {
    if file in disk then disk[file] else []
  }

  /** The bytes of a block in its file: magic number, size, block. */
  function Record(magic: dword, data: seq<byte>): (r: seq<byte>)
    requires |data| < 0x1_0000_0000
    ensures |r| == PREFIX + |data|
  {
    FromDword(magic) + FromDword(|data|) + data
  }

  predicate OnDisk(disk: Disk, magic: dword, j: Job)
    requires |j.data| <= MAX_BLOCK_SIZE
  {
    && j.pos.file in disk && j.End() <= |disk[j.pos.file]|
    && disk[j.pos.file][j.pos.position..j.End()] == Record(magic, j.data)
  }

  lemma WriteKeepsOthers(disk: Disk, magic: dword, j: Job, k: Job)
    requires |j.data| <= MAX_BLOCK_SIZE && |k.data| <= MAX_BLOCK_SIZE
    requires Disjoint(j, k) && OnDisk(disk, magic, k)
    ensures OnDisk(disk[j.pos.file := PutAt(Contents(disk, j.pos.file), j.pos.position, Record(magic, j.data))], magic, k)
  {
    if j.pos.file == k.pos.file {
      OthersStay(disk[k.pos.file], j.pos.position, Record(magic, j.data), k.pos.position, k.End());
    }
  }

  /** What the reader makes of the bytes of a file from the position on where a block's prefix should be. */
  function ReadRecord(magic: dword, file: seq<byte>, position: nat): Option<seq<byte>> {
    if position + PREFIX > |file| then None
    else
      var size := ToDword(file[position + 4..position + 8]);
      if ToDword(file[position..position + 4]) != magic || size == 0 || size > MAX_BLOCK_SIZE then None
      else if position + PREFIX + size > |file| then None
      else Some(file[position + PREFIX..position + PREFIX + size])
  }

  /** The bytes at a position are refused in exactly these cases: too few, another magic number, no or too great a size. */
  lemma ReadRecordSplit(magic: dword, file: seq<byte>, position: nat)
    ensures ReadRecord(magic, file, position).None? <==>
            || |file| < position + 8
            || ToDword(file[position..position + 4]) != magic
            || ToDword(file[position + 4..position + 8]) == 0
            || ToDword(file[position + 4..position + 8]) > 0x20_0000
            || |file| < position + 8 + ToDword(file[position + 4..position + 8])
    ensures ReadRecord(magic, file, position).Some? ==>
              |ReadRecord(magic, file, position).value| == ToDword(file[position + 4..position + 8])
              && file[position..][8..8 + |ReadRecord(magic, file, position).value|] == ReadRecord(magic, file, position).value
  {
  }

  /** What is read is what a record there holds: nothing else is taken for a block. */
  lemma ReadIsOnDisk(disk: Disk, magic: dword, file: nat, position: nat)
    requires file in disk && ReadRecord(magic, disk[file], position).Some?
    ensures var data := ReadRecord(magic, disk[file], position).value;
            |data| <= MAX_BLOCK_SIZE && OnDisk(disk, magic, Job(DiskPos(file, position), data))
  {
    var s, data := disk[file], ReadRecord(magic, disk[file], position).value;
    BytesRoundTrip(s[position..position + 4]);
    BytesRoundTrip(s[position + 4..position + 8]);
    assert s[position..position + 8 + |data|] ==
           s[position..position + 4] + s[position + 4..position + 8] + s[position + 8..position + 8 + |data|];
  }

  lemma SubSlice(file: seq<byte>, p: nat, e: nat, a: nat, b: nat)
    requires p <= e <= |file| && a <= b <= e - p
    ensures file[p..e][a..b] == file[p + a..p + b]
  {
    var s := file[p..e];
    assert forall i :: a <= i < b ==> s[i] == file[p + i];
    assert s[a..b] == file[p + a..p + b];
  }

  lemma RecordParts(magic: dword, data: seq<byte>)
    requires |data| < 0x1_0000_0000
    ensures Record(magic, data)[0..4] == FromDword(magic)
    ensures Record(magic, data)[4..8] == FromDword(|data|)
    ensures Record(magic, data)[PREFIX..PREFIX + |data|] == data
  {
    var r, head := Record(magic, data), FromDword(magic) + FromDword(|data|);
    assert r == head + data;
    assert r[0..4] == head[0..4] == FromDword(magic);
    assert r[4..8] == head[4..8] == FromDword(|data|);
    assert r[PREFIX..PREFIX + |data|] == data;
  }

  /** A record on disk reads back as its block; an empty one is taken for no block at all. */
  lemma RecordReadsBack(disk: Disk, magic: dword, j: Job)
    requires |j.data| <= MAX_BLOCK_SIZE && OnDisk(disk, magic, j)
    ensures ReadRecord(magic, disk[j.pos.file], j.pos.position) == if j.data == [] then None else Some(j.data)
  {
    var file, p := disk[j.pos.file], j.pos.position;
    var record := Record(magic, j.data);
    RecordParts(magic, j.data);
    SubSlice(file, p, j.End(), 0, 4);
    SubSlice(file, p, j.End(), 4, 8);
    SubSlice(file, p, j.End(), PREFIX, PREFIX + |j.data|);
    DwordRoundTrip(magic);
    DwordRoundTrip(|j.data|);
  }

  class BlockStorage {
    const magic: dword
    /** The sizes of the block files. */
    var blockFiles: seq<nat>
    var lastBlockFile: nat
    var dirtyFiles: set<nat>
    var disk: Disk
    /** Posted writes that have not run yet. */
    var pending: seq<Job>
    /** All places handed out, and those already written. */
    ghost var issued: set<Job>
    ghost var done: set<Job>

    ghost predicate Valid()
      reads this
    {
      && (forall f :: 0 <= f < |blockFiles| ==> blockFiles[f] < MAX_BLOCKFILE_SIZE)
      && (forall j :: j in issued ==>
            |j.data| <= MAX_BLOCK_SIZE && j.pos.file < |blockFiles| && j.End() <= blockFiles[j.pos.file])
      && (forall j, k :: j in issued && k in issued && j != k ==> Disjoint(j, k))
      && done <= issued && (forall j :: j in pending ==> j in issued)
      && (forall j :: j in done ==> OnDisk(disk, magic, j))
    }

    /** Loading takes files, sizes and the blocks stored in them as they were left. */
    constructor (magic: dword, blockFiles: seq<nat>, lastBlockFile: nat, disk: Disk, ghost stored: set<Job>)
      requires forall f :: 0 <= f < |blockFiles| ==> blockFiles[f] < MAX_BLOCKFILE_SIZE
      requires forall j :: j in stored ==>
                 && |j.data| <= MAX_BLOCK_SIZE && j.pos.file < |blockFiles| && j.End() <= blockFiles[j.pos.file]
                 && OnDisk(disk, magic, j)
      requires forall j, k :: j in stored && k in stored && j != k ==> Disjoint(j, k)
      ensures Valid() && issued == done == stored && pending == []
      ensures this.magic == magic && this.disk == disk
      ensures this.blockFiles == blockFiles && this.lastBlockFile == lastBlockFile
    {
      this.magic, this.disk := magic, disk;
      this.blockFiles, this.lastBlockFile := blockFiles, lastBlockFile;
      dirtyFiles, pending, issued, done := {}, [], stored, stored;
    }

    function SizeOf(file: nat): nat
      reads this
    {
      if file < |blockFiles| then blockFiles[file] else 0
    }

    /** The end of the first file, from the preferred or else the current one on, that has room. */
    method FindBlockPos(preferredFile: nat, blockSize: nat) returns (pos: DiskPos)
      requires forall f :: 0 <= f < |blockFiles| ==> blockFiles[f] < 0x800_0000
      requires blockSize < 0x800_0000
      modifies this`blockFiles, this`lastBlockFile, this`dirtyFiles
      ensures var start := if preferredFile > 0 then preferredFile else old(lastBlockFile);
              && start <= pos.file
              && forall f :: start <= f < pos.file ==> old(SizeOf(f)) + blockSize >= 0x800_0000
      ensures pos.position == old(SizeOf(pos.file)) && pos.position + blockSize < 0x800_0000
      ensures pos.file < |blockFiles| && |blockFiles| >= |old(blockFiles)|
      ensures forall f :: 0 <= f < |blockFiles| ==>
                blockFiles[f] == old(SizeOf(f)) + if f == pos.file then blockSize else 0
      ensures lastBlockFile == pos.file && dirtyFiles == old(dirtyFiles) + {pos.file}
    {
      var blockFile := if preferredFile > 0 then preferredFile else lastBlockFile;
      ghost var start := blockFile;
      Reach(blockFile);
      while blockFiles[blockFile] + blockSize >= MAX_BLOCKFILE_SIZE
        invariant dirtyFiles == old(dirtyFiles)
        invariant start <= blockFile < |blockFiles| && |blockFiles| >= |old(blockFiles)|
        invariant forall f :: 0 <= f < |blockFiles| ==> blockFiles[f] == old(SizeOf(f))
        invariant forall f :: start <= f < blockFile ==> old(SizeOf(f)) + blockSize >= MAX_BLOCKFILE_SIZE
        decreases |old(blockFiles)| - blockFile
      {
        blockFile := blockFile + 1;
        Reach(blockFile);
      }
      pos := DiskPos(blockFile, blockFiles[blockFile]);
      blockFiles := blockFiles[blockFile := blockFiles[blockFile] + blockSize];
      lastBlockFile := blockFile;
      dirtyFiles := dirtyFiles + {blockFile};
    }

    /** Make room for entries up to this one; new files are empty. */
    method Reach(file: nat)
      modifies this`blockFiles
      ensures |blockFiles| == if |old(blockFiles)| <= file then file + 1 else |old(blockFiles)|
      ensures forall f :: 0 <= f < |blockFiles| ==> blockFiles[f] == old(SizeOf(f))
    {
      while |blockFiles| <= file
        invariant |old(blockFiles)| <= |blockFiles| && (|blockFiles| <= file + 1 || blockFiles == old(blockFiles))
        invariant forall f :: 0 <= f < |blockFiles| ==> blockFiles[f] == old(SizeOf(f))
        decreases file + 1 - |blockFiles|
      {
        blockFiles := blockFiles + [0];
      }
    }

    /** Hand out a place for a serialised block and post the write. */
    method WriteBlock(data: seq<byte>) returns (pos: DiskPos)
      requires Valid() && |data| <= MAX_BLOCK_SIZE
      modifies this
      ensures Valid() && disk == old(disk) && done == old(done)
      ensures issued == old(issued) + {Job(pos, data)} && pending == old(pending) + [Job(pos, data)]
      ensures Job(pos, data) !in old(issued) && forall j :: j in old(issued) ==> Disjoint(Job(pos, data), j)
      ensures pos.position >= old(SizeOf(pos.file))
      ensures old(lastBlockFile) <= lastBlockFile == pos.file
    {
      pos := FindBlockPos(0, |data| + PREFIX);
      issued := issued + {Job(pos, data)};
      pending := pending + [Job(pos, data)];
    }

    /** A posted write runs: any of those waiting. */
    method DoWriteBlock(i: nat)
      requires Valid() && i < |pending|
      modifies this`disk, this`pending, this`done
      ensures Valid() && done == old(done) + {old(pending)[i]}
      ensures pending == old(pending)[..i] + old(pending)[i + 1..]
    {
      var job := pending[i];
      var bytes := Record(magic, job.data);
      var file := PutAt(Contents(disk, job.pos.file), job.pos.position, bytes);
      WrittenIsThere(Contents(disk, job.pos.file), job.pos.position, bytes);
      forall k | k in done && k != job ensures OnDisk(disk[job.pos.file := file], magic, k) {
        WriteKeepsOthers(disk, magic, job, k);
      }
      disk := disk[job.pos.file := file];
      done := done + {job};
      pending := pending[..i] + pending[i + 1..];
    }

    /** Read the block whose data is recorded to start at `dataPosition`, its prefix being in front of it. */
    method ReadBlock(fileIndex: nat, dataPosition: nat) returns (r: Option<seq<byte>>)
      requires dataPosition >= PREFIX
      ensures r == if fileIndex in disk then ReadRecord(magic, disk[fileIndex], dataPosition - PREFIX) else None
    {
      if fileIndex !in disk {
        return None;
      }
      var file := disk[fileIndex];
      var position := dataPosition - PREFIX;
      if position + PREFIX > |file| {
        return None;
      }
      var fileMagic := ToDword(file[position..position + 4]);
      var blockSize := ToDword(file[position + 4..position + 8]);
      if fileMagic != magic || blockSize == 0 || blockSize > MAX_BLOCK_SIZE {
        return None;
      }
      if position + PREFIX + blockSize > |file| {
        return None;
      }
      return Some(file[position + PREFIX..position + PREFIX + blockSize]);
    }

    /** Once written, a block is read back from its recorded position in every later state. */
    lemma WrittenIsReadable(j: Job)
      requires Valid() && j in done && j.data != []
      ensures j.pos.file in disk
      ensures ReadRecord(magic, disk[j.pos.file], j.pos.position) == Some(j.data)
    {
      RecordReadsBack(disk, magic, j);
    }
  }
}
