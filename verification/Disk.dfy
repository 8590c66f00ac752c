/** A disk as a flat array of bytes, and the ATA driver's chunked sector transfers. */
module Disk {
  import opened Bytes
  import opened Wrappers

  const SECTOR: nat := 512
  const LBA_LIMIT: nat := 0x1000_0000

  function Get(disk: seq<byte>, at: nat, n: nat): (r: seq<byte>)
    requires at + n <= |disk|
    ensures |r| == n
  {
    disk[at..at + n]
  }

  function Put(disk: seq<byte>, at: nat, b: seq<byte>): (r: seq<byte>)
    requires at + |b| <= |disk|
    ensures |r| == |disk|
  {
    disk[..at] + b + disk[at + |b|..]
  }

  lemma GetPut(disk: seq<byte>, at: nat, b: seq<byte>)
    requires at + |b| <= |disk|
    ensures Get(Put(disk, at, b), at, |b|) == b
  {
  }

  lemma GetPutOther(disk: seq<byte>, at: nat, b: seq<byte>, at': nat, n: nat)
    requires at + |b| <= |disk| && at' + n <= |disk|
    requires at' + n <= at || at + |b| <= at'
    ensures Get(Put(disk, at, b), at', n) == Get(disk, at', n)
  {
  }

  /** Two adjacent ranges make one. */
  lemma GetSplit(disk: seq<byte>, at: nat, n: nat, m: nat)
    requires at + n + m <= |disk|
    ensures Get(disk, at, n) + Get(disk, at + n, m) == Get(disk, at, n + m)
  {
  }

  lemma PutSplit(disk: seq<byte>, at: nat, a: seq<byte>, b: seq<byte>)
    requires at + |a| + |b| <= |disk|
    ensures Put(Put(disk, at, a), at + |a|, b) == Put(disk, at, a + b)
  {
  }

  /** The registers a command is programmed with. */
  datatype Registers = Registers(count: byte, lo: byte, mid: byte, hi: byte, drive: byte)

  function Program(lba: nat, sectors: nat): Registers {
    Registers(sectors % 256, lba % 256, lba / 256 % 256, lba / 0x1_0000 % 256, 0xE0 + lba / 0x100_0000 % 16)
  }

  /** How the drive reads them: a count of zero means 256 sectors. */
  function DriveCount(r: Registers): nat { if r.count == 0 then 256 else r.count }

  function DriveLba(r: Registers): nat {
    r.lo + 256 * r.mid + 0x1_0000 * r.hi + 0x100_0000 * (r.drive % 16)
  }

  /** The drive starts where, and transfers as much as, the driver meant. */
  lemma ProgramRoundTrip(lba: nat, sectors: nat)
    requires lba < LBA_LIMIT && 1 <= sectors <= 256
    ensures DriveLba(Program(lba, sectors)) == lba
    ensures DriveCount(Program(lba, sectors)) == sectors
  {
    var a, b := lba / 256, lba / 0x1_0000;
    assert a / 256 == b && b / 256 == lba / 0x100_0000;
    assert (0xE0 + lba / 0x100_0000 % 16) % 16 == lba / 0x100_0000 % 16;
  }

  /** Some leading sectors are written and nothing else. */
  ghost predicate PartlyWritten(disk: seq<byte>, disk': seq<byte>, lba: nat, b: seq<byte>) {
    exists m: nat | SECTOR * m <= |b| && SECTOR * lba + SECTOR * m <= |disk| :: disk' == PutSectors(disk, lba, b, m)
  }

  function PutSectors(disk: seq<byte>, lba: nat, b: seq<byte>, m: nat): seq<byte>
    requires SECTOR * m <= |b| && SECTOR * lba + SECTOR * m <= |disk|
  {
    Put(disk, SECTOR * lba, b[..SECTOR * m])
  }

  /** Joining the next chunk to the ones before. */
  lemma NextPart(disk: seq<byte>, disk': seq<byte>, lba: nat, b: seq<byte>, start: nat, n: nat)
    requires SECTOR * (start + n) <= |b| && SECTOR * (lba + start + n) <= |disk|
    requires disk' == if start == 0 then disk else Put(disk, SECTOR * lba, b[..SECTOR * start])
    ensures Put(disk', SECTOR * (lba + start), b[SECTOR * start..SECTOR * (start + n)])
         == Put(disk, SECTOR * lba, b[..SECTOR * (start + n)])
  {
    var a, part := b[..SECTOR * start], b[SECTOR * start..SECTOR * (start + n)];
    assert a + part == b[..SECTOR * (start + n)];
    if start > 0 {
      PutSplit(disk, SECTOR * lba, a, part);
    } else {
      assert a == [];
    }
  }

  /** A chunk that failed wrote nothing, or some leading sectors of its own. */
  lemma ShortPart(disk: seq<byte>, disk': seq<byte>, disk'': seq<byte>, lba: nat, b: seq<byte>, start: nat, n: nat)
    requires SECTOR * (start + n) <= |b| && |disk'| == |disk|
    requires start > 0 ==> SECTOR * (lba + start) <= |disk|
    requires disk' == if start == 0 then disk else Put(disk, SECTOR * lba, b[..SECTOR * start])
    requires var part := b[SECTOR * start..SECTOR * (start + n)];
             disk'' == disk' || PartlyWritten(disk', disk'', lba + start, part)
    ensures disk'' == disk || PartlyWritten(disk, disk'', lba, b)
  {
    var part := b[SECTOR * start..SECTOR * (start + n)];
    if disk'' == disk' {
      if start > 0 {
        assert disk'' == PutSectors(disk, lba, b, start);
      }
    } else {
      var m: nat :| SECTOR * m <= |part| && SECTOR * (lba + start) + SECTOR * m <= |disk'| && disk'' == PutSectors(disk', lba + start, part, m);
      NextPart(disk, disk', lba, b, start, m);
      assert part[..SECTOR * m] == b[SECTOR * start..SECTOR * (start + m)];
      assert disk'' == PutSectors(disk, lba, b, start + m);
    }
  }

  class Ata {
    var data: seq<byte>

    /** The drive's answer to a READ SECTORS command. */
    method DriveRead(r: Registers) returns (b: Option<seq<byte>>)
      ensures b == if SECTOR * (DriveLba(r) + DriveCount(r)) <= |data|
                   then Some(Get(data, SECTOR * DriveLba(r), SECTOR * DriveCount(r))) else None
    {
      if SECTOR * (DriveLba(r) + DriveCount(r)) <= |data| {
        return Some(Get(data, SECTOR * DriveLba(r), SECTOR * DriveCount(r)));
      }
      return None;
    }

    /** WRITE SECTORS; a request past the end of the disk is refused before any data moves. */
    method DriveWrite(r: Registers, b: seq<byte>) returns (ok: bool)
      requires |b| == SECTOR * DriveCount(r)
      modifies this
      ensures ok <==> SECTOR * DriveLba(r) + |b| <= |old(data)|
      ensures data == if ok then Put(old(data), SECTOR * DriveLba(r), b) else old(data)
    {
      ok := SECTOR * DriveLba(r) + |b| <= |data|;
      if ok {
        data := Put(data, SECTOR * DriveLba(r), b);
      }
    }

    /** `read_sectors`: one command up to 256 sectors, else chunks of 255. */
    method ReadSectors(lba: nat, sectors: nat) returns (b: Option<seq<byte>>)
      requires lba + sectors <= LBA_LIMIT
      ensures b.Some? <==> sectors > 0 && SECTOR * (lba + sectors) <= |data|
      ensures b.Some? ==> b.value == Get(data, SECTOR * lba, SECTOR * sectors)
      decreases sectors
    {
      if lba >= LBA_LIMIT || sectors == 0 {
        return None;
      }
      if sectors > 256 {
        var buf: seq<byte> := [];
        var start := 0;
        while start < sectors
          invariant 0 <= start <= sectors && |buf| == SECTOR * start
          invariant start > 0 ==> SECTOR * (lba + start) <= |data| && buf == Get(data, SECTOR * lba, SECTOR * start)
        {
          var n := if sectors - start < 255 then sectors - start else 255;
          var part := ReadSectors(lba + start, n);
          if part.None? {
            return None;
          }
          if start > 0 {
            GetSplit(data, SECTOR * lba, SECTOR * start, SECTOR * n);
          }
          buf := buf + part.value;
          start := start + n;
        }
        return Some(buf);
      }
      ProgramRoundTrip(lba, sectors);
      b := DriveRead(Program(lba, sectors));
    }

    /** `write_sectors`, split the same way. A transfer that leaves the disk fails in the chunk that does; the chunks
        before it are written. */
    method WriteSectors(lba: nat, b: seq<byte>) returns (ok: bool)
      requires |b| % SECTOR == 0 && lba + |b| / SECTOR <= LBA_LIMIT
      modifies this
      ensures ok <==> |b| > 0 && SECTOR * lba + |b| <= |old(data)|
      ensures |data| == |old(data)|
      ensures ok ==> data == Put(old(data), SECTOR * lba, b)
      ensures !ok ==> data == old(data) || PartlyWritten(old(data), data, lba, b)
      decreases |b|
    {
      var sectors := |b| / SECTOR;
      if lba >= LBA_LIMIT || sectors == 0 {
        return false;
      }
      if sectors > 256 {
        ok := WriteChunks(lba, b, sectors);
        return;
      }
      ProgramRoundTrip(lba, sectors);
      ok := DriveWrite(Program(lba, sectors), b);
    }

    /** The chunk loop. */
    method WriteChunks(lba: nat, b: seq<byte>, sectors: nat) returns (ok: bool)
      requires |b| == SECTOR * sectors && lba + sectors <= LBA_LIMIT && sectors > 256
      modifies this
      ensures ok <==> SECTOR * lba + |b| <= |old(data)|
      ensures |data| == |old(data)|
      ensures ok ==> data == Put(old(data), SECTOR * lba, b)
      ensures !ok ==> data == old(data) || PartlyWritten(old(data), data, lba, b)
      decreases |b|, 0
    {
      hide Put;
      var start := 0;
      while start < sectors
        invariant 0 <= start <= sectors && |data| == |old(data)|
        invariant start == 0 ==> data == old(data)
        invariant start > 0 ==> SECTOR * (lba + start) <= |data| && data == Put(old(data), SECTOR * lba, b[..SECTOR * start])
      {
        var n := if sectors - start < 255 then sectors - start else 255;
        var part := b[SECTOR * start..SECTOR * (start + n)];
        ghost var before := data;
        ok := WriteSectors(lba + start, part);
        if !ok {
          ShortPart(old(data), before, data, lba, b, start, n);
          return;
        }
        NextPart(old(data), before, lba, b, start, n);
        start := start + n;
      }
      assert b[..SECTOR * start] == b;
      return true;
    }

    /** What was written is what is read back, however both transfers were split. */
    method WriteThenRead(lba: nat, b: seq<byte>) returns (back: Option<seq<byte>>)
      requires |b| > 0 && |b| % SECTOR == 0 && lba + |b| / SECTOR <= LBA_LIMIT && SECTOR * lba + |b| <= |data|
      modifies this
      ensures back == Some(b)
    {
      var _ := WriteSectors(lba, b);
      GetPut(old(data), SECTOR * lba, b);
      back := ReadSectors(lba, |b| / SECTOR);
    }
  }
}
