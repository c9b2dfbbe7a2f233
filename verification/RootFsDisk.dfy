/**
  The storage layer and the slot store on top of it (source/storage/rootstorage.c,
  source/fs/rootfs_disk.c). Sector transfers are abstract: on a healthy device they
  always succeed; on any other they may fail at any time, and a failed write leaves
  arbitrary content in the sector it was aimed at.
 */
module RootFsDisk {
  import opened Basics
  import opened Paths
  import opened FsTable
  import opened DiskFormat

  class Volume {
    const healthy: bool
    const count: nat           // device sector_count
    const sectors: array<Sector>
    const deviceReady: bool    // storage_device_ready
    var volumeReady: bool      // storage_volume_ready
    var area: nat              // node_area_lba of the header read at start-up

    ghost predicate Valid()
      reads this
    {
      sectors.Length == count && (volumeReady ==> deviceReady && AreaOk(area, count))
    }

    ghost function Img(): (img: Image)
      requires Valid()
      reads this, sectors
      ensures |img| == count
    {
      sectors[..]
    }

    /** rootstorage_init; `found` is the answer of ata_pio_init. */
    constructor (device: array<Sector>, healthy: bool, found: bool)
      ensures Valid() && sectors == device && this.healthy == healthy && deviceReady == found
      ensures volumeReady ==> found && HEADER_LBA < device.Length && HeaderValid(device[HEADER_LBA], device.Length)
      ensures volumeReady ==> area == U32(device[HEADER_LBA], 24)
      ensures found && healthy && HEADER_LBA < device.Length && HeaderValid(device[HEADER_LBA], device.Length) ==> volumeReady
    {
      this.healthy := healthy;
      count := device.Length;
      sectors := device;
      deviceReady := found;
      volumeReady := false;
      area := 0;
      new;
      if !found || HEADER_LBA >= count {
        return;
      }
      var ok, header := ReadSector(HEADER_LBA);
      if !ok {
        return;
      }
      volumeReady := HeaderValid(header, count);
      if volumeReady {
        area := U32(header, 24);
      }
    }

    /** rootstorage_read_sector */
    method ReadSector(lba: nat) returns (ok: bool, data: Sector)
      requires Valid()
      ensures ok ==> lba < count && data == sectors[lba]
      ensures healthy ==> (ok <==> deviceReady && lba < count)
    {
      data := Zeros(SECTOR);
      ok := deviceReady && lba < count;
      if ok && !healthy {
        ok := *;
      }
      if ok {
        data := sectors[lba];
      }
    }

    /** rootstorage_write_sector: never at or below the header, never outside the device. */
    method WriteSector(lba: nat, data: Sector) returns (ok: bool)
      requires Valid()
      modifies sectors
      ensures ok ==> HEADER_LBA < lba < count && sectors[lba] == data
      ensures forall l :: 0 <= l < count && (l != lba || l <= HEADER_LBA) ==> sectors[l] == old(sectors[l])
      ensures healthy ==> (ok <==> volumeReady && HEADER_LBA < lba < count)
    {
      ok := deviceReady && volumeReady && HEADER_LBA < lba < count;
      if !ok {
        return;
      }
      if !healthy {
        ok := *;
        if !ok {
          sectors[lba] := *;
          return;
        }
      }
      sectors[lba] := data;
    }

    /** Only sectors of slot i may differ from the old image. */
    twostate predicate OnlySlot(i: nat)
      requires old(Valid()) && Valid()
      reads this, sectors
    {
      |Img()| == |old(Img())|
      && forall l :: 0 <= l < count && !InSlot(area, i, l) ==> Img()[l] == old(Img())[l]
    }

    /** Only the two metadata sectors of slot i may differ from the old image. */
    twostate predicate OnlyRecord(i: nat)
      requires old(Valid()) && Valid()
      reads this, sectors
    {
      |Img()| == |old(Img())|
      && forall l :: 0 <= l < count && !(SlotLba(area, i) <= l < SlotLba(area, i) + 2) ==> Img()[l] == old(Img())[l]
    }

    /** rootfs_disk_read_node */
    method ReadNode(i: nat) returns (ok: bool, node: DiskNode)
      requires Valid()
      ensures ok ==> volumeReady && i < MAX_NODES && NodeAt(Img(), area, i) == Some(node)
      ensures healthy && volumeReady && i < MAX_NODES ==> (ok <==> NodeAt(Img(), area, i).Some?)
    {
      node := UNUSED;
      if !volumeReady || i >= MAX_NODES {
        return false, node;
      }
      var lba := SlotLba(area, i);
      var first, second;
      ok, first := ReadSector(lba);
      if !ok { return; }
      ok, second := ReadSector(lba + 1);
      if !ok { return; }
      var decoded := DecodeNode(Join(first, second));
      if decoded.None? {
        return false, node;
      }
      node := decoded.value;
    }

    /** write_metadata: the two metadata sectors of slot i */
    method WriteMetadata(i: nat, record: seq<byte>) returns (ok: bool)
      requires Valid() && volumeReady && i < MAX_NODES && |record| == 2 * SECTOR
      modifies sectors
      ensures healthy ==> ok
      ensures ok ==> Join(sectors[SlotLba(area, i)], sectors[SlotLba(area, i) + 1]) == record
      ensures OnlyRecord(i)
    {
      var lba := SlotLba(area, i);
      ok := WriteSector(lba, record[..SECTOR]);
      if !ok { return; }
      ok := WriteSector(lba + 1, record[SECTOR..]);
      assert record == record[..SECTOR] + record[SECTOR..];
    }

    /** rootfs_disk_write_node */
    method WriteNode(i: nat, node: DiskNode) returns (ok: bool)
      requires Valid() && IsText(node.path)
      modifies sectors
      ensures ok ==> volumeReady && i < MAX_NODES && NodeAt(Img(), area, i) == Some(node)
      ensures healthy ==> (ok <==> volumeReady && i < MAX_NODES && StorableNode(node))
      ensures volumeReady && i < MAX_NODES ==> OnlyRecord(i)
      ensures !volumeReady || i >= MAX_NODES ==> Img() == old(Img())
    {
      if node.size > FILE_MAX || |node.path| >= PATH_MAX || !volumeReady || i >= MAX_NODES {
        return false;
      }
      ok := WriteMetadata(i, EncodeNode(node));
      NodeRoundTrip(node);
    }

    /** rootfs_disk_clear_node */
    method ClearNode(i: nat) returns (ok: bool)
      requires Valid()
      modifies sectors
      ensures ok ==> volumeReady && i < MAX_NODES && NodeAt(Img(), area, i) == Some(UNUSED)
      ensures healthy ==> (ok <==> volumeReady && i < MAX_NODES)
      ensures volumeReady && i < MAX_NODES ==> OnlyRecord(i)
      ensures !volumeReady || i >= MAX_NODES ==> Img() == old(Img())
    {
      if !volumeReady || i >= MAX_NODES {
        return false;
      }
      ok := WriteMetadata(i, Zeros(2 * SECTOR));
      ClearedDecodes(Zeros(2 * SECTOR));
    }

    /** rootfs_disk_read_file */
    method ReadFile(i: nat, capacity: nat) returns (ok: bool, data: seq<byte>)
      requires Valid()
      ensures ok ==> volumeReady && i < MAX_NODES
      ensures ok ==> FileAt(Img(), area, i) && |data| == SizeAt(Img(), area, i) <= capacity && |data| <= FILE_MAX
      ensures ok ==> data == FileBytes(Img(), area, i, |data|)
      ensures healthy && volumeReady && i < MAX_NODES ==>
                (ok <==> FileAt(Img(), area, i) && SizeAt(Img(), area, i) <= capacity)
    {
      data := [];
      var node;
      ok, node := ReadNode(i);
      if !ok || !node.used || !node.file || node.size > capacity {
        return false, [];
      }
      var lba := SlotLba(area, i) + 2;
      var sector := 0;
      while sector < 128 && |data| < node.size
        invariant sector <= 128
        invariant |data| == if sector * SECTOR <= node.size then sector * SECTOR else node.size
        invariant forall k :: 0 <= k < |data| ==> data[k] == sectors[lba + k / SECTOR][k % SECTOR]
      {
        var buffer;
        ok, buffer := ReadSector(lba + sector);
        if !ok { return false, []; }
        var remaining := node.size - |data|;
        var amount := if remaining > SECTOR then SECTOR else remaining;
        AppendSector(data, sector, buffer, amount);
        data := data + buffer[..amount];
        sector := sector + 1;
      }
      assert data == FileBytes(Img(), area, i, |data|);
      ok := true;
    }

    /** rootfs_disk_write_file: data sectors first, then the record with the new size. */
    method WriteFile(i: nat, data: seq<byte>) returns (ok: bool)
      requires Valid()
      modifies sectors
      ensures ok ==> volumeReady && i < MAX_NODES && |data| <= FILE_MAX
      ensures ok ==> old(FileAt(Img(), area, i))
      ensures ok ==> NodeAt(Img(), area, i) == Some(old(NodeAt(Img(), area, i)).value.(size := |data|))
      ensures ok ==> FileBytes(Img(), area, i, |data|) == data
      ensures healthy && volumeReady && i < MAX_NODES ==>
                (ok <==> |data| <= FILE_MAX && old(FileAt(Img(), area, i)))
      ensures volumeReady && i < MAX_NODES ==> OnlySlot(i)
      ensures !volumeReady || i >= MAX_NODES ==> Img() == old(Img())
    {
      if |data| > FILE_MAX {
        return false;
      }
      var node;
      ok, node := ReadNode(i);
      if !ok || !node.used || !node.file {
        return false;
      }
      DecodedIsStorable(Img(), area, i);
      ok := WriteSectors(i, data);
      if !ok {
        return;
      }
      ok := WriteNode(i, node.(size := |data|));
      if ok {
        assert FileBytes(Img(), area, i, |data|) == data;
      }
    }

    /** What is written to a file's slot is what a read of it returns, whatever the slot held before. */
    method WriteThenRead(i: nat, data: seq<byte>) returns (wrote: bool, read: bool, back: seq<byte>)
      requires Valid()
      modifies sectors
      ensures wrote && read ==> back == data
      ensures healthy && volumeReady && i < MAX_NODES && |data| <= FILE_MAX && old(FileAt(Img(), area, i)) ==> wrote && read
    {
      read, back := false, [];
      wrote := WriteFile(i, data);
      if wrote {
        read, back := ReadFile(i, FILE_MAX);
      }
    }

    /** The data loop of rootfs_disk_write_file. */
    method WriteSectors(i: nat, data: seq<byte>) returns (ok: bool)
      requires Valid() && volumeReady && i < MAX_NODES && |data| <= FILE_MAX
      modifies sectors
      ensures healthy ==> ok
      ensures ok ==> forall k :: 0 <= k < |data| ==> sectors[SlotLba(area, i) + 2 + k / SECTOR][k % SECTOR] == data[k]
      ensures forall l :: 0 <= l < count && !(SlotLba(area, i) + 2 <= l < SlotLba(area, i) + SLOT_SECTORS) ==>
                sectors[l] == old(sectors[l])
    {
      var lba := SlotLba(area, i) + 2;
      var offset, sector := 0, 0;
      ok := true;
      while offset < |data|
        invariant ok && sector <= 128
        invariant offset == if sector * SECTOR <= |data| then sector * SECTOR else |data|
        invariant forall k :: 0 <= k < offset ==> sectors[lba + k / SECTOR][k % SECTOR] == data[k]
        invariant forall l :: 0 <= l < count && !(lba <= l < lba + 128) ==> sectors[l] == old(sectors[l])
      {
        var remaining := |data| - offset;
        var amount := if remaining > SECTOR then SECTOR else remaining;
        var buffer := data[offset..offset + amount] + Zeros(SECTOR - amount);
        ok := WriteSector(lba + sector, buffer);
        if !ok { return; }
        offset := offset + amount;
        sector := sector + 1;
      }
    }
  }

  lemma AppendSector(data: seq<byte>, sector: nat, buffer: Sector, amount: nat)
    requires |data| == sector * SECTOR && amount <= SECTOR
    ensures forall k :: |data| <= k < |data| + amount ==>
              k / SECTOR == sector && (data + buffer[..amount])[k] == buffer[k % SECTOR]
  {
  }

  lemma {:induction false} CStringIsText(b: seq<byte>)
    ensures IsText(CString(b)) && |CString(b)| <= |b|
  {
    if b != [] && b[0] != 0 {
      CStringIsText(b[1..]);
    }
  }

  /** Whatever a slot decodes to can be written back. */
  lemma DecodedIsStorable(img: Image, area: nat, i: nat)
    requires Holds(img, area, i) && NodeAt(img, area, i).Some?
    ensures StorableNode(NodeAt(img, area, i).value)
  {
    var b := Join(img[SlotLba(area, i)], img[SlotLba(area, i) + 1]);
    CStringIsText(b[16..16 + U16(b, 12) % 512]);
  }
}
