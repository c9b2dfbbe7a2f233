/**
  The ROOTFS42 on-disk format: where slots lie, how a node record is laid out in its two
  metadata sectors, and which bytes of the 128 data sectors belong to a file
  (source/fs/rootfs_disk.c, source/storage/rootstorage.c).
 */
module DiskFormat {
  import opened Basics
  import opened Paths
  import opened FsTable

  const SECTOR := 512
  const HEADER_LBA := 2048
  const SLOT_SECTORS := 130      // 2 metadata + 128 data
  const FILE_MAX := 65536

  type Sector = s: seq<byte> | |s| == SECTOR witness seq(SECTOR, _ => 0)

  type Image = seq<Sector>

  // ----------------------------------------------------------------
  // Volume header
  // ----------------------------------------------------------------

  const MAGIC: seq<byte> := [82, 79, 79, 84, 70, 83, 52, 50]  // "ROOTFS42"

  /** rootstorage_header_valid, for a device of `count` sectors. */
  predicate HeaderValid(h: Sector, count: nat) {
    && h[..8] == MAGIC
    && U32(h, 8) == 2 && U32(h, 12) == SECTOR
    && U32(h, 16) == MAX_NODES && U32(h, 20) == SLOT_SECTORS
    && HEADER_LBA < U32(h, 24) < count
    && MAX_NODES * SLOT_SECTORS <= count - U32(h, 24)
    && 0 < U32(h, 28) <= count - HEADER_LBA
  }

  // ----------------------------------------------------------------
  // Slots
  // ----------------------------------------------------------------

  function SlotLba(area: nat, i: nat): nat {
    area + i * SLOT_SECTORS
  }

  predicate InSlot(area: nat, i: nat, lba: int) {
    SlotLba(area, i) <= lba < SlotLba(area, i) + SLOT_SECTORS
  }

  /** The node area of a valid volume lies above the header and inside the device. */
  predicate AreaOk(area: nat, count: nat) {
    HEADER_LBA < area && SlotLba(area, MAX_NODES) <= count
  }

  /** Slots are disjoint, above LBA 2048 and inside the device. */
  lemma SlotsDisjoint(area: nat, count: nat, i: nat, j: nat, lba: int)
    requires AreaOk(area, count) && i < MAX_NODES && j < MAX_NODES && InSlot(area, i, lba)
    ensures HEADER_LBA < lba < count
    ensures InSlot(area, j, lba) ==> i == j
  {
  }

  // ----------------------------------------------------------------
  // Node records
  // ----------------------------------------------------------------

  datatype DiskNode = DiskNode(used: bool, file: bool, size: nat, path: string)

  const UNUSED := DiskNode(false, false, 0, "")

  function TextBytes(s: string): (b: seq<byte>)
    requires IsText(s)
    ensures |b| == |s|
  {
    seq(|s|, i requires 0 <= i < |s| => s[i] as int)
  }

  /** The C string that starts a byte buffer. */
  function CString(b: seq<byte>): string {
    if b == [] || b[0] == 0 then "" else [b[0] as char] + CString(b[1..])
  }

  lemma {:induction false} TextRoundTrip(s: string)
    requires IsText(s)
    ensures CString(TextBytes(s)) == s
  {
    if s != [] {
      TextRoundTrip(s[1..]);
      assert TextBytes(s)[1..] == TextBytes(s[1..]);
    }
  }

  const NODE_TAG: seq<byte> := [78, 79, 68, 69, 2]  // "NODE", version 2

  predicate StorableNode(n: DiskNode) {
    n.size <= FILE_MAX && |n.path| < PATH_MAX && IsText(n.path)
  }

  /** The 1024 bytes that rootfs_disk_write_node stores for a node. */
  function EncodeNode(n: DiskNode): (b: seq<byte>)
    requires StorableNode(n)
    ensures |b| == 2 * SECTOR
  {
    NODE_TAG + [if n.used then 1 else 0, if n.file then 1 else 0, 0]
    + Le32(n.size) + Le16(|n.path|) + [0, 0]
    + TextBytes(n.path) + Zeros(2 * SECTOR - 16 - |n.path|)
  }

  /** What rootfs_disk_read_node makes of two metadata sectors; None is a read error. */
  function DecodeNode(b: seq<byte>): Option<DiskNode>
    requires |b| == 2 * SECTOR
  {
    if b[..4] == [0, 0, 0, 0] then Some(UNUSED)
    else if b[..5] != NODE_TAG then None
    else if b[5] > 1 || b[6] > 1 || U32(b, 8) > FILE_MAX || U16(b, 12) >= PATH_MAX then None
    else Some(DiskNode(b[5] != 0, b[6] == 1, U32(b, 8), CString(b[16..16 + U16(b, 12)])))
  }

  lemma EncodeFields(n: DiskNode)
    requires StorableNode(n)
    ensures var b := EncodeNode(n);
            b[..5] == NODE_TAG && b[5] == (if n.used then 1 else 0) && b[6] == (if n.file then 1 else 0)
            && U32(b, 8) == n.size && U16(b, 12) == |n.path| && b[16..16 + |n.path|] == TextBytes(n.path)
  {
  }

  /** A record is read as an unused slot, as damaged, or as a node, exactly in these cases. */
  lemma DecodeCases(b: seq<byte>)
    requires |b| == 2 * SECTOR
    ensures var blank := b[0] == 0 && b[1] == 0 && b[2] == 0 && b[3] == 0;
            var tagged := b[0] == 78 && b[1] == 79 && b[2] == 68 && b[3] == 69 && b[4] == 2;
            && (blank ==> DecodeNode(b) == Some(UNUSED))
            && (DecodeNode(b).None? <==> !blank && !(tagged && b[5] < 2 && b[6] < 2 && U32(b, 8) <= 65536 && U16(b, 12) < 512))
  {
    assert b[..4] == [b[0], b[1], b[2], b[3]];
    assert b[..5] == [b[0], b[1], b[2], b[3], b[4]];
  }

  /** Node metadata round-trips. */
  lemma NodeRoundTrip(n: DiskNode)
    requires StorableNode(n)
    ensures DecodeNode(EncodeNode(n)) == Some(n)
  {
    EncodeFields(n);
    TextRoundTrip(n.path);
    var b := EncodeNode(n);
    assert b[..5][0] == 78 == b[0];
    assert b[..4][0] == b[0];
  }

  lemma ClearedDecodes(b: seq<byte>)
    requires b == Zeros(2 * SECTOR)
    ensures DecodeNode(b) == Some(UNUSED)
  {
  }

  // ----------------------------------------------------------------
  // Views of an image
  // ----------------------------------------------------------------

  predicate Holds(img: Image, area: nat, i: nat) {
    i < MAX_NODES && SlotLba(area, MAX_NODES) <= |img|
  }

  function Join(a: seq<byte>, b: seq<byte>): seq<byte> {
    a + b
  }

  function NodeAt(img: Image, area: nat, i: nat): Option<DiskNode>
    requires Holds(img, area, i)
  {
    var b := SlotLba(area, i);
    DecodeNode(Join(img[b], img[b + 1]))
  }

  /** Slot i holds the record of a file. */
  predicate FileAt(img: Image, area: nat, i: nat)
    requires Holds(img, area, i)
  {
    var n := NodeAt(img, area, i);
    n.Some? && n.value.used && n.value.file
  }

  function SizeAt(img: Image, area: nat, i: nat): nat
    requires Holds(img, area, i) && NodeAt(img, area, i).Some?
  {
    NodeAt(img, area, i).value.size
  }

  /** The first `size` bytes of the data sectors of slot i. */
  function FileBytes(img: Image, area: nat, i: nat, size: nat): (b: seq<byte>)
    requires Holds(img, area, i) && size <= FILE_MAX
    ensures |b| == size
  {
    seq(size, k requires 0 <= k < size => img[SlotLba(area, i) + 2 + k / SECTOR][k % SECTOR])
  }

  /** Two images that agree on slot i agree on its node and its file. */
  lemma SlotFrame(img: Image, img': Image, area: nat, i: nat, size: nat)
    requires Holds(img, area, i) && |img'| == |img| && size <= FILE_MAX
    requires forall lba :: 0 <= lba < |img| && InSlot(area, i, lba) ==> img'[lba] == img[lba]
    ensures NodeAt(img', area, i) == NodeAt(img, area, i)
    ensures FileBytes(img', area, i, size) == FileBytes(img, area, i, size)
  {
    var b := SlotLba(area, i);
    assert InSlot(area, i, b) && InSlot(area, i, b + 1);
    forall k | 0 <= k < size
      ensures FileBytes(img', area, i, size)[k] == FileBytes(img, area, i, size)[k]
    {
      assert InSlot(area, i, b + 2 + k / SECTOR);
    }
  }
}
