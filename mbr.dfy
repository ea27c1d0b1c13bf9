/**
 * The IBM-PC Master Boot Record: 436 bytes of bootstrap code, a 10-byte disk
 * id, four 16-byte partition entries at offset 446 and the little-endian
 * signature 0xAA55 at offset 510, decoded field by field from sector 0.
 */
module Mbr {
  import opened Results
  import opened Bytes
  import opened BlockDevice
  import opened Arith

  const MBR_SIZE := 512
  const DISK_ID_OFFSET := 436
  const ENTRIES_OFFSET := 446
  const ENTRY_SIZE := 16
  const ENTRY_COUNT := 4
  const SIGNATURE_OFFSET := 510
  const VALID_BOOTSECTOR := 0xAA55

  /** A legacy cylinder-head-sector address: three bytes as stored on disk. */
  datatype Chs = Chs(head: u8, sectorUpper: u8, cylinderLower: u8)

  /**
   * Bitwise or of two naturals, bit by bit from the lowest: a bit of the
   * result is set when it is set in either operand.
   */
  function BitOr(x: nat, y: nat): (r: nat)
    ensures x <= r && y <= r
    decreases x + y
  {
    if x == 0 then y
    else if y == 0 then x
    else (if x % 2 == 1 || y % 2 == 1 then 1 else 0) + 2 * BitOr(x / 2, y / 2)
  }

  /** Or-ing two numbers of `k` bits gives a number of `k` bits. */
  lemma {:induction false} BitOrBelow(x: nat, y: nat, k: nat)
    requires x < Pow2(k) && y < Pow2(k)
    ensures BitOr(x, y) < Pow2(k)
    decreases k
  {
    if x != 0 && y != 0 {
      BitOrBelow(x / 2, y / 2, k - 1);
    }
  }

  /** Bit `i` of `n` is set. */
  predicate Bit(n: nat, i: nat)
  {
    (n / Pow2(i)) % 2 == 1
  }

  /** Dropping the lowest bit: bit `i` of `n` is bit `i - 1` of `n / 2`. */
  lemma HalfShift(n: nat, i: nat)
    requires i > 0
    ensures n / Pow2(i) == (n / 2) / Pow2(i - 1)
    ensures n % Pow2(i) == 2 * ((n / 2) % Pow2(i - 1)) + n % 2
  {
    var m := Pow2(i - 1);
    var h, s, t := n / 2, (n / 2) / m, (n / 2) % m;
    assert h == s * m + t;
    assert n == s * (2 * m) + (2 * t + n % 2);
    DivModUnique(n, 2 * m, s, 2 * t + n % 2);
  }

  /** Or-ing with zero changes nothing. */
  lemma BitOrZero(x: nat)
    ensures BitOr(0, x) == x && BitOr(x, 0) == x
  {
  }

  /** The or of the two operands with their lowest bits dropped. */
  lemma BitOrHalf(x: nat, y: nat)
    ensures BitOr(x, y) / 2 == BitOr(x / 2, y / 2)
    ensures BitOr(x, y) % 2 == (if x % 2 == 1 || y % 2 == 1 then 1 else 0)
  {
    if x != 0 && y != 0 {
      var b := if x % 2 == 1 || y % 2 == 1 then 1 else 0;
      DivModUnique(BitOr(x, y), 2, BitOr(x / 2, y / 2), b);
    }
  }

  /** `BitOr` is the bitwise or: bit `i` of the result is set iff it is set in `x` or in `y`. */
  lemma {:induction false} BitOrBits(x: nat, y: nat, i: nat)
    ensures Bit(BitOr(x, y), i) <==> Bit(x, i) || Bit(y, i)
    decreases i
  {
    BitOrHalf(x, y);
    if i > 0 {
      HalfShift(BitOr(x, y), i);
      HalfShift(x, i);
      HalfShift(y, i);
      BitOrBits(x / 2, y / 2, i - 1);
    }
  }

  /** Or-ing an even number with `y` keeps the lowest bit of `y`. */
  lemma BitOrEven(z: nat, y: nat)
    ensures BitOr(2 * z, y) == 2 * BitOr(z, y / 2) + y % 2
  {
    if z == 0 {
      BitOrZero(y);
      BitOrZero(y / 2);
    } else if y == 0 {
      BitOrZero(z);
      BitOrZero(2 * z);
    }
  }

  /**
   * Or-ing a multiple of 2^k with `y`: the low k bits are those of `y`, the
   * rest the or of the high parts.
   */
  lemma {:induction false} BitOrShifted(a: nat, y: nat, k: nat, p: nat, s: nat, hi: nat, lo: nat)
    requires p == Pow2(k) && s == a * p && y == hi * p + lo && lo < p
    ensures BitOr(s, y) == BitOr(a, hi) * p + lo
    decreases k
  {
    if k > 0 {
      var m: nat := Pow2(k - 1);
      var z: nat := a * m;
      var q := BitOr(a, hi);
      assert p == 2 * m;
      ScaleStep(a, m);
      ScaleStep(hi, m);
      ScaleStep(q, m);
      DivModUnique(y, 2, hi * m + lo / 2, lo % 2);
      assert s == 2 * z;
      assert y / 2 == hi * m + lo / 2 && y % 2 == lo % 2;
      BitOrEven(z, y);
      BitOrShifted(a, y / 2, k - 1, m, z, hi, lo / 2);
      assert BitOr(s, y) == 2 * (q * m + lo / 2) + lo % 2;
    } else {
      assert p == 1 && lo == 0 && s == a && y == hi;
    }
  }

  /** Doubling a product, stated once to keep the step above linear. */
  lemma ScaleStep(a: nat, m: nat)
    ensures a * (2 * m) == 2 * (a * m)
  {
  }

  /** The sector number: the low six bits of the second byte (masking with 0x3F). */
  function Sector(c: Chs): (r: u8)
    ensures r <= 63
  {
    c.sectorUpper % 64
  }

  /**
   * The cylinder as the driver computes it: the top two bits of the second
   * byte (masking with 0xC0), left in place, or-ed with the third byte.
   */
  function Cylinder(c: Chs): (r: u16)
    ensures c.cylinderLower <= r < 256
    ensures r % 64 == c.cylinderLower % 64
    ensures r / 64 == BitOr(c.sectorUpper / 64, c.cylinderLower / 64)
  {
    assert Pow2(8) == 256;
    BitOrBelow((c.sectorUpper / 64) * 64, c.cylinderLower, 8);
    CylinderBits(c);
    BitOr((c.sectorUpper / 64) * 64, c.cylinderLower)
  }

  /** The as-written cylinder: the low six bits of the third byte, the top two bits or-ed. */
  lemma CylinderBits(c: Chs)
    ensures var r := BitOr((c.sectorUpper / 64) * 64, c.cylinderLower);
            r % 64 == c.cylinderLower % 64 && r / 64 == BitOr(c.sectorUpper / 64, c.cylinderLower / 64)
  {
    assert Pow2(6) == 64;
    BitOrShifted(c.sectorUpper / 64, c.cylinderLower, 6, 64, (c.sectorUpper / 64) * 64, c.cylinderLower / 64, c.cylinderLower % 64);
    var q := BitOr(c.sectorUpper / 64, c.cylinderLower / 64);
    DivModUnique(q * 64 + c.cylinderLower % 64, 64, q, c.cylinderLower % 64);
  }

  /**
   * The ten-bit cylinder of the CHS convention: the top two bits of the
   * second byte are bits 8 and 9, the third byte bits 0 to 7.
   */
  function Cylinder10(c: Chs): (r: u16)
    ensures r < 1024 && r % 256 == c.cylinderLower && r / 256 == c.sectorUpper / 64
  {
    (c.sectorUpper / 64) * 256 + c.cylinderLower
  }

  /** The bytes of a CHS address with the given head, sector (0..63) and ten-bit cylinder. */
  function EncodeChs10(head: u8, sector: nat, cylinder: nat): Chs
    requires sector < 64 && cylinder < 1024
  {
    Chs(head, (cylinder / 256) * 64 + sector, cylinder % 256)
  }

  /** The ten-bit reading gives back every sector and cylinder that can be stored. */
  lemma Cylinder10RoundTrip(head: u8, sector: nat, cylinder: nat)
    requires sector < 64 && cylinder < 1024
    ensures Sector(EncodeChs10(head, sector, cylinder)) == sector
    ensures Cylinder10(EncodeChs10(head, sector, cylinder)) == cylinder
  {
  }

  /**
   * As written, the cylinder loses bits 8 and 9: a stored cylinder of 768
   * (bits 8 and 9 set, low byte 0) reads back as 192.
   */
  lemma CylinderLosesHighBits()
    ensures EncodeChs10(0, 1, 768) == Chs(0, 193, 0)
    ensures Cylinder10(Chs(0, 193, 0)) == 768
    ensures Cylinder(Chs(0, 193, 0)) == 192
  {
  }

  datatype BootStatus = No | Active | Unknown

  /** The boot indicator byte: 0x00 is inactive, 0x80 active, anything else unknown. */
  function BootStatusOf(flag: u8): (s: BootStatus)
    ensures s == No <==> flag == 0x00
    ensures s == Active <==> flag == 0x80
    ensures s == Unknown <==> flag != 0x00 && flag != 0x80
  {
    match flag
    case 0x00 => No
    case 0x80 => Active
    case _ => Unknown
  }

  datatype PartitionEntry = PartitionEntry(
    bootFlag: u8,
    chsStart: Chs,
    partitionType: u8,
    chsEnd: Chs,
    sectorLba: u32,
    sectorTotal: u32)

  /** A partition holds FAT32 exactly when its type code is 0x0B (CHS) or 0x0C (LBA). */
  predicate IsFat32(e: PartitionEntry)
  {
    match e.partitionType
    case 0x0B | 0x0C => true
    case _ => false
  }

  datatype MasterBootRecord = MasterBootRecord(
    bootstrap: seq<u8>,
    diskId: seq<u8>,
    entries: seq<PartitionEntry>,
    signature: u16)

  /** The record has the shape of the on-disk structure. */
  ghost predicate WellFormed(m: MasterBootRecord)
  {
    |m.bootstrap| == DISK_ID_OFFSET &&
    |m.diskId| == ENTRIES_OFFSET - DISK_ID_OFFSET &&
    |m.entries| == ENTRY_COUNT
  }

  /** The signature is valid exactly when it is 0xAA55. */
  predicate ReadSignature(m: MasterBootRecord)
  {
    m.signature == VALID_BOOTSECTOR
  }

  lemma Pow256Widths()
    ensures Pow256(2) == 0x1_0000 && Pow256(4) == 0x1_0000_0000
  {
  }

  function DecodeChs(bs: seq<u8>): Chs
    requires |bs| == 3
  {
    Chs(bs[0], bs[1], bs[2])
  }

  function EncodeChs(c: Chs): (bs: seq<u8>)
    ensures |bs| == 3 && DecodeChs(bs) == c
  {
    [c.head, c.sectorUpper, c.cylinderLower]
  }

  /**
   * One 16-byte partition entry: flag at 0, CHS start at 1..3, type at 4,
   * CHS end at 5..7, first LBA (u32 LE) at 8, sector count (u32 LE) at 12.
   */
  function DecodeEntry(bs: seq<u8>): (e: PartitionEntry)
    requires |bs| == ENTRY_SIZE
  {
    Pow256Widths();
    PartitionEntry(bs[0], DecodeChs(bs[1..4]), bs[4], DecodeChs(bs[5..8]), LeUint(bs[8..12]), LeUint(bs[12..16]))
  }

  function EncodeEntry(e: PartitionEntry): (bs: seq<u8>)
    ensures |bs| == ENTRY_SIZE
  {
    Pow256Widths();
    [e.bootFlag] + EncodeChs(e.chsStart) + [e.partitionType] + EncodeChs(e.chsEnd) +
    LeBytes(e.sectorLba, 4) + LeBytes(e.sectorTotal, 4)
  }

  /** The partition table: the four entries, stored one after another. */
  function EncodeTable(es: seq<PartitionEntry>): (bs: seq<u8>)
    requires |es| == ENTRY_COUNT
    ensures |bs| == ENTRY_SIZE * ENTRY_COUNT
  {
    EncodeEntry(es[0]) + EncodeEntry(es[1]) + EncodeEntry(es[2]) + EncodeEntry(es[3])
  }

  /** Entry `i` of the table occupies bytes `[16 i, 16 i + 16)`. */
  lemma TableSlice(es: seq<PartitionEntry>, i: nat)
    requires |es| == ENTRY_COUNT && i < ENTRY_COUNT
    ensures EncodeTable(es)[ENTRY_SIZE * i .. ENTRY_SIZE * (i + 1)] == EncodeEntry(es[i])
  {
    var e0, e1, e2, e3 := EncodeEntry(es[0]), EncodeEntry(es[1]), EncodeEntry(es[2]), EncodeEntry(es[3]);
    var t := EncodeTable(es);
    assert t == ((e0 + e1) + e2) + e3;
    if i == 0 {
      assert t[..16] == e0;
    } else if i == 1 {
      assert t[16..32] == (e0 + e1)[16..32];
    } else if i == 2 {
      assert t[32..48] == ((e0 + e1) + e2)[32..48];
    } else {
      assert t[48..64] == e3;
    }
  }

  /** Four neighbouring 16-byte slices make up the 64-byte slice they cover. */
  lemma FourSlices(s: seq<u8>, a: nat)
    requires a + 64 <= |s|
    ensures s[a..a + 64] == s[a..a + 16] + s[a + 16..a + 32] + s[a + 32..a + 48] + s[a + 48..a + 64]
  {
  }

  /** The entry starting at byte `ENTRIES_OFFSET + ENTRY_SIZE * i` of a 512-byte sector. */
  function EntryAt(buf: seq<u8>, i: nat): PartitionEntry
    requires |buf| == MBR_SIZE && i < ENTRY_COUNT
  {
    DecodeEntry(buf[ENTRIES_OFFSET + ENTRY_SIZE * i .. ENTRIES_OFFSET + ENTRY_SIZE * (i + 1)])
  }

  /** Decodes a 512-byte sector as a Master Boot Record, field by field. */
  function Decode(buf: seq<u8>): (m: MasterBootRecord)
    requires |buf| == MBR_SIZE
    ensures WellFormed(m)
    ensures ReadSignature(m) <==> buf[SIGNATURE_OFFSET] == 0x55 && buf[SIGNATURE_OFFSET + 1] == 0xAA
  {
    Pow256Widths();
    LeUint2(buf[SIGNATURE_OFFSET..]);
    MasterBootRecord(
      buf[..DISK_ID_OFFSET],
      buf[DISK_ID_OFFSET..ENTRIES_OFFSET],
      [EntryAt(buf, 0), EntryAt(buf, 1), EntryAt(buf, 2), EntryAt(buf, 3)],
      LeUint(buf[SIGNATURE_OFFSET..]))
  }

  /** The 512 bytes of a well-formed record. */
  function Encode(m: MasterBootRecord): (buf: seq<u8>)
    requires WellFormed(m)
    ensures |buf| == MBR_SIZE
  {
    Pow256Widths();
    m.bootstrap + m.diskId + EncodeTable(m.entries) + LeBytes(m.signature, 2)
  }

  lemma {:induction false} EntryRoundTrip(e: PartitionEntry)
    ensures DecodeEntry(EncodeEntry(e)) == e
  {
    Pow256Widths();
    var bs := EncodeEntry(e);
    var lba, total := LeBytes(e.sectorLba, 4), LeBytes(e.sectorTotal, 4);
    var head := [e.bootFlag] + EncodeChs(e.chsStart) + [e.partitionType] + EncodeChs(e.chsEnd);
    assert bs == head + lba + total;
    assert bs[..8] == head && bs[8..12] == lba && bs[12..16] == total;
    assert bs[1..4] == head[1..4] == EncodeChs(e.chsStart);
    assert bs[5..8] == head[5..8] == EncodeChs(e.chsEnd);
    LeUintOfLeBytes(e.sectorLba, 4);
    LeUintOfLeBytes(e.sectorTotal, 4);
  }

  lemma {:induction false} EntryBytesRoundTrip(bs: seq<u8>)
    requires |bs| == ENTRY_SIZE
    ensures EncodeEntry(DecodeEntry(bs)) == bs
  {
    Pow256Widths();
    LeBytesOfLeUint(bs[8..12]);
    LeBytesOfLeUint(bs[12..16]);
    var e := DecodeEntry(bs);
    assert EncodeChs(e.chsStart) == bs[1..4] && EncodeChs(e.chsEnd) == bs[5..8];
    EntryPieces(bs);
  }

  /** The six fields of an entry, cut out of its 16 bytes and put back together, are the 16 bytes. */
  lemma EntryPieces(bs: seq<u8>)
    requires |bs| == ENTRY_SIZE
    ensures bs == [bs[0]] + bs[1..4] + [bs[4]] + bs[5..8] + bs[8..12] + bs[12..16]
  {
    assert bs[..4] == [bs[0]] + bs[1..4];
    assert bs[..5] == bs[..4] + [bs[4]];
    assert bs[..8] == bs[..5] + bs[5..8];
    assert bs[..12] == bs[..8] + bs[8..12];
    assert bs == bs[..12] + bs[12..16];
  }

  /** Decoding the bytes of a well-formed record gives the record back. */
  lemma {:induction false} DecodeEncode(m: MasterBootRecord)
    requires WellFormed(m)
    ensures Decode(Encode(m)) == m
  {
    Pow256Widths();
    var buf := Encode(m);
    var es := m.entries;
    var table := EncodeTable(es);
    RecordSlices(m.bootstrap, m.diskId, table, LeBytes(m.signature, 2));
    LeUintOfLeBytes(m.signature, 2);
    EntryAtTable(buf, es, 0);
    EntryAtTable(buf, es, 1);
    EntryAtTable(buf, es, 2);
    EntryAtTable(buf, es, 3);
    assert Decode(buf).entries == es;
  }

  /** The four parts of a record's bytes are where the layout puts them. */
  lemma RecordSlices(boot: seq<u8>, id: seq<u8>, table: seq<u8>, sig: seq<u8>)
    requires |boot| == DISK_ID_OFFSET && |id| == ENTRIES_OFFSET - DISK_ID_OFFSET
    requires |table| == SIGNATURE_OFFSET - ENTRIES_OFFSET && |sig| == 2
    ensures var buf := boot + id + table + sig;
      buf[..DISK_ID_OFFSET] == boot && buf[DISK_ID_OFFSET..ENTRIES_OFFSET] == id &&
      buf[ENTRIES_OFFSET..SIGNATURE_OFFSET] == table && buf[SIGNATURE_OFFSET..] == sig
  {
  }

  /** A slice of a slice is a slice of the whole. */
  lemma SubSlice<T>(s: seq<T>, a: nat, b: nat, i: nat, j: nat)
    requires a <= b <= |s| && i <= j <= b - a
    ensures s[a..b][i..j] == s[a + i..a + j]
  {
    var x, y := s[a..b][i..j], s[a + i..a + j];
    assert |x| == |y|;
    forall k | 0 <= k < |x| ensures x[k] == y[k] {
      assert x[k] == s[a..b][i + k];
    }
  }

  /** In a sector whose table bytes encode `es`, entry `i` decodes to `es[i]`. */
  lemma EntryAtTable(buf: seq<u8>, es: seq<PartitionEntry>, i: nat)
    requires |buf| == MBR_SIZE && |es| == ENTRY_COUNT && i < ENTRY_COUNT
    requires buf[ENTRIES_OFFSET..SIGNATURE_OFFSET] == EncodeTable(es)
    ensures EntryAt(buf, i) == es[i]
  {
    SubSlice(buf, ENTRIES_OFFSET, SIGNATURE_OFFSET, ENTRY_SIZE * i, ENTRY_SIZE * (i + 1));
    TableSlice(es, i);
    EntryRoundTrip(es[i]);
  }

  /** The decoded entries, encoded again, are the partition table's bytes. */
  lemma TableRoundTrip(buf: seq<u8>)
    requires |buf| == MBR_SIZE
    ensures EncodeTable([EntryAt(buf, 0), EntryAt(buf, 1), EntryAt(buf, 2), EntryAt(buf, 3)]) == buf[ENTRIES_OFFSET..SIGNATURE_OFFSET]
  {
    EntryBytesRoundTrip(buf[446..462]);
    EntryBytesRoundTrip(buf[462..478]);
    EntryBytesRoundTrip(buf[478..494]);
    EntryBytesRoundTrip(buf[494..510]);
    FourSlices(buf, ENTRIES_OFFSET);
  }

  /** Encoding the decoded record gives back every byte of the sector. */
  lemma {:induction false} EncodeDecode(buf: seq<u8>)
    requires |buf| == MBR_SIZE
    ensures Encode(Decode(buf)) == buf
  {
    Pow256Widths();
    var m := Decode(buf);
    LeBytesOfLeUint(buf[SIGNATURE_OFFSET..]);
    TableRoundTrip(buf);
    assert m.bootstrap == buf[..DISK_ID_OFFSET] && m.diskId == buf[DISK_ID_OFFSET..ENTRIES_OFFSET];
    assert buf == buf[..DISK_ID_OFFSET] + buf[DISK_ID_OFFSET..ENTRIES_OFFSET] + buf[ENTRIES_OFFSET..SIGNATURE_OFFSET] + buf[SIGNATURE_OFFSET..];
  }

  datatype Error =
    | Io(cause: IoError)
    | UnknownBootIndicator(index: u8)
    | BadSignature

  /** The per-entry test as written: it rejects a boot flag whose status is NOT unknown. */
  predicate RejectsKnownFlag(s: BootStatus)
  {
    !s.Unknown?
  }

  /** The per-entry test the documentation describes: it rejects an unknown boot flag. */
  predicate RejectsUnknownFlag(s: BootStatus)
  {
    s.Unknown?
  }

  /** The index of the first entry whose boot status `rejects`, if there is one. */
  function FirstRejected(entries: seq<PartitionEntry>, rejects: BootStatus -> bool): (r: Option<nat>)
    ensures r.Some? ==> r.value < |entries| && rejects(BootStatusOf(entries[r.value].bootFlag))
    ensures r.Some? ==> forall j :: 0 <= j < r.value ==> !rejects(BootStatusOf(entries[j].bootFlag))
    ensures r.None? ==> forall j :: 0 <= j < |entries| ==> !rejects(BootStatusOf(entries[j].bootFlag))
  {
    if entries == [] then None
    else if rejects(BootStatusOf(entries[0].bootFlag)) then Some(0)
    else
      match FirstRejected(entries[1..], rejects)
      case None => None
      case Some(i) => Some(i + 1)
  }

  /**
   * The checks `from` makes on a decoded record: the signature first, then
   * each entry in order with the per-entry test `rejects`.
   */
  function CheckRecord(m: MasterBootRecord, rejects: BootStatus -> bool): (r: Result<MasterBootRecord, Error>)
    requires WellFormed(m)
    ensures !ReadSignature(m) ==> r == Err(BadSignature)
    ensures r.Ok? <==> ReadSignature(m) && forall j :: 0 <= j < ENTRY_COUNT ==> !rejects(BootStatusOf(m.entries[j].bootFlag))
    ensures r.Ok? ==> r.value == m
    ensures forall i: nat :: i < ENTRY_COUNT ==>
              (r == Err(UnknownBootIndicator(i)) <==>
                 ReadSignature(m) && rejects(BootStatusOf(m.entries[i].bootFlag)) &&
                 forall j :: 0 <= j < i ==> !rejects(BootStatusOf(m.entries[j].bootFlag)))
    ensures r.Err? ==> r.error == BadSignature || r.error.UnknownBootIndicator?
  {
    if !ReadSignature(m) then Err(BadSignature)
    else
      match FirstRejected(m.entries, rejects)
      case Some(i) => Err(UnknownBootIndicator(i))
      case None => Ok(m)
  }

  /**
   * Reads sector 0 into a 512-byte buffer: a device error, or fewer than
   * 512 bytes, is an I/O error; otherwise the decoded record is checked.
   */
  function ReadRecord(d: Disk, rejects: BootStatus -> bool): (r: Result<MasterBootRecord, Error>)
    ensures r.Ok? ==> WellFormed(r.value)
    ensures BlockDevice.ReadSector(d, 0).Err? ==> r == Err(Io(BlockDevice.ReadSector(d, 0).error))
    ensures BlockDevice.ReadSector(d, 0).Ok? && |BlockDevice.ReadSector(d, 0).value| < MBR_SIZE ==>
              r == Err(Io(UnexpectedEof))
    ensures r.Ok? ==>
              && BlockDevice.ReadSector(d, 0).Ok?
              && |BlockDevice.ReadSector(d, 0).value| >= MBR_SIZE
              && Encode(r.value) == BlockDevice.ReadSector(d, 0).value[..MBR_SIZE]
    ensures BlockDevice.ReadSector(d, 0).Ok? && |BlockDevice.ReadSector(d, 0).value| >= MBR_SIZE ==>
              r == CheckRecord(Decode(BlockDevice.ReadSector(d, 0).value[..MBR_SIZE]), rejects)
  {
    match BlockDevice.ReadSector(d, 0)
    case Err(e) => Err(Io(e))
    case Ok(sector) =>
      if |sector| < MBR_SIZE then Err(Io(UnexpectedEof))
      else
        EncodeDecode(sector[..MBR_SIZE]);
        CheckRecord(Decode(sector[..MBR_SIZE]), rejects)
  }

  /**
   * `MasterBootRecord::from` as written: the entry loop returns
   * `UnknownBootIndicator(i)` for the first entry whose flag is 0x00 or 0x80.
   */
  method From(d: Disk) returns (r: Result<MasterBootRecord, Error>)
    ensures r == ReadRecord(d, RejectsKnownFlag)
  {
    var read := BlockDevice.ReadSector(d, 0);
    if read.Err? {
      return Err(Io(read.error));
    }
    var size := if |read.value| < MBR_SIZE then |read.value| else MBR_SIZE;
    if size != MBR_SIZE {
      return Err(Io(UnexpectedEof));
    }
    var mbr := Decode(read.value[..MBR_SIZE]);
    if !ReadSignature(mbr) {
      return Err(BadSignature);
    }
    for i := 0 to ENTRY_COUNT
      invariant forall j :: 0 <= j < i ==> !RejectsKnownFlag(BootStatusOf(mbr.entries[j].bootFlag))
    {
      if RejectsKnownFlag(BootStatusOf(mbr.entries[i].bootFlag)) {
        return Err(UnknownBootIndicator(i));
      }
    }
    return Ok(mbr);
  }

  /** An empty partition table with a valid signature: zeros, then 0x55 0xAA. */
  function BlankRecordSector(): (s: seq<u8>)
    ensures |s| == MBR_SIZE && s[SIGNATURE_OFFSET] == 0x55 && s[SIGNATURE_OFFSET + 1] == 0xAA
    ensures forall i :: 0 <= i < SIGNATURE_OFFSET ==> s[i] == 0
  {
    seq(SIGNATURE_OFFSET, _ => 0) + [0x55, 0xAA]
  }

  /**
   * As written, a standard record is refused: every flag of an empty
   * table is 0x00 (inactive), so entry 0 is reported as an unknown boot
   * indicator, while the documented test accepts the record.
   */
  lemma KnownFlagsRejectedAsWritten()
    ensures ReadRecord(Disk(512, [Some(BlankRecordSector())]), RejectsKnownFlag) == Err(UnknownBootIndicator(0))
    ensures ReadRecord(Disk(512, [Some(BlankRecordSector())]), RejectsUnknownFlag).Ok?
  {
    var s := BlankRecordSector();
    assert s[..MBR_SIZE] == s;
    var m := Decode(s);
    forall i | 0 <= i < ENTRY_COUNT
      ensures m.entries[i].bootFlag == 0
    {
      assert m.entries[i].bootFlag == s[ENTRIES_OFFSET + ENTRY_SIZE * i];
    }
  }

  /** As written, `from` accepts a record only if none of its four boot flags is 0x00 or 0x80. */
  lemma AcceptedAsWrittenOnlyWithUnknownFlags(d: Disk)
    requires ReadRecord(d, RejectsKnownFlag).Ok?
    ensures forall j :: 0 <= j < ENTRY_COUNT ==>
              var flag := ReadRecord(d, RejectsKnownFlag).value.entries[j].bootFlag;
              flag != 0x00 && flag != 0x80
  {
  }

  /**
   * With the documented test, reading succeeds exactly when sector 0 is a
   * full record with a valid signature and every boot flag 0x00 or 0x80.
   */
  lemma {:induction false} ReadIntended(d: Disk, sector: seq<u8>)
    requires BlockDevice.ReadSector(d, 0) == Ok(sector) && |sector| == MBR_SIZE
    ensures var m := Decode(sector);
            ReadRecord(d, RejectsUnknownFlag).Ok? <==>
              sector[SIGNATURE_OFFSET] == 0x55 && sector[SIGNATURE_OFFSET + 1] == 0xAA &&
              forall j :: 0 <= j < ENTRY_COUNT ==> m.entries[j].bootFlag in {0x00, 0x80}
    ensures ReadRecord(d, RejectsUnknownFlag).Ok? ==> Encode(ReadRecord(d, RejectsUnknownFlag).value) == sector
  {
    assert sector[..MBR_SIZE] == sector;
    EncodeDecode(sector);
  }
}
