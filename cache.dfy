/**
 * The write-back sector cache that sits between the FAT32 driver and its
 * block device. It maps logical sector numbers of a partition to physical
 * sectors of the device, fills an entry from the device on the first access
 * to a logical sector, and never evicts or writes back an entry.
 */
module Cache {
  import opened Results
  import opened Bytes
  import opened BlockDevice
  import opened Arith

  /** One cached logical sector: its bytes, and whether they were handed out for writing. */
  datatype CacheEntry = CacheEntry(data: seq<u8>, dirty: bool)

  /**
   * A partition: the physical sector where it begins and the size in bytes
   * of one of its logical sectors.
   */
  datatype Partition = Partition(start: u64, sectorSize: u64)

  function Min(a: nat, b: nat): nat
  {
    if a < b then a else b
  }

  /**
   * The first physical sector of logical sector `virt` and the number of
   * physical sectors it spans, on a device whose sectors are
   * `deviceSectorSize` bytes long.
   */
  function VirtualToPhysical(deviceSectorSize: nat, partition: Partition, virt: nat): (r: (nat, nat))
    requires 0 < deviceSectorSize <= partition.sectorSize
    ensures 1 <= r.1 && r.1 * deviceSectorSize <= partition.sectorSize
    ensures deviceSectorSize == partition.sectorSize || virt < partition.start ==> r == (virt, 1)
    ensures virt >= partition.start ==> virt <= r.0
    ensures deviceSectorSize != partition.sectorSize && virt >= partition.start ==>
      r.1 * deviceSectorSize <= partition.sectorSize < (r.1 + 1) * deviceSectorSize
  {
    if deviceSectorSize == partition.sectorSize then
      (virt, 1)
    else if virt < partition.start then
      (virt, 1)
    else
      var factor := partition.sectorSize / deviceSectorSize;
      var logicalOffset := virt - partition.start;
      var physicalOffset := logicalOffset * factor;
      QuotientBounds(partition.sectorSize, deviceSectorSize);
      MulMono(1, factor, logicalOffset);
      (partition.start + physicalOffset, factor)
  }

  /**
   * When the logical sector size is a whole number of device sectors, a
   * logical sector inside the partition spans exactly its own bytes.
   */
  lemma LogicalSectorSpan(deviceSectorSize: nat, partition: Partition, virt: nat)
    requires 0 < deviceSectorSize <= partition.sectorSize
    requires partition.sectorSize % deviceSectorSize == 0 && virt >= partition.start
    ensures VirtualToPhysical(deviceSectorSize, partition, virt).1 * deviceSectorSize == partition.sectorSize
  {
  }

  /**
   * Logical sectors map to physical runs in the same order and without
   * overlap: the run of a lower logical sector ends at or before the run of
   * a higher one begins.
   */
  lemma PhysicalRunsOrdered(deviceSectorSize: nat, partition: Partition, v: nat, w: nat)
    requires 0 < deviceSectorSize <= partition.sectorSize && v < w
    ensures var rv := VirtualToPhysical(deviceSectorSize, partition, v);
            rv.0 + rv.1 <= VirtualToPhysical(deviceSectorSize, partition, w).0
  {
    if deviceSectorSize != partition.sectorSize && v >= partition.start {
      var factor := partition.sectorSize / deviceSectorSize;
      var a, b := v - partition.start, w - partition.start;
      MulMono(a + 1, b, factor);
      assert a * factor + factor == (a + 1) * factor;
    }
  }

  /**
   * Inside the partition the runs are laid end to end from its first
   * physical sector: the partition's first logical sector starts at
   * `partition.start`, and each next logical sector starts right where the
   * run of the one before it ends.
   */
  lemma {:induction false} PhysicalRunsContiguous(deviceSectorSize: nat, partition: Partition, v: nat)
    requires 0 < deviceSectorSize <= partition.sectorSize && v >= partition.start
    ensures VirtualToPhysical(deviceSectorSize, partition, partition.start).0 == partition.start
    ensures var rv := VirtualToPhysical(deviceSectorSize, partition, v);
            VirtualToPhysical(deviceSectorSize, partition, v + 1).0 == rv.0 + rv.1
  {
    if deviceSectorSize != partition.sectorSize {
      var factor := partition.sectorSize / deviceSectorSize;
      var a := v - partition.start;
      assert (a + 1) * factor == a * factor + factor;
    }
  }

  /** Two different logical sectors never share a physical sector. */
  lemma PhysicalRunsDisjoint(deviceSectorSize: nat, partition: Partition, v: nat, w: nat, q: nat)
    requires 0 < deviceSectorSize <= partition.sectorSize && v != w
    ensures var rv := VirtualToPhysical(deviceSectorSize, partition, v);
            var rw := VirtualToPhysical(deviceSectorSize, partition, w);
            !(rv.0 <= q < rv.0 + rv.1 && rw.0 <= q < rw.0 + rw.1)
  {
    if v < w {
      PhysicalRunsOrdered(deviceSectorSize, partition, v, w);
    } else {
      PhysicalRunsOrdered(deviceSectorSize, partition, w, v);
    }
  }

  /** The partition starting at 2048 with 4096-byte logical sectors on a 512-byte device. */
  lemma VirtualToPhysicalExamples()
    ensures VirtualToPhysical(512, Partition(2048, 512), 2048) == (2048, 1)
    ensures VirtualToPhysical(512, Partition(2048, 4096), 2048) == (2048, 8)
    ensures VirtualToPhysical(512, Partition(2048, 4096), 2049) == (2056, 8)
    ensures VirtualToPhysical(512, Partition(2048, 4096), 2047) == (2047, 1)
  {
  }

  class CachedDevice {
    const device: Disk
    const partition: Partition
    var cache: map<nat, CacheEntry>
    /** Every physical sector requested from the device so far, in request order. */
    ghost var deviceReads: seq<nat>
    /** Every logical sector filled from the device so far, in fill order. */
    ghost var filled: seq<nat>

    /** Physical run of logical sector `n`. */
    function Physical(n: nat): (nat, nat)
      requires 0 < device.sectorSize <= partition.sectorSize
    {
      VirtualToPhysical(device.sectorSize, partition, n)
    }

    /** Logical sector `n` as the device holds it. */
    ghost function Fetch(n: nat): Result<seq<u8>, IoError>
      requires 0 < device.sectorSize <= partition.sectorSize
    {
      ReadRun(device, Physical(n).0, Physical(n).1)
    }

    /** The physical sectors that filling logical sector `n` asks the device for. */
    ghost function FetchRequests(n: nat): seq<nat>
      requires 0 < device.sectorSize <= partition.sectorSize
    {
      Requested(device, Physical(n).0, Physical(n).1)
    }

    /**
     * The cache map `m` after making sure logical sector `n` is present: a
     * hit or a failed read leaves `m` as it is; a successful read adds one
     * clean entry keyed by `n`.
     */
    ghost function Loaded(m: map<nat, CacheEntry>, n: nat): (m': map<nat, CacheEntry>)
      requires 0 < device.sectorSize <= partition.sectorSize
      ensures m'.Keys == if n in m || Fetch(n).Err? then m.Keys else m.Keys + {n}
      ensures forall k :: k in m ==> k in m' && m'[k] == m[k]
      ensures n in m' && n !in m ==> m'[n] == CacheEntry(Fetch(n).value, false)
    {
      if n in m || Fetch(n).Err? then m else m[n := CacheEntry(Fetch(n).value, false)]
    }

    /**
     * Filling is idempotent and only ever adds: a second fill of the same
     * sector changes nothing, and `n` is present afterwards exactly when it
     * was cached already or the device can read it.
     */
    lemma LoadedIdempotent(m: map<nat, CacheEntry>, n: nat)
      requires 0 < device.sectorSize <= partition.sectorSize
      ensures Loaded(Loaded(m, n), n) == Loaded(m, n)
      ensures n in Loaded(m, n) <==> n in m || Fetch(n).Ok?
      ensures m.Keys <= Loaded(m, n).Keys
    {
    }

    /**
     * Entry `e` is a faithful copy of logical sector `n`: the device can
     * read `n`, `e` has the same length, and a clean entry holds the same bytes.
     */
    ghost predicate Holds(n: nat, e: CacheEntry)
      requires 0 < device.sectorSize <= partition.sectorSize
    {
      Fetch(n).Ok? && |e.data| == |Fetch(n).value| && (!e.dirty ==> e.data == Fetch(n).value)
    }

    ghost predicate Valid()
      reads this
    {
      device.Valid() && device.sectorSize <= partition.sectorSize &&
      (forall n :: n in cache ==> Holds(n, cache[n])) &&
      (forall n :: n in cache <==> n in filled) &&
      (forall i, j :: 0 <= i < j < |filled| ==> filled[i] != filled[j])
    }

    constructor(device: Disk, partition: Partition)
      requires device.Valid() && partition.sectorSize >= device.sectorSize
      ensures Valid() && this.device == device && this.partition == partition
      ensures cache == map[] && deviceReads == [] && filled == []
    {
      this.device := device;
      this.partition := partition;
      cache := map[];
      deviceReads := [];
      filled := [];
    }

    /** The logical sector size; never smaller than the device's. */
    function SectorSize(): (r: nat)
      reads this
      requires Valid()
      ensures r >= device.sectorSize && r == partition.sectorSize
    {
      partition.sectorSize
    }

    /** A logical sector that fills successfully holds `factor` device sectors' worth of bytes. */
    lemma FetchLength(n: nat)
      requires device.Valid() && device.sectorSize <= partition.sectorSize && Fetch(n).Ok?
      ensures |Fetch(n).value| == Physical(n).1 * device.sectorSize
      ensures n < partition.start || device.sectorSize == partition.sectorSize ==> |Fetch(n).value| == device.sectorSize
    {
      ReadRunLength(device, Physical(n).0, Physical(n).1);
    }

    /**
     * Fills logical sector `sector` from the device unless it is cached:
     * reads its physical sectors in order, concatenated, and inserts one
     * clean entry. A read error is returned before anything is inserted.
     */
    method LoadCache(sector: nat) returns (r: Result<(), IoError>)
      requires Valid()
      modifies this
      ensures Valid()
      ensures cache == Loaded(old(cache), sector)
      ensures sector in old(cache) ==> r == Ok(()) && deviceReads == old(deviceReads) && filled == old(filled)
      ensures sector !in old(cache) ==> deviceReads == old(deviceReads) + FetchRequests(sector)
      ensures sector !in old(cache) ==>
                if Fetch(sector).Ok? then r == Ok(()) && filled == old(filled) + [sector]
                else r == Err(Fetch(sector).error) && filled == old(filled)
    {
      if sector in cache {
        return Ok(());
      }
      var (p, factor) := Physical(sector);
      var buf: seq<u8> := [];
      for i := 0 to factor
        invariant ReadRun(device, p, i) == Ok(buf)
        invariant deviceReads == old(deviceReads) + Requested(device, p, i)
        invariant cache == old(cache) && filled == old(filled)
      {
        var s := BlockDevice.ReadSector(device, p + i);
        deviceReads := deviceReads + [p + i];
        if s.Err? {
          FailurePersists(device, p, i + 1, factor);
          assert Fetch(sector) == Err(s.error) && FetchRequests(sector) == Requested(device, p, i + 1);
          return Err(s.error);
        }
        buf := buf + s.value;
      }
      assert Fetch(sector) == Ok(buf) && FetchRequests(sector) == Requested(device, p, factor);
      cache := cache[sector := CacheEntry(buf, false)];
      filled := filled + [sector];
      assert Holds(sector, cache[sector]);
      r := Ok(());
    }

    /**
     * The bytes of logical sector `sector`, filling it from the device on a
     * miss. No entry already cached changes.
     */
    method Get(sector: nat) returns (r: Result<seq<u8>, IoError>)
      requires Valid()
      modifies this
      ensures Valid()
      ensures cache == Loaded(old(cache), sector)
      ensures r == if sector in cache then Ok(cache[sector].data) else Err(Fetch(sector).error)
      ensures sector in old(cache) ==> deviceReads == old(deviceReads)
      ensures sector !in old(cache) ==> deviceReads == old(deviceReads) + FetchRequests(sector)
    {
      var loaded := LoadCache(sector);
      if loaded.Err? {
        return Err(loaded.error);
      }
      r := Ok(cache[sector].data);
    }

    /**
     * Like `Get`, and marks entry `sector` dirty, since the caller is
     * presumed to write to it. No other entry changes.
     */
    method GetMut(sector: nat) returns (r: Result<seq<u8>, IoError>)
      requires Valid()
      modifies this
      ensures Valid()
      ensures var m := Loaded(old(cache), sector);
              if sector in m then r == Ok(m[sector].data) && cache == m[sector := m[sector].(dirty := true)]
              else r == Err(Fetch(sector).error) && cache == m
      ensures sector in old(cache) ==> deviceReads == old(deviceReads)
      ensures sector !in old(cache) ==> deviceReads == old(deviceReads) + FetchRequests(sector)
    {
      var loaded := LoadCache(sector);
      if loaded.Err? {
        return Err(loaded.error);
      }
      var entry := cache[sector];
      cache := cache[sector := entry.(dirty := true)];
      r := Ok(entry.data);
    }

    /**
     * `read_sector` of the cached device: copies as much of cached logical
     * sector `n` as fits into `buf` and returns the number of bytes copied.
     */
    method ReadSector(n: nat, buf: array<u8>) returns (r: Result<nat, IoError>)
      requires Valid()
      modifies this, buf
      ensures Valid()
      ensures cache == Loaded(old(cache), n)
      ensures r.Ok? <==> n in cache
      ensures r.Ok? ==> r.value == Min(|cache[n].data|, buf.Length) &&
                        buf[..r.value] == cache[n].data[..r.value] &&
                        buf[r.value..] == old(buf[r.value..])
      ensures r.Err? ==> r.error == Fetch(n).error && buf[..] == old(buf[..])
      ensures n in old(cache) ==> deviceReads == old(deviceReads)
      ensures n !in old(cache) ==> deviceReads == old(deviceReads) + FetchRequests(n)
    {
      var got := Get(n);
      if got.Err? {
        return Err(got.error);
      }
      var data := got.value;
      var count := Min(|data|, buf.Length);
      for i := 0 to count
        modifies buf
        invariant forall k :: 0 <= k < i ==> buf[k] == data[k]
        invariant forall k :: i <= k < buf.Length ==> buf[k] == old(buf[k])
      {
        buf[i] := data[i];
      }
      assert buf[..count] == data[..count];
      assert buf[count..] == old(buf[count..]);
      r := Ok(count);
    }

    /**
     * `write_sector` of the cached device: overwrites the start of cached
     * logical sector `n` with as much of `buf` as fits, marks it dirty and
     * returns the number of bytes written. The device itself is not written.
     */
    method WriteSector(n: nat, buf: seq<u8>) returns (r: Result<nat, IoError>)
      requires Valid()
      modifies this
      ensures Valid()
      ensures var m := Loaded(old(cache), n);
              if n in m then
                var count := Min(|buf|, |m[n].data|);
                r == Ok(count) && cache == m[n := CacheEntry(buf[..count] + m[n].data[count..], true)]
              else r == Err(Fetch(n).error) && cache == m
      ensures n in old(cache) ==> deviceReads == old(deviceReads)
      ensures n !in old(cache) ==> deviceReads == old(deviceReads) + FetchRequests(n)
    {
      ghost var m := Loaded(cache, n);
      var got := GetMut(n);
      if got.Err? {
        return Err(got.error);
      }
      var count := Overwrite(n, buf, m);
      r := Ok(count);
    }

    /**
     * Writes the start of sector `n` from `buf`, where the cache is `base`
     * with entry `n` marked dirty.
     */
    method Overwrite(n: nat, buf: seq<u8>, ghost base: map<nat, CacheEntry>) returns (count: nat)
      requires Valid() && n in base && cache == base[n := base[n].(dirty := true)]
      modifies this
      ensures Valid()
      ensures count == Min(|buf|, |base[n].data|)
      ensures cache == base[n := CacheEntry(buf[..count] + base[n].data[count..], true)]
      ensures deviceReads == old(deviceReads)
    {
      var data := cache[n].data;
      count := Min(|buf|, |data|);
      var entry := CacheEntry(buf[..count] + data[count..], true);
      assert Holds(n, entry) by { assert Holds(n, cache[n]); }
      cache := cache[n := entry];
      assert cache == base[n := entry];
    }
  }

  /** Bytes `[0, 512)` of a disk image, with `first` at offset 0 and zeros elsewhere. */
  function ImageSector(first: u8): (s: seq<u8>)
    ensures |s| == 512 && s[0] == first
  {
    [first] + seq(511, _ => 0)
  }

  /** A 1024-byte in-memory image: two 512-byte sectors, starting with 255 and 1. */
  function TwoSectorImage(): (d: Disk)
    ensures d.Valid() && |d.sectors| == 2
  {
    Disk(512, [Some(ImageSector(255)), Some(ImageSector(1))])
  }

  /** The image's sectors, each read on its own; sector 3 lies past its end. */
  lemma TwoSectorReads()
    ensures ReadRun(TwoSectorImage(), 0, 1) == Ok(ImageSector(255))
    ensures ReadRun(TwoSectorImage(), 1, 1) == Ok(ImageSector(1))
    ensures ReadRun(TwoSectorImage(), 3, 1).Err?
  {
    var d := TwoSectorImage();
    assert ReadRun(d, 0, 1) == Ok([] + ImageSector(255));
    assert [] + ImageSector(255) == ImageSector(255);
    assert ReadRun(d, 1, 1) == Ok([] + ImageSector(1));
    assert [] + ImageSector(1) == ImageSector(1);
  }

  /** Reads through the cache see the device's bytes, sector by sector. */
  method ReadScenario()
  {
    var cache := new CachedDevice(TwoSectorImage(), Partition(0, 512));
    var sector := new u8[512](_ => 0);
    TwoSectorReads();
    assert cache.Physical(0) == (0, 1);
    assert cache.Fetch(0) == Ok(ImageSector(255));
    var r := cache.ReadSector(0, sector);
    assert cache.cache[0].data == ImageSector(255);
    assert r == Ok(512);
    assert sector[..512][0] == sector[0] == 255;
    ReadSecondSector(cache, sector);
  }

  /** The second half of the read scenario: sector 1, not yet cached, starts with 1. */
  method ReadSecondSector(cache: CachedDevice, sector: array<u8>)
    requires cache.Valid() && cache.device == TwoSectorImage() && cache.partition == Partition(0, 512)
    requires 1 !in cache.cache && sector.Length == 512
    modifies cache, sector
  {
    TwoSectorReads();
    assert cache.Physical(1) == (1, 1);
    var r := cache.ReadSector(1, sector);
    assert r == Ok(512) && sector[0] == 1;
  }

  /** A read of a sector past the end of the device fails and caches nothing. */
  method ReadPastEndScenario()
  {
    var cache := new CachedDevice(TwoSectorImage(), Partition(0, 512));
    var sector := new u8[512](_ => 0);
    TwoSectorReads();
    assert cache.Physical(3) == (3, 1);
    var r := cache.ReadSector(3, sector);
    assert r.Err? && cache.cache == map[];
  }

  /** A write through the cache is what a later read of the same sector sees. */
  method WriteThenReadScenario()
  {
    var cache := new CachedDevice(TwoSectorImage(), Partition(0, 512));
    TwoSectorReads();
    assert cache.Physical(0) == (0, 1);
    var w := cache.WriteSector(0, ImageSector(1));
    assert w == Ok(512);
    ReadBack(cache);
  }

  /** The second half of the write scenario: reading the written sector back. */
  method ReadBack(cache: CachedDevice)
    requires cache.Valid() && 0 in cache.cache && |cache.cache[0].data| == 512 && cache.cache[0].data[0] == 1
    modifies cache
  {
    var read := new u8[512](_ => 0);
    var r := cache.ReadSector(0, read);
    assert r == Ok(512) && read[0] == 1;
  }
}
