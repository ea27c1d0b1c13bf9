/**
 * FAT32 table entries: a 32-bit value whose low 28 bits classify the
 * cluster it belongs to (free, reserved, linked to a next cluster, bad, or
 * last in its chain). The top four bits are reserved and ignored.
 */
module Fat {
  import opened Bytes
  import opened Clusters

  datatype Status =
    | Free               // an unused cluster
    | Reserved           // a reserved cluster
    | Data(next: Cluster)  // a data cluster; `next` is the following cluster of the chain
    | Bad                // a cluster the disk marked as failed
    | Eoc(marker: u32)   // a data cluster, the last of its chain

  datatype FatEntry = FatEntry(raw: u32)

  /** The significant 28 bits of an entry (`raw & 0x0FFF_FFFF`). */
  function Masked(e: FatEntry): (v: nat)
    ensures v < CLUSTER_LIMIT
  {
    e.raw % CLUSTER_LIMIT
  }

  /** `FatEntry::status`: classifies the masked value by range. */
  function StatusOf(e: FatEntry): (s: Status)
    ensures s == Free <==> Masked(e) == 0
    ensures s == Reserved <==> Masked(e) == 1 || Masked(e) == 0x0FFF_FFF6
    ensures s.Data? <==> 2 <= Masked(e) <= 0x0FFF_FFF5 && Masked(e) != 0x0FFF_FFF6
    ensures s.Data? ==> IsValid(s.next) && ClusNum(s.next) == Masked(e)
    ensures s == Bad <==> Masked(e) == 0x0FFF_FFF7
    ensures s.Eoc? <==> 0x0FFF_FFF8 <= Masked(e)
    ensures s.Eoc? ==> s.marker == Masked(e)
  {
    var v := Masked(e);
    if v == 0 then Free
    else if v == 1 then Reserved
    else if 2 <= v <= 0x0FFF_FFEF then Data(From(v))
    else if 0x0FFF_FFF0 <= v <= 0x0FFF_FFF5 then Data(From(v))
    else if v == 0x0FFF_FFF6 then Reserved
    else if v == 0x0FFF_FFF7 then Bad
    else if 0x0FFF_FFF8 <= v <= 0xFFFF_FFFF then Eoc(v)
    else assert false; Free
  }

  /** The status depends only on the low 28 bits: the top four bits never matter. */
  lemma StatusIgnoresTopBits(a: FatEntry, b: FatEntry)
    requires a.raw % CLUSTER_LIMIT == b.raw % CLUSTER_LIMIT
    ensures StatusOf(a) == StatusOf(b)
  {
  }

  /** An entry whose status is `Data(c)` stores `c` itself: rebuilding the entry from `c` gives the same status. */
  lemma DataRoundTrip(e: FatEntry)
    requires StatusOf(e).Data?
    ensures StatusOf(FatEntry(ClusNum(StatusOf(e).next))) == StatusOf(e)
  {
  }

  /** Sample entries: zero is free, 0x0FFFFFFF ends a chain, 5 links to cluster 5, 0x0FFFFFF7 is bad. */
  lemma StatusExamples()
    ensures StatusOf(FatEntry(0x0000_0000)) == Free
    ensures StatusOf(FatEntry(0x0FFF_FFFF)) == Eoc(0x0FFF_FFFF)
    ensures StatusOf(FatEntry(0x0000_0005)) == Data(Cluster(5))
    ensures StatusOf(FatEntry(0x0FFF_FFF7)) == Bad
    ensures StatusOf(FatEntry(0xF000_0000)) == Free
    ensures StatusOf(FatEntry(0xFFFF_FFF8)) == Eoc(0x0FFF_FFF8)
  {
  }
}
