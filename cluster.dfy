/**
 * FAT32 cluster numbers. Only the low 28 bits of a 32-bit cluster number
 * are significant; clusters 0 and 1 are reserved, so data clusters start at 2.
 */
module Clusters {
  import opened Bytes

  /** 2^28: one more than the largest cluster number. */
  const CLUSTER_LIMIT := 0x1000_0000

  datatype Cluster = Cluster(num: u32)

  /**
   * `Cluster::from`: clears the top four bits of the raw value
   * (`raw & !(0xF << 28)`), which for a 32-bit value is the remainder
   * modulo 2^28.
   */
  function From(raw: u32): (c: Cluster)
    ensures c.num < CLUSTER_LIMIT
    ensures raw < CLUSTER_LIMIT ==> c.num == raw
    ensures forall top: nat :: top < 16 ==> raw % CLUSTER_LIMIT + top * CLUSTER_LIMIT == raw ==> c.num + top * CLUSTER_LIMIT == raw
  {
    Cluster(raw % CLUSTER_LIMIT)
  }

  /** `Cluster::clus_num`: the stored number, unchanged. */
  function ClusNum(c: Cluster): (n: u32)
    ensures Cluster(n) == c
  {
    c.num
  }

  /** A cluster that can hold data: its number is at least 2. */
  predicate IsValid(c: Cluster)
  {
    c.num >= 2
  }

  /** `Cluster::index`: the position of a data cluster in the data region. */
  function Index(c: Cluster): (i: nat)
    requires IsValid(c)
    ensures i + 2 == c.num
  {
    c.num - 2
  }

  /** Building a cluster from its own number changes nothing. */
  lemma FromClusNum(c: Cluster)
    requires c.num < CLUSTER_LIMIT
    ensures From(ClusNum(c)) == c
  {
  }

  /** Raw values that differ only in their top four bits name the same cluster. */
  lemma FromIgnoresTopBits(raw: u32, top: nat)
    requires top < 16 && raw < CLUSTER_LIMIT
    ensures raw + top * CLUSTER_LIMIT < 0x1_0000_0000
    ensures From(raw + top * CLUSTER_LIMIT) == From(raw)
  {
  }

  /** Different valid clusters have different indices, each below 2^28 - 2. */
  lemma IndexInjective(a: Cluster, b: Cluster)
    requires IsValid(a) && IsValid(b) && a.num < CLUSTER_LIMIT && b.num < CLUSTER_LIMIT
    ensures Index(a) < CLUSTER_LIMIT - 2
    ensures Index(a) == Index(b) <==> a == b
  {
  }
}
