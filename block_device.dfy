/**
 * The block device underneath the sector cache, seen as a value: a sector
 * size and a sequence of physical sectors. A sector that is absent (`None`)
 * or lies past the end of the medium fails to read, as a device does that
 * reports a fault or runs out of medium.
 */
module BlockDevice {
  import opened Results
  import opened Bytes

  /** The I/O error kinds the core produces or passes on. */
  datatype IoError =
    | Fault(sector: nat)   // the device could not read this physical sector
    | UnexpectedEof        // fewer bytes than a full sector came back
    | NotFound             // a cache lookup missed

  datatype Disk = Disk(sectorSize: nat, sectors: seq<Option<seq<u8>>>) {
    /** Every readable sector holds exactly `sectorSize` bytes. */
    ghost predicate Valid() {
      sectorSize > 0 &&
      forall n :: 0 <= n < |sectors| && sectors[n].Some? ==> |sectors[n].value| == sectorSize
    }
  }

  /** Reads one whole physical sector. */
  function ReadSector(d: Disk, n: nat): (r: Result<seq<u8>, IoError>)
    ensures r.Ok? <==> n < |d.sectors| && d.sectors[n].Some?
    ensures r.Err? ==> r.error == Fault(n)
    ensures d.Valid() && r.Ok? ==> |r.value| == d.sectorSize
  {
    if n < |d.sectors| && d.sectors[n].Some? then Ok(d.sectors[n].value) else Err(Fault(n))
  }

  /**
   * Reads physical sectors `p`, `p + 1`, ..., `p + n - 1` in order and
   * concatenates them; the first failing read ends the run with its error.
   */
  function ReadRun(d: Disk, p: nat, n: nat): Result<seq<u8>, IoError>
  {
    if n == 0 then Ok([])
    else
      match ReadRun(d, p, n - 1)
      case Err(e) => Err(e)
      case Ok(prefix) =>
        match ReadSector(d, p + n - 1)
        case Err(e) => Err(e)
        case Ok(s) => Ok(prefix + s)
  }

  /**
   * The physical sectors a run of `n` reads from `p` asks the device for:
   * each sector in order, up to and including the first that fails.
   */
  function Requested(d: Disk, p: nat, n: nat): seq<nat>
  {
    if n == 0 then []
    else if ReadRun(d, p, n - 1).Err? then Requested(d, p, n - 1)
    else Requested(d, p, n - 1) + [p + n - 1]
  }

  /** A run succeeds exactly when every sector in it can be read. */
  lemma {:induction false} ReadRunOk(d: Disk, p: nat, n: nat)
    ensures ReadRun(d, p, n).Ok? <==> forall q :: p <= q < p + n ==> ReadSector(d, q).Ok?
  {
    if n > 0 {
      ReadRunOk(d, p, n - 1);
    }
  }

  /** A successful run of `n` sectors holds `n` sectors' worth of bytes. */
  lemma {:induction false} ReadRunLength(d: Disk, p: nat, n: nat)
    requires d.Valid() && ReadRun(d, p, n).Ok?
    ensures |ReadRun(d, p, n).value| == n * d.sectorSize
  {
    if n > 0 {
      ReadRunLength(d, p, n - 1);
      assert n * d.sectorSize == (n - 1) * d.sectorSize + d.sectorSize;
    }
  }

  /** In a successful run, physical sector `p + k` sits at bytes `[k * size, k * size + size)`. */
  lemma {:induction false} ReadRunLayout(d: Disk, p: nat, n: nat, k: nat)
    requires d.Valid() && ReadRun(d, p, n).Ok? && k < n
    ensures ReadSector(d, p + k).Ok? && k * d.sectorSize + d.sectorSize <= |ReadRun(d, p, n).value|
    ensures ReadRun(d, p, n).value[k * d.sectorSize .. k * d.sectorSize + d.sectorSize] == ReadSector(d, p + k).value
  {
    var size := d.sectorSize;
    var prefix := ReadRun(d, p, n - 1).value;
    var s := ReadSector(d, p + n - 1).value;
    ReadRunLength(d, p, n - 1);
    assert |prefix| == (n - 1) * size;
    assert ReadRun(d, p, n).value == prefix + s;
    if k < n - 1 {
      ReadRunLayout(d, p, n - 1, k);
      assert k * size + size <= |prefix|;
      assert (prefix + s)[k * size .. k * size + size] == prefix[k * size .. k * size + size];
    } else {
      assert k * size == |prefix|;
    }
  }

  /** A successful run asks for exactly sectors `p .. p + n - 1`, in order. */
  lemma {:induction false} RequestedOnSuccess(d: Disk, p: nat, n: nat)
    requires ReadRun(d, p, n).Ok?
    ensures |Requested(d, p, n)| == n
    ensures forall k :: 0 <= k < n ==> Requested(d, p, n)[k] == p + k
  {
    if n > 0 {
      RequestedOnSuccess(d, p, n - 1);
    }
  }

  /** Once a run has failed, reading further sectors neither changes the error nor asks the device for more. */
  lemma {:induction false} FailurePersists(d: Disk, p: nat, m: nat, n: nat)
    requires m <= n && ReadRun(d, p, m).Err?
    ensures ReadRun(d, p, n) == ReadRun(d, p, m)
    ensures Requested(d, p, n) == Requested(d, p, m)
    decreases n - m
  {
    if m < n {
      FailurePersists(d, p, m, n - 1);
    }
  }
}
