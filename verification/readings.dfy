/**
  One reading of the host, as `get_info` returns it. The operating-system
  calls (CPU, memory, network counters, partitions, battery sensor,
  host-name lookup) are inputs: `RawReading` holds what they returned.
 */
module Readings {
  import opened Wrappers
  import OrderedMap

  type Device = string

  /** Disk usage keyed by device, in the dict's insertion order. */
  type DiskMap = seq<(Device, real)>

  /** A mounted partition and the usage percent reported for its mount point. */
  datatype Partition = Partition(device: Device, usage: real)

  /** The battery sensor's report; only its percent is read. */
  datatype BatterySensor = BatterySensor(percent: real)

  datatype RawReading = RawReading(
    cpu: real,
    ram: real,
    bytesSent: nat,
    bytesRecv: nat,
    partitions: seq<Partition>,
    battery: Option<BatterySensor>,
    ip: string)

  /** The tuple `(cpu, ram, net, disk, battery, ip)` one tick works on. */
  datatype Sample = Sample(
    cpu: real,
    ram: real,
    net: real,
    disk: DiskMap,
    battery: Option<real>,
    ip: string)

  /** Bytes in a mebibyte: the counters are divided by 1024 twice. */
  const BYTES_PER_MB: real := 1048576.0

  function DiskPairs(ps: seq<Partition>): (pairs: DiskMap)
    ensures |pairs| == |ps|
    ensures forall i :: 0 <= i < |ps| ==> pairs[i] == (ps[i].device, ps[i].usage)
  {
    seq(|ps|, i requires 0 <= i < |ps| => (ps[i].device, ps[i].usage))
  }

  /**
    `get_info`: network is total bytes sent and received, in MB; the disk
    map is a dict keyed by device over all partitions; battery is absent
    exactly when no sensor is reported.
   */
  function GetInfo(raw: RawReading): (s: Sample)
    ensures s.cpu == raw.cpu && s.ram == raw.ram && s.ip == raw.ip
    ensures s.net * BYTES_PER_MB == (raw.bytesSent + raw.bytesRecv) as real
    ensures s.net >= 0.0
    ensures s.battery.None? <==> raw.battery.None?
    ensures raw.battery.Some? ==> s.battery == Some(raw.battery.value.percent)
    ensures OrderedMap.DistinctKeys(s.disk)
  {
    Sample(
      raw.cpu,
      raw.ram,
      (raw.bytesSent + raw.bytesRecv) as real / BYTES_PER_MB,
      OrderedMap.FromPairs(DiskPairs(raw.partitions)),
      match raw.battery
      case Some(b) => Some(b.percent)
      case None => None,
      raw.ip)
  }

  /**
    The disk map of a reading: every partition's device has an entry, every
    entry's device is a partition's, each entry carries the usage of the
    last partition on that device, and when no device repeats the map lists
    the partitions in order.
   */
  lemma GetInfoDisk(raw: RawReading)
    ensures forall i :: 0 <= i < |raw.partitions| ==> raw.partitions[i].device in OrderedMap.Keys(GetInfo(raw).disk)
    ensures forall i :: 0 <= i < |GetInfo(raw).disk| ==> GetInfo(raw).disk[i].0 in OrderedMap.Keys(DiskPairs(raw.partitions))
    ensures forall i :: 0 <= i < |GetInfo(raw).disk| ==>
      OrderedMap.LastValue(DiskPairs(raw.partitions), GetInfo(raw).disk[i].0) == Some(GetInfo(raw).disk[i].1)
    ensures OrderedMap.DistinctKeys(DiskPairs(raw.partitions)) ==> GetInfo(raw).disk == DiskPairs(raw.partitions)
  {
    var pairs := DiskPairs(raw.partitions);
    OrderedMap.FromPairsKeys(pairs);
    OrderedMap.FromPairsLastValue(pairs);
    if OrderedMap.DistinctKeys(pairs) {
      OrderedMap.FromPairsOfDistinct(pairs);
    }
    forall i | 0 <= i < |raw.partitions| ensures raw.partitions[i].device in OrderedMap.Keys(GetInfo(raw).disk) {
      assert pairs[i].0 == raw.partitions[i].device;
    }
  }
}
