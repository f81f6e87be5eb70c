/**
  `check_alerts`: the fixed rule table. CPU, RAM and network are compared
  with the threshold table; every disk with the separate hard-coded 90 %
  cutoff. All comparisons are strict. Alerts come out CPU, RAM, network,
  then one per full disk in disk-map order.
 */
module Alerts {
  import opened Text
  import opened Readings
  import OrderedMap

  datatype Thresholds = Thresholds(cpu: real, ram: real, network: real)

  /** The module-level table; the network entry is compared with MB, not MB/s. */
  const THRESHOLDS: Thresholds := Thresholds(90.0, 85.0, 90.0)

  /** The disk cutoff is written into the rule itself, not taken from the table. */
  const DISK_FULL: real := 90.0

  datatype Alert =
    | HighCpu(value: real)
    | HighRam(value: real)
    | HighNetwork(value: real)
    | DiskFull(device: Device, value: real)

  /** Position of an alert's kind in the output order. */
  function Rank(a: Alert): nat {
    match a
    case HighCpu(_) => 0
    case HighRam(_) => 1
    case HighNetwork(_) => 2
    case DiskFull(_, _) => 3
  }

  function Flag(b: bool): nat {
    if b then 1 else 0
  }

  /** How many disks are over the cutoff. */
  function CountFull(disk: DiskMap): nat {
    if |disk| == 0 then 0 else Flag(disk[0].1 > DISK_FULL) + CountFull(disk[1..])
  }

  /** The comprehension over `disk.items()`: one alert per disk over the cutoff. */
  function DiskAlerts(disk: DiskMap): (r: seq<Alert>)
    ensures |r| == CountFull(disk)
    ensures forall j :: 0 <= j < |r| ==> r[j].DiskFull?
  {
    if |disk| == 0 then []
    else (if disk[0].1 > DISK_FULL then [DiskFull(disk[0].0, disk[0].1)] else []) + DiskAlerts(disk[1..])
  }

  /** Alerts whose disk alerts all name an entry of `disk` that is over the cutoff. */
  predicate NamesFullEntries(r: seq<Alert>, disk: DiskMap) {
    forall j :: 0 <= j < |r| && r[j].DiskFull? ==> (r[j].device, r[j].value) in disk && r[j].value > DISK_FULL
  }

  lemma {:induction false} DiskAlertsNameFullEntries(disk: DiskMap)
    ensures NamesFullEntries(DiskAlerts(disk), disk)
    decreases |disk|
  {
    if |disk| > 0 {
      var tail := disk[1..];
      var rest := DiskAlerts(tail);
      DiskAlertsNameFullEntries(tail);
      var head := if disk[0].1 > DISK_FULL then [DiskFull(disk[0].0, disk[0].1)] else [];
      var r := DiskAlerts(disk);
      assert r == head + rest;
      forall j | 0 <= j < |r| && r[j].DiskFull? ensures (r[j].device, r[j].value) in disk && r[j].value > DISK_FULL {
        if j < |head| {
          assert r[j] == DiskFull(disk[0].0, disk[0].1);
          assert disk[0] == (r[j].device, r[j].value);
        } else {
          assert r[j] == rest[j - |head|];
          var i :| 0 <= i < |tail| && tail[i] == (r[j].device, r[j].value);
          assert disk[i + 1] == tail[i];
        }
      }
    }
  }

  lemma {:induction false} FullEntriesHaveDiskAlerts(disk: DiskMap)
    ensures forall i :: 0 <= i < |disk| && disk[i].1 > DISK_FULL ==> DiskFull(disk[i].0, disk[i].1) in DiskAlerts(disk)
    decreases |disk|
  {
    if |disk| > 0 {
      var tail := disk[1..];
      var rest := DiskAlerts(tail);
      FullEntriesHaveDiskAlerts(tail);
      var head := if disk[0].1 > DISK_FULL then [DiskFull(disk[0].0, disk[0].1)] else [];
      var r := DiskAlerts(disk);
      assert r == head + rest;
      forall i | 0 <= i < |disk| && disk[i].1 > DISK_FULL ensures DiskFull(disk[i].0, disk[i].1) in r {
        if i == 0 {
          assert r[0] == DiskFull(disk[0].0, disk[0].1);
        } else {
          assert disk[i] == tail[i - 1];
          var j :| 0 <= j < |rest| && rest[j] == DiskFull(disk[i].0, disk[i].1);
          assert r[j + |head|] == rest[j];
        }
      }
    }
  }

  /** The three scalar rules, in table order. */
  function ScalarAlerts(cpu: real, ram: real, net: real): (s: seq<Alert>)
    ensures |s| == Flag(cpu > 90.0) + Flag(ram > 85.0) + Flag(net > 90.0)
    ensures forall j :: 0 <= j < |s| ==> Rank(s[j]) < 3
    ensures forall j, k :: 0 <= j < k < |s| ==> Rank(s[j]) < Rank(s[k])
    ensures HighCpu(cpu) in s <==> cpu > 90.0
    ensures HighRam(ram) in s <==> ram > 85.0
    ensures HighNetwork(net) in s <==> net > 90.0
    ensures forall j :: 0 <= j < |s| && s[j].HighCpu? ==> s[j] == HighCpu(cpu)
    ensures forall j :: 0 <= j < |s| && s[j].HighRam? ==> s[j] == HighRam(ram)
    ensures forall j :: 0 <= j < |s| && s[j].HighNetwork? ==> s[j] == HighNetwork(net)
  {
    var c := if cpu > THRESHOLDS.cpu then [HighCpu(cpu)] else [];
    var m := if ram > THRESHOLDS.ram then [HighRam(ram)] else [];
    var n := if net > THRESHOLDS.network then [HighNetwork(net)] else [];
    c + m + n
  }

  /**
    `check_alerts(cpu, ram, net, disk)`. A CPU alert exists iff cpu > 90,
    a RAM alert iff ram > 85, a network alert iff net > 90, each at most once
    and carrying its reading; every disk alert names an entry over 90; kinds
    come in the order CPU, RAM, network, disk; and the count is the number
    of triggered rules. `EveryFullDiskAlerted` gives the converse for disks.
   */
  function CheckAlerts(cpu: real, ram: real, net: real, disk: DiskMap): (r: seq<Alert>)
    ensures HighCpu(cpu) in r <==> cpu > 90.0
    ensures HighRam(ram) in r <==> ram > 85.0
    ensures HighNetwork(net) in r <==> net > 90.0
    ensures forall j :: 0 <= j < |r| && r[j].HighCpu? ==> r[j] == HighCpu(cpu)
    ensures forall j :: 0 <= j < |r| && r[j].HighRam? ==> r[j] == HighRam(ram)
    ensures forall j :: 0 <= j < |r| && r[j].HighNetwork? ==> r[j] == HighNetwork(net)
    ensures forall j, k :: 0 <= j < k < |r| ==> Rank(r[j]) < Rank(r[k]) || (Rank(r[j]) == 3 && Rank(r[k]) == 3)
    ensures forall j :: 0 <= j < |r| && r[j].DiskFull? ==> (r[j].device, r[j].value) in disk && r[j].value > 90.0
    ensures |r| == Flag(cpu > 90.0) + Flag(ram > 85.0) + Flag(net > 90.0) + CountFull(disk)
  {
    var s := ScalarAlerts(cpu, ram, net);
    var d := DiskAlerts(disk);
    ScalarsThenDisks(cpu, ram, net, d);
    DisksAfterScalars(cpu, ram, net, d);
    DiskAlertsNameFullEntries(disk);
    ScalarsThenNamedDisks(s, d, disk);
    s + d
  }

  lemma ScalarsThenDisks(cpu: real, ram: real, net: real, d: seq<Alert>)
    requires forall j :: 0 <= j < |d| ==> d[j].DiskFull?
    ensures var r := ScalarAlerts(cpu, ram, net) + d;
      && (HighCpu(cpu) in r <==> cpu > 90.0)
      && (HighRam(ram) in r <==> ram > 85.0)
      && (HighNetwork(net) in r <==> net > 90.0)
      && (forall j :: 0 <= j < |r| && r[j].HighCpu? ==> r[j] == HighCpu(cpu))
      && (forall j :: 0 <= j < |r| && r[j].HighRam? ==> r[j] == HighRam(ram))
      && (forall j :: 0 <= j < |r| && r[j].HighNetwork? ==> r[j] == HighNetwork(net))
  {
    var s := ScalarAlerts(cpu, ram, net);
    var r := s + d;
    assert forall j :: 0 <= j < |s| ==> r[j] == s[j];
    assert forall j :: |s| <= j < |r| ==> r[j] == d[j - |s|];
    assert forall a :: a in r <==> a in s || a in d;
  }

  lemma DisksAfterScalars(cpu: real, ram: real, net: real, d: seq<Alert>)
    requires forall j :: 0 <= j < |d| ==> d[j].DiskFull?
    ensures var r := ScalarAlerts(cpu, ram, net) + d;
      forall j, k :: 0 <= j < k < |r| ==> Rank(r[j]) < Rank(r[k]) || (Rank(r[j]) == 3 && Rank(r[k]) == 3)
  {
    var s := ScalarAlerts(cpu, ram, net);
    var r := s + d;
    forall j, k | 0 <= j < k < |r| ensures Rank(r[j]) < Rank(r[k]) || (Rank(r[j]) == 3 && Rank(r[k]) == 3) {
      if k < |s| {
        assert r[j] == s[j] && r[k] == s[k];
      } else if j < |s| {
        assert r[j] == s[j] && r[k] == d[k - |s|];
      } else {
        assert r[j] == d[j - |s|] && r[k] == d[k - |s|];
      }
    }
  }

  lemma ScalarsThenNamedDisks(s: seq<Alert>, d: seq<Alert>, disk: DiskMap)
    requires forall j :: 0 <= j < |s| ==> !s[j].DiskFull?
    requires NamesFullEntries(d, disk)
    ensures NamesFullEntries(s + d, disk)
  {
    var r := s + d;
    assert forall j :: 0 <= j < |s| ==> r[j] == s[j];
    forall j | 0 <= j < |r| && r[j].DiskFull? ensures (r[j].device, r[j].value) in disk && r[j].value > DISK_FULL {
      assert r[j] == d[j - |s|];
    }
  }

  /** Every disk entry over 90 has its disk alert, carrying its device and value. */
  lemma EveryFullDiskAlerted(cpu: real, ram: real, net: real, disk: DiskMap)
    ensures forall i :: 0 <= i < |disk| && disk[i].1 > 90.0 ==> DiskFull(disk[i].0, disk[i].1) in CheckAlerts(cpu, ram, net, disk)
  {
    var s := ScalarAlerts(cpu, ram, net);
    var d := DiskAlerts(disk);
    var r := CheckAlerts(cpu, ram, net, disk);
    assert r == s + d;
    FullEntriesHaveDiskAlerts(disk);
    forall i | 0 <= i < |disk| && disk[i].1 > 90.0 ensures DiskFull(disk[i].0, disk[i].1) in r {
      var j :| 0 <= j < |d| && d[j] == DiskFull(disk[i].0, disk[i].1);
      assert r[j + |s|] == d[j];
    }
  }

  /** The device and value of every disk alert, in list order. */
  function FullDisks(r: seq<Alert>): DiskMap {
    if |r| == 0 then []
    else if r[0].DiskFull? then [(r[0].device, r[0].value)] + FullDisks(r[1..])
    else FullDisks(r[1..])
  }

  /** `a` is `b` with some elements left out, order kept. */
  predicate Subsequence<T(==)>(a: seq<T>, b: seq<T>)
    decreases |b|
  {
    if |a| == 0 then true
    else if |b| == 0 then false
    else if a[0] == b[0] then Subsequence(a[1..], b[1..])
    else Subsequence(a, b[1..])
  }

  lemma {:induction false} FullDisksOfDiskAlerts(disk: DiskMap)
    ensures Subsequence(FullDisks(DiskAlerts(disk)), disk)
    decreases |disk|
  {
    if |disk| > 0 {
      var rest := DiskAlerts(disk[1..]);
      FullDisksOfDiskAlerts(disk[1..]);
      if disk[0].1 > DISK_FULL {
        var r := DiskAlerts(disk);
        assert r == [DiskFull(disk[0].0, disk[0].1)] + rest;
        assert r[1..] == rest;
      } else {
        assert DiskAlerts(disk) == rest;
        SubsequenceDropHead(FullDisks(rest), disk);
      }
    }
  }

  /** A subsequence of the tail is a subsequence of the whole. */
  lemma {:induction false} SubsequenceDropHead<T>(a: seq<T>, b: seq<T>)
    requires |b| > 0
    requires Subsequence(a, b[1..])
    ensures Subsequence(a, b)
    decreases |b|, 0
  {
    if |a| > 0 && a[0] == b[0] {
      SubsequenceWeaken(a, b[1..]);
    }
  }

  /** Dropping the head of the shorter list keeps it a subsequence. */
  lemma {:induction false} SubsequenceWeaken<T>(a: seq<T>, b: seq<T>)
    requires |a| > 0
    requires Subsequence(a, b)
    ensures Subsequence(a[1..], b)
    decreases |b|, 1
  {
    if a[0] == b[0] {
      if |a[1..]| > 0 {
        SubsequenceWeaken(a[1..], b[1..]);
        SubsequenceDropHead(a[1..], b);
      }
    } else {
      SubsequenceWeaken(a, b[1..]);
      if |a[1..]| > 0 {
        SubsequenceDropHead(a[1..], b);
      }
    }
  }

  lemma {:induction false} FullDisksSkipScalars(s: seq<Alert>, d: seq<Alert>)
    requires forall j :: 0 <= j < |s| ==> !s[j].DiskFull?
    ensures FullDisks(s + d) == FullDisks(d)
    decreases |s|
  {
    if |s| == 0 {
      assert s + d == d;
    } else {
      assert (s + d)[1..] == s[1..] + d;
      FullDisksSkipScalars(s[1..], d);
    }
  }

  /** Disk alerts appear in disk-map order: their devices and values are a subsequence of the map. */
  lemma DiskAlertsInMapOrder(cpu: real, ram: real, net: real, disk: DiskMap)
    ensures Subsequence(FullDisks(CheckAlerts(cpu, ram, net, disk)), disk)
  {
    var s := ScalarAlerts(cpu, ram, net);
    FullDisksSkipScalars(s, DiskAlerts(disk));
    FullDisksOfDiskAlerts(disk);
  }

  lemma {:induction false} DiskAlertDevicesDistinct(disk: DiskMap)
    requires OrderedMap.DistinctKeys(disk)
    ensures DistinctDiskDevices(DiskAlerts(disk))
    decreases |disk|
  {
    if |disk| > 0 {
      var tail := disk[1..];
      assert OrderedMap.DistinctKeys(tail) by {
        forall i, j | 0 <= i < j < |tail| ensures tail[i].0 != tail[j].0 {
          assert tail[i] == disk[i + 1] && tail[j] == disk[j + 1];
        }
      }
      var rest := DiskAlerts(tail);
      DiskAlertDevicesDistinct(tail);
      DiskAlertsNameFullEntries(tail);
      forall j | 0 <= j < |rest| ensures rest[j].device != disk[0].0 {
        var i :| 0 <= i < |tail| && tail[i] == (rest[j].device, rest[j].value);
        assert tail[i] == disk[i + 1];
      }
      if disk[0].1 > DISK_FULL {
        var r := DiskAlerts(disk);
        assert r == [DiskFull(disk[0].0, disk[0].1)] + rest;
        forall j, k | 0 <= j < k < |r| && r[j].DiskFull? && r[k].DiskFull? ensures r[j].device != r[k].device {
          assert r[k] == rest[k - 1];
          if j > 0 {
            assert r[j] == rest[j - 1];
          }
        }
      } else {
        assert DiskAlerts(disk) == rest;
      }
    }
  }

  /** No two disk alerts in `r` name the same device. */
  predicate DistinctDiskDevices(r: seq<Alert>) {
    forall j, k :: 0 <= j < k < |r| && r[j].DiskFull? && r[k].DiskFull? ==> r[j].device != r[k].device
  }

  lemma DistinctDiskDevicesAppend(s: seq<Alert>, d: seq<Alert>)
    requires forall j :: 0 <= j < |s| ==> !s[j].DiskFull?
    requires DistinctDiskDevices(d)
    ensures DistinctDiskDevices(s + d)
  {
    var r := s + d;
    forall j, k | 0 <= j < k < |r| && r[j].DiskFull? && r[k].DiskFull? ensures r[j].device != r[k].device {
      assert j >= |s| && k >= |s| by {
        assert forall i :: 0 <= i < |s| ==> r[i] == s[i];
      }
      assert r[j] == d[j - |s|] && r[k] == d[k - |s|];
    }
  }

  /**
    With distinct device keys no device gets two disk alerts; together with
    the contract of `CheckAlerts`, a device over 90 gets exactly one.
   */
  lemma OneAlertPerFullDisk(cpu: real, ram: real, net: real, disk: DiskMap)
    requires OrderedMap.DistinctKeys(disk)
    ensures DistinctDiskDevices(CheckAlerts(cpu, ram, net, disk))
  {
    var s := ScalarAlerts(cpu, ram, net);
    var d := DiskAlerts(disk);
    assert CheckAlerts(cpu, ram, net, disk) == s + d;
    DiskAlertDevicesDistinct(disk);
    DistinctDiskDevicesAppend(s, d);
  }

  /**
    The text `check_alerts` puts in the list for one alert. Each kind has its
    own fixed opening, so the kind can be read back from the text.
   */
  function Message(fmt: Format, a: Alert): (m: string)
    ensures |m| > 0 && (m[0] == 'H' || m[0] == 'D')
    ensures a.HighCpu? ==> |m| >= 16 && m[..16] == "High CPU usage ("
    ensures a.HighRam? ==> |m| >= 16 && m[..16] == "High RAM usage ("
    ensures a.HighNetwork? ==> |m| >= 20 && m[..20] == "High Network usage ("
    ensures a.DiskFull? ==> |m| >= 5 + |a.device| && m[..5] == "Disk " && m[5..5 + |a.device|] == a.device
  {
    match a
    case HighCpu(v) => "High CPU usage (" + fmt.number(v) + "%)"
    case HighRam(v) => "High RAM usage (" + fmt.number(v) + "%)"
    case HighNetwork(v) => "High Network usage (" + fmt.fixed2(v) + " MB/s)"
    case DiskFull(d, v) => "Disk " + d + " full (" + fmt.number(v) + "%)"
  }

  function Messages(fmt: Format, alerts: seq<Alert>): (ms: seq<string>)
    ensures |ms| == |alerts|
    ensures forall i :: 0 <= i < |alerts| ==> ms[i] == Message(fmt, alerts[i])
  {
    seq(|alerts|, i requires 0 <= i < |alerts| => Message(fmt, alerts[i]))
  }

  lemma MessageSingleLine(fmt: Format, a: Alert)
    requires SingleLine(fmt)
    requires a.DiskFull? ==> NoNewline(a.device)
    ensures NoNewline(Message(fmt, a))
  {
    var v := a.value;
    assert NoNewline(fmt.number(v)) && NoNewline(fmt.fixed2(v));
    match a
    case HighCpu(_) =>
      NoNewlineConcat("High CPU usage (", fmt.number(v));
      NoNewlineConcat("High CPU usage (" + fmt.number(v), "%)");
    case HighRam(_) =>
      NoNewlineConcat("High RAM usage (", fmt.number(v));
      NoNewlineConcat("High RAM usage (" + fmt.number(v), "%)");
    case HighNetwork(_) =>
      NoNewlineConcat("High Network usage (", fmt.fixed2(v));
      NoNewlineConcat("High Network usage (" + fmt.fixed2(v), " MB/s)");
    case DiskFull(d, _) =>
      NoNewlineConcat("Disk ", d);
      NoNewlineConcat("Disk " + d, " full (");
      NoNewlineConcat("Disk " + d + " full (", fmt.number(v));
      NoNewlineConcat("Disk " + d + " full (" + fmt.number(v), "%)");
  }

  /** No alert message breaks a line when numbers and device names do not. */
  lemma MessagesSingleLine(fmt: Format, alerts: seq<Alert>)
    requires SingleLine(fmt)
    requires forall j :: 0 <= j < |alerts| && alerts[j].DiskFull? ==> NoNewline(alerts[j].device)
    ensures AllNoNewline(Messages(fmt, alerts))
  {
    forall j | 0 <= j < |alerts| ensures NoNewline(Messages(fmt, alerts)[j]) {
      MessageSingleLine(fmt, alerts[j]);
    }
  }
}
