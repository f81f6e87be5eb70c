/**
  The body of the live report (the writes after the header): the alert
  lines or "No alerts.", the metrics line, the IP line, one line per disk,
  and a battery line only when there is a battery. ASCII art, the header
  and colours are cosmetic and not modelled.
 */
module Report {
  import opened Wrappers
  import opened Text
  import opened Readings
  import opened Alerts

  const NO_ALERTS: string := "No alerts."

  function MetricsLine(fmt: Format, s: Sample): string {
    "CPU: " + fmt.number(s.cpu) + "%  RAM: " + fmt.number(s.ram) + "%  Network: " + fmt.fixed2(s.net) + " MB/s"
  }

  function IpLine(s: Sample): string {
    "IP: " + s.ip
  }

  function DiskLine(fmt: Format, e: (Device, real)): string {
    "Disk " + e.0 + ": " + fmt.number(e.1) + "%"
  }

  function BatteryLine(fmt: Format, percent: real): string {
    "Battery: " + fmt.number(percent) + "%"
  }

  function DiskLines(fmt: Format, disk: DiskMap): (ls: seq<string>)
    ensures |ls| == |disk|
    ensures forall i :: 0 <= i < |disk| ==> ls[i] == DiskLine(fmt, disk[i])
  {
    seq(|disk|, i requires 0 <= i < |disk| => DiskLine(fmt, disk[i]))
  }

  function DiskWrites(fmt: Format, disk: DiskMap): (ws: seq<string>)
    ensures |ws| == |disk|
    ensures forall i :: 0 <= i < |disk| ==> ws[i] == DiskLine(fmt, disk[i]) + "\n"
  {
    seq(|disk|, i requires 0 <= i < |disk| => DiskLine(fmt, disk[i]) + "\n")
  }

  /** The alert write: the joined messages plus a newline, or "No alerts.\n". */
  function AlertWrites(fmt: Format, alerts: seq<Alert>): seq<string> {
    [if |alerts| > 0 then Join("\n", Messages(fmt, alerts)) + "\n" else NO_ALERTS + "\n"]
  }

  function BatteryWrites(fmt: Format, s: Sample): seq<string> {
    match s.battery
    case Some(p) => [BatteryLine(fmt, p) + "\n"]
    case None => []
  }

  /** The strings passed to `addstr`, in order, for one report. */
  function Writes(fmt: Format, alerts: seq<Alert>, s: Sample): seq<string> {
    AlertWrites(fmt, alerts)
    + [MetricsLine(fmt, s) + "\n", IpLine(s) + "\n"]
    + DiskWrites(fmt, s.disk)
    + BatteryWrites(fmt, s)
  }

  function AlertSection(fmt: Format, alerts: seq<Alert>): seq<string> {
    if |alerts| > 0 then Messages(fmt, alerts) else [NO_ALERTS]
  }

  function BatteryLines(fmt: Format, s: Sample): seq<string> {
    match s.battery
    case Some(p) => [BatteryLine(fmt, p)]
    case None => []
  }

  /**
    The report as lines: the alert messages in order, or the single line
    "No alerts." when there are none; then metrics and IP; then exactly one
    line per disk entry in map order; then the battery line, present exactly
    when the sample has a battery reading.
   */
  function Lines(fmt: Format, alerts: seq<Alert>, s: Sample): seq<string> {
    AlertSection(fmt, alerts) + [MetricsLine(fmt, s), IpLine(s)] + DiskLines(fmt, s.disk) + BatteryLines(fmt, s)
  }

  /** Where each line of the report sits. */
  lemma LinesLayout(fmt: Format, alerts: seq<Alert>, s: Sample)
    ensures var ls, k := Lines(fmt, alerts, s), if |alerts| > 0 then |alerts| else 1;
      && |ls| == k + 2 + |s.disk| + Flag(s.battery.Some?)
      && (|alerts| > 0 ==> forall j :: 0 <= j < |alerts| ==> ls[j] == Message(fmt, alerts[j]))
      && (|alerts| == 0 ==> ls[0] == "No alerts.")
      && ls[k] == MetricsLine(fmt, s)
      && ls[k + 1] == IpLine(s)
      && (forall i :: 0 <= i < |s.disk| ==> ls[k + 2 + i] == DiskLine(fmt, s.disk[i]))
      && (s.battery.Some? ==> ls[|ls| - 1] == BatteryLine(fmt, s.battery.value))
  {
    var a, m, d, b := AlertSection(fmt, alerts), [MetricsLine(fmt, s), IpLine(s)], DiskLines(fmt, s.disk), BatteryLines(fmt, s);
    var ls := a + m + d + b;
    var k := |a|;
    assert k == if |alerts| > 0 then |alerts| else 1;
    forall i | 0 <= i < |s.disk| ensures ls[k + 2 + i] == DiskLine(fmt, s.disk[i]) {
      assert ls[k + 2 + i] == d[i];
    }
    assert ls[k] == m[0] && ls[k + 1] == m[1];
    if s.battery.Some? {
      assert ls[|ls| - 1] == b[0];
    }
  }

  lemma AlertWritesAreLines(fmt: Format, alerts: seq<Alert>)
    ensures Concat(AlertWrites(fmt, alerts)) == Unlines(AlertSection(fmt, alerts))
  {
    var w := AlertWrites(fmt, alerts);
    assert Concat(w) == w[0] + Concat([]);
    if |alerts| > 0 {
      JoinThenNewline(Messages(fmt, alerts));
    } else {
      assert Unlines([NO_ALERTS]) == NO_ALERTS + "\n" + Unlines([]);
    }
  }

  /** What the writes put on screen is the report's lines, each ended by a newline. */
  lemma WritesAreLines(fmt: Format, alerts: seq<Alert>, s: Sample)
    ensures Concat(Writes(fmt, alerts, s)) == Unlines(Lines(fmt, alerts, s))
  {
    var two := [MetricsLine(fmt, s), IpLine(s)];
    AlertWritesAreLines(fmt, alerts);
    ConcatLineWrites(two, [MetricsLine(fmt, s) + "\n", IpLine(s) + "\n"]);
    ConcatLineWrites(DiskLines(fmt, s.disk), DiskWrites(fmt, s.disk));
    ConcatLineWrites(BatteryLines(fmt, s), BatteryWrites(fmt, s));
    ConcatFourGroups(
      AlertWrites(fmt, alerts), [MetricsLine(fmt, s) + "\n", IpLine(s) + "\n"], DiskWrites(fmt, s.disk), BatteryWrites(fmt, s),
      AlertSection(fmt, alerts), two, DiskLines(fmt, s.disk), BatteryLines(fmt, s));
  }

  predicate IsBatteryLine(l: string) {
    |l| >= 9 && l[..9] == "Battery: "
  }

  /** No line of `ls` could be taken for the battery line: each starts with another letter. */
  predicate NoBatteryLine(ls: seq<string>) {
    forall i :: 0 <= i < |ls| ==> |ls[i]| > 0 && ls[i][0] != 'B'
  }

  lemma NoBatteryLineBeforeBattery(fmt: Format, alerts: seq<Alert>, s: Sample)
    ensures NoBatteryLine(AlertSection(fmt, alerts) + [MetricsLine(fmt, s), IpLine(s)] + DiskLines(fmt, s.disk))
  {
    var sec := AlertSection(fmt, alerts);
    var fixed := [MetricsLine(fmt, s), IpLine(s)];
    var disks := DiskLines(fmt, s.disk);
    assert NoBatteryLine(sec) by {
      if |alerts| > 0 {
        forall j | 0 <= j < |sec| ensures |sec[j]| > 0 && sec[j][0] != 'B' {
          assert sec[j] == Message(fmt, alerts[j]);
        }
      }
    }
    assert NoBatteryLine(fixed);
    assert NoBatteryLine(disks) by {
      forall j | 0 <= j < |disks| ensures |disks[j]| > 0 && disks[j][0] != 'B' {
        assert disks[j] == DiskLine(fmt, s.disk[j]);
      }
    }
    var all := sec + fixed + disks;
    forall i | 0 <= i < |all| ensures |all[i]| > 0 && all[i][0] != 'B' {
      if i < |sec| {
        assert all[i] == sec[i];
      } else if i < |sec| + 2 {
        assert all[i] == fixed[i - |sec|];
      } else {
        assert all[i] == disks[i - |sec| - 2];
      }
    }
  }

  lemma OtherInitialNotBattery(l: string)
    requires |l| > 0 && l[0] != 'B'
    ensures !IsBatteryLine(l)
  {
    if |l| >= 9 {
      assert l[..9][0] == l[0];
    }
  }

  /** A battery line appears in the report exactly when the sample has a battery reading. */
  lemma BatteryLineIffPresent(fmt: Format, alerts: seq<Alert>, s: Sample)
    ensures (exists i :: 0 <= i < |Lines(fmt, alerts, s)| && IsBatteryLine(Lines(fmt, alerts, s)[i])) <==> s.battery.Some?
  {
    var ls := Lines(fmt, alerts, s);
    var before := AlertSection(fmt, alerts) + [MetricsLine(fmt, s), IpLine(s)] + DiskLines(fmt, s.disk);
    NoBatteryLineBeforeBattery(fmt, alerts, s);
    if s.battery.Some? {
      assert IsBatteryLine(ls[|ls| - 1]);
    } else {
      assert BatteryLines(fmt, s) == [];
      assert ls == before;
      forall i | 0 <= i < |ls| ensures !IsBatteryLine(ls[i]) {
        OtherInitialNotBattery(ls[i]);
      }
    }
  }
}
