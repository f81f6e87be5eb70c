/**
  `log_to_csv`: one row per tick, `[now, cpu, ram, net, ip]`, then the disk
  values in dict order, then battery. The row is modelled as typed cells;
  how the csv writer prints each cell is not modelled, except that Python's
  `None` is written as an empty field (`Blank`).
 */
module CsvLog {
  import opened Wrappers
  import opened Readings
  import OrderedMap

  /** The value of `datetime.now()` at the write, in microseconds. */
  type Instant = int

  datatype Cell = Time(at: Instant) | Number(x: real) | Str(s: string) | Blank

  /** What one row records; device names are not written, only the values. */
  datatype Record = Record(
    at: Instant,
    cpu: real,
    ram: real,
    net: real,
    ip: string,
    disks: seq<real>,
    battery: Option<real>)

  function BatteryCell(b: Option<real>): Cell {
    match b
    case Some(p) => Number(p)
    case None => Blank
  }

  function Encode(rec: Record): (row: seq<Cell>)
    ensures |row| == 6 + |rec.disks|
  {
    [Time(rec.at), Number(rec.cpu), Number(rec.ram), Number(rec.net), Str(rec.ip)]
    + seq(|rec.disks|, i requires 0 <= i < |rec.disks| => Number(rec.disks[i]))
    + [BatteryCell(rec.battery)]
  }

  /** Reads a row back; `None` when it does not have the layout `Encode` writes. */
  function Decode(row: seq<Cell>): Option<Record> {
    if |row| < 6 then None
    else if !(row[0].Time? && row[1].Number? && row[2].Number? && row[3].Number? && row[4].Str?) then None
    else
      var middle := row[5..|row| - 1];
      var last := row[|row| - 1];
      if !(forall i :: 0 <= i < |middle| ==> middle[i].Number?) then None
      else if !(last.Number? || last.Blank?) then None
      else Some(Record(
        row[0].at, row[1].x, row[2].x, row[3].x, row[4].s,
        seq(|middle|, i requires 0 <= i < |middle| && middle[i].Number? => middle[i].x),
        if last.Number? then Some(last.x) else None))
  }

  /** Every record survives being written and read back. */
  lemma DecodeEncode(rec: Record)
    ensures Decode(Encode(rec)) == Some(rec)
  {
    var row := Encode(rec);
    var middle := row[5..|row| - 1];
    assert forall i :: 0 <= i < |rec.disks| ==> middle[i] == Number(rec.disks[i]);
    var disks := seq(|middle|, i requires 0 <= i < |middle| && middle[i].Number? => middle[i].x);
    assert disks == rec.disks;
  }

  /** Every row that reads back is exactly the row of what it reads as. */
  lemma EncodeDecode(row: seq<Cell>)
    requires Decode(row).Some?
    ensures Encode(Decode(row).value) == row
  {
    var rec := Decode(row).value;
    var enc := Encode(rec);
    var middle := row[5..|row| - 1];
    assert |enc| == |row|;
    forall i | 0 <= i < |row| ensures enc[i] == row[i] {
      if 5 <= i < |row| - 1 {
        assert middle[i - 5] == row[i];
      }
    }
  }

  /**
    The row `log_to_csv` writes for a sample at instant `now`: six fixed
    columns around one column per disk, the disk values in map order, and a
    blank battery field exactly when there is no battery.
   */
  function LogRow(now: Instant, s: Sample): (row: seq<Cell>)
    ensures |row| == 6 + |s.disk|
    ensures row[0] == Time(now)
    ensures row[1] == Number(s.cpu) && row[2] == Number(s.ram) && row[3] == Number(s.net)
    ensures row[4] == Str(s.ip)
    ensures forall i :: 0 <= i < |s.disk| ==> row[5 + i] == Number(s.disk[i].1)
    ensures row[|row| - 1].Blank? <==> s.battery.None?
    ensures s.battery.Some? ==> row[|row| - 1] == Number(s.battery.value)
  {
    Encode(Record(now, s.cpu, s.ram, s.net, s.ip, OrderedMap.Values(s.disk), s.battery))
  }
}
