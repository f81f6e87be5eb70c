# System monitor: per-tick decision pipeline

A model of the decision logic in `system_monitor.py`, a terminal host
monitor. In an endless loop it reads CPU, RAM, network, disk, battery and
IP address, checks them against fixed thresholds, emails the alerts if there
are any, appends a CSV row, and redraws a curses report. Each pass takes at
least two seconds: the CPU reading samples over one second and the loop then
sleeps for another. The model covers
the pure parts of that loop:

- `Readings.GetInfo` shapes the readings returned by `get_info`. Network is
  total bytes divided by 1024², the disk map is a Python dict built from the
  partition list, and battery is `None` when there is no sensor.
- `OrderedMap` models a Python dict as a sequence of pairs with distinct
  keys. Assigning a key that exists keeps its position and overwrites its
  value; a new key is appended.
- `Alerts.CheckAlerts` is the rule engine. It compares CPU > 90, RAM > 85
  and network > 90 against the threshold table, and every disk against a
  separate hard-coded 90. All comparisons are strict. Alerts come out in
  the order CPU, RAM, network, then disks in map order.
- `CsvLog.LogRow` is the row layout `[now, cpu, ram, net, ip, disk values…, battery]`.
- `Report.Lines` is the report body. It holds the alert lines or
  "No alerts.", a metrics line, an IP line, one line per disk, and a
  battery line only when there is a battery.
- `Monitor.Tick` (reading, then `Monitor.Dispatch`), `Monitor.Step` and
  `Monitor.Run` give the order of side effects in one tick (email, row,
  report) and the Running → Stopped / Crashed loop.

Readings are `real`. Number rendering (`f"{x}"` and `f"{x:.2f}"`) is a
parameter of type `Text.Format`, because float printing is not modelled.
The OS readings, the wall clock, the SMTP outcome and whether the report
fits the terminal window are inputs
(`RawReading`, `TickInput`).

Behaviour of the code a reader might not expect:

- Only `KeyboardInterrupt` is caught. An exception from `send_email` ends
  the monitor, so a failed send means that tick's row is never logged.
  There is no timeout and no failure isolation between the email and the
  CSV log (`Monitor.Dispatch`, status `Crashed`).
- Nothing catches `curses.error` either. When the report does not fit the
  window, an `addstr` call raises after the row has been logged, and the
  monitor ends (`Monitor.Dispatch`, input `reportFits`). The same holds
  for the exit message written in the `KeyboardInterrupt` handler: when it
  does not fit, the handler raises and the monitor crashes instead of
  stopping (`Monitor.Step`, input `exitFits`).
- "Network" is the cumulative bytes since boot in MB, not a per-second
  rate. It is still compared with the threshold 90.
- The thresholds are a fixed module-level table, not configuration. The
  disk cutoff 90 is not part of that table.
- A partition whose usage cannot be read, or a host name that does not
  resolve, raises an exception in the code. Nothing skips the partition or
  falls back to a sentinel.

## Model

| member | source | states |
|---|---|---|
| OrderedMap.Put | system_monitor.py:36 | Assigning into a dict keeps keys unique. A new key is appended at the end. An existing key keeps its position and only its value changes. |
| OrderedMap.FromPairs | system_monitor.py:36 | The dict built by the comprehension has no repeated device. |
| OrderedMap.FromPairsKeys | system_monitor.py:36 | Every partition's device is a key of the dict and every key is some partition's device. The dict is no longer than the partition list. |
| OrderedMap.FromPairsLastValue | system_monitor.py:36 | When a device appears on several partitions, its entry carries the value of the last one. |
| OrderedMap.FromPairsOfDistinct | system_monitor.py:36 | When no device repeats, the dict is the partition list in order. |
| OrderedMap.FromPairsFirstSeenOrder | system_monitor.py:36 | Dict order is first-insertion order: an earlier entry's device was first seen earlier in the partition list. |
| Readings.GetInfo | system_monitor.py:32-39 | CPU, RAM and IP pass through unchanged. Network is (sent + received) / 1048576 and is never negative. Battery is absent exactly when there is no sensor, otherwise it is the sensor's percent. Disk keys are distinct. |
| Readings.GetInfoDisk | system_monitor.py:36 | The sample's disk map covers exactly the partitions' devices, last value wins, and with distinct devices it is the partition list. |
| Alerts.DiskAlerts | system_monitor.py:50 | There is one disk alert per entry over the hard-coded 90, and nothing else. |
| Alerts.DiskAlertsNameFullEntries | system_monitor.py:50 | Each disk alert names a real (device, usage) entry whose usage is over 90. |
| Alerts.FullEntriesHaveDiskAlerts | system_monitor.py:50 | Every entry whose usage is over 90 has a disk alert with its device and usage. |
| Alerts.ScalarAlerts | system_monitor.py:44-49 | CPU, RAM and network alerts exist iff cpu > 90, ram > 85, net > 90. Each appears at most once, carries its reading, and they come in table order. |
| Alerts.CheckAlerts | system_monitor.py:42-51 | CPU alert iff cpu > 90, RAM iff ram > 85, network iff net > 90, each independent of the others and carrying its reading. Each disk alert names an entry whose usage is over 90, with strict comparison. Kinds come in the order CPU < RAM < network < disks. The count is the number of triggered rules plus the number of full disks. |
| Alerts.EveryFullDiskAlerted | system_monitor.py:50-51 | Every disk entry whose usage is over 90 appears as a disk alert in the list `check_alerts` returns. |
| Alerts.DiskAlertsInMapOrder | system_monitor.py:50 | The disk alerts' (device, value) pairs form a subsequence of the disk map, so they keep map order. |
| Alerts.OneAlertPerFullDisk | system_monitor.py:50 | With distinct device keys, no device gets two disk alerts. |
| Alerts.Message | system_monitor.py:45-50 | Each kind's text opens with its own fixed words: "High CPU usage (", "High RAM usage (", "High Network usage (", or "Disk " followed by the device name. So the first character is 'H' or 'D', and the kind can be read back from the text. |
| Alerts.MessagesSingleLine | system_monitor.py:45-50 | No alert message contains a newline when no number rendering and no device name contains one. |
| Text.SplitJoinLines | system_monitor.py:85 | Splitting the newline-joined messages at newlines gives the messages back. |
| Text.JoinThenNewline | system_monitor.py:97 | Writing the joined alerts plus one newline is the same as writing each alert on its own line. |
| CsvLog.Encode | system_monitor.py:70 | A row has 6 + (number of disks) cells. |
| CsvLog.DecodeEncode | system_monitor.py:70 | Reading back a written row gives back the record: timestamp, cpu, ram, net, ip, the disk values in order, and battery, with None kept as a blank cell. |
| CsvLog.EncodeDecode | system_monitor.py:70 | Every row with the logged layout is exactly the row written for the record it reads as. |
| CsvLog.LogRow | system_monitor.py:67-70 | The row has length 6 + the number of disks. Cells 0–4 are now, cpu, ram, net and ip. Cell 5+i is the i-th disk value in map order. The last cell is blank exactly when there is no battery, and otherwise holds the battery percent. |
| Report.LinesLayout | system_monitor.py:96-106 | The alert section is the alert messages in order, or the single line "No alerts." when there are none. The metrics and IP lines follow, then exactly one disk line per entry in map order, then a battery line when a battery is present. The line count is the size of the alert section + 2 + the number of disks + (1 if a battery is present). |
| Report.AlertWritesAreLines | system_monitor.py:96-99 | The text written for the alert section is its lines, each followed by a newline: the joined alerts plus one newline, or "No alerts." plus a newline. |
| Report.WritesAreLines | system_monitor.py:96-106 | The text the `addstr` calls write is the report's lines, each followed by a newline. |
| Report.BatteryLineIffPresent | system_monitor.py:105-106 | Some line of the report starts with "Battery: " iff the sample has a battery reading. |
| Monitor.EmailBodyListsAlerts | system_monitor.py:85 | The email body splits back into exactly the alert messages, one per line. |
| Monitor.Dispatch | system_monitor.py:84-106 | The email comes first and only when there are alerts, and at most one is sent. Its subject is "Critical System Alert" and its body is the alert messages joined by newlines. The row is logged iff there are no alerts or the send succeeds. The tick completes iff, in addition, the report fits the window. A completed tick ends with the CSV row and then the report, whether or not there were alerts. A failed send leaves the email attempt as the tick's only effect. A report that does not fit leaves the row as the last effect, and no report is shown. |
| Monitor.RunExtends | system_monitor.py:78-110 | Later events only add effects: the effects of a run are a prefix of the effects of any longer run. |
| Monitor.HaltedStaysHalted | system_monitor.py:109-114 | Once stopped or crashed, no later event changes the state or adds an effect. |
| Monitor.InterruptStops | system_monitor.py:111-114 | An interrupt while running ends the loop for good. When the exit message fits the window it is the only added effect and the monitor is stopped. When it does not fit, `addstr` raises inside the handler, nothing is added and the monitor has crashed. |
| Monitor.DeliveredTickCounts | system_monitor.py:84-106 | When the send succeeds, a tick logs exactly one row and sends one email iff it has alerts. It completes iff its report fits the window. |
| Monitor.DeliveredDispatchCounts | system_monitor.py:84-106 | With a successful send, dispatch logs one row and sends one email iff there are alerts. It completes iff the report fits. |
| Monitor.OneRowPerTick | system_monitor.py:79-106 | With every send succeeding and every report fitting, the monitor stays running, logs exactly one row per tick, and sends one email per tick that has alerts. |

## Left out

- OS readings (`psutil.cpu_percent`, `virtual_memory`, `net_io_counters`, `disk_partitions`, `disk_usage`, `sensors_battery`, `socket.gethostbyname`) are inputs. Their exceptions and the two separate `net_io_counters` calls are not modelled.
- SMTP transport (`send_email` body: MIME message, server, login) is left out because it is network I/O. Only the decision to send and the subject and body are modelled. Delivery success is an input.
- CSV file opening and the text encoding of cells are file I/O and are not modelled. Cells are typed values, and Python's `None` becomes `Blank`.
- Curses setup, colours, clear/refresh, the ASCII art constants and the "Report at <time>" header line are cosmetic and not modelled.
- Float formatting (`{x}`, `{x:.2f}`) is abstracted as `Text.Format`.
- `time.sleep`, the 1-second `cpu_percent` window and the one-second pause at exit are timing and not modelled.
- Monitor.Step: interrupts are modelled only between ticks. An interrupt in the middle of a tick, after some of its effects, is not modelled.
- Monitor.InterruptStops: when the exit message does not fit, the part of it that `addstr` wrote before raising is not modelled. That crash adds no effect.
- Monitor.Dispatch: only a failed email send and a report that does not fit the window end the monitor. Exceptions from the readings or from the CSV write, which would end it the same way, are not modelled. How many rows the window has, and so which reports fit, is not modelled; it is an input.
