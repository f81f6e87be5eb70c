/**
  One tick of `display_report` and the loop around it. A tick reads the
  host, evaluates the alerts, sends one email when there are alerts, logs
  a row, and redraws the report. Side effects are returned as a list of
  `Effect`s in the order they happen. `send_email` raising (any SMTP
  failure) is not caught by the loop, so it ends the monitor before the row
  is logged; an interrupt between ticks shows the exit message and stops.
 */
module Monitor {
  import opened Wrappers
  import opened Text
  import opened Readings
  import opened Alerts
  import CsvLog
  import Report

  const SUBJECT: string := "Critical System Alert"

  datatype Effect =
    | SendEmail(subject: string, body: string)
    | AppendRow(row: seq<CsvLog.Cell>)
    | ShowReport(lines: seq<string>)
    | ShowExit

  /**
    What the outside world supplies for one tick: the readings, the clock at
    the CSV write, whether SMTP delivery succeeds, and whether the report
    fits the terminal window (`addstr` past the window's edge raises).
   */
  datatype TickInput = TickInput(raw: RawReading, logTime: CsvLog.Instant, emailDelivered: bool, reportFits: bool)

  datatype Status = Running | Stopped | Crashed

  /**
    A tick, or a keyboard interrupt between ticks. `exitFits` says whether the
    exit message fits below the report; `addstr` past the window's edge raises
    inside the handler, and nothing catches that.
   */
  datatype Event = Sampled(input: TickInput) | Interrupt(exitFits: bool)

  datatype State = State(status: Status, effects: seq<Effect>)

  /** The alerts of a tick, as `check_alerts(cpu, ram, net, disk)` on `get_info`'s values. */
  function TickAlerts(s: Sample): seq<Alert> {
    CheckAlerts(s.cpu, s.ram, s.net, s.disk)
  }

  /**
    The email decision: an email exactly when there are alerts, with the
    fixed subject and the alert messages joined by newlines.
   */
  function EmailFor(fmt: Format, alerts: seq<Alert>): (e: Option<Effect>)
    ensures e.Some? <==> |alerts| > 0
    ensures e.Some? ==> e.value.SendEmail? && e.value.subject == "Critical System Alert"
    ensures e.Some? ==> e.value.body == Join("\n", Messages(fmt, alerts))
  {
    if |alerts| > 0 then Some(SendEmail(SUBJECT, Join("\n", Messages(fmt, alerts)))) else None
  }

  /**
    The email body splits back into the alert messages, one per line, when
    no number or device name holds a newline.
   */
  lemma EmailBodyListsAlerts(fmt: Format, alerts: seq<Alert>)
    requires SingleLine(fmt)
    requires forall j :: 0 <= j < |alerts| && alerts[j].DiskFull? ==> NoNewline(alerts[j].device)
    requires |alerts| > 0
    ensures SplitLines(EmailFor(fmt, alerts).value.body) == Messages(fmt, alerts)
  {
    MessagesSingleLine(fmt, alerts);
    SplitJoinLines(Messages(fmt, alerts));
  }

  datatype TickOutcome = TickOutcome(effects: seq<Effect>, completed: bool)

  /**
    The dispatch part of the loop body, for a sample and its alerts. The
    email, when there are alerts, comes first. A failed send stops the tick
    after the attempt. Otherwise the row is logged; a report that does not
    fit the window stops the tick after the row, and one that fits is shown.
   */
  function Dispatch(fmt: Format, s: Sample, alerts: seq<Alert>, logTime: CsvLog.Instant, delivered: bool, fits: bool): (t: TickOutcome)
    ensures t.completed <==> (|alerts| == 0 || delivered) && fits
    ensures |t.effects| == Flag(|alerts| > 0) + (if |alerts| == 0 || delivered then 1 + Flag(fits) else 0)
    ensures |alerts| > 0 ==> t.effects[0] == SendEmail("Critical System Alert", Join("\n", Messages(fmt, alerts)))
    ensures forall i :: 0 <= i < |t.effects| && t.effects[i].SendEmail? ==> i == 0 && |alerts| > 0
    ensures |alerts| == 0 || delivered ==> t.effects[Flag(|alerts| > 0)] == AppendRow(CsvLog.LogRow(logTime, s))
    ensures forall i :: 0 <= i < |t.effects| && t.effects[i].ShowReport? ==> t.completed && i == |t.effects| - 1
    ensures t.completed ==> t.effects[|t.effects| - 1] == ShowReport(Report.Lines(fmt, alerts, s))
  {
    var email := EmailFor(fmt, alerts);
    var sent := match email case Some(e) => [e] case None => [];
    var row := AppendRow(CsvLog.LogRow(logTime, s));
    if email.Some? && !delivered then TickOutcome(sent, false)
    else if !fits then TickOutcome(sent + [row], false)
    else TickOutcome(sent + [row, ShowReport(Report.Lines(fmt, alerts, s))], true)
  }

  /** One pass of the loop body: read, evaluate, then dispatch. */
  function Tick(fmt: Format, input: TickInput): TickOutcome
  {
    var s := GetInfo(input.raw);
    Dispatch(fmt, s, TickAlerts(s), input.logTime, input.emailDelivered, input.reportFits)
  }

  /**
    The loop: ticks run while running. An interrupt shows the exit text and
    stops, or crashes when that text does not fit. Nothing happens afterwards.
   */
  function Step(fmt: Format, st: State, ev: Event): State {
    if st.status != Running then st
    else match ev
      case Interrupt(fits) => if fits then State(Stopped, st.effects + [ShowExit]) else State(Crashed, st.effects)
      case Sampled(input) =>
        var t := Tick(fmt, input);
        State(if t.completed then Running else Crashed, st.effects + t.effects)
  }

  const START: State := State(Running, [])

  function Run(fmt: Format, events: seq<Event>): State {
    if |events| == 0 then START
    else Step(fmt, Run(fmt, events[..|events| - 1]), events[|events| - 1])
  }

  /** Effects only accumulate: a step never removes or rewrites what already happened. */
  lemma {:induction false} RunExtends(fmt: Format, a: seq<Event>, b: seq<Event>)
    ensures Run(fmt, a).effects <= Run(fmt, a + b).effects
    decreases |b|
  {
    if |b| == 0 {
      assert a + b == a;
    } else {
      var ab := a + b;
      assert ab[..|ab| - 1] == a + b[..|b| - 1];
      RunExtends(fmt, a, b[..|b| - 1]);
    }
  }

  /** Once stopped or crashed, the monitor ignores every later event. */
  lemma {:induction false} HaltedStaysHalted(fmt: Format, a: seq<Event>, b: seq<Event>)
    requires Run(fmt, a).status != Running
    ensures Run(fmt, a + b) == Run(fmt, a)
    decreases |b|
  {
    if |b| == 0 {
      assert a + b == a;
    } else {
      var ab := a + b;
      assert ab[..|ab| - 1] == a + b[..|b| - 1];
      HaltedStaysHalted(fmt, a, b[..|b| - 1]);
    }
  }

  /**
    An interrupt while running ends the loop for good: stopped after the exit
    message when it fits, crashed without it otherwise. No later event has any
    effect.
   */
  lemma InterruptStops(fmt: Format, a: seq<Event>, fits: bool, b: seq<Event>)
    ensures Run(fmt, a).status == Running ==>
      Run(fmt, a + [Interrupt(fits)] + b).status == (if fits then Stopped else Crashed)
    ensures Run(fmt, a).status == Running ==>
      Run(fmt, a + [Interrupt(fits)] + b).effects == Run(fmt, a).effects + (if fits then [ShowExit] else [])
  {
    if Run(fmt, a).status == Running {
      var ai := a + [Interrupt(fits)];
      assert ai[..|ai| - 1] == a && ai[|ai| - 1] == Interrupt(fits);
      assert Run(fmt, ai) == Step(fmt, Run(fmt, a), Interrupt(fits));
      if !fits {
        assert Run(fmt, a).effects + [] == Run(fmt, a).effects;
      }
      HaltedStaysHalted(fmt, ai, b);
    }
  }

  function CountRows(effects: seq<Effect>): nat {
    if |effects| == 0 then 0
    else (if effects[0].AppendRow? then 1 else 0) + CountRows(effects[1..])
  }

  function CountEmails(effects: seq<Effect>): nat {
    if |effects| == 0 then 0
    else (if effects[0].SendEmail? then 1 else 0) + CountEmails(effects[1..])
  }

  /** How many ticks among `events` raise at least one alert. */
  function AlertingTicks(events: seq<Event>): nat {
    if |events| == 0 then 0
    else
      var e := events[|events| - 1];
      AlertingTicks(events[..|events| - 1]) + (if e.Sampled? && |TickAlerts(GetInfo(e.input.raw))| > 0 then 1 else 0)
  }

  /** Every event is a tick whose email, if any, is delivered and whose report fits the window. */
  predicate AllSucceed(events: seq<Event>) {
    forall i :: 0 <= i < |events| ==> events[i].Sampled? && events[i].input.emailDelivered && events[i].input.reportFits
  }

  lemma {:induction false} CountsAppend(a: seq<Effect>, b: seq<Effect>)
    ensures CountRows(a + b) == CountRows(a) + CountRows(b)
    ensures CountEmails(a + b) == CountEmails(a) + CountEmails(b)
    decreases |a|
  {
    if |a| == 0 {
      assert a + b == b;
    } else {
      assert (a + b)[1..] == a[1..] + b;
      CountsAppend(a[1..], b);
    }
  }

  /**
    With every send succeeding, every report fitting and no interrupt, the
    monitor keeps running, logs exactly one row per tick, and sends exactly
    one email per tick that has alerts.
   */
  lemma {:induction false} OneRowPerTick(fmt: Format, events: seq<Event>)
    requires AllSucceed(events)
    ensures Run(fmt, events).status == Running
    ensures CountRows(Run(fmt, events).effects) == |events|
    ensures CountEmails(Run(fmt, events).effects) == AlertingTicks(events)
    decreases |events|
  {
    if |events| > 0 {
      var init := events[..|events| - 1];
      var e := events[|events| - 1];
      AllSucceedPrefix(events);
      OneRowPerTick(fmt, init);
      DeliveredStep(fmt, Run(fmt, init), e.input);
    }
  }

  lemma AllSucceedPrefix(events: seq<Event>)
    requires AllSucceed(events) && |events| > 0
    ensures AllSucceed(events[..|events| - 1])
    ensures var e := events[|events| - 1]; e.Sampled? && e.input.emailDelivered && e.input.reportFits
  {
    var init := events[..|events| - 1];
    forall i | 0 <= i < |init| ensures init[i].Sampled? && init[i].input.emailDelivered && init[i].input.reportFits {
      assert init[i] == events[i];
    }
  }

  /** A tick that delivers its email and fits its report keeps the monitor running and adds one row, and one email if it has alerts. */
  lemma DeliveredStep(fmt: Format, st: State, input: TickInput)
    requires st.status == Running && input.emailDelivered && input.reportFits
    ensures Step(fmt, st, Sampled(input)).status == Running
    ensures CountRows(Step(fmt, st, Sampled(input)).effects) == CountRows(st.effects) + 1
    ensures CountEmails(Step(fmt, st, Sampled(input)).effects)
         == CountEmails(st.effects) + Flag(|TickAlerts(GetInfo(input.raw))| > 0)
  {
    var t := Tick(fmt, input);
    DeliveredTickCounts(fmt, input);
    CountsAppend(st.effects, t.effects);
  }

  /** A tick whose email is delivered logs its row whether or not the report fits, and completes exactly when it fits. */
  lemma DeliveredTickCounts(fmt: Format, input: TickInput)
    requires input.emailDelivered
    ensures Tick(fmt, input).completed <==> input.reportFits
    ensures CountRows(Tick(fmt, input).effects) == 1
    ensures CountEmails(Tick(fmt, input).effects) == Flag(|TickAlerts(GetInfo(input.raw))| > 0)
  {
    var s := GetInfo(input.raw);
    DeliveredDispatchCounts(fmt, s, TickAlerts(s), input.logTime, input.reportFits);
  }

  lemma DeliveredDispatchCounts(fmt: Format, s: Sample, alerts: seq<Alert>, logTime: CsvLog.Instant, fits: bool)
    ensures Dispatch(fmt, s, alerts, logTime, true, fits).completed <==> fits
    ensures CountRows(Dispatch(fmt, s, alerts, logTime, true, fits).effects) == 1
    ensures CountEmails(Dispatch(fmt, s, alerts, logTime, true, fits).effects) == Flag(|alerts| > 0)
  {
    var row := AppendRow(CsvLog.LogRow(logTime, s));
    var shown := ShowReport(Report.Lines(fmt, alerts, s));
    var tail := if fits then [row, shown] else [row];
    assert CountRows(tail) == 1 && CountEmails(tail) == 0 by {
      assert CountRows([shown]) == 0 + CountRows([]);
      assert CountEmails([shown]) == 0 + CountEmails([]);
      if fits {
        assert tail[1..] == [shown];
      } else {
        assert tail[1..] == [];
      }
    }
    var t := Dispatch(fmt, s, alerts, logTime, true, fits);
    if |alerts| > 0 {
      var email := SendEmail(SUBJECT, Join("\n", Messages(fmt, alerts)));
      assert t.effects == [email] + tail;
      assert ([email] + tail)[1..] == tail;
    } else {
      assert t.effects == tail;
    }
  }
}
