/** The OverloadManager panel: the guard that decides whether there is
    anything to show, the table rows (`formatData`) built from the
    `overloadManager` entries with `''` and `0` in place of absent or falsy
    fields, and the chart points (`plotData`) projected from those rows. */
module OverloadTable {
  import opened Wrappers
  import opened JsNumbers
  import LogParser

  /** The load figures an entry may carry under `metrics`; an absent field is None. */
  datatype Metrics = Metrics(arlid: Option<Num>, ehnid: Option<Num>, cpu: Option<Num>,
                             mem: Option<Num>, reqs: Option<Num>)

  /** One element of `logData.overloadManager`; any field but the timestamp may be absent. */
  datatype OverloadEntry = OverloadEntry(
    timestamp: Num,
    ruleName: Option<string>,
    triggerType: Option<string>,
    triggerValue: Option<Num>,
    triggerPct: Option<Num>,
    denyPct: Option<Num>,
    metrics: Option<Metrics>)

  /** The parts of `logData` the panel reads: `logData.overloadManager`, None when
      the key is absent or null. */
  datatype LogData = LogData(overloadManager: Option<seq<OverloadEntry>>)

  /** One table row. */
  datatype Row = Row(
    timestamp: Num,
    ruleName: string,
    triggerType: string,
    triggerValue: Num,
    triggerPct: Num,
    denyPct: Num,
    arlid: Num,
    ehnid: Num,
    cpu: Num,
    mem: Num,
    reqs: Num)

  /** One point of the two time-series charts. */
  datatype PlotPoint = PlotPoint(timestamp: Num, triggerPct: Num, denyPct: Num,
                                 cpu: Num, mem: Num, reqs: Num)

  /** What the panel renders: the "no data" message, or the table and the charts. */
  datatype View = NoData | Table(rows: seq<Row>, plot: seq<PlotPoint>)

  const Zero: Num := Finite(0.0)

  /** `shown` is what `field || 0` displays: 0 exactly when the field is
      absent or falsy (0 or NaN), the field's own value otherwise. */
  predicate NumberDefaulted(shown: Num, field: Option<Num>)
  {
    (shown == Zero <==> field.None? || Falsy(field.value)) && (shown != Zero ==> field == Some(shown))
  }

  /** `shown` is what `field || ''` displays. */
  predicate TextDefaulted(shown: string, field: Option<string>)
  {
    (shown == "" <==> field.None? || field == Some("")) && (shown != "" ==> field == Some(shown))
  }

  /** `field || ''` for an optional string field. */
  function TextOr(field: Option<string>): (r: string)
    ensures TextDefaulted(r, field)
  {
    if field.Some? then field.value else ""
  }

  /** `field || 0` for an optional number field. */
  function NumberOr(field: Option<Num>): (r: Num)
    ensures NumberDefaulted(r, field)
    ensures !Falsy(r) || r == Zero
  {
    if field.Some? then OrElse(field.value, Zero) else Zero
  }

  /** The five names under `metrics`. */
  datatype Figure = Arlid | Ehnid | Cpu | Mem | Reqs

  /** `entry.metrics?.<name>`: absent when `metrics` itself is absent. */
  function MetricField(metrics: Option<Metrics>, name: Figure): (r: Option<Num>)
    ensures metrics.None? ==> r.None?
  {
    if metrics.None? then None
    else match name
      case Arlid => metrics.value.arlid
      case Ehnid => metrics.value.ehnid
      case Cpu => metrics.value.cpu
      case Mem => metrics.value.mem
      case Reqs => metrics.value.reqs
  }

  /** The row `formatData` builds for one entry: the timestamp passes through,
      every other field is the entry's value or its default. */
  function FormatRow(e: OverloadEntry): (r: Row)
    ensures r.timestamp == e.timestamp
    ensures TextDefaulted(r.ruleName, e.ruleName) && TextDefaulted(r.triggerType, e.triggerType)
    ensures NumberDefaulted(r.triggerValue, e.triggerValue)
    ensures NumberDefaulted(r.triggerPct, e.triggerPct) && NumberDefaulted(r.denyPct, e.denyPct)
    ensures NumberDefaulted(r.arlid, MetricField(e.metrics, Arlid))
    ensures NumberDefaulted(r.ehnid, MetricField(e.metrics, Ehnid))
    ensures NumberDefaulted(r.cpu, MetricField(e.metrics, Cpu))
    ensures NumberDefaulted(r.mem, MetricField(e.metrics, Mem))
    ensures NumberDefaulted(r.reqs, MetricField(e.metrics, Reqs))
  {
    Row(e.timestamp, TextOr(e.ruleName), TextOr(e.triggerType), NumberOr(e.triggerValue),
        NumberOr(e.triggerPct), NumberOr(e.denyPct),
        NumberOr(MetricField(e.metrics, Arlid)),
        NumberOr(MetricField(e.metrics, Ehnid)),
        NumberOr(MetricField(e.metrics, Cpu)),
        NumberOr(MetricField(e.metrics, Mem)),
        NumberOr(MetricField(e.metrics, Reqs)))
  }

  /** `formatData`: one row per entry, in order. */
  function FormatData(entries: seq<OverloadEntry>): (rows: seq<Row>)
    ensures |rows| == |entries|
    ensures forall i :: 0 <= i < |entries| ==> rows[i] == FormatRow(entries[i])
  {
    if |entries| == 0 then [] else FormatData(entries[..|entries| - 1]) + [FormatRow(entries[|entries| - 1])]
  }

  /** The chart point `plotData` keeps of one row. */
  function PlotOf(r: Row): (p: PlotPoint)
    ensures Row(p.timestamp, r.ruleName, r.triggerType, r.triggerValue, p.triggerPct, p.denyPct,
                r.arlid, r.ehnid, p.cpu, p.mem, p.reqs) == r
  {
    PlotPoint(r.timestamp, r.triggerPct, r.denyPct, r.cpu, r.mem, r.reqs)
  }

  /** `plotData`: one point per row, in order. */
  function PlotData(rows: seq<Row>): (points: seq<PlotPoint>)
    ensures |points| == |rows|
    ensures forall i :: 0 <= i < |rows| ==> points[i] == PlotOf(rows[i])
  {
    if |rows| == 0 then [] else PlotData(rows[..|rows| - 1]) + [PlotOf(rows[|rows| - 1])]
  }

  /** The panel for `logData` (None when `logData` itself is absent). */
  function Render(logData: Option<LogData>): (v: View)
    ensures v.NoData? <==>
      (logData.None? || logData.value.overloadManager.None? || |logData.value.overloadManager.value| == 0)
    ensures v.Table? ==> |v.rows| == |logData.value.overloadManager.value| && |v.plot| == |v.rows|
  {
    if logData.None? || logData.value.overloadManager.None? || |logData.value.overloadManager.value| == 0 then
      NoData
    else
      var rows := FormatData(logData.value.overloadManager.value);
      Table(rows, PlotData(rows))
  }

  // ---------------------------------------------------------------- properties

  /** No row holds NaN, and an entry without `metrics` shows 0 for all five load figures. */
  lemma RowNumbers(e: OverloadEntry)
    ensures var r := FormatRow(e);
      && !r.triggerValue.NaN? && !r.triggerPct.NaN? && !r.denyPct.NaN?
      && !r.arlid.NaN? && !r.ehnid.NaN? && !r.cpu.NaN? && !r.mem.NaN? && !r.reqs.NaN?
      && (e.metrics.None? ==> r.arlid == Zero && r.ehnid == Zero && r.cpu == Zero && r.mem == Zero && r.reqs == Zero)
  {
  }

  /** `formatData` commutes with concatenation, so it keeps order. */
  lemma {:induction false} FormatDataAppend(a: seq<OverloadEntry>, b: seq<OverloadEntry>)
    ensures FormatData(a + b) == FormatData(a) + FormatData(b)
  {
    var left, right := FormatData(a + b), FormatData(a) + FormatData(b);
    assert |left| == |right|;
    forall i | 0 <= i < |left| ensures left[i] == right[i] {
      if i < |a| {
        assert (a + b)[i] == a[i];
      } else {
        assert (a + b)[i] == b[i - |a|];
      }
    }
  }

  /** Each chart point comes straight from the entry at the same position:
      the projection of the defaulted fields. */
  lemma PlotFromEntries(entries: seq<OverloadEntry>, i: int)
    requires 0 <= i < |entries|
    ensures var p := PlotData(FormatData(entries))[i];
      && p.timestamp == entries[i].timestamp
      && p.triggerPct == NumberOr(entries[i].triggerPct)
      && p.denyPct == NumberOr(entries[i].denyPct)
      && p.cpu == NumberOr(MetricField(entries[i].metrics, Cpu))
      && p.mem == NumberOr(MetricField(entries[i].metrics, Mem))
      && p.reqs == NumberOr(MetricField(entries[i].metrics, Reqs))
  {
  }

  /** The charts do not depend on the descriptive fields: two entries that
      differ only in rule name, trigger type, trigger value, ARLID or EHNID
      plot the same point. */
  lemma PlotIgnoresDescriptiveFields(e: OverloadEntry, f: OverloadEntry)
    requires e.timestamp == f.timestamp && e.triggerPct == f.triggerPct && e.denyPct == f.denyPct
    requires e.metrics.Some? <==> f.metrics.Some?
    requires e.metrics.Some? ==>
      e.metrics.value.cpu == f.metrics.value.cpu && e.metrics.value.mem == f.metrics.value.mem
      && e.metrics.value.reqs == f.metrics.value.reqs
    ensures PlotOf(FormatRow(e)) == PlotOf(FormatRow(f))
  {
  }

  /** The rows of a non-empty collection are exactly the default-filled entries. */
  lemma TableOfEntries(entries: seq<OverloadEntry>)
    requires |entries| > 0
    ensures Render(Some(LogData(Some(entries)))) == Table(FormatData(entries), PlotData(FormatData(entries)))
  {
  }

  // ---------------------------------------------------------------- records of the log parser hook

  /** A record the log parser hook places in `overloadManager`, seen as a panel
      entry: it carries the timestamp and the two percentages and nothing else. */
  function FromParsed(e: LogParser.Entry): (o: OverloadEntry)
    ensures o.timestamp == e.timestamp
    ensures o.ruleName.None? && o.triggerType.None? && o.triggerValue.None? && o.metrics.None?
    ensures e.fields.OverloadFields? ==> o.triggerPct == e.fields.triggerPct && o.denyPct == e.fields.denyPct
    ensures !e.fields.OverloadFields? ==> o.triggerPct.None? && o.denyPct.None?
  {
    match e.fields
    case OverloadFields(triggerPct, denyPct) => OverloadEntry(e.timestamp, None, None, None, triggerPct, denyPct, None)
    case _ => OverloadEntry(e.timestamp, None, None, None, None, None, None)
  }

  function FromParsedAll(es: seq<LogParser.Entry>): (os: seq<OverloadEntry>)
    ensures |os| == |es|
    ensures forall i :: 0 <= i < |es| ==> os[i] == FromParsed(es[i])
  {
    if |es| == 0 then [] else FromParsedAll(es[..|es| - 1]) + [FromParsed(es[|es| - 1])]
  }

  /** Fed with the dataset of the log parser hook, the panel shows "no data"
      exactly when no line had a trigger percentage; otherwise each row has
      empty rule name and trigger type, zero trigger value and load figures,
      and the parsed trigger percentage (which is never absent there). */
  lemma {:induction false} ParsedDatasetRows(cfg: LogParser.Config, lines: seq<string>)
    ensures var om := LogParser.DatasetOf(cfg, lines).overloadManager;
      var v := Render(Some(LogData(Some(FromParsedAll(om)))));
      && (v.NoData? <==> |om| == 0)
      && (v.Table? ==> forall i :: 0 <= i < |om| ==>
            var r := v.rows[i];
            && om[i].fields.OverloadFields? && om[i].fields.triggerPct.Some?
            && r.timestamp == om[i].timestamp
            && r.triggerPct == OrElse(om[i].fields.triggerPct.value, Zero)
            && r.ruleName == "" && r.triggerType == "" && r.triggerValue == Zero
            && r.arlid == Zero && r.ehnid == Zero && r.cpu == Zero && r.mem == Zero && r.reqs == Zero)
  {
    var om := LogParser.DatasetOf(cfg, lines).overloadManager;
    LogParser.NoRecordInBoth(cfg, lines);
  }
}
