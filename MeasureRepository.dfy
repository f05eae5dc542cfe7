/** The measure repository of one analysis run. It reconciles three layers:
    the working set filled by add and update during the run, the batch
    report of the run (read only) and the measures persisted by earlier runs
    (read only). The functions below give the meaning of every read and of
    every write on plain values; the class MeasureRepositoryImpl holds the
    working set as a field and is proved against them. */
module MeasureRepository {
  import opened Measures

  /** The measures added or updated during the run. */
  type WorkingSet = map<RawKey, Measure>

  /** The batch report: the measures it holds for each component reference. */
  type Report = map<int, seq<ReportMeasure>>

  /** A set multimap from metric key to measures. */
  type Multimap = map<string, set<Measure>>

  /** The key under which add and update file a measure: the scope comes
      from the measure itself. */
  function KeyOf(c: Component, m: Metric, v: Measure): RawKey
  {
    RawKey(c.ref, m.key, v.scope)
  }

  /** Every stored measure sits under the key of its own scope. */
  ghost predicate WellKeyed(w: WorkingSet)
  {
    forall k :: k in w ==> w[k].scope == k.scope
  }

  // ---------------------------------------------------------------------
  // Writes

  /** add: legal only while the key is free; it then files the measure. */
  function Added(w: WorkingSet, c: Component, m: Metric, v: Measure): Result<WorkingSet>
  {
    var k := KeyOf(c, m, v);
    if k in w then Failure(UnsupportedOperation) else Success(w[k := v])
  }

  /** update: legal only once the key is taken; it then replaces the measure. */
  function Updated(w: WorkingSet, c: Component, m: Metric, v: Measure): Result<WorkingSet>
  {
    var k := KeyOf(c, m, v);
    if k in w then Success(w[k := v]) else Failure(UnsupportedOperation)
  }

  // ---------------------------------------------------------------------
  // Raw reads

  /** The measures the report holds for a component reference; none when
      the report has nothing for it. */
  function ReportFor(report: Report, ref: int): seq<ReportMeasure>
  {
    if ref in report then report[ref] else []
  }

  /** The value of the first report measure for the metric key, in the
      order the report reader yields them. */
  function FirstReported(entries: seq<ReportMeasure>, metricKey: string): (r: Option<MeasureValue>)
    ensures r.None? <==> forall i :: 0 <= i < |entries| ==> entries[i].metricKey != metricKey
    ensures r.Some? ==>
      exists i :: 0 <= i < |entries| && entries[i].metricKey == metricKey && entries[i].value == r.value &&
        forall j :: 0 <= j < i ==> entries[j].metricKey != metricKey
    decreases |entries|
  {
    if entries == [] then None
    else if entries[0].metricKey == metricKey then Some(entries[0].value)
    else
      var r := FirstReported(entries[1..], metricKey);
      assert forall i :: 1 <= i < |entries| ==> entries[i] == entries[1..][i - 1];
      r
  }

  /** getRawMeasure(component, metric): the unscoped working measure, else
      the report's measure for the metric, else nothing. */
  function RawMeasure(w: WorkingSet, report: Report, c: Component, m: Metric): Option<Measure>
  {
    var k := RawKey(c.ref, m.key, Unscoped);
    if k in w then Some(w[k])
    else
      match FirstReported(ReportFor(report, c.ref), m.key)
      case Some(v) => Some(FromReport(v))
      case None => None
  }

  /** getRawMeasure(component, metric, rule or characteristic): the working
      measure filed under exactly that scope; the report is not consulted. */
  function ScopedRawMeasure(w: WorkingSet, c: Component, m: Metric, s: Scope): Option<Measure>
  {
    var k := RawKey(c.ref, m.key, s);
    if k in w then Some(w[k]) else None
  }

  /** The working entries of one component. */
  function ComponentEntries(w: WorkingSet, ref: int): WorkingSet
  {
    map k | k in w && k.componentRef == ref :: w[k]
  }

  /** Files each report measure under its unscoped key, unless that key is
      already taken (by the working set or by an earlier report measure). */
  function MergeReport(merged: WorkingSet, entries: seq<ReportMeasure>, ref: int): WorkingSet
    decreases |entries|
  {
    if entries == [] then merged
    else
      var k := RawKey(ref, entries[0].metricKey, Unscoped);
      MergeReport(if k in merged then merged else merged[k := FromReport(entries[0].value)], entries[1..], ref)
  }

  /** The metric keys that keyed measures are filed under. */
  function MetricKeys(entries: WorkingSet): set<string>
  {
    set k | k in entries :: k.metricKey
  }

  /** Groups keyed measures by metric key. */
  function GroupByMetric(entries: WorkingSet): Multimap
  {
    map mk | mk in MetricKeys(entries) ::
      set k | k in entries && k.metricKey == mk :: entries[k]
  }

  /** getRawMeasures(component): the working entries of the component merged
      with its report measures, grouped by metric key. */
  function RawMeasures(w: WorkingSet, report: Report, c: Component): Multimap
  {
    GroupByMetric(MergeReport(ComponentEntries(w, c.ref), ReportFor(report, c.ref), c.ref))
  }

  /** get on a set multimap: no measures for a missing key. */
  function Get(mm: Multimap, mk: string): set<Measure>
  {
    if mk in mm then mm[mk] else {}
  }

  // ---------------------------------------------------------------------
  // Base reads

  /** A persisted row that getBaseMeasure may return for the component and
      metric: it belongs to them and its snapshot is the last one. */
  predicate IsBaseRow(row: PersistedMeasure, c: Component, m: Metric)
  {
    row.componentKey == c.key && row.metricKey == m.key && row.snapshotIsLast
  }

  /** getBaseMeasure(component, metric): the first persisted row of the
      component and metric on the last snapshot; rows of other snapshots are
      never returned. */
  function BaseMeasure(rows: seq<PersistedMeasure>, c: Component, m: Metric): (r: Option<Measure>)
    ensures r.None? <==> forall i :: 0 <= i < |rows| ==> !IsBaseRow(rows[i], c, m)
    ensures r.Some? ==>
      exists i :: 0 <= i < |rows| && IsBaseRow(rows[i], c, m) && r.value == FromPersisted(rows[i]) &&
        forall j :: 0 <= j < i ==> !IsBaseRow(rows[j], c, m)
    decreases |rows|
  {
    if rows == [] then None
    else if IsBaseRow(rows[0], c, m) then Some(FromPersisted(rows[0]))
    else
      var r := BaseMeasure(rows[1..], c, m);
      assert forall i :: 1 <= i < |rows| ==> rows[i] == rows[1..][i - 1];
      r
  }

  // ---------------------------------------------------------------------
  // The repository object

  class MeasureRepositoryImpl {
    /** The batch report of the run. */
    const report: Report
    /** The persisted measures, each joined with its metric's key and its
        snapshot's "last" flag. */
    const persisted: seq<PersistedMeasure>
    /** The measures added and updated during the run. */
    var working: WorkingSet

    ghost predicate Valid()
      reads this
    {
      WellKeyed(working)
    }

    constructor (report: Report, persisted: seq<PersistedMeasure>)
      ensures Valid()
      ensures this.report == report && this.persisted == persisted
      ensures working == map[]
    {
      this.report := report;
      this.persisted := persisted;
      working := map[];
    }

    /** add: fails, leaving the working set as it was, when the key of the
        measure is taken; otherwise files the measure. */
    method Add(c: Component, m: Metric, v: Measure) returns (outcome: Outcome)
      requires Valid()
      modifies this
      ensures Valid()
      ensures match Added(old(working), c, m, v)
        case Success(w) => outcome == Done && working == w
        case Failure(e) => outcome == Failed(e) && working == old(working)
    {
      var k := KeyOf(c, m, v);
      if k in working {
        outcome := Failed(UnsupportedOperation);
      } else {
        working := working[k := v];
        outcome := Done;
      }
    }

    /** update: fails, leaving the working set as it was, when the key of the
        measure is free; otherwise replaces the measure filed under it. */
    method Update(c: Component, m: Metric, v: Measure) returns (outcome: Outcome)
      requires Valid()
      modifies this
      ensures Valid()
      ensures match Updated(old(working), c, m, v)
        case Success(w) => outcome == Done && working == w
        case Failure(e) => outcome == Failed(e) && working == old(working)
    {
      var k := KeyOf(c, m, v);
      if k in working {
        working := working[k := v];
        outcome := Done;
      } else {
        outcome := Failed(UnsupportedOperation);
      }
    }

    /** getRawMeasure(component, metric): the working set first, then the
        report measures of the component in the order the reader yields them. */
    method GetRawMeasure(c: Component, m: Metric) returns (r: Option<Measure>)
      ensures r == RawMeasure(working, report, c, m)
    {
      var k := RawKey(c.ref, m.key, Unscoped);
      if k in working {
        return Some(working[k]);
      }
      var entries := ReportFor(report, c.ref);
      var i := 0;
      while i < |entries|
        invariant 0 <= i <= |entries|
        invariant forall j :: 0 <= j < i ==> entries[j].metricKey != m.key
      {
        if entries[i].metricKey == m.key {
          return Some(FromReport(entries[i].value));
        }
        i := i + 1;
      }
      return None;
    }

    /** getRawMeasure(component, metric, rule). */
    method GetRawMeasureForRule(c: Component, m: Metric, rule: Rule) returns (r: Option<Measure>)
      ensures r == ScopedRawMeasure(working, c, m, ForRule(rule.id))
    {
      var k := RawKey(c.ref, m.key, ForRule(rule.id));
      r := if k in working then Some(working[k]) else None;
    }

    /** getRawMeasure(component, metric, characteristic). */
    method GetRawMeasureForCharacteristic(c: Component, m: Metric, ch: Characteristic) returns (r: Option<Measure>)
      ensures r == ScopedRawMeasure(working, c, m, ForCharacteristic(ch.id))
    {
      var k := RawKey(c.ref, m.key, ForCharacteristic(ch.id));
      r := if k in working then Some(working[k]) else None;
    }

    /** getRawMeasures(component): starts from the component's working
        entries, files each report measure that finds its unscoped key free,
        and groups the result by metric key. */
    method GetRawMeasures(c: Component) returns (r: Multimap)
      ensures r == RawMeasures(working, report, c)
    {
      var entries := ReportFor(report, c.ref);
      var merged := ComponentEntries(working, c.ref);
      var i := 0;
      while i < |entries|
        invariant 0 <= i <= |entries|
        invariant MergeReport(merged, entries[i..], c.ref) == MergeReport(ComponentEntries(working, c.ref), entries, c.ref)
      {
        var k := RawKey(c.ref, entries[i].metricKey, Unscoped);
        assert entries[i..][1..] == entries[i + 1..];
        if k !in merged {
          merged := merged[k := FromReport(entries[i].value)];
        }
        i := i + 1;
      }
      r := GroupByMetric(merged);
    }

    /** getBaseMeasure(component, metric): scans the persisted rows for the
        first one of the component and metric on the last snapshot. */
    method GetBaseMeasure(c: Component, m: Metric) returns (r: Option<Measure>)
      ensures r == BaseMeasure(persisted, c, m)
    {
      var i := 0;
      while i < |persisted|
        invariant 0 <= i <= |persisted|
        invariant forall j :: 0 <= j < i ==> !IsBaseRow(persisted[j], c, m)
      {
        if IsBaseRow(persisted[i], c, m) {
          return Some(FromPersisted(persisted[i]));
        }
        i := i + 1;
      }
      return None;
    }
  }
}
