/** What the repository promises across calls: the add/update life cycle of
    a key, the precedence of the working set over the report, the exactness
    of keys, the contents of getRawMeasures and the "last snapshot" rule of
    getBaseMeasure. */
module MeasureRepositoryProperties {
  import opened Measures
  import opened MeasureRepository

  // ---------------------------------------------------------------------
  // Life cycle of a key: absent --add--> present --update--> present

  /** add and update keep every measure under the key of its own scope. */
  lemma WritesKeepWellKeyed(w: WorkingSet, c: Component, m: Metric, v: Measure)
    requires WellKeyed(w)
    ensures Added(w, c, m, v).Success? ==> WellKeyed(Added(w, c, m, v).value)
    ensures Updated(w, c, m, v).Success? ==> WellKeyed(Updated(w, c, m, v).value)
  {
  }

  /** Exactly one of add and update is legal for a measure, and neither
      makes a present key absent: there is no way back to "absent". */
  lemma AddXorUpdate(w: WorkingSet, c: Component, m: Metric, v: Measure, k: RawKey)
    ensures Added(w, c, m, v).Success? <==> Updated(w, c, m, v).Failure?
    ensures Added(w, c, m, v).Success? <==> KeyOf(c, m, v) !in w
    ensures k in w && Added(w, c, m, v).Success? ==> k in Added(w, c, m, v).value
    ensures k in w && Updated(w, c, m, v).Success? ==> k in Updated(w, c, m, v).value
  {
  }

  /** A second add under the same key fails with UnsupportedOperation,
      whatever measure it brings, and the first measure is still there. */
  lemma AddTwiceFails(w: WorkingSet, c: Component, m: Metric, v1: Measure, v2: Measure)
    requires Added(w, c, m, v1).Success?
    requires v2.scope == v1.scope
    ensures Added(Added(w, c, m, v1).value, c, m, v2) == Failure(UnsupportedOperation)
    ensures Added(w, c, m, v1).value[KeyOf(c, m, v1)] == v1
  {
  }

  /** update of a key that was never added fails with UnsupportedOperation;
      in particular on an empty repository. */
  lemma UpdateWithoutAddFails(w: WorkingSet, c: Component, m: Metric, v: Measure)
    requires KeyOf(c, m, v) !in w
    ensures Updated(w, c, m, v) == Failure(UnsupportedOperation)
    ensures Updated(map[], c, m, v) == Failure(UnsupportedOperation)
  {
  }

  /** add then update: update is legal, also with the very value that was
      added (and then changes nothing), and getRawMeasure returns the new
      value whatever the report holds. */
  lemma AddThenUpdate(w: WorkingSet, report: Report, c: Component, m: Metric, v1: Measure, v2: Measure)
    requires Added(w, c, m, v1).Success?
    requires v1.scope == Unscoped && v2.scope == Unscoped
    ensures Updated(Added(w, c, m, v1).value, c, m, v2).Success?
    ensures RawMeasure(Updated(Added(w, c, m, v1).value, c, m, v2).value, report, c, m) == Some(v2)
    ensures Updated(Added(w, c, m, v1).value, c, m, v1) == Added(w, c, m, v1)
  {
    var w1 := Added(w, c, m, v1).value;
    assert w1[KeyOf(c, m, v1) := v1] == w1;
  }

  // ---------------------------------------------------------------------
  // Unscoped raw reads

  /** After add(c, m, v) getRawMeasure(c, m) returns v, and every read of
      another component reference or another metric key is what it was. */
  lemma AddThenRawMeasure(w: WorkingSet, report: Report, c: Component, m: Metric, v: Measure, c': Component, m': Metric)
    requires Added(w, c, m, v).Success?
    requires v.scope == Unscoped
    ensures RawMeasure(Added(w, c, m, v).value, report, c, m) == Some(v)
    ensures c'.ref != c.ref ==> RawMeasure(Added(w, c, m, v).value, report, c', m') == RawMeasure(w, report, c', m')
    ensures m'.key != m.key ==> RawMeasure(Added(w, c, m, v).value, report, c', m') == RawMeasure(w, report, c', m')
  {
  }

  /** Without an unscoped working measure getRawMeasure(c, m) is the first
      report measure for c's reference and m's key, and nothing when the
      report has none. */
  lemma RawMeasureFallsBackToReport(w: WorkingSet, report: Report, c: Component, m: Metric)
    requires RawKey(c.ref, m.key, Unscoped) !in w
    ensures RawMeasure(w, report, c, m).Some? <==>
      exists i :: 0 <= i < |ReportFor(report, c.ref)| && ReportFor(report, c.ref)[i].metricKey == m.key
    ensures RawMeasure(w, report, c, m).Some? ==>
      exists i :: 0 <= i < |ReportFor(report, c.ref)| && ReportFor(report, c.ref)[i].metricKey == m.key &&
        RawMeasure(w, report, c, m).value == FromReport(ReportFor(report, c.ref)[i].value)
    ensures c.ref !in report ==> RawMeasure(w, report, c, m) == None
  {
  }

  /** With a report measure for (c, m): getRawMeasure(c, m) returns it until
      a measure is added for (c, m), and the added one from then on. */
  lemma AddedWinsOverReport(w: WorkingSet, report: Report, c: Component, m: Metric, v: Measure)
    requires Added(w, c, m, v).Success?
    requires v.scope == Unscoped
    requires FirstReported(ReportFor(report, c.ref), m.key).Some?
    ensures RawMeasure(w, report, c, m) == Some(FromReport(FirstReported(ReportFor(report, c.ref), m.key).value))
    ensures RawMeasure(Added(w, c, m, v).value, report, c, m) == Some(v)
  {
  }

  // ---------------------------------------------------------------------
  // Scoped raw reads

  /** Measures that differ only in their rule id (or only in their
      characteristic id) live under distinct keys: both adds succeed and the
      scoped read returns exactly the one with the matching id. */
  lemma ScopedKeysAreDistinct(w: WorkingSet, c: Component, m: Metric, v1: Measure, v2: Measure)
    requires Added(w, c, m, v1).Success?
    requires v1.scope != v2.scope
    requires KeyOf(c, m, v2) !in w
    ensures Added(Added(w, c, m, v1).value, c, m, v2).Success?
    ensures ScopedRawMeasure(Added(Added(w, c, m, v1).value, c, m, v2).value, c, m, v1.scope) == Some(v1)
    ensures ScopedRawMeasure(Added(Added(w, c, m, v1).value, c, m, v2).value, c, m, v2.scope) == Some(v2)
  {
  }

  /** A scoped read of an empty repository finds nothing, whatever the
      scope. */
  lemma ScopedReadOfEmptyRepository(c: Component, m: Metric, s: Scope)
    ensures ScopedRawMeasure(map[], c, m, s) == None
  {
  }

  // ---------------------------------------------------------------------
  // getRawMeasures

  /** Where MergeReport files a key, and what it files there: working
      entries are kept, a free unscoped key of the component gets the first
      report measure of its metric, and nothing else is added. */
  lemma {:induction false} MergeReportAt(merged: WorkingSet, entries: seq<ReportMeasure>, ref: int, k: RawKey)
    ensures k in MergeReport(merged, entries, ref) <==>
      k in merged || (k.componentRef == ref && k.scope == Unscoped && FirstReported(entries, k.metricKey).Some?)
    ensures k in merged ==> MergeReport(merged, entries, ref)[k] == merged[k]
    ensures k !in merged && k.componentRef == ref && k.scope == Unscoped && FirstReported(entries, k.metricKey).Some? ==>
      MergeReport(merged, entries, ref)[k] == FromReport(FirstReported(entries, k.metricKey).value)
    decreases |entries|
  {
    if entries != [] {
      var k0 := RawKey(ref, entries[0].metricKey, Unscoped);
      var next := if k0 in merged then merged else merged[k0 := FromReport(entries[0].value)];
      MergeReportAt(next, entries[1..], ref, k);
    }
  }

  /** The metric keys the report holds for a component. */
  function ReportedMetricKeys(entries: seq<ReportMeasure>): set<string>
  {
    set i | 0 <= i < |entries| :: entries[i].metricKey
  }

  /** The working measures of the component for one metric key, whatever
      their scope. */
  function WorkingMeasures(w: WorkingSet, ref: int, mk: string): set<Measure>
  {
    set k | k in w && k.componentRef == ref && k.metricKey == mk :: w[k]
  }

  /** The report's measure for the metric key as a set: empty when the
      report has none. */
  function ReportedMeasures(entries: seq<ReportMeasure>, mk: string): set<Measure>
  {
    match FirstReported(entries, mk)
    case Some(v) => {FromReport(v)}
    case None => {}
  }

  /** getRawMeasures(c) for one metric key: all working measures of c for
      the key (unscoped and scoped), plus the report's measure exactly when
      no unscoped working measure takes its place. */
  lemma {:induction false} RawMeasuresContents(w: WorkingSet, report: Report, c: Component, mk: string)
    ensures Get(RawMeasures(w, report, c), mk) ==
      WorkingMeasures(w, c.ref, mk) +
      (if RawKey(c.ref, mk, Unscoped) in w then {} else ReportedMeasures(ReportFor(report, c.ref), mk))
  {
    var entries := ReportFor(report, c.ref);
    var ce := ComponentEntries(w, c.ref);
    var merged := MergeReport(ce, entries, c.ref);
    var lhs := Get(RawMeasures(w, report, c), mk);
    var rhs := WorkingMeasures(w, c.ref, mk) +
      (if RawKey(c.ref, mk, Unscoped) in w then {} else ReportedMeasures(entries, mk));
    assert lhs == set k | k in merged && k.metricKey == mk :: merged[k] by {
      if mk !in MetricKeys(merged) {
        assert forall k :: k in merged ==> k.metricKey != mk;
      }
    }
    forall x | x in lhs ensures x in rhs {
      var k :| k in merged && k.metricKey == mk && merged[k] == x;
      MergeReportAt(ce, entries, c.ref, k);
      if k in ce {
        assert k in w && w[k] == x;
      } else {
        assert k == RawKey(c.ref, mk, Unscoped);
      }
    }
    forall x | x in rhs ensures x in lhs {
      if x in WorkingMeasures(w, c.ref, mk) {
        var k :| k in w && k.componentRef == c.ref && k.metricKey == mk && w[k] == x;
        MergeReportAt(ce, entries, c.ref, k);
        assert k in merged && merged[k] == x;
      } else {
        var k := RawKey(c.ref, mk, Unscoped);
        MergeReportAt(ce, entries, c.ref, k);
        assert k in merged && merged[k] == x;
      }
    }
  }

  /** The metric keys of getRawMeasures(c) are exactly those of c's working
      measures and of c's report measures. */
  lemma {:induction false} RawMeasuresKeys(w: WorkingSet, report: Report, c: Component)
    ensures RawMeasures(w, report, c).Keys == MetricKeys(ComponentEntries(w, c.ref)) + ReportedMetricKeys(ReportFor(report, c.ref))
  {
    var entries := ReportFor(report, c.ref);
    var ce := ComponentEntries(w, c.ref);
    var merged := MergeReport(ce, entries, c.ref);
    forall mk | mk in RawMeasures(w, report, c).Keys
      ensures mk in MetricKeys(ComponentEntries(w, c.ref)) + ReportedMetricKeys(entries)
    {
      var k :| k in merged && k.metricKey == mk;
      MergeReportAt(ce, entries, c.ref, k);
      if k !in ce {
        var i :| 0 <= i < |entries| && entries[i].metricKey == mk;
        assert mk in ReportedMetricKeys(entries);
      }
    }
    forall mk | mk in MetricKeys(ComponentEntries(w, c.ref)) + ReportedMetricKeys(entries)
      ensures mk in RawMeasures(w, report, c).Keys
    {
      if mk in MetricKeys(ComponentEntries(w, c.ref)) {
        var k :| k in w && k.componentRef == c.ref && k.metricKey == mk;
        MergeReportAt(ce, entries, c.ref, k);
        assert k in merged;
      } else {
        var i :| 0 <= i < |entries| && entries[i].metricKey == mk;
        var k := RawKey(c.ref, mk, Unscoped);
        MergeReportAt(ce, entries, c.ref, k);
        assert k in merged;
      }
    }
  }

  /** The bulk read agrees with the single reads: among the measures of
      getRawMeasures(c) for m's key, the unscoped one is getRawMeasure(c, m)
      and the one of a scope s is getRawMeasure(c, m, s). */
  lemma RawMeasuresAgreeWithLookups(w: WorkingSet, report: Report, c: Component, m: Metric, x: Measure)
    requires WellKeyed(w)
    ensures x in Get(RawMeasures(w, report, c), m.key) && x.scope == Unscoped <==> RawMeasure(w, report, c, m) == Some(x)
    ensures x.scope != Unscoped ==>
      (x in Get(RawMeasures(w, report, c), m.key) <==> ScopedRawMeasure(w, c, m, x.scope) == Some(x))
  {
    RawMeasuresContents(w, report, c, m.key);
    var k := RawKey(c.ref, m.key, x.scope);
    if x in WorkingMeasures(w, c.ref, m.key) {
      var k' :| k' in w && k'.componentRef == c.ref && k'.metricKey == m.key && w[k'] == x;
      assert k' == k;
    }
  }

  /** update of a scoped measure replaces it in getRawMeasures(c): the new
      measure is there, the one it replaces is gone, nothing else changes;
      the scoped read returns the new measure. */
  lemma UpdateScopedInRawMeasures(w: WorkingSet, report: Report, c: Component, m: Metric, v: Measure)
    requires WellKeyed(w)
    requires v.scope != Unscoped
    requires Updated(w, c, m, v).Success?
    ensures Get(RawMeasures(Updated(w, c, m, v).value, report, c), m.key) ==
      Get(RawMeasures(w, report, c), m.key) - {w[KeyOf(c, m, v)]} + {v}
    ensures ScopedRawMeasure(Updated(w, c, m, v).value, c, m, v.scope) == Some(v)
  {
    var w2 := Updated(w, c, m, v).value;
    var k := KeyOf(c, m, v);
    var replaced := w[k];
    RawMeasuresContents(w, report, c, m.key);
    RawMeasuresContents(w2, report, c, m.key);
    assert WorkingMeasures(w2, c.ref, m.key) == WorkingMeasures(w, c.ref, m.key) - {replaced} + {v} by {
      forall x | x in WorkingMeasures(w, c.ref, m.key) && x != replaced
        ensures x in WorkingMeasures(w2, c.ref, m.key)
      {
        var k' :| k' in w && k'.componentRef == c.ref && k'.metricKey == m.key && w[k'] == x;
        assert k' != k;
      }
      forall x | x in WorkingMeasures(w2, c.ref, m.key) && x != v
        ensures x in WorkingMeasures(w, c.ref, m.key) && x != replaced
      {
        var k' :| k' in w2 && k'.componentRef == c.ref && k'.metricKey == m.key && w2[k'] == x;
        assert k' != k && w[k'] == x;
        assert x.scope == k'.scope;
      }
      assert w2[k] == v;
    }
    var r := ReportedMeasures(ReportFor(report, c.ref), m.key);
    assert replaced !in r;
  }

  // ---------------------------------------------------------------------
  // getBaseMeasure

  /** No persisted row means no base measure. */
  lemma NoRowNoBaseMeasure(c: Component, m: Metric)
    ensures BaseMeasure([], c, m) == None
  {
  }

  /** A row on a snapshot that is not the last one never changes the base
      measure, wherever it stands among the rows. */
  lemma {:induction false} NonLastRowIgnored(before: seq<PersistedMeasure>, row: PersistedMeasure, after: seq<PersistedMeasure>, c: Component, m: Metric)
    requires !row.snapshotIsLast
    ensures BaseMeasure(before + [row] + after, c, m) == BaseMeasure(before + after, c, m)
    decreases |before|
  {
    if before == [] {
      assert before + [row] + after == [row] + after;
      assert before + after == after;
      assert ([row] + after)[1..] == after;
    } else {
      NonLastRowIgnored(before[1..], row, after, c, m);
      assert (before + [row] + after)[1..] == before[1..] + [row] + after;
      assert (before + after)[1..] == before[1..] + after;
    }
  }

  /** The base measure is the one of the first row of the component and
      metric on the last snapshot; a row of the same component and metric
      on an older snapshot is never returned. */
  lemma BaseMeasureOnlyFromLastSnapshot(rows: seq<PersistedMeasure>, c: Component, m: Metric, i: nat)
    requires i < |rows| && rows[i].componentKey == c.key && rows[i].metricKey == m.key
    requires forall j :: 0 <= j < i ==> !IsBaseRow(rows[j], c, m)
    ensures rows[i].snapshotIsLast ==> BaseMeasure(rows, c, m) == Some(FromPersisted(rows[i]))
    ensures !rows[i].snapshotIsLast && (forall j :: i < j < |rows| ==> !IsBaseRow(rows[j], c, m)) ==>
      BaseMeasure(rows, c, m) == None
  {
  }
}
