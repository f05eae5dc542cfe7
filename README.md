# Measure repository of an analysis run

A model of SonarQube's `MeasureRepositoryImpl`, the component of the compute
engine that reconciles measures during one analysis run. Three layers take part:

- the **working set**: measures the run's computation adds and updates;
- the **batch report**: the measures the scanner sent, per component reference
  (read only);
- the **persisted measures** of earlier analyses, each row joined with the
  "last" flag of its snapshot (read only).

A measure is filed under the key (component reference, metric key, scope). The
scope comes from the measure itself: none, one rule id, or one characteristic id.
A key starts **absent**. `add` makes it **present**. `update` keeps it present and
replaces its measure. `add` on a present key fails, and so does `update` on an
absent key. Both fail with `UnsupportedOperationException` and leave the working
set unchanged.

Reads:

- `getRawMeasure(c, m)` gives the unscoped working measure for (c, m). If there is
  none, it gives the first report measure of c for m's key.
- `getRawMeasure(c, m, rule)` and `getRawMeasure(c, m, characteristic)` read
  only the working entry with exactly that scope.
- `getRawMeasures(c)` groups c's working entries and c's report measures by
  metric key. A report measure goes under the unscoped key of its metric. It is
  dropped when that key is already taken, either by an unscoped working entry
  or by an earlier report measure of the same metric.
- `getBaseMeasure(c, m)` gives the first persisted row of c's key and m's key
  whose snapshot is the last one.

The model follows the behaviour `MeasureRepositoryImplTest.java` pins down.

Files:

- `Measures.dfy` holds the values: scopes, measures, keys, report measures and
  persisted rows.
- `MeasureRepository.dfy` holds the specification functions. They define each
  write (`Added`, `Updated`) and each read (`RawMeasure`, `ScopedRawMeasure`,
  `RawMeasures`, `BaseMeasure`) on plain values. It also holds the class
  `MeasureRepositoryImpl`. The class keeps the working set in a mutable `map`
  field, and its methods are proved against those functions.
- `MeasureRepositoryProperties.dfy` holds the lemmas about the specification
  functions.
- `MeasureRepositoryScenarios.dfy` holds client methods. They drive the class
  call by call, as the unit tests do. Each proves the tests' assertions from
  the class contracts and the lemmas.

Two error kinds follow the tests' own exceptions:

- A rejected `add` or `update` raises `UnsupportedOperationException`. It is
  modelled as `UnsupportedOperation`, not as a generic illegal-state error.
- A null argument raises `NullPointerException`. See "Left out".

## Model

| member | source | states |
|---|---|---|
| `MeasureRepository.MeasureRepositoryImpl.constructor` | server/sonar-server/src/test/java/org/sonar/server/computation/measure/MeasureRepositoryImplTest.java:82-89 | a fresh repository has an empty working set over the given report and persisted rows |
| `MeasureRepository.MeasureRepositoryImpl.Add` | server/sonar-server/src/test/java/org/sonar/server/computation/measure/MeasureRepositoryImplTest.java:175-179 | add fails with UnsupportedOperation and changes nothing when the measure's key is taken; otherwise it files the measure, and every measure stays under the key of its own scope |
| `MeasureRepository.MeasureRepositoryImpl.Update` | server/sonar-server/src/test/java/org/sonar/server/computation/measure/MeasureRepositoryImplTest.java:196-215 | update fails with UnsupportedOperation and changes nothing when the key is free; otherwise it replaces the measure under that key |
| `MeasureRepository.MeasureRepositoryImpl.GetRawMeasure` | server/sonar-server/src/test/java/org/sonar/server/computation/measure/MeasureRepositoryImplTest.java:259-304 | the result is the unscoped working measure, else the first report measure of the component for the metric key, found by scanning the report in order |
| `MeasureRepository.MeasureRepositoryImpl.GetRawMeasureForRule` | server/sonar-server/src/test/java/org/sonar/server/computation/measure/MeasureRepositoryImplTest.java:321-334 | the result is the working measure filed under exactly the rule's id, never a report measure |
| `MeasureRepository.MeasureRepositoryImpl.GetRawMeasureForCharacteristic` | server/sonar-server/src/test/java/org/sonar/server/computation/measure/MeasureRepositoryImplTest.java:351-364 | the result is the working measure filed under exactly the characteristic's id, never a report measure |
| `MeasureRepository.MeasureRepositoryImpl.GetRawMeasures` | server/sonar-server/src/test/java/org/sonar/server/computation/measure/MeasureRepositoryImplTest.java:366-382 | the multimap built by merging report measures one by one into the component's working entries equals the specification `RawMeasures` |
| `MeasureRepository.MeasureRepositoryImpl.GetBaseMeasure` | server/sonar-server/src/test/java/org/sonar/server/computation/measure/MeasureRepositoryImplTest.java:133-158 | the scan of the persisted rows returns the specification `BaseMeasure` |
| `MeasureRepository.FirstReported` | server/sonar-server/src/test/java/org/sonar/server/computation/measure/MeasureRepositoryImplTest.java:273-289 | absent exactly when no report measure has the metric key; otherwise the value of the first one that has it |
| `MeasureRepository.BaseMeasure` | server/sonar-server/src/test/java/org/sonar/server/computation/measure/MeasureRepositoryImplTest.java:133-158 | absent exactly when no row of the component and metric is on the last snapshot; otherwise the first such row |
| `MeasureRepositoryProperties.WritesKeepWellKeyed` | server/sonar-server/src/test/java/org/sonar/server/computation/measure/MeasureRepositoryImplTest.java:217-237 | add and update keep every measure under the key of its own scope |
| `MeasureRepositoryProperties.AddXorUpdate` | server/sonar-server/src/test/java/org/sonar/server/computation/measure/MeasureRepositoryImplTest.java:175-205 | for any measure exactly one of add and update is legal, add exactly when the key is free; neither makes a present key absent |
| `MeasureRepositoryProperties.AddTwiceFails` | server/sonar-server/src/test/java/org/sonar/server/computation/measure/MeasureRepositoryImplTest.java:175-179 | a second add under the same key fails with UnsupportedOperation; the first measure stays |
| `MeasureRepositoryProperties.UpdateWithoutAddFails` | server/sonar-server/src/test/java/org/sonar/server/computation/measure/MeasureRepositoryImplTest.java:196-199 | update of a key never added fails with UnsupportedOperation, on an empty repository too |
| `MeasureRepositoryProperties.AddThenUpdate` | server/sonar-server/src/test/java/org/sonar/server/computation/measure/MeasureRepositoryImplTest.java:201-215 | after add, update is legal; with the same value it changes nothing; with a new value getRawMeasure returns the new value |
| `MeasureRepositoryProperties.AddThenRawMeasure` | server/sonar-server/src/test/java/org/sonar/server/computation/measure/MeasureRepositoryImplTest.java:259-271 | after add(c, m, v) getRawMeasure(c, m) is v, and reads for another component reference or another metric key are unchanged |
| `MeasureRepositoryProperties.RawMeasureFallsBackToReport` | server/sonar-server/src/test/java/org/sonar/server/computation/measure/MeasureRepositoryImplTest.java:273-289 | with no unscoped working measure, getRawMeasure is present exactly when the component's report has the metric key, and then gives a report measure of that key; it is absent for a component with no report measures |
| `MeasureRepositoryProperties.AddedWinsOverReport` | server/sonar-server/src/test/java/org/sonar/server/computation/measure/MeasureRepositoryImplTest.java:291-304 | getRawMeasure gives the report measure until a measure is added for (c, m), and the added one afterwards |
| `MeasureRepositoryProperties.ScopedKeysAreDistinct` | server/sonar-server/src/test/java/org/sonar/server/computation/measure/MeasureRepositoryImplTest.java:326-334 | two measures that differ only in scope can both be added, and each scoped read returns the one with its own scope |
| `MeasureRepositoryProperties.ScopedReadOfEmptyRepository` | server/sonar-server/src/test/java/org/sonar/server/computation/measure/MeasureRepositoryImplTest.java:321-324 | a scoped read of an empty repository is absent |
| `MeasureRepositoryProperties.MergeReportAt` | server/sonar-server/src/test/java/org/sonar/server/computation/measure/MeasureRepositoryImplTest.java:366-382 | merging the report keeps every working entry; it gives a free unscoped key of the component the first report measure of its metric, and adds nothing else |
| `MeasureRepositoryProperties.RawMeasuresContents` | server/sonar-server/src/test/java/org/sonar/server/computation/measure/MeasureRepositoryImplTest.java:366-382 | getRawMeasures(c) for a metric key holds all working measures of c for the key, whatever their scope, plus the report measure exactly when no unscoped working measure takes its place |
| `MeasureRepositoryProperties.RawMeasuresKeys` | server/sonar-server/src/test/java/org/sonar/server/computation/measure/MeasureRepositoryImplTest.java:379 | the keys of getRawMeasures(c) are exactly the metric keys of c's working measures and of c's report measures |
| `MeasureRepositoryProperties.RawMeasuresAgreeWithLookups` | server/sonar-server/src/test/java/org/sonar/server/computation/measure/MeasureRepositoryImplTest.java:380-381 | among getRawMeasures(c)'s measures for m's key, the unscoped one is exactly getRawMeasure(c, m), and the one of scope s is exactly the scoped read for s |
| `MeasureRepositoryProperties.UpdateScopedInRawMeasures` | server/sonar-server/src/test/java/org/sonar/server/computation/measure/MeasureRepositoryImplTest.java:217-237 | on any working set, updating a rule- or characteristic-scoped measure replaces the measure filed under its key by the new one in getRawMeasures(c)[m] and changes nothing else there; the scoped read then returns the new one |
| `MeasureRepositoryProperties.NoRowNoBaseMeasure` | server/sonar-server/src/test/java/org/sonar/server/computation/measure/MeasureRepositoryImplTest.java:133-138 | with no persisted row there is no base measure |
| `MeasureRepositoryProperties.NonLastRowIgnored` | server/sonar-server/src/test/java/org/sonar/server/computation/measure/MeasureRepositoryImplTest.java:154-157 | a row on a snapshot that is not the last one never changes the base measure, wherever it stands |
| `MeasureRepositoryProperties.BaseMeasureOnlyFromLastSnapshot` | server/sonar-server/src/test/java/org/sonar/server/computation/measure/MeasureRepositoryImplTest.java:140-158 | the first row of a component and metric is the base measure when its snapshot is last; when it is not, and no later row qualifies, the base measure is absent |

## Left out

- Null arguments. The tests at lines 113-131, 160-194, 239-257 and 306-349
  expect a `NullPointerException`, and no database or report read in that case.
  Dafny's datatype values cannot be null, so these calls cannot be written
  against the model, and the "no collaborator touched" checks have nothing to
  observe.
- The database (sessions, DAOs, the joins with the component, metric and
  snapshot tables). The persisted measures are given as a sequence of rows.
  Each row is already joined with its component's key, its metric's key and
  its snapshot's "last" flag. A row is matched on the metric's key, as the
  test does: it stubs only `metric1.getKey()` (lines 96-99), yet finds the row
  stored under `METRIC_ID_1`. The rows carry no rule or characteristic, and the
  base measure is unscoped.
- The batch report reader and its protocol buffers. The report is given as a
  map from component reference to the list of report measures, in the reader's
  order.
- Caching the report per component reference on first access. The tests do not
  assert it, so the model re-reads the `report` field, which never changes, on
  every call.
- The metric repository and the conversion of a report measure by its metric's
  type. A report measure carries its value already typed. The rule cache is
  not used by any tested behaviour.
- Measure builder internals (variations, alert text, description) and metric
  types. A measure is a scope plus an opaque value.
- `isSameAs`. The model uses value equality in place of object identity, so
  "the same object" is "an equal value".
- `update` of a key present only in the report. No test covers it; the model
  accepts an update only for a key in the working set.
- Mockito interaction checks. They observe the collaborators, not the
  repository's results.
- Duplicate metric keys in the report: when it holds two measures for the same
  metric key, only the first one read is kept, in both `getRawMeasure` and
  `getRawMeasures`. No test pins this case down.
