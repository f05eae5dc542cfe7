/** The values the measure repository stores, reads and keys on.
    Measures are opaque to the repository: it never looks inside a value,
    only at the scope a measure is tagged with. */
module Measures {

  datatype Option<+T> = None | Some(value: T)

  /** The one failure the repository signals itself: adding a measure whose
      key is taken, or updating one whose key is free. */
  datatype RepositoryError = UnsupportedOperation

  datatype Result<+T> = Success(value: T) | Failure(error: RepositoryError)

  /** What a state-changing call of the repository reports to its caller. */
  datatype Outcome = Done | Failed(error: RepositoryError)

  /** The secondary scope a measure may carry: none, one rule or one
      technical-debt characteristic, never both. */
  datatype Scope = Unscoped | ForRule(ruleId: int) | ForCharacteristic(characteristicId: int)

  /** Quality-gate level of a measure. */
  datatype Level = Ok | Warn | Error

  /** The typed value of a measure. */
  datatype MeasureValue =
    | NoValue
    | BoolValue(b: bool)
    | IntValue(i: int)
    | StringValue(s: string)
    | LevelValue(level: Level)

  /** A measure is an immutable value tagged with its scope. */
  datatype Measure = Measure(scope: Scope, value: MeasureValue)

  /** A node of the analysed project tree: its reference is valid within one
      analysis run, its key identifies it in the database. */
  datatype Component = Component(ref: int, key: string)

  datatype Metric = Metric(id: int, key: string)

  datatype Rule = Rule(id: int, key: string)

  datatype Characteristic = Characteristic(id: int, key: string)

  /** The key of the working set: component reference, metric key and scope. */
  datatype RawKey = RawKey(componentRef: int, metricKey: string, scope: Scope)

  /** One measure of the batch report, as the report reader yields it. */
  datatype ReportMeasure = ReportMeasure(metricKey: string, value: MeasureValue)

  /** One persisted measure row, joined with the key of its metric and the
      "last" flag of its snapshot. */
  datatype PersistedMeasure = PersistedMeasure(componentKey: string, metricKey: string, snapshotIsLast: bool, value: MeasureValue)

  /** A report measure as the repository hands it out: the report holds
      unscoped measures only. */
  function FromReport(v: MeasureValue): Measure
  {
    Measure(Unscoped, v)
  }

  /** A persisted row as the repository hands it out. */
  function FromPersisted(row: PersistedMeasure): Measure
  {
    Measure(Unscoped, row.value)
  }
}
