/** Clients of MeasureRepositoryImpl that drive it call by call as the unit
    tests of the repository do, and prove what those tests assert from the
    contracts of the class and the lemmas about its specification alone. */
module MeasureRepositoryScenarios {
  import opened Measures
  import opened MeasureRepository
  import opened MeasureRepositoryProperties

  const FileComponent := Component(1, "file cpt key")
  const OtherComponent := Component(2, "some other key")
  // The test stubs only the key of its metrics, so their id is the mock's 0.
  const Metric1 := Metric(0, "metric 1")
  const Metric2 := Metric(0, "metric 2")
  const SomeMeasure := Measure(Unscoped, LevelValue(Ok))
  const SomeRule := Rule(963, "A:1")
  const SomeCharacteristic := Characteristic(741, "key")

  method AddTwiceIsRejected()
  {
    var repo := new MeasureRepositoryImpl(map[], []);
    var first := repo.Add(FileComponent, Metric1, SomeMeasure);
    var second := repo.Add(FileComponent, Metric1, SomeMeasure);
    assert first == Done;
    assert second == Failed(UnsupportedOperation);
    var raw := repo.GetRawMeasure(FileComponent, Metric1);
    assert raw == Some(SomeMeasure);
  }

  method UpdateWithoutAddIsRejected()
  {
    var repo := new MeasureRepositoryImpl(map[], []);
    var outcome := repo.Update(FileComponent, Metric1, SomeMeasure);
    assert outcome == Failed(UnsupportedOperation);
    assert repo.working == map[];
  }

  method UpdateToTheSameValueAndToANewOne()
  {
    var newMeasure := Measure(Unscoped, StringValue("new"));
    var repo := new MeasureRepositoryImpl(map[], []);
    var added := repo.Add(FileComponent, Metric1, SomeMeasure);
    var same := repo.Update(FileComponent, Metric1, SomeMeasure);
    var changed := repo.Update(FileComponent, Metric1, newMeasure);
    assert added == Done && same == Done && changed == Done;
    var raw := repo.GetRawMeasure(FileComponent, Metric1);
    assert raw == Some(newMeasure);
  }

  method UpdateOfARuleMeasure()
  {
    var initial := Measure(ForRule(123), NoValue);
    var newMeasure := Measure(ForRule(123), IntValue(1));
    var repo := new MeasureRepositoryImpl(map[], []);
    var added := repo.Add(FileComponent, Metric1, initial);
    var updated := repo.Update(FileComponent, Metric1, newMeasure);
    assert added == Done && updated == Done;
    var raw := repo.GetRawMeasures(FileComponent);
    RawMeasuresContents(repo.working, repo.report, FileComponent, Metric1.key);
    assert WorkingMeasures(repo.working, FileComponent.ref, Metric1.key) == {newMeasure} by {
      assert repo.working == map[RawKey(1, "metric 1", ForRule(123)) := newMeasure];
    }
    assert Get(raw, Metric1.key) == {newMeasure};
  }

  method AddedMeasureAndExactKeys()
  {
    var repo := new MeasureRepositoryImpl(map[], []);
    var added := repo.Add(FileComponent, Metric1, SomeMeasure);
    assert added == Done;
    var mine := repo.GetRawMeasure(FileComponent, Metric1);
    var otherComponent := repo.GetRawMeasure(OtherComponent, Metric1);
    var otherMetric := repo.GetRawMeasure(FileComponent, Metric2);
    assert mine == Some(SomeMeasure);
    assert otherComponent == None;
    assert otherMetric == None;
  }

  method ReportMeasureUntilOneIsAdded()
  {
    var fromReport := ReportMeasure("metric 1", StringValue("trololo"));
    var repo := new MeasureRepositoryImpl(map[1 := [fromReport]], []);
    var before := repo.GetRawMeasure(FileComponent, Metric1);
    var otherMetric := repo.GetRawMeasure(FileComponent, Metric2);
    var otherComponent := repo.GetRawMeasure(OtherComponent, Metric1);
    assert before == Some(Measure(Unscoped, StringValue("trololo")));
    assert otherMetric == None;
    assert otherComponent == None;
    var added := repo.Add(FileComponent, Metric1, SomeMeasure);
    assert added == Done;
    var after := repo.GetRawMeasure(FileComponent, Metric1);
    assert after == Some(SomeMeasure);
  }

  method ScopedReadsPickTheMatchingId()
  {
    var forSomeRule := Measure(ForRule(SomeRule.id), NoValue);
    var forSomeCharacteristic := Measure(ForCharacteristic(SomeCharacteristic.id), NoValue);
    var repo := new MeasureRepositoryImpl(map[], []);
    var emptyRule := repo.GetRawMeasureForRule(FileComponent, Metric1, SomeRule);
    var emptyCharacteristic := repo.GetRawMeasureForCharacteristic(FileComponent, Metric1, SomeCharacteristic);
    assert emptyRule == None && emptyCharacteristic == None;
    var a1 := repo.Add(FileComponent, Metric1, forSomeRule);
    var a2 := repo.Add(FileComponent, Metric1, Measure(ForRule(222), NoValue));
    var a3 := repo.Add(FileComponent, Metric1, forSomeCharacteristic);
    var a4 := repo.Add(FileComponent, Metric1, Measure(ForCharacteristic(333), NoValue));
    assert a1 == Done && a2 == Done && a3 == Done && a4 == Done;
    var byRule := repo.GetRawMeasureForRule(FileComponent, Metric1, SomeRule);
    var byCharacteristic := repo.GetRawMeasureForCharacteristic(FileComponent, Metric1, SomeCharacteristic);
    assert byRule == Some(forSomeRule);
    assert byCharacteristic == Some(forSomeCharacteristic);
  }

  method BaseMeasureOfTheLastSnapshotOnly()
  {
    var rows := [
      PersistedMeasure("file cpt key", "metric 1", true, StringValue("some data")),
      PersistedMeasure("file cpt key", "metric 2", false, StringValue("some data"))
    ];
    var empty := new MeasureRepositoryImpl(map[], []);
    var none := empty.GetBaseMeasure(FileComponent, Metric1);
    assert none == None;
    var repo := new MeasureRepositoryImpl(map[], rows);
    var onLast := repo.GetBaseMeasure(FileComponent, Metric1);
    var onOther := repo.GetBaseMeasure(FileComponent, Metric2);
    assert onLast == Some(Measure(Unscoped, StringValue("some data")));
    assert onOther == None;
  }

  method AddedMeasuresOverReportMeasures()
  {
    var key1, key2 := "metric 1", "metric 2";
    var batch1 := ReportMeasure(key1, StringValue("some value"));
    var batch2 := ReportMeasure(key2, StringValue("some value"));
    var addedMeasure2 := Measure(ForCharacteristic(SomeCharacteristic.id), NoValue);
    var repo := new MeasureRepositoryImpl(map[1 := [batch1, batch2]], []);
    var a1 := repo.Add(FileComponent, Metric1, SomeMeasure);
    var a2 := repo.Add(FileComponent, Metric1, addedMeasure2);
    assert a1 == Done && a2 == Done;
    var raw := repo.GetRawMeasures(FileComponent);
    var w := repo.working;
    assert w == map[RawKey(1, key1, Unscoped) := SomeMeasure, RawKey(1, key1, addedMeasure2.scope) := addedMeasure2];
    RawMeasuresKeys(w, repo.report, FileComponent);
    RawMeasuresContents(w, repo.report, FileComponent, key1);
    RawMeasuresContents(w, repo.report, FileComponent, key2);
    assert ReportedMetricKeys([batch1, batch2]) == {key1, key2} by {
      assert [batch1, batch2][0].metricKey == key1 && [batch1, batch2][1].metricKey == key2;
    }
    assert MetricKeys(ComponentEntries(w, 1)) == {key1};
    assert raw.Keys == {key1, key2};
    assert WorkingMeasures(w, 1, key1) == {SomeMeasure, addedMeasure2};
    assert Get(raw, key1) == {SomeMeasure, addedMeasure2};
    assert WorkingMeasures(w, 1, key2) == {};
    assert Get(raw, key2) == {Measure(Unscoped, StringValue("some value"))};
  }
}
