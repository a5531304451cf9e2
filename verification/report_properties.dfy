/** What the report promises about its rows, stated against the directory and
    the statistics response it was built from. */
module ReportProperties {
  import opened Wrappers
  import opened Truncation
  import opened SizeFormat
  import opened Directory
  import opened Report

  /** A service's row can be built: either it has no statistics, or its first
      record exists and reports a non-zero request count. */
  predicate RowBuildable(service: Service, data: StatsData) {
    service.id !in data || (|data[service.id]| > 0 && data[service.id][0].requests != 0)
  }

  /** Every service's row can be built. */
  predicate Reportable(dir: Directory, data: StatsData) {
    forall i :: 0 <= i < |dir| ==> RowBuildable(dir[i], data)
  }

  /** The run completes exactly when every service's row can be built. */
  lemma ReportSucceedsIff(dir: Directory, data: StatsData)
    ensures BuildReport(dir, data).Ok? <==> Reportable(dir, data)
  {
    forall i | 0 <= i < |dir|
      ensures MakeRow(dir[i], data).Ok? <==> RowBuildable(dir[i], data)
    {
      RowOutcome(dir[i], data);
    }
  }

  /** A failed run reports the first service, in directory order, whose row
      cannot be built: an empty record list raises IndexError, a zero request
      count ZeroDivisionError. */
  lemma ReportFailsAtFirstBadService(dir: Directory, data: StatsData)
    requires !Reportable(dir, data)
    ensures BuildReport(dir, data).Err?
    ensures exists i :: 0 <= i < |dir| && !RowBuildable(dir[i], data)
              && (forall j :: 0 <= j < i ==> RowBuildable(dir[j], data))
              && BuildReport(dir, data).error
                 == if |data[dir[i].id]| == 0 then IndexError(dir[i].id) else ZeroDivisionError(dir[i].id)
  {
    ReportSucceedsIff(dir, data);
    var e := BuildReport(dir, data).error;
    var i :| 0 <= i < |dir| && MakeRow(dir[i], data) == Err(e)
             && forall j :: 0 <= j < i ==> MakeRow(dir[j], data).Ok?;
    forall j | 0 <= j < i
      ensures RowBuildable(dir[j], data)
    {
      RowOutcome(dir[j], data);
    }
    RowOutcome(dir[i], data);
  }

  /** Which exception a single row raises, if any. */
  lemma RowOutcome(service: Service, data: StatsData)
    ensures MakeRow(service, data).Ok? <==> RowBuildable(service, data)
    ensures !RowBuildable(service, data) ==>
              MakeRow(service, data)
              == Err(if |data[service.id]| == 0 then IndexError(service.id) else ZeroDivisionError(service.id))
  {
  }

  /** One row per directory entry, in directory order, named by its key; the
      count printed is that same number. */
  lemma RowsFollowDirectory(dir: Directory, data: StatsData)
    requires Reportable(dir, data)
    ensures BuildReport(dir, data).Ok?
    ensures |BuildReport(dir, data).value| == |dir|
    ensures forall i :: 0 <= i < |dir| ==> BuildReport(dir, data).value[i].name == dir[i].name
    ensures WriteSummary(dir, data).Ok? && WriteSummary(dir, data).value.shown == |dir|
  {
    ReportSucceedsIff(dir, data);
    var rows := BuildReport(dir, data).value;
    forall i | 0 <= i < |dir|
      ensures rows[i].name == dir[i].name
    {
      assert MakeRow(dir[i], data) == Ok(rows[i]);
    }
  }

  /** A service with no statistics gets '-' in every metric field. */
  lemma MissingStatsAreDashes(dir: Directory, data: StatsData, i: nat)
    requires Reportable(dir, data)
    requires i < |dir| && dir[i].id !in data
    ensures BuildReport(dir, data).Ok?
    ensures BuildReport(dir, data).value[i] == DashRow(dir[i].name)
    ensures var row := BuildReport(dir, data).value[i];
      forall k :: 0 <= k < |row.Metrics()| ==> row.Metrics()[k] == Dash
  {
    ReportSucceedsIff(dir, data);
    assert MakeRow(dir[i], data) == Ok(BuildReport(dir, data).value[i]);
  }

  /** A service with statistics has no '-' left: bandwidth and requests are
      copied from its first record, the size is `sizeof_fmt(bandwidth)`, and
      the hit ratio comes from the raw ratio. */
  lemma PresentStatsPassThrough(dir: Directory, data: StatsData, i: nat)
    requires Reportable(dir, data)
    requires i < |dir| && dir[i].id in data
    ensures BuildReport(dir, data).Ok?
    ensures |data[dir[i].id]| > 0
    ensures var rec, row := data[dir[i].id][0], BuildReport(dir, data).value[i];
      && row.bandwidth == Int(rec.bandwidth)
      && row.requests == Int(rec.requests)
      && row.data == Size(SizeofFmt(rec.bandwidth as real, "b"))
      && row.hitRatio == HitRatioCell(rec.hitRatio)
      && (forall k :: 0 <= k < |row.Metrics()| ==> row.Metrics()[k] != Dash)
  {
    ReportSucceedsIff(dir, data);
    assert MakeRow(dir[i], data) == Ok(BuildReport(dir, data).value[i]);
  }

  /** A falsy raw hit ratio (null or 0) shows as None, which is not '-'; a
      ratio in (0, 1] shows as a whole percentage in [0, 100]. */
  lemma HitRatioShown(dir: Directory, data: StatsData, i: nat)
    requires Reportable(dir, data)
    requires i < |dir| && dir[i].id in data
    ensures BuildReport(dir, data).Ok?
    ensures |data[dir[i].id]| > 0
    ensures var h, cell := data[dir[i].id][0].hitRatio, BuildReport(dir, data).value[i].hitRatio;
      && (h.None? || h.value == 0.0 ==> cell == NoneVal && cell != Dash)
      && (h.Some? && 0.0 < h.value <= 1.0 ==> cell.Int? && 0 <= cell.n <= 100)
  {
    ReportSucceedsIff(dir, data);
    PresentStatsPassThrough(dir, data, i);
  }

  /** Each status-class cell is the integer quotient of 100 times the class
      count by the request count, rounded toward zero; for non-negative
      counts within the request total each lies in [0, 100] and the four add
      up to at most 100. */
  lemma StatusPercentages(dir: Directory, data: StatsData, i: nat)
    requires Reportable(dir, data)
    requires i < |dir| && dir[i].id in data
    ensures BuildReport(dir, data).Ok?
    ensures |data[dir[i].id]| > 0 && data[dir[i].id][0].requests != 0
    ensures var rec, row := data[dir[i].id][0], BuildReport(dir, data).value[i];
      && row.pct2xx == Int(TruncDiv(100 * rec.status2xx, rec.requests))
      && row.pct3xx == Int(TruncDiv(100 * rec.status3xx, rec.requests))
      && row.pct4xx == Int(TruncDiv(100 * rec.status4xx, rec.requests))
      && row.pct5xx == Int(TruncDiv(100 * rec.status5xx, rec.requests))
    ensures var rec, row := data[dir[i].id][0], BuildReport(dir, data).value[i];
      0 <= rec.status2xx && 0 <= rec.status3xx && 0 <= rec.status4xx && 0 <= rec.status5xx
      && rec.status2xx + rec.status3xx + rec.status4xx + rec.status5xx <= rec.requests
      ==> && 0 <= row.pct2xx.n <= 100 && 0 <= row.pct3xx.n <= 100
          && 0 <= row.pct4xx.n <= 100 && 0 <= row.pct5xx.n <= 100
          && row.pct2xx.n + row.pct3xx.n + row.pct4xx.n + row.pct5xx.n <= 100
  {
    ReportSucceedsIff(dir, data);
    var rec, row := data[dir[i].id][0], BuildReport(dir, data).value[i];
    assert MakeRow(dir[i], data) == Ok(row);
    if && 0 <= rec.status2xx && 0 <= rec.status3xx && 0 <= rec.status4xx && 0 <= rec.status5xx
       && rec.status2xx + rec.status3xx + rec.status4xx + rec.status5xx <= rec.requests
    {
      PercentBounds(rec.status2xx, rec.requests);
      PercentBounds(rec.status3xx, rec.requests);
      PercentBounds(rec.status4xx, rec.requests);
      PercentBounds(rec.status5xx, rec.requests);
      PercentSumAtMost100(rec.status2xx, rec.status3xx, rec.status4xx, rec.status5xx, rec.requests);
    }
  }

  /** The row names are exactly the directory's keys. */
  lemma RowNamesAreKeys(dir: Directory, data: StatsData)
    requires Reportable(dir, data)
    ensures BuildReport(dir, data).Ok?
    ensures (set row | row in BuildReport(dir, data).value :: row.name) == Names(dir)
  {
    RowsFollowDirectory(dir, data);
    var rows := BuildReport(dir, data).value;
    var rowNames := set row | row in rows :: row.name;
    forall n | n in Names(dir)
      ensures n in rowNames
    {
      var i :| 0 <= i < |dir| && dir[i].name == n;
      assert rows[i] in rows;
    }
    forall n | n in rowNames
      ensures n in Names(dir)
    {
      var i :| 0 <= i < |rows| && rows[i].name == n;
      assert dir[i] in dir;
    }
  }

  /** From the decoded service list to the printed report: one row per
      distinct service name, and the row names are exactly those names. */
  lemma ReportCoversServiceList(entries: seq<Service>, data: StatsData)
    requires Reportable(FromList(entries), data)
    ensures BuildReport(FromList(entries), data).Ok?
    ensures |BuildReport(FromList(entries), data).value| == |Names(entries)|
    ensures (set row | row in BuildReport(FromList(entries), data).value :: row.name) == Names(entries)
  {
    RowNamesAreKeys(FromList(entries), data);
  }

  /** The worked example: two services, statistics for the first only. */
  lemma TwoServiceExample()
    ensures var dir := [Service("svc-a", "1"), Service("svc-b", "2")];
      var data := map["1" := [Record(Some(0.92), 2048, 100, 90, 5, 3, 2)]];
      BuildReport(dir, data)
      == Ok([Row("svc-a", Int(92), Int(2048), Size(HumanSize(2.0, 1, "b")), Int(100),
                 Int(90), Int(5), Int(3), Int(2)),
             DashRow("svc-b")])
  {
    var dir := [Service("svc-a", "1"), Service("svc-b", "2")];
    var data := map["1" := [Record(Some(0.92), 2048, 100, 90, 5, 3, 2)]];
    TruncUnique(0.92 * 100.0, 92);
    TruncUnique(100.0 * (90 as real / 100 as real), 90);
    TruncUnique(100.0 * (5 as real / 100 as real), 5);
    TruncUnique(100.0 * (3 as real / 100 as real), 3);
    TruncUnique(100.0 * (2 as real / 100 as real), 2);
    SizeofFmtExamples();
    var rowA := Row("svc-a", Int(92), Int(2048), Size(HumanSize(2.0, 1, "b")), Int(100),
                    Int(90), Int(5), Int(3), Int(2));
    assert HitRatioCell(Some(0.92)) == Int(92);
    assert MakeRow(dir[0], data) == Ok(rowA);
    assert MakeRow(dir[1], data) == Ok(DashRow("svc-b"));
    assert dir[1..] == [dir[1]];
    assert dir[1..][1..] == [];
    assert BuildReport(dir[1..][1..], data) == Ok([]);
    assert [DashRow("svc-b")] + [] == [DashRow("svc-b")];
    assert BuildReport(dir[1..], data) == Ok([DashRow("svc-b")]);
    assert BuildReport(dir, data) == Ok([rowA] + [DashRow("svc-b")]);
    assert [rowA] + [DashRow("svc-b")] == [rowA, DashRow("svc-b")];
  }

  /** A service whose first record reports zero requests aborts the run with
      ZeroDivisionError, unless an earlier service in directory order has
      already failed. */
  lemma ZeroRequestsAbort(dir: Directory, data: StatsData, i: nat)
    requires i < |dir| && dir[i].id in data
    requires |data[dir[i].id]| > 0 && data[dir[i].id][0].requests == 0
    requires forall j :: 0 <= j < i ==> RowBuildable(dir[j], data)
    ensures BuildReport(dir, data) == Err(ZeroDivisionError(dir[i].id))
  {
    RowOutcome(dir[i], data);
    ReportSucceedsIff(dir, data);
    var e := BuildReport(dir, data).error;
    var k :| 0 <= k < |dir| && MakeRow(dir[k], data) == Err(e)
             && forall j :: 0 <= j < k ==> MakeRow(dir[j], data).Ok?;
    if k < i {
      RowOutcome(dir[k], data);
    }
  }
}
