/** The per-service report built by `write_fastly_summary`: the service
    directory joined with the statistics response by service id, one row per
    directory entry, in directory iteration order. */
module Report {
  import opened Wrappers
  import opened Magnitude
  import opened Truncation
  import opened SizeFormat
  import opened Directory

  /** One metric record of `stats['data'][id]`, as decoded from JSON. A null
      hit ratio is None. */
  datatype Record = Record(
    hitRatio: Option<real>,
    bandwidth: int,
    requests: int,
    status2xx: int,
    status3xx: int,
    status4xx: int,
    status5xx: int)

  /** `stats['data']`: service id to its list of records; only the first
      record of a list is read. */
  type StatsData = map<string, seq<Record>>

  /** A report cell: the '-' sentinel, Python's None, an integer, or a size
      rendered by `sizeof_fmt`. */
  datatype Cell = Dash | NoneVal | Int(n: int) | Size(h: HumanSize)

  /** One entry of `service_data` (and one line of the text table). */
  datatype Row = Row(
    name: string,
    hitRatio: Cell,
    bandwidth: Cell,
    data: Cell,
    requests: Cell,
    pct2xx: Cell,
    pct3xx: Cell,
    pct4xx: Cell,
    pct5xx: Cell)
  {
    /** Every field except the name. */
    function Metrics(): seq<Cell> {
      [hitRatio, bandwidth, data, requests, pct2xx, pct3xx, pct4xx, pct5xx]
    }
  }

  /** The exceptions the row-building loop can raise; either one aborts the
      whole run. */
  datatype Failure =
    | IndexError(id: string)         // the id's record list is empty, so `[0]` fails
    | ZeroDivisionError(id: string)  // the first record reports zero requests

  /** The rows handed to the template (`service_data`, in directory order),
      and the count printed in "Showing N services". */
  datatype Summary = Summary(rows: seq<Row>, shown: nat)

  /** Python truthiness of the raw hit ratio: null and 0 are false. */
  predicate Truthy(hitRatio: Option<real>) {
    match hitRatio
    case None => false
    case Some(v) => v != 0.0
  }

  /** A row before any statistics are filled in: every metric is '-'. */
  function DashRow(name: string): Row {
    Row(name, Dash, Dash, Dash, Dash, Dash, Dash, Dash, Dash)
  }

  /** The hit-ratio cell of a service with statistics: None for a falsy raw
      value, otherwise the ratio as a percentage truncated toward zero. */
  function HitRatioCell(hitRatio: Option<real>): (c: Cell)
    ensures c != Dash
    ensures c == NoneVal <==> hitRatio.None? || hitRatio.value == 0.0
    ensures Truthy(hitRatio) && 0.0 < hitRatio.value <= 1.0 ==> c.Int? && 0 <= c.n <= 100
    ensures Truthy(hitRatio) ==> c.Int?
    ensures Truthy(hitRatio) ==> Abs(c.n as real) <= Abs(hitRatio.value * 100.0) < Abs(c.n as real) + 1.0
    ensures Truthy(hitRatio) ==> (c.n < 0 ==> hitRatio.value < 0.0) && (c.n > 0 ==> hitRatio.value > 0.0)
  {
    if Truthy(hitRatio) then Int(Trunc(hitRatio.value * 100.0)) else NoneVal
  }

  /** One iteration of the loop over the directory. */
  function MakeRow(service: Service, data: StatsData): (r: Result<Row, Failure>)
    ensures r.Ok? ==> r.value.name == service.name
    ensures r.Ok? && service.id !in data ==> r.value == DashRow(service.name)
    ensures r.Ok? && service.id in data ==> forall k :: 0 <= k < |r.value.Metrics()| ==> r.value.Metrics()[k] != Dash
    ensures r.Err? <==> service.id in data && (|data[service.id]| == 0 || data[service.id][0].requests == 0)
    ensures r.Err? ==> r.error.id == service.id
  {
    if service.id !in data then Ok(DashRow(service.name))
    else if |data[service.id]| == 0 then Err(IndexError(service.id))
    else
      var rec := data[service.id][0];
      if rec.requests == 0 then Err(ZeroDivisionError(service.id))
      else
        Ok(Row(
          service.name,
          HitRatioCell(rec.hitRatio),
          Int(rec.bandwidth),
          Size(SizeofFmt(rec.bandwidth as real, "b")),
          Int(rec.requests),
          Int(Percent(rec.status2xx, rec.requests)),
          Int(Percent(rec.status3xx, rec.requests)),
          Int(Percent(rec.status4xx, rec.requests)),
          Int(Percent(rec.status5xx, rec.requests))))
  }

  /** The loop over the directory: the rows in directory order, or the failure
      of the first service whose row cannot be built. */
  function BuildReport(dir: Directory, data: StatsData): (r: Result<seq<Row>, Failure>)
    ensures r.Ok? <==> forall i :: 0 <= i < |dir| ==> MakeRow(dir[i], data).Ok?
    ensures r.Ok? ==> |r.value| == |dir|
    ensures r.Ok? ==> forall i :: 0 <= i < |dir| ==> MakeRow(dir[i], data) == Ok(r.value[i])
    ensures r.Err? ==> exists i :: 0 <= i < |dir| && MakeRow(dir[i], data) == Err(r.error)
                                   && forall j :: 0 <= j < i ==> MakeRow(dir[j], data).Ok?
  {
    if |dir| == 0 then Ok([])
    else
      match MakeRow(dir[0], data)
      case Err(e) => Err(e)
      case Ok(row) =>
        match BuildReport(dir[1..], data)
        case Err(e) =>
          assert forall j :: 1 <= j < |dir| ==> dir[j] == dir[1..][j - 1];
          Err(e)
        case Ok(rows) =>
          assert forall j :: 1 <= j < |dir| ==> dir[j] == dir[1..][j - 1];
          Ok([row] + rows)
  }

  /** `write_fastly_summary` after the two fetches: the rows, and the count it
      prints, which is the number of directory entries. */
  function WriteSummary(dir: Directory, data: StatsData): (r: Result<Summary, Failure>)
    ensures r.Ok? <==> BuildReport(dir, data).Ok?
    ensures r.Ok? ==> r.value.rows == BuildReport(dir, data).value
    ensures r.Ok? ==> r.value.shown == |r.value.rows| == |dir|
    ensures r.Err? ==> r.error == BuildReport(dir, data).error
  {
    match BuildReport(dir, data)
    case Ok(rows) => Ok(Summary(rows, |dir|))
    case Err(e) => Err(e)
  }
}
