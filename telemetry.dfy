/**
 * The values the statistics view works on: rows of the statistics table,
 * the `{name, count}` rows of a raw response, and the `data` payload.
 */
module Telemetry {
  import opened PhpArrays

  /**
   * One row fetched from the statistics table: the columns that are set
   * (a column that is missing or NULL is absent from `columns`) and the
   * row's `count`.
   */
  datatype Row = Row(columns: map<string, string>, count: int)

  /** What a fetch returned: a list of rows, or a list of groups of rows. */
  datatype Dataset = Flat(rows: seq<Row>) | Grouped(groups: seq<seq<Row>>)

  /** `['name' => $name, 'count' => $count]` */
  datatype NameCount = NameCount(name: string, count: int)

  /**
   * The errors that end a response: `$count / $this->totalItems` with a
   * zero total, and `$this` assigned through `${$this->source}`.
   */
  datatype Error = DivisionByZero | ReassignThis

  datatype Result<T> = Success(value: T) | Failure(error: Error)

  /** A value under one key of the `data` payload. */
  datatype Field =
    | Rows(rows: seq<NameCount>)
    | Shares(shares: PhpArray<real>)
    | CrossTab(byCms: PhpArray<PhpArray<int>>)
    | Total(total: int)

  /** The array handed to `addData('data', ...)`. */
  type Payload = PhpArray<Field>

  const PhpVersion: string := "php_version"
  const DbType: string := "db_type"
  const DbVersion: string := "db_version"
  const CmsVersion: string := "cms_version"
  const ServerOs: string := "server_os"

  /** The view's `$dataSources`, in their declared order. */
  const DataSources: seq<string> := [PhpVersion, DbType, DbVersion, CmsVersion, ServerOs]

  lemma DataSourcesDistinct()
    ensures Distinct(DataSources)
  {
  }

  /** The key `render` stores the total under is none of the categories. */
  lemma TotalNotDataSource()
    ensures "total" !in DataSources
  {
    assert forall i :: 0 <= i < |DataSources| ==> |DataSources[i]| != |"total"|;
  }

  /** The source that selects the combined CMS/PHP report. */
  const CombinedSource: string := "cms_php"

  lemma CombinedSourceNotTotal()
    ensures CombinedSource != "total"
  {
    assert CombinedSource[0] != "total"[0];
  }

  /** `$item[$column]` where PHP reads a missing or NULL column as "". */
  function Column(row: Row, column: string): string
  {
    if column in row.columns then row.columns[column] else ""
  }

  /** The sum of the rows' counts. */
  function SumCounts(rows: seq<Row>): int
    decreases |rows|
  {
    if |rows| == 0 then 0 else SumCounts(rows[..|rows| - 1]) + rows[|rows| - 1].count
  }

  ghost predicate NonNegativeCounts(rows: seq<Row>)
  {
    forall i :: 0 <= i < |rows| ==> rows[i].count >= 0
  }
}
