/**
 * The statistics view: its settings, the choice of report made by
 * `render`, and the loops that fill the `data` payload.
 */
module Stats {
  import opened PhpArrays
  import opened PhpStrings
  import opened Telemetry
  import opened Bucketing
  import opened Aggregation
  import opened Response

  /**
   * The fetch for a non-empty source returns rows; the fetch of the whole
   * dataset returns groups of rows.
   */
  predicate FitsPath(source: string, items: Dataset)
  {
    if IsTruthy(source) then items.Flat? else items.Grouped?
  }

  /** What `render` hands to `addData('data', ...)` (or its failure), and `totalItems` after it. */
  datatype Rendered = Rendered(result: Result<Payload>, total: int)

  /** The single-source report. */
  function SingleRender(authorizedRaw: bool, source: string, rows: seq<Row>): Rendered
    requires source != "0"
  {
    SingleDataNested(source, rows);
    var total := SumCounts(rows);
    Rendered(WithTotal(BuildResponse(authorizedRaw, total, SingleData(source, rows)), total), total)
  }

  /**
   * The rows the single-source loop reads. `${$this->source} = []` assigns
   * `[]` to the local variable the source names, so the source `items`
   * empties the fetched rows before the loop; any other local it can name is
   * assigned again before it is read.
   */
  function ItemsRead(source: string, items: seq<Row>): (rows: seq<Row>)
    ensures rows == [] || rows == items
  {
    if source == "items" then [] else items
  }

  /**
   * `processSingleSource($items)`: the source `this` fails with PHP's
   * "Cannot re-assign $this" before `totalItems` is reset; any other source
   * gives the single-source report over the rows the loop reads.
   */
  function SingleSourceRender(authorizedRaw: bool, source: string, prior: int, items: seq<Row>): Rendered
    requires source != "0"
  {
    if source == "this" then Rendered(Failure(ReassignThis), prior)
    else SingleRender(authorizedRaw, source, ItemsRead(source, items))
  }

  /** The report over the whole dataset; the total starts from `prior`. */
  function FullRender(authorizedRaw: bool, prior: int, groups: seq<seq<Row>>): Rendered
  {
    FullDataNested(groups);
    var total := FullTotal(prior, groups);
    Rendered(WithTotal(BuildResponse(authorizedRaw, total, FullData(groups)), total), total)
  }

  /** The combined CMS/PHP report: never sanitized. */
  function CombinedRender(source: string, rows: seq<Row>): Rendered
  {
    var total := SumCounts(rows);
    Rendered(Success(Put(CombinedData(source, rows), "total", Total(total))), total)
  }

  /** `render()`: the fetch `recent` selects, then the report `source` selects. */
  function RenderSpec(authorizedRaw: bool, recent: bool, source: string, prior: int,
                      recentItems: Dataset, sourceItems: Dataset): Rendered
    requires FitsPath(source, if recent then recentItems else sourceItems)
  {
    var items := if recent then recentItems else sourceItems;
    if IsTruthy(source) then
      if source == CombinedSource then CombinedRender(source, items.rows)
      else SingleSourceRender(authorizedRaw, source, prior, items.rows)
    else FullRender(authorizedRaw, prior, items.groups)
  }

  class StatsJsonView {
    var authorizedRaw: bool
    const dataSources: seq<string> := DataSources
    var recent: bool
    var source: string
    var totalItems: int

    constructor ()
      ensures !authorizedRaw && !recent && source == "" && totalItems == 0
    {
      authorizedRaw := false;
      recent := false;
      source := "";
      totalItems := 0;
    }

    method IsAuthorizedRaw(flag: bool)
      modifies this`authorizedRaw
      ensures authorizedRaw == flag
    {
      authorizedRaw := flag;
    }

    method IsRecent(flag: bool)
      modifies this`recent
      ensures recent == flag
    {
      recent := flag;
    }

    method SetSource(s: string)
      modifies this`source
      ensures source == s
    {
      source := s;
    }

    /**
     * Picks the fetch, then the report. The full-dataset report is built
     * here: the five per-category arrays are filled group by group, and
     * the total starts again from 0 with each group.
     */
    method Render(recentItems: Dataset, sourceItems: Dataset) returns (r: Result<Payload>)
      requires FitsPath(source, if recent then recentItems else sourceItems)
      modifies this`totalItems
      ensures Rendered(r, totalItems) ==
        RenderSpec(authorizedRaw, recent, source, old(totalItems), recentItems, sourceItems)
    {
      var items := if recent then recentItems else sourceItems;
      if IsTruthy(source) {
        if source == CombinedSource {
          r := ProcessCombined(items.rows);
          return;
        }
        r := ProcessSingleSource(items.rows);
        return;
      }
      var groups := items.groups;
      var data := InitialCategories();
      for g := 0 to |groups|
        invariant data == FullData(groups[..g])
        invariant totalItems == FullTotal(old(totalItems), groups[..g])
      {
        totalItems := 0;
        var group := groups[g];
        ghost var start := data;
        for i := 0 to |group|
          invariant data == Scan(start, group[..i])
          invariant totalItems == GroupTotal(group[..i])
        {
          var item := group[i];
          ghost var before := data;
          ghost var weight := totalItems;
          for s := 0 to |dataSources|
            invariant data == ItemStep(before, item, s)
            invariant totalItems == weight + ItemWeight(item, s)
          {
            var src := dataSources[s];
            if src in item.columns {
              var name := item.columns[src];
              if src == ServerOs && !IsTruthy(name) {
                name := "unknown";
              }
              data := PutIn(data, src, name, item.count);
              totalItems := totalItems + item.count;
            }
          }
          assert group[..i + 1][..i] == group[..i];
        }
        assert group[..|group|] == group;
        assert groups[..g + 1][..g] == groups[..g];
      }
      assert groups[..|groups|] == groups;
      FullDataNested(groups);
      var responseData := BuildResponseData(data);
      match responseData
      case Failure(e) =>
        r := Failure(e);
      case Success(payload) =>
        r := Success(Put(payload, "total", Total(totalItems)));
    }

    /**
     * Flattens every category into `{name, count}` rows with a truthy name,
     * then sanitizes them unless raw data is authorized.
     */
    method BuildResponseData(data: PhpArray<PhpArray<int>>) returns (r: Result<Payload>)
      requires ValidNested(data)
      ensures r == BuildResponse(authorizedRaw, totalItems, data)
    {
      var responseData := FlattenCategories(data);
      if !authorizedRaw {
        r := SanitizeData(responseData);
      } else {
        r := Success(responseData);
      }
    }

    /** The outer loop of the flattening: every category in turn. */
    method FlattenCategories(data: PhpArray<PhpArray<int>>) returns (responseData: Payload)
      requires ValidNested(data)
      ensures responseData == Flattened(data)
    {
      responseData := Empty();
      for i := 0 to |data.keys|
        invariant responseData == BuildRows(data, i)
      {
        var key := data.keys[i];
        responseData := AppendCategory(responseData, key, data.vals[key]);
      }
    }

    /**
     * The inner loop of the flattening: every pair of one category whose
     * name is truthy, appended as a `{name, count}` row under the category.
     */
    method AppendCategory(responseData: Payload, key: string, value: PhpArray<int>) returns (out: Payload)
      requires Valid(value)
      ensures out == AppendGroup(responseData, key, CountEntries(value))
    {
      out := responseData;
      ghost var es := CountEntries(value);
      for j := 0 to |value.keys|
        invariant out == AppendGroup(responseData, key, es[..j])
      {
        var name := value.keys[j];
        assert es[j] == Entry(name, value.vals[name]);
        AppendGroupPrefix(responseData, key, es, j);
        if IsTruthy(name) {
          out := AppendRow(out, key, NameCount(name, value.vals[name]));
        }
      }
      assert es[..|value.keys|] == es;
    }

    /**
     * Replaces each category's rows by its shares of `totalItems`, in
     * place; the first division by a zero total ends it.
     */
    method SanitizeData(responseData: Payload) returns (r: Result<Payload>)
      requires Valid(responseData)
      ensures r == Sanitize(responseData, totalItems)
    {
      var result := responseData;
      var keys := responseData.keys;
      for i := 0 to |keys|
        invariant SanitizeUpTo(responseData, totalItems, i) == Success(result)
      {
        var key := keys[i];
        var dataGroup := FieldRows(responseData.vals[key]);
        SanitizeUpToNext(responseData, totalItems, i, result, dataGroup);
        var sanitizedData := SanitizeCase(key, dataGroup);
        if sanitizedData.Failure? {
          return Failure(DivisionByZero);
        }
        result := Put(result, key, Shares(sanitizedData.value));
      }
      r := Success(result);
    }

    /**
     * The body of the `switch ($key)`: the shares of one category, summed
     * per version branch, per OS, or kept per name, as the key says.
     */
    method SanitizeCase(key: string, dataGroup: seq<NameCount>) returns (r: Result<PhpArray<real>>)
      ensures r == SanitizeGroup(RuleFor(key), dataGroup, totalItems)
    {
      var rule := RuleFor(key);
      var sanitizedData: PhpArray<real> := Empty();
      if rule == ByName {
        for j := 0 to |dataGroup|
          invariant j > 0 ==> totalItems != 0
          invariant totalItems != 0 ==> sanitizedData == AssignAll(Empty(), RowShares(dataGroup, totalItems)[..j])
          invariant totalItems == 0 ==> sanitizedData == Empty()
        {
          if totalItems == 0 {
            return Failure(DivisionByZero);
          }
          var row := dataGroup[j];
          ghost var shares := RowShares(dataGroup, totalItems);
          assert shares[..j + 1][..j] == shares[..j] && shares[j] == Entry(row.name, Percent(row.count, totalItems));
          sanitizedData := Put(sanitizedData, row.name, Percent(row.count, totalItems));
        }
        assert totalItems != 0 ==> RowShares(dataGroup, totalItems)[..|dataGroup|] == RowShares(dataGroup, totalItems);
      } else {
        var counts := CountBuckets(rule, dataGroup);
        for j := 0 to |counts.keys|
          invariant j > 0 ==> totalItems != 0
          invariant totalItems != 0 ==> sanitizedData == AssignAll(Empty(), ShareEntries(counts, totalItems)[..j])
          invariant totalItems == 0 ==> sanitizedData == Empty()
        {
          if totalItems == 0 {
            return Failure(DivisionByZero);
          }
          var version := counts.keys[j];
          var count := GetOr(counts, version, 0);
          ghost var shares := ShareEntries(counts, totalItems);
          assert shares[..j + 1][..j] == shares[..j] && shares[j] == Entry(version, Percent(count, totalItems));
          sanitizedData := Put(sanitizedData, version, Percent(count, totalItems));
        }
        assert totalItems != 0 ==> ShareEntries(counts, totalItems)[..|counts.keys|] == ShareEntries(counts, totalItems);
      }
      r := Success(sanitizedData);
    }

    /**
     * The first loop of a regrouping case: `$counts[$bucket] += $row['count']`,
     * the counter created at 0 when missing.
     */
    method CountBuckets(rule: BucketRule, dataGroup: seq<NameCount>) returns (counts: PhpArray<int>)
      requires rule != ByName
      ensures counts == BucketCounts(rule, dataGroup)
    {
      counts := Empty();
      ghost var pairs := BucketPairs(rule, dataGroup);
      for j := 0 to |dataGroup|
        invariant counts == Accumulate(Empty(), pairs[..j])
      {
        var row := dataGroup[j];
        var bucket := BucketName(rule, row.name);
        assert pairs[j] == Entry(bucket, row.count);
        AccumulatePrefix(Empty(), pairs, j);
        counts := AddCount(counts, bucket, row.count);
      }
      assert pairs[..|dataGroup|] == pairs;
    }

    /**
     * `if (!isset($d[$b])) { $d[$b] = 0; } $d[$b] += $count;` as the two
     * statements the loop executes; `AddTo` is the function that specifies
     * them, and the lemmas about counters are stated over it.
     */
    method AddCount(counts: PhpArray<int>, bucket: string, count: int) returns (r: PhpArray<int>)
      ensures r == AddTo(counts, bucket, count)
    {
      r := counts;
      if Get(r, bucket).None? {
        r := Put(r, bucket, 0);
      }
      ghost var created := r;
      r := Put(r, bucket, GetOr(r, bucket, 0) + count);
      AddToSteps(counts, bucket, count, created, r);
    }

    /**
     * The bucket of one name in a regrouping case: `major.minor` from the
     * dot-separated pieces, or the text before the first space. These are
     * the statements the loop executes; `Bucket` is the function that
     * specifies them, and the bucketing lemmas are stated over it.
     */
    method BucketName(rule: BucketRule, name: string) returns (bucket: string)
      requires rule != ByName
      ensures bucket == Bucket(rule, name)
    {
      if rule == MinorVersion {
        var exploded := Explode('.', name);
        bucket := exploded[0] + "." + (if |exploded| > 1 then exploded[1] else "0");
      } else {
        var fullOs := Explode(' ', name);
        bucket := fullOs[0];
      }
    }

    /**
     * The single-source report; the total counts every row once. The
     * placeholder `[${$this->source} = []]` is `[0 => []]`, and the
     * assignment inside it reaches the local variable the source names.
     */
    method ProcessSingleSource(items: seq<Row>) returns (r: Result<Payload>)
      requires source != "0"
      modifies this`totalItems
      ensures Rendered(r, totalItems) == SingleSourceRender(authorizedRaw, source, old(totalItems), items)
    {
      if source == "this" {
        r := Failure(ReassignThis);
        return;
      }
      var rows := if source == "items" then [] else items;
      var data := ReadSingleSource(rows);
      SingleDataNested(source, rows);
      assert SingleSourceRender(authorizedRaw, source, old(totalItems), items) == SingleRender(authorizedRaw, source, rows);
      var responseData := BuildResponseData(data);
      match responseData
      case Failure(e) =>
        r := Failure(e);
      case Success(payload) =>
        r := Success(Put(payload, "total", Total(totalItems)));
      assert r == WithTotal(responseData, totalItems);
    }

    /** The loop of the single-source report: every row counted under its name. */
    method ReadSingleSource(rows: seq<Row>) returns (data: PhpArray<PhpArray<int>>)
      requires source != "0"
      modifies this`totalItems
      ensures data == SingleData(source, rows) && totalItems == SumCounts(rows)
    {
      data := Put(Empty(), "0", Empty());
      totalItems := 0;
      for i := 0 to |rows|
        invariant data == SingleData(source, rows[..i])
        invariant totalItems == SumCounts(rows[..i])
      {
        var item := rows[i];
        assert rows[..i + 1][..i] == rows[..i];
        var value := Column(item, source);
        if source == ServerOs && !IsTruthy(Trim(value)) {
          value := "unknown";
        }
        data := PutIn(data, source, value, item.count);
        totalItems := totalItems + item.count;
      }
      assert rows[..|rows|] == rows;
    }

    /** The combined report: a CMS version by PHP version table and the total. */
    method ProcessCombined(items: seq<Row>) returns (r: Result<Payload>)
      modifies this`totalItems
      ensures Rendered(r, totalItems) == CombinedRender(source, items)
    {
      var data: Payload := Empty();
      totalItems := 0;
      for i := 0 to |items|
        invariant data == CombinedData(source, items[..i])
        invariant totalItems == SumCounts(items[..i])
      {
        var item := items[i];
        var table := CrossTabOf(data, source);
        data := Put(data, source, CrossTab(PutIn(table, Column(item, CmsVersion), Column(item, PhpVersion), item.count)));
        totalItems := totalItems + item.count;
        assert items[..i + 1][..i] == items[..i];
      }
      assert items[..|items|] == items;
      data := Put(data, "total", Total(totalItems));
      r := Success(data);
    }
  }
}
