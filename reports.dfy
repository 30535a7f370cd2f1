/**
 * What a caller of `render` gets back, report by report: which fetch is
 * read, what the payload holds, what `totalItems` ends as, and when the
 * division by a zero total makes it fail.
 */
module Reports {
  import opened PhpArrays
  import opened PhpStrings
  import opened Telemetry
  import opened Bucketing
  import opened Aggregation
  import opened Response
  import opened Stats

  /** `recent` only chooses the fetch: the report is the one built from the items read. */
  lemma RecentSelectsFetch(authorizedRaw: bool, source: string, prior: int, items: Dataset, other: Dataset)
    requires FitsPath(source, items)
    ensures RenderSpec(authorizedRaw, true, source, prior, items, other) ==
      RenderSpec(authorizedRaw, false, source, prior, other, items)
  {
  }

  /** The placeholder "0" never holds a surviving row. */
  lemma SingleZeroRows(source: string, rows: seq<Row>)
    requires source != "0"
    ensures CategoryRows(SingleData(source, rows), "0") == []
  {
    SingleDataKeys(source, rows);
    CategoryRowsNonEmpty(SingleData(source, rows), "0");
  }

  /** Assigning into an empty array: some key is truthy exactly when some assigned key is. */
  lemma TruthyKeys(kvs: seq<Entry<int>>)
    ensures var counts := AssignAll(Empty(), kvs);
      (exists j :: 0 <= j < |counts.keys| && IsTruthy(counts.keys[j])) <==>
      (exists i :: 0 <= i < |kvs| && IsTruthy(kvs[i].key))
  {
    var counts := AssignAll(Empty(), kvs);
    AssignAllKeys(kvs);
    FirstOccurrencesMembers(KeysOf(kvs));
    if exists i :: 0 <= i < |kvs| && IsTruthy(kvs[i].key) {
      var i :| 0 <= i < |kvs| && IsTruthy(kvs[i].key);
      var name := kvs[i].key;
      assert KeysOf(kvs)[i] == name;
      assert name in counts.keys;
      var j :| 0 <= j < |counts.keys| && counts.keys[j] == name;
    }
    if exists j :: 0 <= j < |counts.keys| && IsTruthy(counts.keys[j]) {
      var j :| 0 <= j < |counts.keys| && IsTruthy(counts.keys[j]);
      var name := counts.keys[j];
      assert name in KeysOf(kvs);
      var i :| 0 <= i < |KeysOf(kvs)| && KeysOf(kvs)[i] == name;
      assert kvs[i].key == name;
    }
  }

  /** The source's counts have a truthy name exactly when some row has. */
  lemma SingleNamesTruthy(source: string, rows: seq<Row>)
    ensures var counts := AssignAll(Empty(), SinglePairs(source, rows));
      (exists j :: 0 <= j < |counts.keys| && IsTruthy(counts.keys[j])) <==>
      (exists i :: 0 <= i < |rows| && IsTruthy(SingleName(source, rows[i])))
  {
    var pairs := SinglePairs(source, rows);
    TruthyKeys(pairs);
    if exists i :: 0 <= i < |rows| && IsTruthy(SingleName(source, rows[i])) {
      var i :| 0 <= i < |rows| && IsTruthy(SingleName(source, rows[i]));
      assert pairs[i].key == SingleName(source, rows[i]);
    }
    if exists i :: 0 <= i < |pairs| && IsTruthy(pairs[i].key) {
      var i :| 0 <= i < |pairs| && IsTruthy(pairs[i].key);
      assert pairs[i].key == SingleName(source, rows[i]);
    }
  }

  /** The single-source response has the source's category alone, or nothing. */
  lemma SingleSurvivingKeys(source: string, rows: seq<Row>)
    requires source != "0"
    ensures var data := SingleData(source, rows);
      Valid(data) &&
      SurvivingKeys(data, |data.keys|) ==
        if |rows| > 0 && CategoryRows(data, source) != [] then [source] else []
  {
    var data := SingleData(source, rows);
    SingleDataKeys(source, rows);
    SingleZeroRows(source, rows);
    assert SurvivingKeys(data, 1) == [] by {
      assert data.keys[0] == "0";
      assert SurvivingKeys(data, 1) == SurvivingKeys(data, 0) + [];
    }
    if |rows| > 0 {
      assert data.keys[1] == source;
    }
  }

  /**
   * Any other non-empty source selects the single-source report, and an
   * empty source (or "0") the full-dataset report over the fetched groups.
   */
  lemma OtherSourcesSelected(authorizedRaw: bool, recent: bool, source: string, prior: int,
                             recentItems: Dataset, sourceItems: Dataset)
    requires FitsPath(source, if recent then recentItems else sourceItems)
    ensures var items := if recent then recentItems else sourceItems;
      var out := RenderSpec(authorizedRaw, recent, source, prior, recentItems, sourceItems);
      (IsTruthy(source) && source != CombinedSource ==>
        out == SingleSourceRender(authorizedRaw, source, prior, items.rows)) &&
      (!IsTruthy(source) ==> out == FullRender(authorizedRaw, prior, items.groups))
  {
  }

  /**
   * The assignment `${$this->source} = []` reaches the local variable the
   * source names. The source `this` fails and leaves `totalItems` as it
   * was; the source `items` empties the rows, so the payload is a total of
   * 0 alone; any other source reads every fetched row.
   */
  lemma SingleSourceLocals(authorizedRaw: bool, source: string, prior: int, items: seq<Row>)
    requires source != "0"
    ensures var out := SingleSourceRender(authorizedRaw, source, prior, items);
      (source == "this" ==> out == Rendered(Failure(ReassignThis), prior)) &&
      (source == "items" ==> out == Rendered(Success(PhpArray(["total"], map["total" := Total(0)])), 0)) &&
      (source != "this" && source != "items" ==> out == SingleRender(authorizedRaw, source, items))
  {
    if source == "items" {
      var data := SingleData(source, []);
      SingleSurvivingKeys(source, []);
      FlattenedGet(data);
      var flat := Flattened(data);
      assert flat.keys == [];
      assert flat.vals == map[];
      assert flat == Empty();
      assert Sanitize(flat, 0) == Success(Empty());
      assert BuildResponse(authorizedRaw, 0, data) == Success(Empty());
      assert Put(Empty<Field>(), "total", Total(0)) == PhpArray(["total"], map["total" := Total(0)]);
      assert SingleRender(authorizedRaw, source, []) == Rendered(Success(PhpArray(["total"], map["total" := Total(0)])), 0);
    }
  }

  /**
   * In the single-source report a surviving row exists exactly when some
   * row's name is truthy.
   */
  lemma SingleSurvives(source: string, rows: seq<Row>)
    requires source != "0"
    ensures var data := SingleData(source, rows);
      Valid(data) &&
      (SurvivingKeys(data, |data.keys|) != [] <==>
        exists i :: 0 <= i < |rows| && IsTruthy(SingleName(source, rows[i])))
  {
    var data := SingleData(source, rows);
    SingleSurvivingKeys(source, rows);
    if |rows| > 0 {
      SingleDataKeys(source, rows);
      CategoryRowsNonEmpty(data, source);
      SingleNamesTruthy(source, rows);
    }
  }

  /** The surviving rows of the single-source report: its counts with a truthy name. */
  function SingleRows(source: string, rows: seq<Row>): seq<NameCount>
  {
    Survivors(CountEntries(AssignAll(Empty(), SinglePairs(source, rows))))
  }

  lemma SingleCategory(source: string, rows: seq<Row>)
    requires source != "0"
    ensures CategoryRows(SingleData(source, rows), source) == SingleRows(source, rows)
  {
    SingleDataKeys(source, rows);
    if |rows| == 0 {
      SingleStartShape();
      assert GetOr(SingleData(source, rows), source, Empty()) == Empty();
      assert AssignAll(Empty(), SinglePairs(source, rows)) == Empty<int>();
    }
  }

  /**
   * The single-source report: `totalItems` is the sum of every row's count,
   * and the report fails exactly without raw data, with a zero total and a
   * truthy name.
   */
  lemma SingleReportFails(authorizedRaw: bool, source: string, rows: seq<Row>)
    requires source != "0"
    ensures var out := SingleRender(authorizedRaw, source, rows);
      out.total == SumCounts(rows) &&
      (out.result.Failure? <==>
        !authorizedRaw && SumCounts(rows) == 0 &&
        exists i :: 0 <= i < |rows| && IsTruthy(SingleName(source, rows[i])))
  {
    SingleSurvives(source, rows);
    BuildResponseFails(SumCounts(rows), SingleData(source, rows));
  }

  /** The single-source response lists the source when a row survives, and nothing else. */
  lemma SingleResponseKeys(authorizedRaw: bool, source: string, rows: seq<Row>)
    requires source != "0"
    ensures var data := SingleData(source, rows);
      Valid(data) &&
      (BuildResponse(authorizedRaw, SumCounts(rows), data).Success? ==>
        var r := BuildResponse(authorizedRaw, SumCounts(rows), data).value;
        Valid(r) && r.keys == if SingleRows(source, rows) == [] then [] else [source])
  {
    var data := SingleData(source, rows);
    SingleSurvivingKeys(source, rows);
    if |rows| == 0 {
      assert AssignAll(Empty(), SinglePairs(source, rows)) == Empty<int>();
      assert CountEntries(Empty<int>()) == [];
      assert SingleRows(source, rows) == [];
    } else {
      SingleCategory(source, rows);
    }
    assert SurvivingKeys(data, |data.keys|) == if SingleRows(source, rows) == [] then [] else [source];
    BuildResponseKeys(authorizedRaw, SumCounts(rows), data);
  }

  /** `total` is assigned after the source's category, or over it when the source is `total`. */
  lemma TotalAfterSource(p: Payload, source: string, survived: bool, t: Field)
    requires Valid(p) && p.keys == if survived then [source] else []
    ensures Put(p, "total", t).keys ==
      if source == "total" then ["total"] else (if survived then [source] else []) + ["total"]
  {
    assert "total" in p.vals <==> "total" in p.keys;
  }

  /**
   * A single-source report that was built holds the total, never the
   * placeholder "0", and under the source the surviving rows or their
   * shares (nothing when no row survives).
   */
  lemma SingleReportPayload(authorizedRaw: bool, source: string, rows: seq<Row>)
    requires source != "0"
    ensures var out := SingleRender(authorizedRaw, source, rows);
      var survivors := SingleRows(source, rows);
      out.result.Success? ==>
        Valid(out.result.value) &&
        out.result.value.keys ==
          (if source == "total" then ["total"]
           else (if survivors == [] then [] else [source]) + ["total"]) &&
        Get(out.result.value, "total") == Some(Total(SumCounts(rows))) &&
        Get(out.result.value, "0") == None &&
        (source != "total" ==>
          Get(out.result.value, source) ==
            if survivors == [] then None
            else if authorizedRaw then Some(Rows(survivors))
            else Some(SanitizedField(source, Rows(survivors), SumCounts(rows))))
  {
    var data := SingleData(source, rows);
    var total := SumCounts(rows);
    SingleDataKeys(source, rows);
    SingleCategory(source, rows);
    SingleResponseKeys(authorizedRaw, source, rows);
    BuildResponseCategories(authorizedRaw, total, data);
    var built := BuildResponse(authorizedRaw, total, data);
    if built.Success? {
      var p := built.value;
      TotalAfterSource(p, source, SingleRows(source, rows) != [], Total(total));
      PutOther(p, "total", Total(total), "0");
      if source != "total" {
        PutOther(p, "total", Total(total), source);
      }
    }
  }

  /**
   * Without raw data, a single-source report over non-negative counts with
   * a positive total is built, and every share under the source lies
   * between 0 and 100: a name keeps at most the counts the total adds up.
   */
  lemma SingleSharesWithin(source: string, rows: seq<Row>)
    requires source != "0" && NonNegativeCounts(rows) && SumCounts(rows) > 0
    ensures var out := SingleRender(false, source, rows);
      out.result.Success? &&
      (source != "total" && Get(out.result.value, source).Some? ==>
        Get(out.result.value, source).value.Shares? &&
        Within(Get(out.result.value, source).value.shares, 0.0, 100.0))
  {
    var total := SumCounts(rows);
    var pairs := SinglePairs(source, rows);
    var counts := AssignAll(Empty(), pairs);
    var survivors := SingleRows(source, rows);
    SingleReportFails(false, source, rows);
    SingleReportPayload(false, source, rows);
    SingleStoredBound(source, rows);
    SinglePairsSum(source, rows);
    AssignAllSumBound(Empty(), pairs);
    CountEntriesSum(counts);
    SurvivorsSum(CountEntries(counts));
    SharesWithin(RuleFor(source), survivors, total);
  }

  /**
   * `source === 'cms_php'` selects the combined report, which does not
   * read `authorizedRaw` nor the total it starts from.
   */
  lemma CombinedSelected(authorizedRaw: bool, recent: bool, prior: int, recentItems: Dataset, sourceItems: Dataset)
    requires (if recent then recentItems else sourceItems).Flat?
    ensures RenderSpec(authorizedRaw, recent, CombinedSource, prior, recentItems, sourceItems) ==
      CombinedRender(CombinedSource, (if recent then recentItems else sourceItems).rows)
  {
  }

  /**
   * The combined report is never sanitized: it holds the CMS by PHP table
   * under "cms_php" (absent when there is no row) and then the total of
   * every row's count.
   */
  lemma CombinedReport(rows: seq<Row>)
    ensures var out := CombinedRender(CombinedSource, rows);
      out.total == SumCounts(rows) &&
      out.result.Success? &&
      Valid(out.result.value) &&
      out.result.value.keys == (if |rows| == 0 then ["total"] else [CombinedSource, "total"]) &&
      Get(out.result.value, "total") == Some(Total(SumCounts(rows))) &&
      (|rows| > 0 ==> Get(out.result.value, CombinedSource) == Some(CrossTab(CrossTable(rows))))
  {
    var total := Total(SumCounts(rows));
    CombinedDataShape(CombinedSource, rows);
    if |rows| == 0 {
      PutOne("total", total);
    } else {
      CombinedSourceNotTotal();
      PutTwo(CombinedSource, CrossTab(CrossTable(rows)), "total", total);
    }
  }

  /**
   * With non-negative counts the cells of the combined table sum to at most
   * the reported total: an overwritten pair loses its earlier count.
   */
  lemma CombinedStoredBound(rows: seq<Row>)
    requires NonNegativeCounts(rows)
    ensures ValidNested(CrossTable(rows))
    ensures TableSum(CrossTable(rows)) <= CombinedRender(CombinedSource, rows).total
  {
    CrossTableBound(rows);
  }

  /** The surviving rows of one category of the full-dataset report. */
  function FullRows(groups: seq<seq<Row>>, c: string): seq<NameCount>
  {
    Survivors(CountEntries(AssignAll(Empty(), FullPairs(c, Flatten(groups)))))
  }

  lemma FullCategoryRows(groups: seq<seq<Row>>)
    ensures Valid(FullData(groups)) && FullData(groups).keys == DataSources
    ensures forall c :: c in DataSources ==> CategoryRows(FullData(groups), c) == FullRows(groups, c)
  {
    FullDataGet(groups);
  }

  /**
   * The full-dataset report: `totalItems` counts, over the last group only,
   * each row once per category it is counted in (or stays as it was with
   * no group); the report fails exactly without raw data, with a zero
   * total and a surviving row in some category.
   */
  lemma FullReportFails(authorizedRaw: bool, prior: int, groups: seq<seq<Row>>)
    ensures var out := FullRender(authorizedRaw, prior, groups);
      out.total == (if |groups| == 0 then prior else CategorySums(groups[|groups| - 1], |DataSources|)) &&
      (out.result.Failure? <==>
        !authorizedRaw && out.total == 0 &&
        exists i :: 0 <= i < |DataSources| && FullRows(groups, DataSources[i]) != [])
  {
    var data := FullData(groups);
    FullCategoryRows(groups);
    if |groups| > 0 {
      GroupTotalSplits(groups[|groups| - 1]);
    }
    BuildResponseFails(FullTotal(prior, groups), data);
    SurvivingKeysNonEmpty(data, |data.keys|);
  }

  /**
   * A full-dataset report that was built holds the total and, for each of
   * the five categories, its surviving rows or their shares (nothing when
   * no row survives).
   */
  lemma FullReportPayload(authorizedRaw: bool, prior: int, groups: seq<seq<Row>>)
    ensures var out := FullRender(authorizedRaw, prior, groups);
      out.result.Success? ==>
        Valid(out.result.value) &&
        out.result.value.keys == SurvivingKeys(FullData(groups), |FullData(groups).keys|) + ["total"] &&
        Get(out.result.value, "total") == Some(Total(out.total)) &&
        forall c :: c in DataSources ==>
          Get(out.result.value, c) ==
            if FullRows(groups, c) == [] then None
            else if authorizedRaw then Some(Rows(FullRows(groups, c)))
            else Some(SanitizedField(c, Rows(FullRows(groups, c)), out.total))
  {
    var data := FullData(groups);
    var total := FullTotal(prior, groups);
    FullCategoryRows(groups);
    BuildResponseCategories(authorizedRaw, total, data);
    var built := BuildResponse(authorizedRaw, total, data);
    TotalNotDataSource();
    if built.Success? {
      var r := built.value;
      assert CategoryRows(data, "total") == [];
      assert "total" !in r.vals;
      forall c | c in DataSources
        ensures Get(Put(r, "total", Total(total)), c) ==
          if FullRows(groups, c) == [] then None
          else if authorizedRaw then Some(Rows(FullRows(groups, c)))
          else Some(SanitizedField(c, Rows(FullRows(groups, c)), total))
      {
        PutOther(r, "total", Total(total), c);
        assert c in data.vals;
        assert CategoryRows(data, c) == FullRows(groups, c);
      }
    }
  }

  /**
   * Without raw data, a full-dataset report over one group of non-negative
   * counts with a positive total is built, and every share of every
   * category lies between 0 and 100. With several groups the total counts
   * only the last one, and the bound fails (`FullShareOverflow`).
   */
  lemma FullSharesWithin(prior: int, group: seq<Row>)
    requires NonNegativeCounts(group) && FullTotal(prior, [group]) > 0
    ensures var out := FullRender(false, prior, [group]);
      out.result.Success? &&
      forall c :: c in DataSources && Get(out.result.value, c).Some? ==>
        Get(out.result.value, c).value.Shares? &&
        Within(Get(out.result.value, c).value.shares, 0.0, 100.0)
  {
    var groups := [group];
    var total := FullTotal(prior, groups);
    var out := FullRender(false, prior, groups);
    FullReportFails(false, prior, groups);
    FullReportPayload(false, prior, groups);
    FullStoredBound(prior, group);
    assert Flatten(groups) == group by {
      assert groups[..0] == [];
    }
    forall c | c in DataSources && Get(out.result.value, c).Some?
      ensures Get(out.result.value, c).value.Shares? &&
        Within(Get(out.result.value, c).value.shares, 0.0, 100.0)
    {
      CategorySharesWithin(group, c, total);
    }
  }

  /** Assigning two distinct keys into an empty array lists them, with their counts, in order. */
  lemma AssignTwo(n1: string, v1: int, n2: string, v2: int)
    requires n1 != n2
    ensures CountEntries(AssignAll(Empty(), [Entry(n1, v1), Entry(n2, v2)])) == [Entry(n1, v1), Entry(n2, v2)]
  {
    var es := [Entry(n1, v1), Entry(n2, v2)];
    assert es[..1] == [Entry(n1, v1)];
    assert es[..1][..0] == [];
    assert AssignAll(Empty(), es[..1]) == Put(Empty(), n1, v1);
    var a := Put(Put(Empty(), n1, v1), n2, v2);
    assert AssignAll(Empty(), es) == a;
    PutTwo(n1, v1, n2, v2);
    assert CountEntries(a)[0] == es[0];
    assert CountEntries(a)[1] == es[1];
  }

  /** Two pairs with truthy names both survive, in order. */
  lemma SurvivorsTwo(n1: string, v1: int, n2: string, v2: int)
    requires IsTruthy(n1) && IsTruthy(n2)
    ensures Survivors([Entry(n1, v1), Entry(n2, v2)]) == [NameCount(n1, v1), NameCount(n2, v2)]
  {
    var es := [Entry(n1, v1), Entry(n2, v2)];
    assert es[..1] == [Entry(n1, v1)];
    assert es[..1][..0] == [];
    assert Survivors(es[..1]) == [NameCount(n1, v1)];
  }

  /**
   * Two groups of one `db_type` row each: the total is the second row's
   * count, and the category lists both rows.
   */
  lemma OverflowRows(prior: int, first: Row, second: Row, n1: string, n2: string)
    requires first.columns == map[DbType := n1] && second.columns == map[DbType := n2]
    requires n1 != n2 && IsTruthy(n1) && IsTruthy(n2)
    ensures FullTotal(prior, [[first], [second]]) == second.count
    ensures FullRows([[first], [second]], DbType) ==
      [NameCount(n1, first.count), NameCount(n2, second.count)]
  {
    FlattenPair([first], [second]);
    assert [first] + [second] == [first, second];
    DbTypeOnly(first, n1);
    DbTypeOnly(second, n2);
    assert GroupTotal([second]) == second.count by {
      assert [second][..0] == [];
    }
    FullPairsPair(DbType, first, second, n1, n2);
    AssignTwo(n1, first.count, n2, second.count);
    SurvivorsTwo(n1, first.count, n2, second.count);
  }

  /**
   * Two groups of one `db_type` row each, without raw data: the first row's
   * share is taken of the second row's count alone.
   */
  lemma OverflowShares(prior: int, first: Row, second: Row, n1: string, n2: string)
    requires first.columns == map[DbType := n1] && second.columns == map[DbType := n2]
    requires n1 != n2 && IsTruthy(n1) && IsTruthy(n2) && second.count != 0
    ensures var out := FullRender(false, prior, [[first], [second]]);
      out.total == second.count && out.result.Success? &&
      Get(out.result.value, DbType).Some? && Get(out.result.value, DbType).value.Shares? &&
      Get(Get(out.result.value, DbType).value.shares, n1) == Some(Percent(first.count, second.count))
  {
    var groups := [[first], [second]];
    var rows := [NameCount(n1, first.count), NameCount(n2, second.count)];
    OverflowRows(prior, first, second, n1, n2);
    FullReportFails(false, prior, groups);
    FullReportPayload(false, prior, groups);
    assert DataSources[1] == DbType;
    DbTypeShares(n1, first.count, n2, second.count, second.count);
  }

  /** The `db_type` category of two distinct names: the first name's share. */
  lemma DbTypeShares(n1: string, v1: int, n2: string, v2: int, total: int)
    requires n1 != n2 && total != 0
    ensures var f := SanitizedField(DbType, Rows([NameCount(n1, v1), NameCount(n2, v2)]), total);
      f.Shares? && Get(f.shares, n1) == Some(Percent(v1, total))
  {
    var rows := [NameCount(n1, v1), NameCount(n2, v2)];
    assert RuleFor(DbType) == ByName by {
      assert |DbType| != |PhpVersion| && |DbType| != |DbVersion| && |DbType| != |CmsVersion|;
      assert |DbType| != |ServerOs|;
    }
    SanitizeGroupByName(rows, total);
    var shares := SanitizeGroup(ByName, rows, total).value;
    assert Entries(shares)[0] == Entry(n1, Percent(v1, total));
  }

  /**
   * Across groups the shares are not bounded by 100: a `db_type` row of
   * count 10, then a group with one row of another type and count 1, gives
   * the first type 1000 percent of the total of 1.
   */
  lemma FullShareOverflow(prior: int)
    ensures var first := Row(map[DbType := "mysql"], 10);
      var second := Row(map[DbType := "pgsql"], 1);
      var out := FullRender(false, prior, [[first], [second]]);
      out.total == 1 && out.result.Success? &&
      Get(out.result.value, DbType).Some? && Get(out.result.value, DbType).value.Shares? &&
      Get(Get(out.result.value, DbType).value.shares, "mysql") == Some(1000.0)
  {
    var first := Row(map[DbType := "mysql"], 10);
    var second := Row(map[DbType := "pgsql"], 1);
    OverflowShares(prior, first, second, "mysql", "pgsql");
    assert Percent(10, 1) == 1000.0;
  }

  /** One category of one group: what it keeps is at most the total, so its shares are bounded. */
  lemma CategorySharesWithin(group: seq<Row>, c: string, total: int)
    requires NonNegativeCounts(group) && c in DataSources
    requires KeptSums(group, |DataSources|) <= total && total > 0
    ensures SanitizeGroup(RuleFor(c), FullRows([group], c), total).Success?
    ensures Within(SanitizeGroup(RuleFor(c), FullRows([group], c), total).value, 0.0, 100.0)
  {
    assert Flatten([group]) == group by {
      assert [group][..0] == [];
    }
    var i :| 0 <= i < |DataSources| && DataSources[i] == c;
    KeptSumsPart(group, |DataSources|, i);
    var counts := AssignAll(Empty(), FullPairs(c, group));
    FullPairsNonNegative(c, group);
    AssignAllSumBound(Empty(), FullPairs(c, group));
    CountEntriesSum(counts);
    SurvivorsSum(CountEntries(counts));
    SharesWithin(RuleFor(c), FullRows([group], c), total);
  }

  /**
   * Because the total starts again with each group, a trailing empty group
   * makes the report fail even though the earlier group left a row.
   */
  lemma FullResetFails(prior: int, row: Row, version: string)
    requires PhpVersion in row.columns && row.columns[PhpVersion] == version && IsTruthy(version)
    ensures FullRender(false, prior, [[row], []]).result == Failure(DivisionByZero)
  {
    var groups := [[row], []];
    FullResetExample(prior, row, version);
    FullReportFails(false, prior, groups);
    var counts := Put(Empty(), version, row.count);
    assert FullRows(groups, PhpVersion) != [] by {
      PutFresh(Empty<int>(), version, row.count);
      assert AssignAll(Empty(), FullPairs(PhpVersion, Flatten(groups))) == counts by {
        FullDataGet(groups);
      }
      CategoryRowsNonEmpty(Put(Empty(), PhpVersion, counts), PhpVersion);
      assert counts.keys[0] == version;
    }
    assert DataSources[0] == PhpVersion;
  }
}
