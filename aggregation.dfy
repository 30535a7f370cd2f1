/**
 * The three aggregation loops of the view, as functions of the rows they
 * read: one count per value of one column (single source), one count per
 * value of each of the five columns, group after group (full dataset), and
 * one count per CMS version and PHP version pair (combined). Every loop
 * assigns the count of the row it reads, so a later row with the same value
 * replaces an earlier one.
 */
module Aggregation {
  import opened PhpArrays
  import opened PhpStrings
  import opened Telemetry

  // ---------------------------------------------------------------------
  // Single source
  // ---------------------------------------------------------------------

  /**
   * The key a row is stored under: the source column, with an empty or
   * blank `server_os` (after trimming) renamed "unknown".
   */
  function SingleName(source: string, row: Row): string
  {
    var v := Column(row, source);
    if source == ServerOs && !IsTruthy(Trim(v)) then "unknown" else v
  }

  function SinglePairs(source: string, rows: seq<Row>): (kvs: seq<Entry<int>>)
    ensures |kvs| == |rows|
    ensures forall i :: 0 <= i < |rows| ==> kvs[i] == Entry(SingleName(source, rows[i]), rows[i].count)
  {
    seq(|rows|, i requires 0 <= i < |rows| => Entry(SingleName(source, rows[i]), rows[i].count))
  }

  /** `$data = [${$this->source} = []]`: one empty array, under the key 0. */
  function SingleStart(): PhpArray<PhpArray<int>>
  {
    Put(Empty(), "0", Empty())
  }

  /** `[${$this->source} = []]` is `[0 => []]`. */
  lemma SingleStartShape()
    ensures Valid(SingleStart()) && SingleStart().keys == ["0"] && "0" in SingleStart().vals
    ensures forall k :: k in SingleStart().vals <==> k == "0"
    ensures GetOr(SingleStart(), "0", Empty()) == Empty()
  {
    PutFresh(Empty<PhpArray<int>>(), "0", Empty());
  }

  /** `$data` after the loop of the single-source path has read `rows`. */
  function SingleData(source: string, rows: seq<Row>): PhpArray<PhpArray<int>>
    decreases |rows|
  {
    if |rows| == 0 then SingleStart()
    else
      var last := rows[|rows| - 1];
      PutIn(SingleData(source, rows[..|rows| - 1]), source, SingleName(source, last), last.count)
  }

  /**
   * The single-source data holds the empty array under 0 and, once a row
   * has been read, the source's counts after it: every row's count assigned
   * in turn to its name.
   */
  lemma {:induction false} SingleDataShape(source: string, rows: seq<Row>)
    requires source != "0"
    ensures SingleData(source, rows) ==
      if |rows| == 0 then SingleStart()
      else Put(SingleStart(), source, AssignAll(Empty(), SinglePairs(source, rows)))
    decreases |rows|
  {
    if |rows| > 0 {
      var init := rows[..|rows| - 1];
      var last := rows[|rows| - 1];
      assert SinglePairs(source, rows)[..|rows| - 1] == SinglePairs(source, init);
      SingleDataShape(source, init);
      if |init| > 0 {
        PutPut(SingleStart(), source, AssignAll(Empty(), SinglePairs(source, init)),
          AssignAll(Empty(), SinglePairs(source, rows)));
      }
    }
  }

  /**
   * The single-source data: the empty array under "0", then, once a row
   * has been read, the source's counts.
   */
  lemma SingleDataKeys(source: string, rows: seq<Row>)
    requires source != "0"
    ensures var data := SingleData(source, rows);
      Valid(data) &&
      data.keys == (if |rows| == 0 then ["0"] else ["0", source]) &&
      GetOr(data, "0", Empty()) == Empty() &&
      (|rows| > 0 ==> GetOr(data, source, Empty()) == AssignAll(Empty(), SinglePairs(source, rows)))
  {
    SingleDataShape(source, rows);
    SingleStartShape();
    if |rows| > 0 {
      SingleSourceShape(source, AssignAll(Empty(), SinglePairs(source, rows)));
    }
  }

  /** `[0 => []]` with the source's counts assigned after the placeholder. */
  lemma SingleSourceShape(source: string, counts: PhpArray<int>)
    requires source != "0"
    ensures var data := Put(SingleStart(), source, counts);
      Valid(data) && data.keys == ["0", source] &&
      GetOr(data, "0", Empty()) == Empty() && GetOr(data, source, Empty()) == counts
  {
    SingleStartShape();
    PutFresh(SingleStart(), source, counts);
    assert Put(SingleStart(), source, counts).keys == ["0"] + [source];
    PutOther(SingleStart(), source, counts, "0");
  }

  lemma SingleDataNested(source: string, rows: seq<Row>)
    requires source != "0"
    ensures ValidNested(SingleData(source, rows))
  {
    var data := SingleData(source, rows);
    SingleDataShape(source, rows);
    SingleStartShape();
    if |rows| > 0 {
      var counts := AssignAll(Empty(), SinglePairs(source, rows));
      AssignAllValid(Empty(), SinglePairs(source, rows));
      PutFresh(SingleStart(), source, counts);
      forall k | k in data.vals ensures Valid(data.vals[k]) {
        if k != source {
          PutOther(SingleStart(), source, counts, k);
        }
      }
    }
  }

  /**
   * The counts of the single-source path: one per distinct name, in the
   * order the names first occur, each holding the count of the LAST row
   * with that name.
   */
  lemma SingleCounts(source: string, rows: seq<Row>, i: nat)
    requires i < |rows|
    requires forall j :: i < j < |rows| ==> SingleName(source, rows[j]) != SingleName(source, rows[i])
    ensures var counts := AssignAll(Empty(), SinglePairs(source, rows));
      Valid(counts) &&
      counts.keys == FirstOccurrences(KeysOf(SinglePairs(source, rows))) &&
      Get(counts, SingleName(source, rows[i])) == Some(rows[i].count)
  {
    AssignAllValid(Empty(), SinglePairs(source, rows));
    AssignAllKeys(SinglePairs(source, rows));
    AssignAllLastWins(Empty(), SinglePairs(source, rows), i);
  }

  /** Every row's count goes into the total once. */
  lemma {:induction false} SinglePairsSum(source: string, rows: seq<Row>)
    ensures SumEntries(SinglePairs(source, rows)) == SumCounts(rows)
    ensures NonNegativeCounts(rows) ==> NonNegative(SinglePairs(source, rows))
    decreases |rows|
  {
    if |rows| > 0 {
      assert SinglePairs(source, rows)[..|rows| - 1] == SinglePairs(source, rows[..|rows| - 1]);
      SinglePairsSum(source, rows[..|rows| - 1]);
    }
  }

  /**
   * With non-negative counts the counts kept sum to at most the total: a
   * repeated name keeps one count, while every count is added to the total.
   */
  lemma SingleStoredBound(source: string, rows: seq<Row>)
    requires NonNegativeCounts(rows)
    ensures Valid(AssignAll(Empty(), SinglePairs(source, rows)))
    ensures SumValues(AssignAll(Empty(), SinglePairs(source, rows))) <= SumCounts(rows)
  {
    SinglePairsSum(source, rows);
    AssignAllSumBound(Empty(), SinglePairs(source, rows));
  }

  // ---------------------------------------------------------------------
  // Full dataset
  // ---------------------------------------------------------------------

  /**
   * Whether, and under which key, a row is counted for `category`: not when
   * the column is missing or NULL; a `server_os` that PHP's `empty()`
   * rejects ("" or "0", not trimmed) is counted as "unknown".
   */
  function FullName(category: string, row: Row): Option<string>
  {
    if category !in row.columns then None
    else if category == ServerOs && !IsTruthy(row.columns[category]) then Some("unknown")
    else Some(row.columns[category])
  }

  /**
   * An empty `server_os` is stored as "unknown" on both paths, but only
   * the single-source path trims it first and reads a missing column as
   * empty; the full-dataset path skips a missing column. Every other
   * category keeps its value as it is.
   */
  lemma ServerOsNames(row: Row, c: string)
    ensures var v := Column(row, ServerOs);
      SingleName(ServerOs, row) == (if IsTruthy(Trim(v)) then v else "unknown") &&
      ((forall i :: 0 <= i < |v| ==> IsTrimmed(v[i])) ==> SingleName(ServerOs, row) == "unknown")
    ensures FullName(ServerOs, row) ==
      if ServerOs !in row.columns then None
      else if row.columns[ServerOs] == "" || row.columns[ServerOs] == "0" then Some("unknown")
      else Some(row.columns[ServerOs])
    ensures c != ServerOs ==>
      SingleName(c, row) == Column(row, c) &&
      FullName(c, row) == if c in row.columns then Some(row.columns[c]) else None
  {
    TrimEmpty(Column(row, ServerOs));
  }

  /** A blank `server_os` is "unknown" in a single-source report and kept as it is in the full one. */
  lemma BlankServerOs(row: Row)
    requires row.columns == map[ServerOs := " "]
    ensures SingleName(ServerOs, row) == "unknown"
    ensures FullName(ServerOs, row) == Some(" ")
  {
    ServerOsNames(row, ServerOs);
    assert IsTrimmed(Column(row, ServerOs)[0]);
  }

  /** `$counts[$name] = $count` when the row is counted, else nothing. */
  function Store(counts: PhpArray<int>, name: Option<string>, count: int): PhpArray<int>
  {
    match name
    case None => counts
    case Some(k) => Put(counts, k, count)
  }

  /**
   * The five per-category arrays, empty, in the order `$data` lists them.
   * (The view keeps them in five local variables and gathers them into
   * `$data` after the loops, under the same keys in the same order.)
   */
  function InitialCategories(): (r: PhpArray<PhpArray<int>>)
    ensures Valid(r) && r.keys == DataSources
  {
    PhpArray(DataSources, map c | c in DataSources :: Empty())
  }

  /** The inner loop over `$this->dataSources` for one row, after `n` sources. */
  function ItemStep(cats: PhpArray<PhpArray<int>>, row: Row, n: nat): PhpArray<PhpArray<int>>
    requires n <= |DataSources|
    decreases n
  {
    if n == 0 then cats
    else
      var c := DataSources[n - 1];
      StoreIn(ItemStep(cats, row, n - 1), c, FullName(c, row), row.count)
  }

  /** `$cats[$c][$name] = $count` when the row is counted, else nothing. */
  function StoreIn(cats: PhpArray<PhpArray<int>>, c: string, name: Option<string>, count: int): PhpArray<PhpArray<int>>
  {
    match name
    case None => cats
    case Some(k) => PutIn(cats, c, k, count)
  }

  /** Storing into the array of category `c` changes that array alone. */
  lemma StoreInGet(cats: PhpArray<PhpArray<int>>, c: string, name: Option<string>, count: int)
    requires Valid(cats) && c in cats.vals
    ensures Valid(StoreIn(cats, c, name, count)) && StoreIn(cats, c, name, count).keys == cats.keys
    ensures Get(StoreIn(cats, c, name, count), c) == Some(Store(cats.vals[c], name, count))
    ensures forall d :: d != c ==> Get(StoreIn(cats, c, name, count), d) == Get(cats, d)
  {
    if name.Some? {
      PutValid(cats, c, Put(cats.vals[c], name.value, count));
    }
  }

  /** What the inner loop adds to the total for one row, after `n` sources. */
  function ItemWeight(row: Row, n: nat): int
    requires n <= |DataSources|
    decreases n
  {
    if n == 0 then 0
    else ItemWeight(row, n - 1) + (if DataSources[n - 1] in row.columns then row.count else 0)
  }

  /** The loop over the rows of one group. */
  function Scan(cats: PhpArray<PhpArray<int>>, rows: seq<Row>): PhpArray<PhpArray<int>>
    decreases |rows|
  {
    if |rows| == 0 then cats
    else ItemStep(Scan(cats, rows[..|rows| - 1]), rows[|rows| - 1], |DataSources|)
  }

  /** What the loop over one group adds to the total, starting from 0. */
  function GroupTotal(rows: seq<Row>): int
    decreases |rows|
  {
    if |rows| == 0 then 0
    else GroupTotal(rows[..|rows| - 1]) + ItemWeight(rows[|rows| - 1], |DataSources|)
  }

  /** The per-category arrays after the loop over every group. */
  function FullData(groups: seq<seq<Row>>): PhpArray<PhpArray<int>>
    decreases |groups|
  {
    if |groups| == 0 then InitialCategories()
    else Scan(FullData(groups[..|groups| - 1]), groups[|groups| - 1])
  }

  /**
   * `$this->totalItems` after the loop over every group: it is reset at the
   * start of each group, so it is the total of the last group, or what it
   * was before when there is no group.
   */
  function FullTotal(prior: int, groups: seq<seq<Row>>): int
  {
    if |groups| == 0 then prior else GroupTotal(groups[|groups| - 1])
  }

  function Flatten(groups: seq<seq<Row>>): seq<Row>
    decreases |groups|
  {
    if |groups| == 0 then [] else Flatten(groups[..|groups| - 1]) + groups[|groups| - 1]
  }

  /** The `name => count` assignments a run of rows makes to one category. */
  function FullPairs(category: string, rows: seq<Row>): seq<Entry<int>>
    decreases |rows|
  {
    if |rows| == 0 then []
    else
      var last := rows[|rows| - 1];
      FullPairs(category, rows[..|rows| - 1]) +
        match FullName(category, last)
        case None => []
        case Some(k) => [Entry(k, last.count)]
  }

  /** Storing a row's counts adds no key to the categories. */
  lemma {:induction false} ItemStepShape(cats: PhpArray<PhpArray<int>>, row: Row, n: nat)
    requires n <= |DataSources|
    requires Valid(cats) && forall c :: c in DataSources ==> c in cats.vals
    ensures Valid(ItemStep(cats, row, n)) && ItemStep(cats, row, n).keys == cats.keys
    decreases n
  {
    if n > 0 {
      ItemStepShape(cats, row, n - 1);
      var c := DataSources[n - 1];
      StoreInGet(ItemStep(cats, row, n - 1), c, FullName(c, row), row.count);
    }
  }

  /**
   * After the first `n` categories, each of them holds its array with the
   * row's count stored, and the others are as they were.
   */
  lemma {:induction false} ItemStepGet(cats: PhpArray<PhpArray<int>>, row: Row, n: nat)
    requires n <= |DataSources|
    requires Valid(cats) && forall c :: c in DataSources ==> c in cats.vals
    ensures Valid(ItemStep(cats, row, n)) && ItemStep(cats, row, n).keys == cats.keys
    ensures forall i :: 0 <= i < n ==>
      Get(ItemStep(cats, row, n), DataSources[i]) ==
      Some(Store(cats.vals[DataSources[i]], FullName(DataSources[i], row), row.count))
    ensures forall i :: n <= i < |DataSources| ==>
      Get(ItemStep(cats, row, n), DataSources[i]) == Get(cats, DataSources[i])
    decreases n
  {
    ItemStepShape(cats, row, n);
    if n > 0 {
      ItemStepGet(cats, row, n - 1);
      ItemStepShape(cats, row, n - 1);
      DataSourcesDistinct();
      var acc := ItemStep(cats, row, n - 1);
      var c := DataSources[n - 1];
      StoreInGet(acc, c, FullName(c, row), row.count);
      assert ItemStep(cats, row, n) == StoreIn(acc, c, FullName(c, row), row.count);
      forall i | 0 <= i < |DataSources| && i != n - 1
        ensures DataSources[i] != c
      {
      }
    }
  }

  lemma {:induction false} FullPairsAppend(category: string, rows: seq<Row>, x: PhpArray<int>)
    requires |rows| > 0
    ensures AssignAll(x, FullPairs(category, rows)) ==
      Store(AssignAll(x, FullPairs(category, rows[..|rows| - 1])), FullName(category, rows[|rows| - 1]), rows[|rows| - 1].count)
  {
    var last := rows[|rows| - 1];
    var init := FullPairs(category, rows[..|rows| - 1]);
    match FullName(category, last)
    case None =>
      assert FullPairs(category, rows) == init;
    case Some(k) =>
      assert FullPairs(category, rows) == init + [Entry(k, last.count)];
      assert (init + [Entry(k, last.count)])[..|init|] == init;
  }

  /**
   * Reading a run of rows leaves every category holding its earlier array
   * with that category's assignments made in order; no key is added.
   */
  lemma {:induction false} ScanGet(cats: PhpArray<PhpArray<int>>, rows: seq<Row>)
    requires Valid(cats) && forall c :: c in DataSources ==> c in cats.vals
    ensures Valid(Scan(cats, rows)) && Scan(cats, rows).keys == cats.keys
    ensures forall c :: c in DataSources ==>
      Get(Scan(cats, rows), c) == Some(AssignAll(cats.vals[c], FullPairs(c, rows)))
    decreases |rows|
  {
    if |rows| > 0 {
      var init := rows[..|rows| - 1];
      ScanGet(cats, init);
      ItemStepGet(Scan(cats, init), rows[|rows| - 1], |DataSources|);
      forall c | c in DataSources
        ensures Get(Scan(cats, rows), c) == Some(AssignAll(cats.vals[c], FullPairs(c, rows)))
      {
        var i :| 0 <= i < |DataSources| && DataSources[i] == c;
        FullPairsAppend(c, rows, cats.vals[c]);
      }
    }
  }

  lemma {:induction false} ScanConcat(cats: PhpArray<PhpArray<int>>, x: seq<Row>, y: seq<Row>)
    ensures Scan(Scan(cats, x), y) == Scan(cats, x + y)
    decreases |y|
  {
    if |y| == 0 {
      assert x + y == x;
    } else {
      ScanConcat(cats, x, y[..|y| - 1]);
      assert (x + y)[..|x + y| - 1] == x + y[..|y| - 1];
    }
  }

  lemma {:induction false} FullDataScan(groups: seq<seq<Row>>)
    ensures FullData(groups) == Scan(InitialCategories(), Flatten(groups))
    decreases |groups|
  {
    if |groups| > 0 {
      FullDataScan(groups[..|groups| - 1]);
      ScanConcat(InitialCategories(), Flatten(groups[..|groups| - 1]), groups[|groups| - 1]);
    }
  }

  /**
   * The per-category arrays do not start over with a group: after every
   * group, each of the five categories holds the assignments of all the
   * rows of all the groups, in order, and no other key appears.
   */
  lemma FullDataGet(groups: seq<seq<Row>>)
    ensures Valid(FullData(groups)) && FullData(groups).keys == DataSources
    ensures forall c :: c in DataSources ==>
      Get(FullData(groups), c) == Some(AssignAll(Empty(), FullPairs(c, Flatten(groups))))
  {
    FullDataScan(groups);
    ScanGet(InitialCategories(), Flatten(groups));
  }

  lemma FullDataNested(groups: seq<seq<Row>>)
    ensures ValidNested(FullData(groups))
  {
    FullDataGet(groups);
    forall c | c in FullData(groups).vals ensures Valid(FullData(groups).vals[c]) {
      AssignAllValid(Empty(), FullPairs(c, Flatten(groups)));
    }
  }

  /**
   * So a category's array holds one count per key, in the order the keys
   * are first met, and the count of the last row met with that key.
   */
  lemma FullCategory(groups: seq<seq<Row>>, c: string, i: nat)
    requires c in DataSources
    requires i < |FullPairs(c, Flatten(groups))|
    requires forall j :: i < j < |FullPairs(c, Flatten(groups))| ==>
      FullPairs(c, Flatten(groups))[j].key != FullPairs(c, Flatten(groups))[i].key
    ensures var counts := GetOr(FullData(groups), c, Empty());
      Valid(counts) &&
      counts.keys == FirstOccurrences(KeysOf(FullPairs(c, Flatten(groups)))) &&
      Get(counts, FullPairs(c, Flatten(groups))[i].key) == Some(FullPairs(c, Flatten(groups))[i].value)
  {
    var ps := FullPairs(c, Flatten(groups));
    FullDataGet(groups);
    AssignAllValid(Empty(), ps);
    AssignAllKeys(ps);
    AssignAllLastWins(Empty(), ps, i);
  }

  /** The sum of what a run of rows assigns to the first `n` categories. */
  function CategorySums(rows: seq<Row>, n: nat): int
    requires n <= |DataSources|
    decreases n
  {
    if n == 0 then 0 else CategorySums(rows, n - 1) + SumEntries(FullPairs(DataSources[n - 1], rows))
  }

  lemma {:induction false} CategorySumsStep(rows: seq<Row>, n: nat)
    requires |rows| > 0 && n <= |DataSources|
    ensures CategorySums(rows, n) == CategorySums(rows[..|rows| - 1], n) + ItemWeight(rows[|rows| - 1], n)
    decreases n
  {
    if n > 0 {
      CategorySumsStep(rows, n - 1);
      var c := DataSources[n - 1];
      var init := FullPairs(c, rows[..|rows| - 1]);
      var last := rows[|rows| - 1];
      match FullName(c, last)
      case None =>
        assert FullPairs(c, rows) == init;
      case Some(k) =>
        assert FullPairs(c, rows) == init + [Entry(k, last.count)];
        assert (init + [Entry(k, last.count)])[..|init|] == init;
    }
  }

  /**
   * A group's total adds a row's count once for each category where the
   * row is counted: it is the sum of every assignment the group makes.
   */
  lemma {:induction false} GroupTotalSplits(rows: seq<Row>)
    ensures GroupTotal(rows) == CategorySums(rows, |DataSources|)
    decreases |rows|
  {
    if |rows| == 0 {
      assert CategorySums(rows, |DataSources|) == 0 by {
        CategorySumsEmpty(rows, |DataSources|);
      }
    } else {
      GroupTotalSplits(rows[..|rows| - 1]);
      CategorySumsStep(rows, |DataSources|);
    }
  }

  lemma {:induction false} CategorySumsEmpty(rows: seq<Row>, n: nat)
    requires |rows| == 0 && n <= |DataSources|
    ensures CategorySums(rows, n) == 0
    decreases n
  {
    if n > 0 {
      CategorySumsEmpty(rows, n - 1);
    }
  }

  lemma {:induction false} FullPairsNonNegative(category: string, rows: seq<Row>)
    requires NonNegativeCounts(rows)
    ensures NonNegative(FullPairs(category, rows))
    decreases |rows|
  {
    if |rows| > 0 {
      FullPairsNonNegative(category, rows[..|rows| - 1]);
    }
  }

  /** The sum of the counts category `c` keeps after a run of rows. */
  function Kept(rows: seq<Row>, c: string): int
  {
    var ps := FullPairs(c, rows);
    AssignAllValid(Empty(), ps);
    SumValues(AssignAll(Empty(), ps))
  }

  /** With non-negative counts, what one category keeps sums to at least 0. */
  lemma KeptNonNegative(rows: seq<Row>, c: string)
    requires NonNegativeCounts(rows)
    ensures Kept(rows, c) >= 0
  {
    var kept := AssignAll(Empty(), FullPairs(c, rows));
    FullPairsNonNegative(c, rows);
    AssignAllSumBound(Empty(), FullPairs(c, rows));
    SumOverNonNegative(kept.keys, kept.vals);
  }

  /** With non-negative counts, what one category keeps is part of what they all keep. */
  lemma {:induction false} KeptSumsPart(rows: seq<Row>, n: nat, i: nat)
    requires i < n <= |DataSources| && NonNegativeCounts(rows)
    ensures 0 <= Kept(rows, DataSources[i]) <= KeptSums(rows, n)
    decreases n
  {
    var c := DataSources[n - 1];
    KeptNonNegative(rows, c);
    assert KeptSums(rows, n) == KeptSums(rows, n - 1) + Kept(rows, c);
    if i < n - 1 {
      KeptSumsPart(rows, n - 1, i);
    } else if n > 1 {
      KeptSumsPart(rows, n - 1, 0);
    }
  }

  /** The sum of the counts the first `n` categories keep after a run of rows. */
  function KeptSums(rows: seq<Row>, n: nat): int
    requires n <= |DataSources|
    decreases n
  {
    if n == 0 then 0 else KeptSums(rows, n - 1) + Kept(rows, DataSources[n - 1])
  }

  lemma {:induction false} KeptSumsBound(rows: seq<Row>, n: nat)
    requires n <= |DataSources| && NonNegativeCounts(rows)
    ensures KeptSums(rows, n) <= CategorySums(rows, n)
    decreases n
  {
    if n > 0 {
      KeptSumsBound(rows, n - 1);
      FullPairsNonNegative(DataSources[n - 1], rows);
      AssignAllSumBound(Empty(), FullPairs(DataSources[n - 1], rows));
    }
  }

  /**
   * With a single group of non-negative counts, the counts kept over the
   * five categories sum to at most the reported total.
   */
  lemma FullStoredBound(prior: int, group: seq<Row>)
    requires NonNegativeCounts(group)
    ensures forall c :: c in DataSources ==>
      Get(FullData([group]), c) == Some(AssignAll(Empty(), FullPairs(c, group)))
    ensures KeptSums(group, |DataSources|) <= FullTotal(prior, [group])
  {
    FullDataGet([group]);
    assert Flatten([group]) == group by {
      assert [group][..0] == [];
    }
    KeptSumsBound(group, |DataSources|);
    GroupTotalSplits(group);
  }

  /**
   * With more groups the bound fails: a trailing empty group resets the
   * total to 0 while the counts of the earlier group stay.
   */
  lemma FullResetExample(prior: int, row: Row, version: string)
    requires PhpVersion in row.columns && row.columns[PhpVersion] == version
    ensures FullTotal(prior, [[row], []]) == 0
    ensures Get(FullData([[row], []]), PhpVersion) == Some(Put(Empty(), version, row.count))
  {
    var cats := InitialCategories();
    assert FullData([[row], []]) == FullData([[row]]) by {
      assert [[row], []][..1] == [[row]];
    }
    assert FullData([[row]]) == Scan(cats, [row]) by {
      assert [[row]][..0] == [];
    }
    assert Scan(cats, [row]) == ItemStep(cats, row, |DataSources|) by {
      assert [row][..0] == [];
    }
    ItemStepGet(cats, row, |DataSources|);
    assert DataSources[0] == PhpVersion;
    assert cats.vals[PhpVersion] == Empty();
  }

  /** Two groups flatten to their rows one after the other. */
  lemma FlattenPair(a: seq<Row>, b: seq<Row>)
    ensures Flatten([a, b]) == a + b
  {
    assert [a, b][..1] == [a];
    assert [a][..0] == [];
    assert Flatten([a]) == a;
  }

  /** Two rows counted in one category assign their names in order. */
  lemma FullPairsPair(c: string, r1: Row, r2: Row, n1: string, n2: string)
    requires FullName(c, r1) == Some(n1) && FullName(c, r2) == Some(n2)
    ensures FullPairs(c, [r1, r2]) == [Entry(n1, r1.count), Entry(n2, r2.count)]
  {
    assert [r1, r2][..1] == [r1];
    assert [r1][..0] == [];
    assert FullPairs(c, [r1]) == [Entry(n1, r1.count)];
  }

  /** A row with only a `db_type` column is counted once, in that category. */
  lemma DbTypeOnly(row: Row, name: string)
    requires row.columns == map[DbType := name]
    ensures ItemWeight(row, |DataSources|) == row.count
    ensures FullName(DbType, row) == Some(name)
  {
    assert forall i :: 0 <= i < |DataSources| && i != 1 ==> |DataSources[i]| != |DbType|;
    assert DbType != ServerOs by {
      assert |DbType| != |ServerOs|;
    }
    assert ItemWeight(row, 1) == 0;
    assert ItemWeight(row, 2) == row.count;
    assert ItemWeight(row, 3) == row.count;
    assert ItemWeight(row, 4) == row.count;
  }

  // ---------------------------------------------------------------------
  // Combined CMS / PHP
  // ---------------------------------------------------------------------

  /** The cross table under the source key, or `[]` before it is created. */
  function CrossTabOf(data: Payload, k: string): PhpArray<PhpArray<int>>
  {
    if k in data.vals && data.vals[k].CrossTab? then data.vals[k].byCms else Empty()
  }

  /** `$data[$this->source][$item['cms_version']][$item['php_version']] = $item['count']` */
  function CrossStep(data: Payload, source: string, row: Row): Payload
  {
    Put(data, source, CrossTab(PutIn(CrossTabOf(data, source), Column(row, CmsVersion), Column(row, PhpVersion), row.count)))
  }

  /** `$data` after the loop of the combined path has read `rows`. */
  function CombinedData(source: string, rows: seq<Row>): Payload
    decreases |rows|
  {
    if |rows| == 0 then Empty()
    else CrossStep(CombinedData(source, rows[..|rows| - 1]), source, rows[|rows| - 1])
  }

  /** The CMS version by PHP version table the rows build. */
  function CrossTable(rows: seq<Row>): PhpArray<PhpArray<int>>
    decreases |rows|
  {
    if |rows| == 0 then Empty()
    else
      var last := rows[|rows| - 1];
      PutIn(CrossTable(rows[..|rows| - 1]), Column(last, CmsVersion), Column(last, PhpVersion), last.count)
  }

  function CmsColumn(rows: seq<Row>): seq<string>
    decreases |rows|
  {
    if |rows| == 0 then [] else CmsColumn(rows[..|rows| - 1]) + [Column(rows[|rows| - 1], CmsVersion)]
  }

  /** The `php_version => count` assignments the rows make for one CMS version. */
  function PhpPairs(cms: string, rows: seq<Row>): seq<Entry<int>>
    decreases |rows|
  {
    if |rows| == 0 then []
    else
      var last := rows[|rows| - 1];
      PhpPairs(cms, rows[..|rows| - 1]) +
        (if Column(last, CmsVersion) == cms then [Entry(Column(last, PhpVersion), last.count)] else [])
  }

  /**
   * The combined data is empty when there is no row, and otherwise holds
   * the cross table alone, under the source key.
   */
  lemma {:induction false} CombinedDataShape(source: string, rows: seq<Row>)
    ensures CombinedData(source, rows) ==
      if |rows| == 0 then Empty() else Put(Empty(), source, CrossTab(CrossTable(rows)))
    decreases |rows|
  {
    if |rows| > 1 {
      var init := rows[..|rows| - 1];
      CombinedDataShape(source, init);
      PutPut(Empty(), source, CrossTab(CrossTable(init)), CrossTab(CrossTable(rows)));
    }
  }

  lemma {:induction false} PhpPairsAbsent(cms: string, rows: seq<Row>)
    requires cms !in CmsColumn(rows)
    ensures PhpPairs(cms, rows) == []
    decreases |rows|
  {
    if |rows| > 0 {
      PhpPairsAbsent(cms, rows[..|rows| - 1]);
    }
  }

  /**
   * The cross table has one row per CMS version, in the order the versions
   * first occur.
   */
  lemma {:induction false} CrossTableShape(rows: seq<Row>)
    ensures Valid(CrossTable(rows))
    ensures CrossTable(rows).keys == FirstOccurrences(CmsColumn(rows))
    ensures forall c :: c in CrossTable(rows).vals <==> c in CmsColumn(rows)
    decreases |rows|
  {
    if |rows| > 0 {
      var init := rows[..|rows| - 1];
      var last := rows[|rows| - 1];
      var k := Column(last, CmsVersion);
      CrossTableShape(init);
      FirstOccurrencesMembers(CmsColumn(init));
      PutValid(CrossTable(init), k, Put(GetOr(CrossTable(init), k, Empty()), Column(last, PhpVersion), last.count));
      assert CmsColumn(rows) == CmsColumn(init) + [k];
    }
  }

  /**
   * Under each CMS version, the cross table holds the assignments of the
   * PHP versions met with it, made in order (so the last count of a pair
   * wins); other versions have no row.
   */
  lemma {:induction false} CrossTableGet(rows: seq<Row>)
    ensures Valid(CrossTable(rows))
    ensures CrossTable(rows).keys == FirstOccurrences(CmsColumn(rows))
    ensures forall c ::
      Get(CrossTable(rows), c) ==
      if c in CmsColumn(rows) then Some(AssignAll(Empty(), PhpPairs(c, rows))) else None
    decreases |rows|
  {
    CrossTableShape(rows);
    if |rows| > 0 {
      var init := rows[..|rows| - 1];
      var last := rows[|rows| - 1];
      var k := Column(last, CmsVersion);
      var e := Entry(Column(last, PhpVersion), last.count);
      CrossTableGet(init);
      assert CmsColumn(rows) == CmsColumn(init) + [k];
      var a := CrossTable(init);
      var inner := Put(GetOr(a, k, Empty()), e.key, e.value);
      assert CrossTable(rows) == Put(a, k, inner);
      forall c | c != k
        ensures Get(CrossTable(rows), c) ==
          if c in CmsColumn(rows) then Some(AssignAll(Empty(), PhpPairs(c, rows))) else None
      {
        PutOther(a, k, inner, c);
        assert PhpPairs(c, rows) == PhpPairs(c, init);
      }
      if k !in CmsColumn(init) {
        PhpPairsAbsent(k, init);
      }
      assert PhpPairs(k, rows) == PhpPairs(k, init) + [e];
      AssignAllAppend(PhpPairs(k, init), e, GetOr(a, k, Empty()));
    }
  }

  /** One more assignment, after a run that left `prev`. */
  lemma AssignAllAppend(pairs: seq<Entry<int>>, e: Entry<int>, prev: PhpArray<int>)
    requires prev == AssignAll(Empty(), pairs)
    ensures AssignAll(Empty(), pairs + [e]) == Put(prev, e.key, e.value)
  {
    assert (pairs + [e])[..|pairs|] == pairs;
  }

  /** Every row's count is stored: one cell of the table per CMS/PHP pair. */
  lemma {:induction false} CrossTableCell(rows: seq<Row>, i: nat)
    requires i < |rows|
    requires forall j :: i < j < |rows| ==>
      Column(rows[j], CmsVersion) != Column(rows[i], CmsVersion) ||
      Column(rows[j], PhpVersion) != Column(rows[i], PhpVersion)
    ensures Get(GetOr(CrossTable(rows), Column(rows[i], CmsVersion), Empty()), Column(rows[i], PhpVersion)) ==
      Some(rows[i].count)
    decreases |rows|
  {
    var init := rows[..|rows| - 1];
    var last := rows[|rows| - 1];
    var k := Column(last, CmsVersion);
    var a := CrossTable(init);
    var inner := Put(GetOr(a, k, Empty()), Column(last, PhpVersion), last.count);
    assert CrossTable(rows) == Put(a, k, inner);
    var c := Column(rows[i], CmsVersion);
    var p := Column(rows[i], PhpVersion);
    if i < |rows| - 1 {
      assert init[i] == rows[i];
      forall j | i < j < |init|
        ensures Column(init[j], CmsVersion) != c || Column(init[j], PhpVersion) != p
      {
        assert init[j] == rows[j];
      }
      CrossTableCell(init, i);
      if c != k {
        PutOther(a, k, inner, c);
        assert GetOr(CrossTable(rows), c, Empty()) == GetOr(a, c, Empty());
      } else {
        assert Column(last, PhpVersion) != p;
        PutOther(GetOr(a, k, Empty()), Column(last, PhpVersion), last.count, p);
      }
    }
  }

  /** The sum of each row of counts, under the row's key. */
  function SumsOf(vals: map<string, PhpArray<int>>): (r: map<string, int>)
    requires forall c :: c in vals ==> Valid(vals[c])
    ensures r.Keys == vals.Keys
  {
    map c | c in vals :: SumValues(vals[c])
  }

  /** The sum of each CMS version's counts, under that version. */
  function RowTotals(t: PhpArray<PhpArray<int>>): (r: PhpArray<int>)
    requires ValidNested(t)
    ensures Valid(r) && r.keys == t.keys
  {
    PhpArray(t.keys, SumsOf(t.vals))
  }

  /** The sum of every cell of a table. */
  function TableSum(t: PhpArray<PhpArray<int>>): int
    requires ValidNested(t)
  {
    SumValues(RowTotals(t))
  }

  ghost predicate NonNegativeTable(t: PhpArray<PhpArray<int>>)
  {
    forall c :: c in t.vals ==> NonNegativeValues(t.vals[c])
  }

  lemma SumsOfUpdate(vals: map<string, PhpArray<int>>, k: string, x: PhpArray<int>)
    requires forall c :: c in vals ==> Valid(vals[c])
    requires Valid(x)
    ensures SumsOf(vals[k := x]) == SumsOf(vals)[k := SumValues(x)]
  {
  }

  /** Replacing one row of a table replaces that row's sum. */
  lemma RowTotalsPut(t: PhpArray<PhpArray<int>>, k: string, x: PhpArray<int>)
    requires ValidNested(t) && Valid(x)
    ensures ValidNested(Put(t, k, x))
    ensures RowTotals(Put(t, k, x)) == Put(RowTotals(t), k, SumValues(x))
  {
    PutValid(t, k, x);
    SumsOfUpdate(t.vals, k, x);
  }

  /** Replacing one row of a table changes its sum by what that row sums to. */
  lemma TableSumPut(t: PhpArray<PhpArray<int>>, k: string, x: PhpArray<int>)
    requires ValidNested(t) && Valid(x)
    ensures ValidNested(Put(t, k, x))
    ensures TableSum(Put(t, k, x)) ==
      TableSum(t) - (if k in t.vals then SumValues(t.vals[k]) else 0) + SumValues(x)
  {
    RowTotalsPut(t, k, x);
    SumValuesPut(RowTotals(t), k, SumValues(x));
    assert GetOr(RowTotals(t), k, 0) == if k in t.vals then SumValues(t.vals[k]) else 0;
  }

  /** A row of a table, or the empty row it starts from. */
  lemma TableRow(t: PhpArray<PhpArray<int>>, k: string)
    requires ValidNested(t) && NonNegativeTable(t)
    ensures Valid(GetOr(t, k, Empty())) && NonNegativeValues(GetOr(t, k, Empty()))
    ensures SumValues(GetOr(t, k, Empty())) == if k in t.vals then SumValues(t.vals[k]) else 0
  {
  }

  lemma NonNegativeTablePut(t: PhpArray<PhpArray<int>>, k: string, x: PhpArray<int>)
    requires NonNegativeTable(t) && NonNegativeValues(x)
    ensures NonNegativeTable(Put(t, k, x))
  {
    assert Put(t, k, x).vals == t.vals[k := x];
  }

  /** One more cell assigned: the sum grows by at most the count assigned. */
  lemma PutInBound(t: PhpArray<PhpArray<int>>, k: string, p: string, v: int)
    requires ValidNested(t) && NonNegativeTable(t) && v >= 0
    ensures ValidNested(PutIn(t, k, p, v)) && NonNegativeTable(PutIn(t, k, p, v))
    ensures TableSum(PutIn(t, k, p, v)) <= TableSum(t) + v
  {
    var row := GetOr(t, k, Empty());
    var inner := Put(row, p, v);
    assert PutIn(t, k, p, v) == Put(t, k, inner);
    TableRow(t, k);
    assert GetOr(row, p, 0) >= 0;
    PutValid(row, p, v);
    PutNonNegative(row, p, v);
    SumValuesPut(row, p, v);
    TableSumPut(t, k, inner);
    NonNegativeTablePut(t, k, inner);
  }

  /**
   * With non-negative counts the cells of the cross table sum to at most
   * the total: a repeated CMS/PHP pair keeps one count, while every count
   * is added to the total.
   */
  lemma {:induction false} CrossTableBound(rows: seq<Row>)
    requires NonNegativeCounts(rows)
    ensures ValidNested(CrossTable(rows)) && NonNegativeTable(CrossTable(rows))
    ensures TableSum(CrossTable(rows)) <= SumCounts(rows)
    decreases |rows|
  {
    if |rows| == 0 {
      assert ValidNested(CrossTable(rows));
    } else {
      var init := rows[..|rows| - 1];
      var last := rows[|rows| - 1];
      assert NonNegativeCounts(init) by {
        forall i | 0 <= i < |init| ensures init[i].count >= 0 {
          assert init[i] == rows[i];
        }
      }
      CrossTableBound(init);
      PutInBound(CrossTable(init), Column(last, CmsVersion), Column(last, PhpVersion), last.count);
    }
  }
}
