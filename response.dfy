/**
 * Turning the aggregated counts into the `data` payload: every category's
 * counts become `{name, count}` rows (names PHP reads as false are
 * dropped), and unless raw data is authorized every category is then
 * replaced by the percentage of the total that each of its buckets holds.
 */
module Response {
  import opened PhpArrays
  import opened PhpStrings
  import opened Telemetry
  import opened Bucketing

  // ---------------------------------------------------------------------
  // `{name, count}` rows
  // ---------------------------------------------------------------------

  /** The `{name, count}` rows of one category's counts with a truthy name. */
  function Survivors(es: seq<Entry<int>>): seq<NameCount>
    decreases |es|
  {
    if |es| == 0 then []
    else
      var last := es[|es| - 1];
      Survivors(es[..|es| - 1]) + if IsTruthy(last.key) then [NameCount(last.key, last.value)] else []
  }

  /** `$responseData[$k]` as rows, or no row when it is not set. */
  function RowsOf(a: Payload, k: string): seq<NameCount>
  {
    if k in a.vals && a.vals[k].Rows? then a.vals[k].rows else []
  }

  /** `$responseData[$key][] = ['name' => $name, 'count' => $count]` */
  function AppendRow(a: Payload, k: string, row: NameCount): Payload
  {
    Put(a, k, Rows(RowsOf(a, k) + [row]))
  }

  /** The inner loop of the flattening, over the pairs of one category. */
  function AppendGroup(acc: Payload, key: string, es: seq<Entry<int>>): Payload
    decreases |es|
  {
    if |es| == 0 then acc
    else
      var last := es[|es| - 1];
      var before := AppendGroup(acc, key, es[..|es| - 1]);
      if IsTruthy(last.key) then AppendRow(before, key, NameCount(last.key, last.value)) else before
  }

  /** One more pair of a category, appended after the rows of its prefix. */
  lemma AppendGroupPrefix(acc: Payload, key: string, es: seq<Entry<int>>, j: nat)
    requires j < |es|
    ensures AppendGroup(acc, key, es[..j + 1]) ==
      if IsTruthy(es[j].key) then AppendRow(AppendGroup(acc, key, es[..j]), key, NameCount(es[j].key, es[j].value))
      else AppendGroup(acc, key, es[..j])
  {
    assert es[..j + 1][..j] == es[..j];
  }

  /** The surviving rows of category `k` (none when `k` is not set). */
  function CategoryRows(data: PhpArray<PhpArray<int>>, k: string): seq<NameCount>
  {
    Survivors(CountEntries(GetOr(data, k, Empty())))
  }

  /** The outer loop of the flattening, after the first `n` categories. */
  function BuildRows(data: PhpArray<PhpArray<int>>, n: nat): Payload
    requires n <= |data.keys|
    decreases n
  {
    if n == 0 then Empty()
    else
      var key := data.keys[n - 1];
      AppendGroup(BuildRows(data, n - 1), key, CountEntries(GetOr(data, key, Empty())))
  }

  /** The first `n` categories, less those with no surviving row. */
  function SurvivingKeys(data: PhpArray<PhpArray<int>>, n: nat): seq<string>
    requires n <= |data.keys|
    decreases n
  {
    if n == 0 then []
    else
      var key := data.keys[n - 1];
      SurvivingKeys(data, n - 1) + if CategoryRows(data, key) == [] then [] else [key]
  }

  /** A category has no surviving row exactly when each of its names is false. */
  lemma {:induction false} SurvivorsNone(es: seq<Entry<int>>)
    ensures Survivors(es) == [] <==> forall i :: 0 <= i < |es| ==> !IsTruthy(es[i].key)
    decreases |es|
  {
    if |es| > 0 {
      var init := es[..|es| - 1];
      var last := es[|es| - 1];
      SurvivorsNone(init);
      if forall i :: 0 <= i < |es| ==> !IsTruthy(es[i].key) {
        assert forall i :: 0 <= i < |init| ==> !IsTruthy(init[i].key) by {
          forall i | 0 <= i < |init| ensures !IsTruthy(init[i].key) {
            assert init[i] == es[i];
          }
        }
        assert Survivors(es) == Survivors(init) + [];
      } else {
        var i :| 0 <= i < |es| && IsTruthy(es[i].key);
        if i < |init| {
          assert init[i] == es[i];
          assert |Survivors(init)| > 0;
        }
      }
    }
  }

  /**
   * Appending the rows of a category not yet in the response adds it, with
   * all its surviving rows at once, or leaves the response alone when none
   * survives.
   */
  lemma {:induction false} AppendGroupFresh(acc: Payload, key: string, es: seq<Entry<int>>)
    requires key !in acc.vals
    ensures AppendGroup(acc, key, es) ==
      if Survivors(es) == [] then acc else Put(acc, key, Rows(Survivors(es)))
    decreases |es|
  {
    if |es| > 0 {
      var init := es[..|es| - 1];
      var last := es[|es| - 1];
      AppendGroupFresh(acc, key, init);
      if IsTruthy(last.key) {
        var row := NameCount(last.key, last.value);
        assert Survivors(es) == Survivors(init) + [row];
        if Survivors(init) != [] {
          PutPut(acc, key, Rows(Survivors(init)), Rows(Survivors(es)));
        } else {
          assert Survivors(es) == [] + [row];
        }
      } else {
        assert Survivors(es) == Survivors(init);
      }
    }
  }

  /** So a category not yet in the response is added at the end, if at all. */
  lemma AppendGroupFreshKeys(acc: Payload, key: string, es: seq<Entry<int>>)
    requires Valid(acc) && key !in acc.vals
    ensures Valid(AppendGroup(acc, key, es))
    ensures AppendGroup(acc, key, es).keys == acc.keys + if Survivors(es) == [] then [] else [key]
  {
    AppendGroupFresh(acc, key, es);
    if Survivors(es) == [] {
      assert acc.keys + [] == acc.keys;
    } else {
      PutFresh(acc, key, Rows(Survivors(es)));
    }
  }

  /** The categories not read yet are not in the response yet. */
  lemma {:induction false} BuildRowsFresh(data: PhpArray<PhpArray<int>>, n: nat)
    requires Distinct(data.keys) && n <= |data.keys|
    ensures forall i :: n <= i < |data.keys| ==> data.keys[i] !in BuildRows(data, n).vals
    decreases n
  {
    if n > 0 {
      var key := data.keys[n - 1];
      var prev := BuildRows(data, n - 1);
      BuildRowsFresh(data, n - 1);
      AppendGroupFresh(prev, key, CountEntries(GetOr(data, key, Empty())));
      forall i | n <= i < |data.keys|
        ensures data.keys[i] !in BuildRows(data, n).vals
      {
        assert data.keys[i] != key;
      }
    }
  }

  /** One category of the flattening: it is added with its surviving rows, or skipped. */
  lemma BuildRowsStep(data: PhpArray<PhpArray<int>>, n: nat)
    requires Distinct(data.keys) && 0 < n <= |data.keys|
    ensures var key := data.keys[n - 1];
      BuildRows(data, n) ==
      if CategoryRows(data, key) == [] then BuildRows(data, n - 1)
      else Put(BuildRows(data, n - 1), key, Rows(CategoryRows(data, key)))
  {
    var key := data.keys[n - 1];
    BuildRowsFresh(data, n - 1);
    AppendGroupFresh(BuildRows(data, n - 1), key, CountEntries(GetOr(data, key, Empty())));
  }

  /** The flattening adds the categories with a surviving row, in order. */
  lemma {:induction false} BuildRowsKeys(data: PhpArray<PhpArray<int>>, n: nat)
    requires Distinct(data.keys) && n <= |data.keys|
    ensures Valid(BuildRows(data, n)) && BuildRows(data, n).keys == SurvivingKeys(data, n)
    decreases n
  {
    if n > 0 {
      var key := data.keys[n - 1];
      BuildRowsKeys(data, n - 1);
      BuildRowsFresh(data, n - 1);
      AppendGroupFreshKeys(BuildRows(data, n - 1), key, CountEntries(GetOr(data, key, Empty())));
    }
  }

  /** Every category the flattening adds holds at least one row. */
  lemma {:induction false} BuildRowsNonEmpty(data: PhpArray<PhpArray<int>>, n: nat)
    requires Distinct(data.keys) && n <= |data.keys|
    ensures forall k :: k in BuildRows(data, n).vals ==> FieldRows(BuildRows(data, n).vals[k]) != []
    decreases n
  {
    if n > 0 {
      BuildRowsNonEmpty(data, n - 1);
      BuildRowsStep(data, n);
    }
  }

  /** Only categories of the input can be in the response. */
  lemma {:induction false} BuildRowsRead(data: PhpArray<PhpArray<int>>, n: nat, k: string)
    requires Distinct(data.keys) && n <= |data.keys| && k !in data.keys
    ensures k !in BuildRows(data, n).vals
    decreases n
  {
    if n > 0 {
      BuildRowsRead(data, n - 1, k);
      BuildRowsStep(data, n);
    }
  }

  /**
   * What the flattening returns: exactly the categories with a surviving
   * row, in the order of the input, each holding its surviving rows in the
   * order of its counts. A category with no surviving row is absent.
   */
  lemma {:induction false} BuildRowsGet(data: PhpArray<PhpArray<int>>, n: nat)
    requires Distinct(data.keys) && n <= |data.keys|
    ensures forall i :: 0 <= i < n ==>
      Get(BuildRows(data, n), data.keys[i]) ==
      if CategoryRows(data, data.keys[i]) != [] then Some(Rows(CategoryRows(data, data.keys[i]))) else None
    decreases n
  {
    if n > 0 {
      var key := data.keys[n - 1];
      var prev := BuildRows(data, n - 1);
      var rows := CategoryRows(data, key);
      BuildRowsGet(data, n - 1);
      BuildRowsStep(data, n);
      BuildRowsFresh(data, n - 1);
      assert key !in prev.vals;
      if rows != [] {
        forall i | 0 <= i < n - 1
          ensures Get(Put(prev, key, Rows(rows)), data.keys[i]) == Get(prev, data.keys[i])
        {
          assert data.keys[i] != key;
          PutOther(prev, key, Rows(rows), data.keys[i]);
        }
      }
    }
  }

  /** Some category survives exactly when one of the first `n` has a surviving row. */
  lemma {:induction false} SurvivingKeysNonEmpty(data: PhpArray<PhpArray<int>>, n: nat)
    requires n <= |data.keys|
    ensures SurvivingKeys(data, n) != [] <==> exists i :: 0 <= i < n && CategoryRows(data, data.keys[i]) != []
    decreases n
  {
    if n > 0 {
      SurvivingKeysNonEmpty(data, n - 1);
      var key := data.keys[n - 1];
      if CategoryRows(data, key) == [] {
        assert SurvivingKeys(data, n) == SurvivingKeys(data, n - 1) + [];
        if exists i :: 0 <= i < n && CategoryRows(data, data.keys[i]) != [] {
          var i :| 0 <= i < n && CategoryRows(data, data.keys[i]) != [];
          assert i < n - 1;
        }
      } else {
        assert SurvivingKeys(data, n) == SurvivingKeys(data, n - 1) + [key];
        assert CategoryRows(data, data.keys[n - 1]) != [];
      }
    }
  }

  /** A category survives exactly when one of its names is truthy. */
  lemma CategoryRowsNonEmpty(data: PhpArray<PhpArray<int>>, k: string)
    ensures CategoryRows(data, k) != [] <==>
      exists j :: 0 <= j < |GetOr(data, k, Empty()).keys| && IsTruthy(GetOr(data, k, Empty()).keys[j])
  {
    var counts := GetOr(data, k, Empty());
    var es := CountEntries(counts);
    SurvivorsNone(es);
    assert forall j :: 0 <= j < |es| ==> es[j].key == counts.keys[j];
  }

  /** The flattened response, all categories read. */
  function Flattened(data: PhpArray<PhpArray<int>>): (r: Payload)
    requires Valid(data)
    ensures Valid(r)
  {
    BuildRowsKeys(data, |data.keys|);
    BuildRows(data, |data.keys|)
  }

  // ---------------------------------------------------------------------
  // Sanitizing
  // ---------------------------------------------------------------------

  /** The bucket of each row, paired with the row's count. */
  function BucketPairs(rule: BucketRule, rows: seq<NameCount>): seq<Entry<int>>
  {
    seq(|rows|, i requires 0 <= i < |rows| => Entry(Bucket(rule, rows[i].name), rows[i].count))
  }

  /** `($count / $this->totalItems) * 100`, before rounding. */
  function Percent(count: int, total: int): real
    requires total != 0
  {
    (count as real / total as real) * 100.0
  }

  /** Each counter, in order, paired with its share of `total`. */
  function ShareEntries(counts: PhpArray<int>, total: int): seq<Entry<real>>
    requires total != 0
  {
    seq(|counts.keys|, i requires 0 <= i < |counts.keys| =>
      Entry(counts.keys[i], Percent(GetOr(counts, counts.keys[i], 0), total)))
  }

  /** Each row, in order, paired with its share of `total`. */
  function RowShares(rows: seq<NameCount>, total: int): seq<Entry<real>>
    requires total != 0
  {
    seq(|rows|, i requires 0 <= i < |rows| => Entry(rows[i].name, Percent(rows[i].count, total)))
  }

  /** The counts per bucket that the first loop of a regrouping case builds. */
  function BucketCounts(rule: BucketRule, rows: seq<NameCount>): PhpArray<int>
  {
    Accumulate(Empty(), BucketPairs(rule, rows))
  }

  /**
   * One case of the `switch ($key)`. A regrouping case sums the counts per
   * bucket, then stores each sum's share; the default case stores each
   * row's share under its name. The first division by a zero total fails.
   */
  function SanitizeGroup(rule: BucketRule, rows: seq<NameCount>, total: int): Result<PhpArray<real>>
  {
    if rule == ByName then
      if |rows| == 0 then Success(Empty())
      else if total == 0 then Failure(DivisionByZero)
      else Success(AssignAll(Empty(), RowShares(rows, total)))
    else
      var counts := BucketCounts(rule, rows);
      if |counts.keys| == 0 then Success(Empty())
      else if total == 0 then Failure(DivisionByZero)
      else Success(AssignAll(Empty(), ShareEntries(counts, total)))
  }

  /** The rows `$dataGroup` of a category, or none for a value that is not rows. */
  function FieldRows(f: Field): seq<NameCount>
  {
    if f.Rows? then f.rows else []
  }

  /** The rows `$dataGroup` of category `key` (none when it is not set). */
  function GroupRows(data: Payload, key: string): seq<NameCount>
  {
    if key in data.vals then FieldRows(data.vals[key]) else []
  }

  /** The loop over the categories, after the first `n`; the first failure ends it. */
  function SanitizeUpTo(data: Payload, total: int, n: nat): (r: Result<Payload>)
    requires n <= |data.keys|
    ensures r.Failure? ==> r.error == DivisionByZero
    decreases n
  {
    if n == 0 then Success(data)
    else
      match SanitizeUpTo(data, total, n - 1)
      case Failure(e) => Failure(e)
      case Success(acc) =>
        var key := data.keys[n - 1];
        match SanitizeGroup(RuleFor(key), GroupRows(data, key), total)
        case Failure(e) => Failure(e)
        case Success(shares) => Success(Put(acc, key, Shares(shares)))
  }

  function Sanitize(data: Payload, total: int): (r: Result<Payload>)
    ensures r.Failure? ==> r.error == DivisionByZero
  {
    SanitizeUpTo(data, total, |data.keys|)
  }

  /**
   * One more category sanitized: its shares replace its rows, or its
   * failure ends the whole of sanitizing.
   */
  lemma SanitizeUpToNext(data: Payload, total: int, n: nat, acc: Payload, rows: seq<NameCount>)
    requires Valid(data) && n < |data.keys| && rows == FieldRows(data.vals[data.keys[n]])
    requires SanitizeUpTo(data, total, n) == Success(acc)
    ensures SanitizeGroup(RuleFor(data.keys[n]), rows, total).Failure? ==>
      Sanitize(data, total) == Failure(DivisionByZero)
    ensures SanitizeGroup(RuleFor(data.keys[n]), rows, total).Success? ==>
      SanitizeUpTo(data, total, n + 1) ==
      Success(Put(acc, data.keys[n], Shares(SanitizeGroup(RuleFor(data.keys[n]), rows, total).value)))
  {
    if SanitizeGroup(RuleFor(data.keys[n]), rows, total).Failure? {
      SanitizeStaysFailed(data, total, n);
    }
  }

  /** A category fails to sanitize exactly when it has a row and the total is 0. */
  lemma SanitizeGroupFails(rule: BucketRule, rows: seq<NameCount>, total: int)
    ensures SanitizeGroup(rule, rows, total).Failure? <==> total == 0 && |rows| > 0
  {
    AccumulateTotals(BucketPairs(rule, rows));
    FirstOccurrencesMembers(KeysOf(BucketPairs(rule, rows)));
    if |rows| > 0 {
      assert KeysOf(BucketPairs(rule, rows))[0] in FirstOccurrences(KeysOf(BucketPairs(rule, rows)));
    }
  }

  /**
   * The second loop of a regrouping case: one share per counter, in the
   * order of the counters, each the share of `total` its count is.
   */
  lemma SharesOfCounts(counts: PhpArray<int>, total: int)
    requires Valid(counts) && total != 0
    ensures var shares := AssignAll(Empty(), ShareEntries(counts, total));
      Valid(shares) && shares.keys == counts.keys &&
      forall b :: Get(shares, b) == if b in counts.vals then Some(Percent(counts.vals[b], total)) else None
  {
    var es := ShareEntries(counts, total);
    assert KeysOf(es) == counts.keys;
    AssignAllDistinctIdentity(es);
    var shares := AssignAll(Empty(), es);
    forall b
      ensures Get(shares, b) == if b in counts.vals then Some(Percent(counts.vals[b], total)) else None
    {
      if b in counts.vals {
        var i :| 0 <= i < |counts.keys| && counts.keys[i] == b;
        assert Entries(shares)[i] == es[i];
      }
    }
  }

  /**
   * A regrouping case yields one share per bucket, in the order the buckets
   * first occur, each the share of the total that the rows of that bucket
   * add up to.
   */
  lemma SanitizeGroupBuckets(rule: BucketRule, rows: seq<NameCount>, total: int)
    requires rule != ByName && total != 0
    ensures SanitizeGroup(rule, rows, total).Success?
    ensures var shares := SanitizeGroup(rule, rows, total).value;
      var pairs := BucketPairs(rule, rows);
      Valid(shares) &&
      shares.keys == FirstOccurrences(KeysOf(pairs)) &&
      forall b :: Get(shares, b) == if b in KeysOf(pairs) then Some(Percent(SumFor(pairs, b), total)) else None
  {
    var pairs := BucketPairs(rule, rows);
    var counts := BucketCounts(rule, rows);
    AccumulateTotals(pairs);
    FirstOccurrencesMembers(KeysOf(pairs));
    assert forall b :: b in counts.vals <==> b in KeysOf(pairs);
    if |counts.keys| > 0 {
      SharesOfCounts(counts, total);
      assert SanitizeGroup(rule, rows, total) == Success(AssignAll(Empty(), ShareEntries(counts, total)));
    } else {
      assert SanitizeGroup(rule, rows, total) == Success(Empty());
    }
  }

  /**
   * The default case keeps one share per row, in the order of the rows,
   * when the names are distinct (as they are, being keys of one array).
   */
  lemma SanitizeGroupByName(rows: seq<NameCount>, total: int)
    requires total != 0
    requires forall i, j :: 0 <= i < j < |rows| ==> rows[i].name != rows[j].name
    ensures SanitizeGroup(ByName, rows, total).Success?
    ensures var shares := SanitizeGroup(ByName, rows, total).value;
      Valid(shares) && |Entries(shares)| == |rows| &&
      forall i :: 0 <= i < |rows| ==> Entries(shares)[i] == Entry(rows[i].name, Percent(rows[i].count, total))
  {
    if |rows| > 0 {
      var es := RowShares(rows, total);
      assert forall i :: 0 <= i < |rows| ==> KeysOf(es)[i] == rows[i].name;
      AssignAllDistinctIdentity(es);
    }
  }

  // ---------------------------------------------------------------------
  // The range of the shares
  // ---------------------------------------------------------------------

  /** The sum of the rows' counts. */
  function RowsSum(rows: seq<NameCount>): int
    decreases |rows|
  {
    if |rows| == 0 then 0 else RowsSum(rows[..|rows| - 1]) + rows[|rows| - 1].count
  }

  ghost predicate NonNegativeRows(rows: seq<NameCount>)
  {
    forall i :: 0 <= i < |rows| ==> rows[i].count >= 0
  }

  /** Dropping the pairs with a false name keeps their signs and at most their sum. */
  lemma {:induction false} SurvivorsSum(es: seq<Entry<int>>)
    requires NonNegative(es)
    ensures NonNegativeRows(Survivors(es)) && RowsSum(Survivors(es)) <= SumEntries(es)
    decreases |es|
  {
    if |es| > 0 {
      var init := es[..|es| - 1];
      var last := es[|es| - 1];
      assert NonNegative(init) by {
        forall i | 0 <= i < |init| ensures init[i].value >= 0 {
          assert init[i] == es[i];
        }
      }
      SurvivorsSum(init);
      var kept := Survivors(init);
      if IsTruthy(last.key) {
        var rows := kept + [NameCount(last.key, last.value)];
        assert rows[..|rows| - 1] == kept;
        assert Survivors(es) == rows;
        assert NonNegativeRows(rows) by {
          forall i | 0 <= i < |rows| ensures rows[i].count >= 0 {
            if i < |kept| {
              assert rows[i] == kept[i];
            }
          }
        }
      } else {
        assert Survivors(es) == kept;
      }
    }
  }

  /** In a rows' list with non-negative counts, every row's count is at most their sum. */
  lemma {:induction false} RowCountBound(rows: seq<NameCount>, i: nat)
    requires NonNegativeRows(rows) && i < |rows|
    ensures 0 <= rows[i].count <= RowsSum(rows)
    decreases |rows|
  {
    var init := rows[..|rows| - 1];
    assert NonNegativeRows(init) by {
      forall j | 0 <= j < |init| ensures init[j].count >= 0 {
        assert init[j] == rows[j];
      }
    }
    if i < |rows| - 1 {
      RowCountBound(init, i);
    } else if |init| > 0 {
      RowCountBound(init, 0);
    }
  }

  /** Bucketing moves the counts, in order, to the buckets: the sum and the signs stay. */
  lemma {:induction false} BucketPairsSum(rule: BucketRule, rows: seq<NameCount>, n: nat)
    requires n <= |rows|
    ensures SumEntries(BucketPairs(rule, rows)[..n]) == RowsSum(rows[..n])
    ensures NonNegativeRows(rows) ==> NonNegative(BucketPairs(rule, rows))
    decreases n
  {
    if n > 0 {
      BucketPairsSum(rule, rows, n - 1);
      assert BucketPairs(rule, rows)[..n][..n - 1] == BucketPairs(rule, rows)[..n - 1];
      assert rows[..n][..n - 1] == rows[..n - 1];
    }
  }

  /** A part of a positive total is a share between 0 and 100. */
  lemma PercentWithin(count: int, total: int)
    requires 0 <= count <= total && total > 0
    ensures 0.0 <= Percent(count, total) <= 100.0
  {
    var q := count as real / total as real;
    assert q * total as real == count as real;
    assert q <= 1.0;
  }

  /**
   * A category whose counts are non-negative and add up to at most a
   * positive total sanitizes, and every share lies between 0 and 100.
   */
  lemma SharesWithin(rule: BucketRule, rows: seq<NameCount>, total: int)
    requires total > 0 && NonNegativeRows(rows) && RowsSum(rows) <= total
    ensures SanitizeGroup(rule, rows, total).Success?
    ensures Within(SanitizeGroup(rule, rows, total).value, 0.0, 100.0)
  {
    if rule == ByName {
      if |rows| > 0 {
        var es := RowShares(rows, total);
        forall i | 0 <= i < |es| ensures 0.0 <= es[i].value <= 100.0 {
          RowCountBound(rows, i);
          PercentWithin(rows[i].count, total);
        }
        AssignAllWithin(Empty(), es, 0.0, 100.0);
      }
    } else {
      SanitizeGroupBuckets(rule, rows, total);
      var pairs := BucketPairs(rule, rows);
      BucketPairsSum(rule, rows, |rows|);
      assert pairs[..|rows|] == pairs;
      assert rows[..|rows|] == rows;
      var shares := SanitizeGroup(rule, rows, total).value;
      forall b | b in shares.vals ensures 0.0 <= shares.vals[b] <= 100.0 {
        assert Get(shares, b) == Some(shares.vals[b]);
        SumForBound(pairs, b);
        PercentWithin(SumFor(pairs, b), total);
      }
    }
  }

  /** Whether one of the first `n` categories has a row. */
  function RowsIn(data: Payload, n: nat): bool
    requires n <= |data.keys|
    decreases n
  {
    n > 0 && (RowsIn(data, n - 1) || |GroupRows(data, data.keys[n - 1])| > 0)
  }

  lemma {:induction false} RowsInSome(data: Payload, n: nat)
    requires n <= |data.keys|
    ensures RowsIn(data, n) <==> exists i :: 0 <= i < n && |GroupRows(data, data.keys[i])| > 0
    decreases n
  {
    if n > 0 {
      RowsInSome(data, n - 1);
    }
  }

  /** A category's value once sanitized: its shares (a failure leaves it as it was). */
  function SanitizedField(key: string, f: Field, total: int): Field
  {
    match SanitizeGroup(RuleFor(key), FieldRows(f), total)
    case Success(shares) => Shares(shares)
    case Failure(_) => f
  }

  /** Sanitizing fails exactly when the total is 0 and some category has a row. */
  lemma {:induction false} SanitizeUpToFails(data: Payload, total: int, n: nat)
    requires n <= |data.keys|
    ensures SanitizeUpTo(data, total, n).Failure? <==> total == 0 && RowsIn(data, n)
    decreases n
  {
    if n > 0 {
      SanitizeUpToFails(data, total, n - 1);
      var key := data.keys[n - 1];
      SanitizeGroupFails(RuleFor(key), GroupRows(data, key), total);
    }
  }

  /** When it succeeds, sanitizing keeps the categories in place. */
  lemma {:induction false} SanitizeUpToValid(data: Payload, total: int, n: nat)
    requires Valid(data) && n <= |data.keys|
    ensures SanitizeUpTo(data, total, n).Success? ==>
      Valid(SanitizeUpTo(data, total, n).value) && SanitizeUpTo(data, total, n).value.keys == data.keys
    decreases n
  {
    if n > 0 && SanitizeUpTo(data, total, n).Success? {
      SanitizeUpToValid(data, total, n - 1);
      var key := data.keys[n - 1];
      var prev := SanitizeUpTo(data, total, n - 1).value;
      var shares := SanitizeGroup(RuleFor(key), GroupRows(data, key), total).value;
      assert SanitizeUpTo(data, total, n).value == Put(prev, key, Shares(shares));
      assert key in prev.vals;
      PutValid(prev, key, Shares(shares));
    }
  }

  /**
   * When it succeeds, sanitizing has replaced the rows of each of the first
   * `n` categories by its shares and left the others as they were.
   */
  lemma {:induction false} SanitizeUpToKeeps(data: Payload, total: int, n: nat)
    requires Valid(data) && n <= |data.keys|
    ensures SanitizeUpTo(data, total, n).Success? ==>
      var r := SanitizeUpTo(data, total, n).value;
      (forall i :: 0 <= i < n ==>
        Get(r, data.keys[i]) == Some(SanitizedField(data.keys[i], data.vals[data.keys[i]], total))) &&
      (forall i :: n <= i < |data.keys| ==> Get(r, data.keys[i]) == Get(data, data.keys[i]))
    decreases n
  {
    if n > 0 && SanitizeUpTo(data, total, n).Success? {
      SanitizeUpToKeeps(data, total, n - 1);
      var key := data.keys[n - 1];
      var prev := SanitizeUpTo(data, total, n - 1).value;
      var shares := SanitizeGroup(RuleFor(key), GroupRows(data, key), total).value;
      assert SanitizeUpTo(data, total, n).value == Put(prev, key, Shares(shares));
      SanitizeKeepsStep(data, total, n, prev, shares);
    }
  }

  /** One category's shares put in place: it holds them, and every later category is as it was. */
  lemma SanitizeKeepsStep(data: Payload, total: int, n: nat, prev: Payload, shares: PhpArray<real>)
    requires Valid(data) && 0 < n <= |data.keys|
    requires SanitizeGroup(RuleFor(data.keys[n - 1]), GroupRows(data, data.keys[n - 1]), total) == Success(shares)
    requires forall i :: 0 <= i < n - 1 ==>
      Get(prev, data.keys[i]) == Some(SanitizedField(data.keys[i], data.vals[data.keys[i]], total))
    requires forall i :: n - 1 <= i < |data.keys| ==> Get(prev, data.keys[i]) == Get(data, data.keys[i])
    ensures var r := Put(prev, data.keys[n - 1], Shares(shares));
      (forall i :: 0 <= i < n ==>
        Get(r, data.keys[i]) == Some(SanitizedField(data.keys[i], data.vals[data.keys[i]], total))) &&
      (forall i :: n <= i < |data.keys| ==> Get(r, data.keys[i]) == Get(data, data.keys[i]))
  {
    var key := data.keys[n - 1];
    var r := Put(prev, key, Shares(shares));
    forall i | 0 <= i < n
      ensures Get(r, data.keys[i]) == Some(SanitizedField(data.keys[i], data.vals[data.keys[i]], total))
    {
      if i < n - 1 {
        assert data.keys[i] != key;
      } else {
        assert GroupRows(data, key) == FieldRows(data.vals[key]);
      }
    }
    forall i | n <= i < |data.keys|
      ensures Get(r, data.keys[i]) == Get(data, data.keys[i])
    {
      assert data.keys[i] != key;
    }
  }

  lemma {:induction false} SanitizeUpToPersists(data: Payload, total: int, m: nat, n: nat)
    requires m <= n <= |data.keys|
    requires SanitizeUpTo(data, total, m).Failure?
    ensures SanitizeUpTo(data, total, n).Failure?
    decreases n
  {
    if n > m {
      SanitizeUpToPersists(data, total, m, n - 1);
    }
  }

  /** Once a category fails, sanitizing fails. */
  lemma SanitizeStaysFailed(data: Payload, total: int, n: nat)
    requires n < |data.keys|
    requires SanitizeUpTo(data, total, n).Success?
    requires SanitizeGroup(RuleFor(data.keys[n]), GroupRows(data, data.keys[n]), total).Failure?
    ensures Sanitize(data, total) == Failure(DivisionByZero)
  {
    SanitizeUpToPersists(data, total, n + 1, |data.keys|);
  }

  /**
   * Sanitizing fails exactly when the total is 0 and some category has a
   * row; otherwise it keeps every category, in place, holding its shares.
   */
  lemma SanitizeGet(data: Payload, total: int)
    requires Valid(data)
    ensures Sanitize(data, total).Failure? <==>
      total == 0 && exists i :: 0 <= i < |data.keys| && |GroupRows(data, data.keys[i])| > 0
    ensures Sanitize(data, total).Success? ==>
      var r := Sanitize(data, total).value;
      Valid(r) && r.keys == data.keys &&
      forall k :: k in data.vals ==> Get(r, k) == Some(SanitizedField(k, data.vals[k], total))
  {
    SanitizeUpToFails(data, total, |data.keys|);
    RowsInSome(data, |data.keys|);
    SanitizeUpToValid(data, total, |data.keys|);
    SanitizeUpToKeeps(data, total, |data.keys|);
    if Sanitize(data, total).Success? {
      var r := Sanitize(data, total).value;
      forall k | k in data.vals
        ensures Get(r, k) == Some(SanitizedField(k, data.vals[k], total))
      {
        var i :| 0 <= i < |data.keys| && data.keys[i] == k;
      }
    }
  }

  // ---------------------------------------------------------------------
  // The response
  // ---------------------------------------------------------------------

  /** What `buildResponseData` returns for the aggregated counts. */
  function BuildResponse(authorizedRaw: bool, total: int, data: PhpArray<PhpArray<int>>): Result<Payload>
    requires Valid(data)
  {
    if authorizedRaw then Success(Flattened(data)) else Sanitize(Flattened(data), total)
  }

  /** `$responseData['total'] = $this->totalItems` on a response that was built. */
  function WithTotal(r: Result<Payload>, total: int): (w: Result<Payload>)
    ensures w.Success? <==> r.Success?
    ensures w.Failure? ==> w.error == r.error
    ensures w.Success? ==> Valid(r.value) ==>
      Valid(w.value) && Get(w.value, "total") == Some(Total(total)) &&
      w.value.keys == if "total" in r.value.vals then r.value.keys else r.value.keys + ["total"]
  {
    match r
    case Failure(e) => Failure(e)
    case Success(p) => Success(Put(p, "total", Total(total)))
  }

  /**
   * Without raw data, building the response fails exactly when the total is
   * 0 and some row survives the flattening.
   */
  lemma BuildResponseFails(total: int, data: PhpArray<PhpArray<int>>)
    requires Valid(data)
    ensures BuildResponse(false, total, data).Failure? <==> total == 0 && SurvivingKeys(data, |data.keys|) != []
  {
    var flat := Flattened(data);
    BuildRowsKeys(data, |data.keys|);
    BuildRowsNonEmpty(data, |data.keys|);
    SanitizeGet(flat, total);
    if total == 0 && flat.keys != [] {
      assert |GroupRows(flat, flat.keys[0])| > 0;
    }
  }

  /**
   * The flattening holds exactly the categories with a surviving row, in
   * the order of the input, each with its surviving rows.
   */
  lemma FlattenedGet(data: PhpArray<PhpArray<int>>)
    requires Valid(data)
    ensures var flat := Flattened(data);
      Valid(flat) && flat.keys == SurvivingKeys(data, |data.keys|) &&
      (forall k :: k in data.vals && CategoryRows(data, k) != [] ==> Get(flat, k) == Some(Rows(CategoryRows(data, k)))) &&
      (forall k :: CategoryRows(data, k) == [] ==> Get(flat, k) == None)
  {
    var flat := Flattened(data);
    BuildRowsKeys(data, |data.keys|);
    BuildRowsGet(data, |data.keys|);
    forall k | CategoryRows(data, k) == [] || k in data.vals
      ensures CategoryRows(data, k) == [] ==> Get(flat, k) == None
      ensures k in data.vals && CategoryRows(data, k) != [] ==> Get(flat, k) == Some(Rows(CategoryRows(data, k)))
    {
      if k in data.keys {
        var i :| 0 <= i < |data.keys| && data.keys[i] == k;
      } else {
        BuildRowsRead(data, |data.keys|, k);
      }
    }
  }

  /** A response that was built lists the categories with a surviving row, in order. */
  lemma BuildResponseKeys(authorizedRaw: bool, total: int, data: PhpArray<PhpArray<int>>)
    requires Valid(data)
    ensures BuildResponse(authorizedRaw, total, data).Success? ==>
      Valid(BuildResponse(authorizedRaw, total, data).value) &&
      BuildResponse(authorizedRaw, total, data).value.keys == SurvivingKeys(data, |data.keys|)
  {
    BuildRowsKeys(data, |data.keys|);
    if !authorizedRaw {
      SanitizeGet(Flattened(data), total);
    }
  }

  /**
   * A response that was built holds exactly the categories with a surviving
   * row, in the order of the input: the rows themselves with raw data
   * authorized, their shares otherwise.
   */
  lemma BuildResponseCategories(authorizedRaw: bool, total: int, data: PhpArray<PhpArray<int>>)
    requires Valid(data)
    ensures BuildResponse(authorizedRaw, total, data).Success? ==>
      var r := BuildResponse(authorizedRaw, total, data).value;
      Valid(r) && r.keys == SurvivingKeys(data, |data.keys|) &&
      (forall k :: k in data.vals && CategoryRows(data, k) != [] ==>
        Get(r, k) == Some(
          if authorizedRaw then Rows(CategoryRows(data, k))
          else SanitizedField(k, Rows(CategoryRows(data, k)), total))) &&
      (forall k :: CategoryRows(data, k) == [] ==> Get(r, k) == None)
  {
    var flat := Flattened(data);
    FlattenedGet(data);
    if !authorizedRaw {
      SanitizeGet(flat, total);
    }
  }
}
