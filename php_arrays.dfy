/**
 * PHP arrays with string keys, as the view uses them: an ordered list of
 * distinct keys (the iteration order of `foreach`) and the value under each.
 * Assigning to a key that is already there overwrites its value and keeps
 * its position; assigning to a new key appends it at the end.
 */
module PhpArrays {

  datatype Option<T> = None | Some(value: T)

  /** One `key => value` pair, as `foreach ($a as $key => $value)` visits it. */
  datatype Entry<V> = Entry(key: string, value: V)

  datatype PhpArray<V> = PhpArray(keys: seq<string>, vals: map<string, V>)

  /** `[]` */
  function Empty<V>(): PhpArray<V>
  {
    PhpArray([], map[])
  }

  ghost predicate Distinct(s: seq<string>)
  {
    forall i, j :: 0 <= i < j < |s| ==> s[i] != s[j]
  }

  /** Every key is listed exactly once. */
  ghost predicate Valid<V>(a: PhpArray<V>)
  {
    && Distinct(a.keys)
    && (forall i :: 0 <= i < |a.keys| ==> a.keys[i] in a.vals)
    && (forall k :: k in a.vals ==> k in a.keys)
  }

  /** An array of arrays whose every level lists each key once. */
  ghost predicate ValidNested<V>(a: PhpArray<PhpArray<V>>)
  {
    Valid(a) && forall k :: k in a.vals ==> Valid(a.vals[k])
  }

  /** `$a[$k]`, or None when `isset($a[$k])` is false. */
  function Get<V>(a: PhpArray<V>, k: string): Option<V>
  {
    if k in a.vals then Some(a.vals[k]) else None
  }

  function GetOr<V>(a: PhpArray<V>, k: string, default: V): V
  {
    if k in a.vals then a.vals[k] else default
  }

  /** `$a[$k] = $v` */
  function Put<V>(a: PhpArray<V>, k: string, v: V): (r: PhpArray<V>)
    ensures Get(r, k) == Some(v)
  {
    if k in a.vals then PhpArray(a.keys, a.vals[k := v])
    else PhpArray(a.keys + [k], a.vals[k := v])
  }

  /** Assigning keeps every key listed once. */
  lemma PutValid<V>(a: PhpArray<V>, k: string, v: V)
    requires Valid(a)
    ensures Valid(Put(a, k, v))
  {
  }

  /** Assigning to a new key appends it to the keys. */
  lemma PutFresh<V>(a: PhpArray<V>, k: string, v: V)
    requires Valid(a) && k !in a.vals
    ensures Valid(Put(a, k, v)) && Put(a, k, v).keys == a.keys + [k]
  {
  }

  /** `$a[$k1][$k2] = $v`, creating `$a[$k1]` when it is not set. */
  function PutIn<V>(a: PhpArray<PhpArray<V>>, k1: string, k2: string, v: V): (r: PhpArray<PhpArray<V>>)
    ensures Get(r, k1) == Some(Put(GetOr(a, k1, Empty()), k2, v))
  {
    Put(a, k1, Put(GetOr(a, k1, Empty()), k2, v))
  }

  /** Assigning to one key leaves every other key as it was. */
  lemma PutOther<V>(a: PhpArray<V>, k: string, v: V, d: string)
    requires d != k
    ensures Get(Put(a, k, v), d) == Get(a, d)
  {
  }

  /** `[k => v]` */
  lemma PutOne<V>(k: string, v: V)
    ensures var a := Put(Empty(), k, v);
      Valid(a) && a.keys == [k] && Get(a, k) == Some(v)
  {
    PutFresh(Empty<V>(), k, v);
  }

  /** `[k1 => v1, k2 => v2]` */
  lemma PutTwo<V>(k1: string, v1: V, k2: string, v2: V)
    requires k1 != k2
    ensures var a := Put(Put(Empty(), k1, v1), k2, v2);
      Valid(a) && a.keys == [k1, k2] && Get(a, k1) == Some(v1) && Get(a, k2) == Some(v2)
  {
    var one := Put(Empty(), k1, v1);
    PutOne(k1, v1);
    PutFresh(one, k2, v2);
    PutOther(one, k2, v2, k1);
  }

  /** Assigning twice to one key leaves the second value, in the first one's place. */
  lemma PutPut<V>(a: PhpArray<V>, k: string, v: V, w: V)
    ensures Put(Put(a, k, v), k, w) == Put(a, k, w)
  {
  }

  /** The pairs in iteration order. */
  function Entries<V>(a: PhpArray<V>): (es: seq<Entry<V>>)
    requires Valid(a)
    ensures |es| == |a.keys|
    ensures forall i :: 0 <= i < |es| ==> es[i] == Entry(a.keys[i], a.vals[a.keys[i]])
  {
    seq(|a.keys|, i requires 0 <= i < |a.keys| => Entry(a.keys[i], a.vals[a.keys[i]]))
  }

  /**
   * The pairs of an array of counts in iteration order, reading a listed
   * key without a value as 0; the same as `Entries` on a valid array.
   */
  function CountEntries(a: PhpArray<int>): seq<Entry<int>>
  {
    seq(|a.keys|, i requires 0 <= i < |a.keys| => Entry(a.keys[i], GetOr(a, a.keys[i], 0)))
  }

  function KeysOf<V>(kvs: seq<Entry<V>>): (ks: seq<string>)
    ensures |ks| == |kvs|
    ensures forall i :: 0 <= i < |kvs| ==> ks[i] == kvs[i].key
  {
    seq(|kvs|, i requires 0 <= i < |kvs| => kvs[i].key)
  }

  lemma KeysOfAppend<V>(kvs: seq<Entry<V>>, e: Entry<V>)
    ensures KeysOf(kvs + [e]) == KeysOf(kvs) + [e.key]
  {
  }

  lemma KeysOfPrefix<V>(kvs: seq<Entry<V>>)
    requires |kvs| > 0
    ensures KeysOf(kvs) == KeysOf(kvs[..|kvs| - 1]) + [kvs[|kvs| - 1].key]
  {
    KeysOfAppend(kvs[..|kvs| - 1], kvs[|kvs| - 1]);
    assert kvs[..|kvs| - 1] + [kvs[|kvs| - 1]] == kvs;
  }

  // ---------------------------------------------------------------------
  // First occurrences
  // ---------------------------------------------------------------------

  /** The strings of `s` without repetitions, each where it first occurs. */
  function FirstOccurrences(s: seq<string>): seq<string>
    decreases |s|
  {
    if |s| == 0 then []
    else
      var d := FirstOccurrences(s[..|s| - 1]);
      if s[|s| - 1] in d then d else d + [s[|s| - 1]]
  }

  /** The first position of `x` in `s`. */
  function IndexOf(s: seq<string>, x: string): (i: nat)
    requires x in s
    ensures i < |s| && s[i] == x
    ensures forall j :: 0 <= j < i ==> s[j] != x
  {
    if s[0] == x then 0 else 1 + IndexOf(s[1..], x)
  }

  lemma IndexOfAppend(s: seq<string>, y: string, x: string)
    requires x in s
    ensures IndexOf(s + [y], x) == IndexOf(s, x)
  {
    var i := IndexOf(s, x);
    var j := IndexOf(s + [y], x);
    assert (s + [y])[i] == x;
  }

  lemma {:induction false} FirstOccurrencesMembers(s: seq<string>)
    ensures forall x :: x in FirstOccurrences(s) <==> x in s
    decreases |s|
  {
    if |s| > 0 {
      FirstOccurrencesMembers(s[..|s| - 1]);
      assert s == s[..|s| - 1] + [s[|s| - 1]];
    }
  }

  /**
   * FirstOccurrences lists every string of `s` once, nothing else, and in
   * the order of the positions where they first occur.
   */
  lemma {:induction false} FirstOccurrencesSpec(s: seq<string>)
    ensures Distinct(FirstOccurrences(s))
    ensures forall x :: x in FirstOccurrences(s) <==> x in s
    ensures forall a, b :: 0 <= a < b < |FirstOccurrences(s)| ==>
      IndexOf(s, FirstOccurrences(s)[a]) < IndexOf(s, FirstOccurrences(s)[b])
    decreases |s|
  {
    FirstOccurrencesMembers(s);
    if |s| > 0 {
      var init := s[..|s| - 1];
      var last := s[|s| - 1];
      var d := FirstOccurrences(init);
      FirstOccurrencesSpec(init);
      assert s == init + [last];
      forall x | x in init ensures IndexOf(s, x) == IndexOf(init, x) {
        IndexOfAppend(init, last, x);
      }
      if last !in d {
        assert IndexOf(s, last) == |init|;
      }
    }
  }

  // ---------------------------------------------------------------------
  // Repeated assignment: `foreach (... as $k => $v) { $a[$k] = $v; }`
  // ---------------------------------------------------------------------

  function AssignAll<V>(a: PhpArray<V>, kvs: seq<Entry<V>>): PhpArray<V>
    decreases |kvs|
  {
    if |kvs| == 0 then a
    else
      var last := kvs[|kvs| - 1];
      Put(AssignAll(a, kvs[..|kvs| - 1]), last.key, last.value)
  }

  lemma {:induction false} AssignAllValid<V>(a: PhpArray<V>, kvs: seq<Entry<V>>)
    requires Valid(a)
    ensures Valid(AssignAll(a, kvs))
    decreases |kvs|
  {
    if |kvs| > 0 {
      AssignAllValid(a, kvs[..|kvs| - 1]);
    }
  }

  /**
   * Assigning into an empty array: the keys are the assigned keys in the
   * order of their first assignment.
   */
  lemma {:induction false} AssignAllKeys<V>(kvs: seq<Entry<V>>)
    ensures AssignAll(Empty(), kvs).keys == FirstOccurrences(KeysOf(kvs))
    ensures forall k :: k in AssignAll(Empty(), kvs).vals <==> k in KeysOf(kvs)
    decreases |kvs|
  {
    if |kvs| > 0 {
      var init := kvs[..|kvs| - 1];
      AssignAllKeys(init);
      KeysOfPrefix(kvs);
      assert KeysOf(kvs)[..|kvs| - 1] == KeysOf(init);
      FirstOccurrencesMembers(KeysOf(init));
    }
  }

  /**
   * The last assignment wins: when `kvs[i]` is the last pair with its key,
   * the array ends up holding `kvs[i].value` under that key.
   */
  lemma {:induction false} AssignAllLastWins<V>(a: PhpArray<V>, kvs: seq<Entry<V>>, i: nat)
    requires i < |kvs|
    requires forall j :: i < j < |kvs| ==> kvs[j].key != kvs[i].key
    ensures Get(AssignAll(a, kvs), kvs[i].key) == Some(kvs[i].value)
    decreases |kvs|
  {
    if i < |kvs| - 1 {
      AssignAllLastWins(a, kvs[..|kvs| - 1], i);
    }
  }

  /** A sequence without repetition is its own list of first occurrences. */
  lemma {:induction false} FirstOccurrencesDistinct(s: seq<string>)
    requires Distinct(s)
    ensures FirstOccurrences(s) == s
    decreases |s|
  {
    if |s| > 0 {
      var init := s[..|s| - 1];
      assert Distinct(init) by {
        assert forall i :: 0 <= i < |init| ==> init[i] == s[i];
      }
      FirstOccurrencesDistinct(init);
      FirstOccurrencesMembers(init);
      assert s[|s| - 1] !in init;
      assert init + [s[|s| - 1]] == s;
    }
  }

  /** With no repeated key, assigning pairs into an empty array rebuilds them. */
  lemma AssignAllDistinctIdentity<V>(kvs: seq<Entry<V>>)
    requires Distinct(KeysOf(kvs))
    ensures Valid(AssignAll(Empty(), kvs))
    ensures AssignAll(Empty(), kvs).keys == KeysOf(kvs)
    ensures Entries(AssignAll(Empty(), kvs)) == kvs
  {
    var r := AssignAll(Empty(), kvs);
    AssignAllValid(Empty(), kvs);
    AssignAllKeys(kvs);
    FirstOccurrencesDistinct(KeysOf(kvs));
    forall i | 0 <= i < |kvs| ensures Entries(r)[i] == kvs[i] {
      assert forall j :: i < j < |kvs| ==> kvs[j].key != kvs[i].key by {
        assert forall j :: i < j < |kvs| ==> KeysOf(kvs)[j] != KeysOf(kvs)[i];
      }
      AssignAllLastWins(Empty(), kvs, i);
    }
  }

  // ---------------------------------------------------------------------
  // Sums of integer values
  // ---------------------------------------------------------------------

  /** The sum of the values listed under `keys`. */
  function SumOver(keys: seq<string>, vals: map<string, int>): int
    requires forall k :: k in keys ==> k in vals
    decreases |keys|
  {
    if |keys| == 0 then 0
    else SumOver(keys[..|keys| - 1], vals) + vals[keys[|keys| - 1]]
  }

  function SumValues(a: PhpArray<int>): int
    requires Valid(a)
  {
    SumOver(a.keys, a.vals)
  }

  /** The sum of all the values in a stream of pairs. */
  function SumEntries(kvs: seq<Entry<int>>): int
    decreases |kvs|
  {
    if |kvs| == 0 then 0 else SumEntries(kvs[..|kvs| - 1]) + kvs[|kvs| - 1].value
  }

  /** The sum of the values paired with `k`. */
  function SumFor(kvs: seq<Entry<int>>, k: string): int
    decreases |kvs|
  {
    if |kvs| == 0 then 0
    else SumFor(kvs[..|kvs| - 1], k) + (if kvs[|kvs| - 1].key == k then kvs[|kvs| - 1].value else 0)
  }

  ghost predicate NonNegative(kvs: seq<Entry<int>>)
  {
    forall i :: 0 <= i < |kvs| ==> kvs[i].value >= 0
  }

  ghost predicate NonNegativeValues(a: PhpArray<int>)
  {
    forall k :: k in a.vals ==> a.vals[k] >= 0
  }

  lemma {:induction false} SumOverUpdate(keys: seq<string>, vals: map<string, int>, k: string, v: int)
    requires forall x :: x in keys ==> x in vals
    requires Distinct(keys) && k in keys
    ensures SumOver(keys, vals[k := v]) == SumOver(keys, vals) - vals[k] + v
    decreases |keys|
  {
    var init := keys[..|keys| - 1];
    if keys[|keys| - 1] != k {
      assert k in init by {
        var i :| 0 <= i < |keys| && keys[i] == k;
        assert init[i] == k;
      }
      SumOverUpdate(init, vals, k, v);
    } else {
      assert k !in init;
      SumOverSame(init, vals, vals[k := v]);
    }
  }

  /** The sum only reads the values of the listed keys. */
  lemma {:induction false} SumOverSame(keys: seq<string>, vals: map<string, int>, vals': map<string, int>)
    requires forall x :: x in keys ==> x in vals && x in vals' && vals[x] == vals'[x]
    ensures SumOver(keys, vals) == SumOver(keys, vals')
    decreases |keys|
  {
    if |keys| > 0 {
      SumOverSame(keys[..|keys| - 1], vals, vals');
    }
  }

  /** Non-negative values have a non-negative sum. */
  lemma {:induction false} SumOverNonNegative(keys: seq<string>, vals: map<string, int>)
    requires forall x :: x in keys ==> x in vals && vals[x] >= 0
    ensures SumOver(keys, vals) >= 0
    decreases |keys|
  {
    if |keys| > 0 {
      SumOverNonNegative(keys[..|keys| - 1], vals);
    }
  }

  /** Assigning `v` to `k` changes the sum by `v` minus what `k` held. */
  lemma SumValuesPut(a: PhpArray<int>, k: string, v: int)
    requires Valid(a)
    ensures SumValues(Put(a, k, v)) == SumValues(a) - GetOr(a, k, 0) + v
  {
    if k in a.vals {
      SumOverUpdate(a.keys, a.vals, k, v);
    } else {
      assert (a.keys + [k])[..|a.keys|] == a.keys;
      SumOverSame(a.keys, a.vals, a.vals[k := v]);
    }
  }

  lemma PutNonNegative(a: PhpArray<int>, k: string, v: int)
    requires NonNegativeValues(a) && v >= 0
    ensures NonNegativeValues(Put(a, k, v))
  {
  }

  /**
   * With non-negative values, what repeated assignment leaves behind sums to
   * at most its start plus everything assigned: an overwritten value is lost.
   */
  lemma {:induction false} AssignAllSumBound(a: PhpArray<int>, kvs: seq<Entry<int>>)
    requires Valid(a) && NonNegativeValues(a) && NonNegative(kvs)
    ensures Valid(AssignAll(a, kvs)) && NonNegativeValues(AssignAll(a, kvs))
    ensures SumValues(AssignAll(a, kvs)) <= SumValues(a) + SumEntries(kvs)
    decreases |kvs|
  {
    if |kvs| > 0 {
      var init := kvs[..|kvs| - 1];
      var last := kvs[|kvs| - 1];
      assert NonNegative(init) by {
        forall i | 0 <= i < |init| ensures init[i].value >= 0 {
          assert init[i] == kvs[i];
        }
      }
      assert last.value >= 0;
      AssignAllSumBound(a, init);
      var acc := AssignAll(a, init);
      assert AssignAll(a, kvs) == Put(acc, last.key, last.value);
      PutValid(acc, last.key, last.value);
      PutNonNegative(acc, last.key, last.value);
      SumValuesPut(acc, last.key, last.value);
      assert SumEntries(kvs) == SumEntries(init) + last.value;
    }
  }

  // ---------------------------------------------------------------------
  // Accumulation: `if (!isset($a[$k])) { $a[$k] = 0; } $a[$k] += $v;`
  // ---------------------------------------------------------------------

  /** One `+=` of `v` into the counter under `k`, created at 0 when missing. */
  function AddTo(a: PhpArray<int>, k: string, v: int): (r: PhpArray<int>)
    ensures Get(r, k) == Some(GetOr(a, k, 0) + v)
  {
    var a' := if Get(a, k).None? then Put(a, k, 0) else a;
    Put(a', k, GetOr(a', k, 0) + v)
  }

  /** Every pair of `kvs` added, in order, into `a`. */
  function Accumulate(a: PhpArray<int>, kvs: seq<Entry<int>>): PhpArray<int>
    decreases |kvs|
  {
    if |kvs| == 0 then a
    else
      var last := kvs[|kvs| - 1];
      AddTo(Accumulate(a, kvs[..|kvs| - 1]), last.key, last.value)
  }

  /** The isset-then-`+=` statements leave the array `AddTo` describes. */
  lemma AddToSteps(a: PhpArray<int>, k: string, v: int, created: PhpArray<int>, added: PhpArray<int>)
    requires created == if Get(a, k).None? then Put(a, k, 0) else a
    requires added == Put(created, k, GetOr(created, k, 0) + v)
    ensures added == AddTo(a, k, v)
  {
  }

  /** One more pair of a sequence, added to the counters of its prefix. */
  lemma AccumulatePrefix(a: PhpArray<int>, kvs: seq<Entry<int>>, j: nat)
    requires j < |kvs|
    ensures Accumulate(a, kvs[..j + 1]) == AddTo(Accumulate(a, kvs[..j]), kvs[j].key, kvs[j].value)
  {
    assert kvs[..j + 1][..j] == kvs[..j];
  }

  /**
   * Accumulating into an empty array: one counter per key met, in the order
   * of first occurrence, each holding the sum of the values met under it.
   */
  lemma AccumulateTotals(kvs: seq<Entry<int>>)
    ensures Valid(Accumulate(Empty(), kvs))
    ensures Accumulate(Empty(), kvs).keys == FirstOccurrences(KeysOf(kvs))
    ensures forall k :: GetOr(Accumulate(Empty(), kvs), k, 0) == SumFor(kvs, k)
  {
    AccumulateKeys(kvs);
    AccumulateCounts(kvs);
  }

  lemma {:induction false} AccumulateKeys(kvs: seq<Entry<int>>)
    ensures Valid(Accumulate(Empty(), kvs))
    ensures Accumulate(Empty(), kvs).keys == FirstOccurrences(KeysOf(kvs))
    decreases |kvs|
  {
    if |kvs| > 0 {
      var init := kvs[..|kvs| - 1];
      var last := kvs[|kvs| - 1];
      AccumulateKeys(init);
      KeysOfPrefix(kvs);
      assert KeysOf(kvs)[..|kvs| - 1] == KeysOf(init);
      FirstOccurrencesMembers(KeysOf(init));
      AddToShape(Accumulate(Empty(), init), last.key, last.value);
    }
  }

  lemma {:induction false} AccumulateCounts(kvs: seq<Entry<int>>)
    ensures forall k :: GetOr(Accumulate(Empty(), kvs), k, 0) == SumFor(kvs, k)
    decreases |kvs|
  {
    if |kvs| > 0 {
      var init := kvs[..|kvs| - 1];
      var last := kvs[|kvs| - 1];
      AccumulateCounts(init);
      AddToGetOr(Accumulate(Empty(), init), last.key, last.value);
    }
  }

  /** Adding to a counter creates it, at the end, when it is not set yet. */
  lemma AddToShape(a: PhpArray<int>, k: string, v: int)
    requires Valid(a)
    ensures Valid(AddTo(a, k, v))
    ensures AddTo(a, k, v).keys == if k in a.vals then a.keys else a.keys + [k]
  {
    if k in a.vals {
      assert AddTo(a, k, v) == Put(a, k, a.vals[k] + v);
      PutValid(a, k, a.vals[k] + v);
    } else {
      var a' := Put(a, k, 0);
      assert AddTo(a, k, v) == Put(a', k, v);
      PutFresh(a, k, 0);
      PutValid(a', k, v);
    }
  }

  /** Adding to one counter leaves the others, read as 0 when unset. */
  lemma AddToGetOr(a: PhpArray<int>, k: string, v: int)
    ensures forall d :: GetOr(AddTo(a, k, v), d, 0) == GetOr(a, d, 0) + (if d == k then v else 0)
  {
  }

  lemma SumValuesAddTo(a: PhpArray<int>, k: string, v: int)
    requires Valid(a)
    ensures Valid(AddTo(a, k, v))
    ensures SumValues(AddTo(a, k, v)) == SumValues(a) + v
  {
    if k in a.vals {
      SumValuesAddToPresent(a, k, v);
    } else {
      SumValuesAddToAbsent(a, k, v);
    }
  }

  lemma SumValuesAddToPresent(a: PhpArray<int>, k: string, v: int)
    requires Valid(a) && k in a.vals
    ensures Valid(AddTo(a, k, v))
    ensures SumValues(AddTo(a, k, v)) == SumValues(a) + v
  {
    var r := Put(a, k, a.vals[k] + v);
    assert AddTo(a, k, v) == r;
    PutValid(a, k, a.vals[k] + v);
    SumValuesPut(a, k, a.vals[k] + v);
  }

  lemma SumValuesAddToAbsent(a: PhpArray<int>, k: string, v: int)
    requires Valid(a) && k !in a.vals
    ensures Valid(AddTo(a, k, v))
    ensures SumValues(AddTo(a, k, v)) == SumValues(a) + v
  {
    var a' := Put(a, k, 0);
    var r := Put(a', k, v);
    assert AddTo(a, k, v) == r;
    PutValid(a, k, 0);
    SumValuesPut(a, k, 0);
    PutValid(a', k, v);
    SumValuesPut(a', k, v);
  }

  /** Accumulating loses nothing: the counters sum to the sum of the values. */
  lemma {:induction false} AccumulateSum(a: PhpArray<int>, kvs: seq<Entry<int>>)
    requires Valid(a)
    ensures Valid(Accumulate(a, kvs))
    ensures SumValues(Accumulate(a, kvs)) == SumValues(a) + SumEntries(kvs)
    decreases |kvs|
  {
    if |kvs| > 0 {
      var init := kvs[..|kvs| - 1];
      var last := kvs[|kvs| - 1];
      AccumulateSum(a, init);
      SumValuesAddTo(Accumulate(a, init), last.key, last.value);
    }
  }

  /** The first `n` pairs of an array of counts sum to its first `n` values. */
  lemma {:induction false} CountEntriesPrefixSum(a: PhpArray<int>, n: nat)
    requires Valid(a) && n <= |a.keys|
    ensures forall k :: k in a.keys[..n] ==> k in a.vals
    ensures SumEntries(CountEntries(a)[..n]) == SumOver(a.keys[..n], a.vals)
    decreases n
  {
    if n > 0 {
      CountEntriesPrefixSum(a, n - 1);
      assert CountEntries(a)[..n][..n - 1] == CountEntries(a)[..n - 1];
      assert a.keys[..n][..n - 1] == a.keys[..n - 1];
    }
  }

  /** The pairs of a valid array of counts sum to its values' sum and keep their signs. */
  lemma CountEntriesSum(a: PhpArray<int>)
    requires Valid(a)
    ensures SumEntries(CountEntries(a)) == SumValues(a)
    ensures NonNegativeValues(a) ==> NonNegative(CountEntries(a))
  {
    CountEntriesPrefixSum(a, |a.keys|);
    assert CountEntries(a)[..|a.keys|] == CountEntries(a);
    assert a.keys[..|a.keys|] == a.keys;
  }

  /** With non-negative values, the values paired with one key add up to at most all of them. */
  lemma {:induction false} SumForBound(kvs: seq<Entry<int>>, k: string)
    requires NonNegative(kvs)
    ensures 0 <= SumFor(kvs, k) <= SumEntries(kvs)
    decreases |kvs|
  {
    if |kvs| > 0 {
      var init := kvs[..|kvs| - 1];
      assert NonNegative(init) by {
        forall i | 0 <= i < |init| ensures init[i].value >= 0 {
          assert init[i] == kvs[i];
        }
      }
      SumForBound(init, k);
    }
  }

  /** Every value of an array of reals lies between `lo` and `hi`. */
  ghost predicate Within(a: PhpArray<real>, lo: real, hi: real)
  {
    forall k :: k in a.vals ==> lo <= a.vals[k] <= hi
  }

  /** Assigning values between `lo` and `hi` keeps every value between them. */
  lemma {:induction false} AssignAllWithin(a: PhpArray<real>, kvs: seq<Entry<real>>, lo: real, hi: real)
    requires Within(a, lo, hi)
    requires forall i :: 0 <= i < |kvs| ==> lo <= kvs[i].value <= hi
    ensures Within(AssignAll(a, kvs), lo, hi)
    decreases |kvs|
  {
    if |kvs| > 0 {
      AssignAllWithin(a, kvs[..|kvs| - 1], lo, hi);
    }
  }
}
