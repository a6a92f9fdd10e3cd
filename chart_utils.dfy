/** The two data utilities of the chart components: `sampleData`, which
    thins a long series before it is drawn, and `calculateMetricStats`,
    which summarises one metric of a series as min, max, mean and median. */
module ChartUtils {
  import opened Wrappers
  import opened Text

  // ---------------------------------------------------------------- integer division

  lemma MulLe(a: int, b: int, c: int)
    requires a <= b && c >= 0
    ensures a * c <= b * c
  {
  }

  lemma MulLtCancel(a: int, b: int, k: int)
    requires k >= 1 && a * k < b * k
    ensures a < b
  {
    if a >= b {
      MulLe(b, a, k);
    }
  }

  /** Quotient and remainder are determined by the division identity. */
  lemma DivUnique(x: int, k: int, q: int, r: int)
    requires k >= 1 && 0 <= r < k && x == q * k + r
    ensures x / k == q && x % k == r
  {
    var q', r' := x / k, x % k;
    assert x == q' * k + r';
    assert (q + 1) * k == q * k + k;
    assert (q' + 1) * k == q' * k + k;
    MulLtCancel(q', q + 1, k);
    MulLtCancel(q, q' + 1, k);
  }

  /** The number of multiples of k below j grows by one exactly at a multiple. */
  lemma CeilStep(j: int, k: int)
    requires j >= 1 && k >= 1
    ensures (j + k - 1) / k == (j - 1 + k - 1) / k + (if (j - 1) % k == 0 then 1 else 0)
    ensures (j - 1) % k == 0 ==> ((j - 1 + k - 1) / k) * k == j - 1
  {
    var q, r := (j - 1) / k, (j - 1) % k;
    assert j - 1 == q * k + r;
    assert j + k - 1 == (q + 1) * k + r;
    DivUnique(j + k - 1, k, q + 1, r);
    if r == 0 {
      DivUnique(j - 1 + k - 1, k, q, k - 1);
    } else {
      assert j - 1 + k - 1 == (q + 1) * k + (r - 1);
      DivUnique(j - 1 + k - 1, k, q + 1, r - 1);
    }
  }

  /** With interval `ceil(n / m)`, at least 2 when n > m, there are at most m multiples of it below n. */
  lemma SampleCountBound(n: int, m: int)
    requires m >= 1 && n > m
    ensures var k := (n + m - 1) / m; k >= 2 && (n + k - 1) / k <= m
  {
    var k := (n + m - 1) / m;
    assert n + m - 1 == k * m + (n + m - 1) % m;
    assert k * m >= n;
    assert k >= 2 by {
      assert 2 * m <= n + m - 1 + 1;
      if k < 2 { MulLe(k, 1, m); }
    }
    var q := (n + k - 1) / k;
    assert n + k - 1 == q * k + (n + k - 1) % k;
    assert (m + 1) * k == m * k + k;
    MulLtCancel(q, m + 1, k);
  }

  // ---------------------------------------------------------------- sampleData

  /** `index % interval === 0` with `interval = Math.ceil(n / maxPoints)`, for
      a series of n > maxPoints points. A zero `maxPoints` makes the interval
      Infinity, and `index % Infinity` is the index itself, so only index 0
      passes; a negative one makes the interval the negated floor of
      `n / -maxPoints`, and when that floor is 0 the interval is -0, the
      remainder NaN and no index passes. */
  predicate Kept(n: nat, maxPoints: int, i: nat)
  {
    if maxPoints > 0 then
      var k := (n + maxPoints - 1) / maxPoints; k > 0 && i % k == 0
    else if maxPoints == 0 then i == 0
    else
      var k := n / -maxPoints; k > 0 && i % k == 0
  }

  /** `data.filter((_, index) => ...)` over the first j points. */
  function KeepPrefix<T>(s: seq<T>, j: nat, maxPoints: int): (r: seq<T>)
    requires j <= |s|
    ensures |r| <= j
  {
    if j == 0 then []
    else KeepPrefix(s, j - 1, maxPoints) + (if Kept(|s|, maxPoints, j - 1) then [s[j - 1]] else [])
  }

  /** `sampleData(data, maxPoints)`: a missing series and one of at most
      `maxPoints` points come back unchanged; a longer one is thinned. */
  function SampleData<T>(data: Option<seq<T>>, maxPoints: int): (r: Option<seq<T>>)
    ensures data.None? ==> r.None?
    ensures data.Some? && |data.value| <= maxPoints ==> r == data
    ensures data.Some? ==> r.Some? && |r.value| <= |data.value|
  {
    match data
    case None => None
    case Some(s) => if |s| <= maxPoints then data else Some(KeepPrefix(s, |s|, maxPoints))
  }

  lemma {:induction false} KeepPrefixStride<T>(s: seq<T>, j: nat, maxPoints: int, k: int)
    requires j <= |s| && k >= 1
    requires forall i :: 0 <= i < |s| ==> (Kept(|s|, maxPoints, i) <==> i % k == 0)
    ensures var r := KeepPrefix(s, j, maxPoints);
      |r| == (j + k - 1) / k && forall q :: 0 <= q < |r| ==> q * k < j && r[q] == s[q * k]
  {
    if j == 0 {
      DivUnique(k - 1, k, 0, k - 1);
    } else {
      KeepPrefixStride(s, j - 1, maxPoints, k);
      CeilStep(j, k);
    }
  }

  /** A series longer than `maxPoints >= 1` keeps every k-th point from the
      first one on, where k = ceil(n / maxPoints) >= 2, and so at most
      `maxPoints` points, in their original order. */
  lemma SampleStride<T>(s: seq<T>, maxPoints: int)
    requires maxPoints >= 1 && |s| > maxPoints
    ensures var k := (|s| + maxPoints - 1) / maxPoints;
      var r := SampleData(Some(s), maxPoints).value;
      k >= 2 && |r| == (|s| + k - 1) / k && |r| <= maxPoints
      && forall q :: 0 <= q < |r| ==> q * k < |s| && r[q] == s[q * k]
  {
    var k := (|s| + maxPoints - 1) / maxPoints;
    SampleCountBound(|s|, maxPoints);
    KeepPrefixStride(s, |s|, maxPoints, k);
  }

  /** The first point of a non-empty series survives thinning when
      `maxPoints` is not negative. */
  lemma SampleKeepsFirst<T>(s: seq<T>, maxPoints: int)
    requires |s| >= 1 && maxPoints >= 0
    ensures var r := SampleData(Some(s), maxPoints).value; |r| >= 1 && r[0] == s[0]
  {
    if |s| > maxPoints {
      if maxPoints == 0 {
        SampleZeroMaxPoints(s);
      } else {
        SampleStride(s, maxPoints);
        var k := (|s| + maxPoints - 1) / maxPoints;
        assert |s| + k - 1 >= k;
        DivUnique(k, k, 1, 0);
        assert (|s| + k - 1) / k >= k / k by { DivMonotone(k, |s| + k - 1, k); }
      }
    }
  }

  lemma DivMonotone(a: int, b: int, k: int)
    requires 0 <= a <= b && k >= 1
    ensures a / k <= b / k
  {
    assert a == (a / k) * k + a % k;
    assert b == (b / k) * k + b % k;
    if a / k > b / k {
      assert (b / k + 1) * k == (b / k) * k + k;
      MulLe(b / k + 1, a / k, k);
      assert false;
    }
  }

  /** The number of points the line and bar charts draw at most. */
  const DefaultMaxPoints: int := 300

  /** The charts call `sampleData(data)` and so never draw more than 300
      points, however long the series. */
  lemma ChartSampleBound<T>(s: seq<T>)
    ensures |SampleData(Some(s), DefaultMaxPoints).value| <= DefaultMaxPoints
  {
    if |s| > DefaultMaxPoints {
      SampleStride(s, DefaultMaxPoints);
    }
  }

  /** With `maxPoints` 0, a non-empty series is reduced to its first point. */
  lemma SampleZeroMaxPoints<T>(s: seq<T>)
    requires |s| >= 1
    ensures SampleData(Some(s), 0) == Some([s[0]])
  {
    forall i | 0 <= i < |s| ensures Kept(|s|, 0, i) <==> i % |s| == 0 {
      DivUnique(i, |s|, 0, i);
    }
    KeepPrefixStride(s, |s|, 0, |s|);
    DivUnique(|s| + |s| - 1, |s|, 1, |s| - 1);
    var r := KeepPrefix(s, |s|, 0);
    assert |r| == 1 && r[0] == s[0 * |s|];
    assert r == [s[0]];
  }

  lemma {:induction false} KeepNothing<T>(s: seq<T>, j: nat, maxPoints: int)
    requires j <= |s|
    requires forall i :: 0 <= i < |s| ==> !Kept(|s|, maxPoints, i)
    ensures KeepPrefix(s, j, maxPoints) == []
  {
    if j > 0 {
      KeepNothing(s, j - 1, maxPoints);
    }
  }

  /** With a negative `maxPoints` larger in magnitude than the series, the
      interval is -0 and nothing is kept. */
  lemma SampleNegativeMaxPoints<T>(s: seq<T>, maxPoints: int)
    requires maxPoints < 0 && |s| < -maxPoints
    ensures SampleData(Some(s), maxPoints) == Some([])
  {
    DivUnique(|s|, -maxPoints, 0, |s|);
    KeepNothing(s, |s|, maxPoints);
  }

  // ---------------------------------------------------------------- records and selectors

  /** A JSON-like value as found in a parsed record; `JNull` also stands
      for `undefined`, which behaves the same in everything modelled here. */
  datatype Json =
    | JNumber(n: real)
    | JString(s: string)
    | JBool(b: bool)
    | JNull
    | JObject(fields: map<string, Json>)

  type Record = map<string, Json>

  /** JavaScript truthiness. */
  predicate Truthy(v: Json)
  {
    match v
    case JNumber(x) => x != 0.0
    case JString(s) => s != ""
    case JBool(b) => b
    case JNull => false
    case JObject(_) => true
  }

  /** `v[key]`: a missing key, or a key of something that is not an object, gives `undefined`. */
  function Get(v: Json, key: string): Json
  {
    if v.JObject? && key in v.fields then v.fields[key] else JNull
  }

  /** `v || 0`. */
  function OrZero(v: Json): (r: Json)
    ensures Truthy(v) ==> r == v
    ensures !Truthy(v) ==> r == JNumber(0.0)
  {
    if Truthy(v) then v else JNumber(0.0)
  }

  /** The metric selector: a key (`typeof metricPath === 'string'`), an
      object with a dotted `path`, or anything else. */
  datatype Selector = Key(name: string) | Path(path: string) | NoPath

  /** `for (const part of parts) value = value && value[part]`. */
  function WalkPath(v: Json, parts: seq<string>): (r: Json)
    ensures !Truthy(v) ==> r == v
    ensures |parts| >= 1 && !v.JObject? ==> !Truthy(r)
    decreases |parts|
  {
    if |parts| == 0 then v
    else WalkPath(if Truthy(v) then Get(v, parts[0]) else v, parts[1..])
  }

  /** The value `data.map` produces for one record. An empty path is falsy
      and so selects nothing. */
  function Selected(entry: Record, sel: Selector): (r: Json)
    ensures Truthy(r) || r == JNumber(0.0)
    ensures sel.NoPath? ==> r == JNumber(0.0)
    ensures sel.Key? && sel.name !in entry ==> r == JNumber(0.0)
    ensures sel.Key? && sel.name in entry && Truthy(entry[sel.name]) ==> r == entry[sel.name]
  {
    match sel
    case Key(k) => OrZero(Get(JObject(entry), k))
    case Path(p) => if p != "" then OrZero(WalkPath(JObject(entry), Split(p, '.'))) else JNumber(0.0)
    case NoPath => JNumber(0.0)
  }

  /** The path walk as the loop that performs it. */
  method SelectValue(entry: Record, sel: Selector) returns (v: Json)
    ensures v == Selected(entry, sel)
  {
    match sel
    case Key(k) =>
      v := OrZero(Get(JObject(entry), k));
    case Path(p) =>
      if p == "" {
        return JNumber(0.0);
      }
      var parts := Split(p, '.');
      v := JObject(entry);
      for i := 0 to |parts|
        invariant WalkPath(v, parts[i..]) == WalkPath(JObject(entry), parts)
      {
        assert parts[i..][1..] == parts[i + 1..];
        v := if Truthy(v) then Get(v, parts[i]) else v;
      }
      assert parts[|parts|..] == [];
      v := OrZero(v);
    case NoPath =>
      v := JNumber(0.0);
  }

  /** A missing key selects 0. */
  lemma MissingKeySelectsZero(entry: Record, k: string)
    requires k !in entry
    ensures Selected(entry, Key(k)) == JNumber(0.0)
    ensures '.' !in k && k != "" ==> Selected(entry, Path(k)) == JNumber(0.0)
  {
    if '.' !in k && k != "" {
      SplitNoSeparator(k, '.');
      assert [k][1..] == [];
      assert Truthy(JObject(entry));
      assert WalkPath(JObject(entry), [k]) == WalkPath(Get(JObject(entry), k), []);
    }
  }

  /** A path without a dot selects what the key of the same name selects. */
  lemma PathOfOneKey(entry: Record, k: string)
    requires '.' !in k && k != ""
    ensures Selected(entry, Path(k)) == Selected(entry, Key(k))
  {
    SplitNoSeparator(k, '.');
    assert [k][1..] == [];
    assert Truthy(JObject(entry));
    assert WalkPath(JObject(entry), [k]) == WalkPath(Get(JObject(entry), k), []);
  }

  /** A two-step path reaches into a nested object; when the outer key
      is missing the value is 0. */
  lemma NestedPath(entry: Record, outer: string, inner: string)
    requires '.' !in outer && '.' !in inner
    ensures var v := Get(Get(JObject(entry), outer), inner);
      Selected(entry, Path(outer + "." + inner)) == OrZero(v)
    ensures outer !in entry ==> Selected(entry, Path(outer + "." + inner)) == JNumber(0.0)
  {
    SplitPrefix(outer, inner, '.');
    SplitNoSeparator(inner, '.');
    assert Split(outer + "." + inner, '.') == [outer, inner];
    assert [outer, inner][1..] == [inner] && [inner][1..] == [];
    var top := Get(JObject(entry), outer);
    assert WalkPath(JObject(entry), [outer, inner]) == WalkPath(top, [inner]);
    assert WalkPath(top, [inner]) == WalkPath(if Truthy(top) then Get(top, inner) else top, []);
    assert !Truthy(top) ==> Get(top, inner) == JNull;
  }

  // ---------------------------------------------------------------- statistics

  predicate AllNumeric(data: seq<Record>, sel: Selector)
  {
    forall i :: 0 <= i < |data| ==> Selected(data[i], sel).JNumber?
  }

  /** `values`: one number per record, in record order. */
  function Values(data: seq<Record>, sel: Selector): seq<real>
    requires AllNumeric(data, sel)
  {
    seq(|data|, i requires 0 <= i < |data| => Selected(data[i], sel).n)
  }

  datatype Stats = Stats(min: real, max: real, avg: real, median: real)

  const ZeroStats: Stats := Stats(0.0, 0.0, 0.0, 0.0)

  predicate Sorted(s: seq<real>)
  {
    forall i, j :: 0 <= i < j < |s| ==> s[i] <= s[j]
  }

  function Insert(x: real, s: seq<real>): (r: seq<real>)
    requires Sorted(s)
    ensures |r| == |s| + 1 && (r[0] == x || (|s| > 0 && r[0] == s[0]))
    ensures Sorted(r) && multiset(r) == multiset(s) + multiset{x}
  {
    if |s| == 0 || x <= s[0] then
      assert multiset([x] + s) == multiset{x} + multiset(s);
      [x] + s
    else
      assert s == [s[0]] + s[1..];
      var rest := Insert(x, s[1..]);
      var r := [s[0]] + rest;
      assert Sorted(r) by {
        assert s[0] <= rest[0] by {
          assert rest[0] == x || rest[0] == s[1];
        }
        forall i, j | 0 <= i < j < |r| ensures r[i] <= r[j] {
          assert r[j] == rest[j - 1];
          if i > 0 {
            assert r[i] == rest[i - 1];
          } else if j > 1 {
            assert rest[0] <= rest[j - 1];
          }
        }
      }
      assert multiset(r) == multiset{s[0]} + multiset(rest);
      r
  }

  /** The ascending order of `values.sort((a, b) => a - b)`. */
  function Sort(s: seq<real>): (r: seq<real>)
    ensures Sorted(r) && multiset(r) == multiset(s)
  {
    if |s| == 0 then []
    else
      assert s == s[..|s| - 1] + [s[|s| - 1]];
      Insert(s[|s| - 1], Sort(s[..|s| - 1]))
  }

  /** Two sorted sequences with the same elements are equal: the sorted
      order of a list of numbers does not depend on the order it came in. */
  lemma {:induction false} SortedUnique(a: seq<real>, b: seq<real>)
    requires Sorted(a) && Sorted(b) && multiset(a) == multiset(b)
    ensures a == b
  {
    assert |a| == |multiset(a)| == |multiset(b)| == |b|;
    if |a| > 0 {
      assert a[0] in multiset(b);
      assert b[0] in multiset(a);
      assert a[0] == b[0];
      assert a == [a[0]] + a[1..];
      assert b == [b[0]] + b[1..];
      assert multiset(a) == multiset{a[0]} + multiset(a[1..]);
      assert multiset(b) == multiset{b[0]} + multiset(b[1..]);
      assert multiset(a[1..]) == multiset(a) - multiset{a[0]};
      assert multiset(b[1..]) == multiset(b) - multiset{b[0]};
      SortedUnique(a[1..], b[1..]);
    }
  }

  /** `values.reduce((acc, val) => acc + val, 0)`. */
  function Sum(s: seq<real>): real
  {
    if |s| == 0 then 0.0 else Sum(s[..|s| - 1]) + s[|s| - 1]
  }

  lemma {:induction false} SumCons(x: real, s: seq<real>)
    ensures Sum([x] + s) == x + Sum(s)
  {
    if |s| > 0 {
      assert ([x] + s)[..|s|] == [x] + s[..|s| - 1];
      SumCons(x, s[..|s| - 1]);
    }
  }

  lemma {:induction false} SumInsert(x: real, s: seq<real>)
    requires Sorted(s)
    ensures Sum(Insert(x, s)) == x + Sum(s)
  {
    if |s| == 0 || x <= s[0] {
      SumCons(x, s);
    } else {
      SumInsert(x, s[1..]);
      SumCons(s[0], Insert(x, s[1..]));
      SumCons(s[0], s[1..]);
      assert s == [s[0]] + s[1..];
    }
  }

  lemma {:induction false} SumSort(s: seq<real>)
    ensures Sum(Sort(s)) == Sum(s)
  {
    if |s| > 0 {
      SumSort(s[..|s| - 1]);
      SumInsert(s[|s| - 1], Sort(s[..|s| - 1]));
    }
  }

  /** The sum does not depend on the order of the values. */
  lemma SumPermutation(a: seq<real>, b: seq<real>)
    requires multiset(a) == multiset(b)
    ensures Sum(a) == Sum(b)
  {
    SortedUnique(Sort(a), Sort(b));
    SumSort(a);
    SumSort(b);
  }

  /** The lower and upper bound of every value bound n times the sum. */
  lemma {:induction false} SumBounds(s: seq<real>, lo: real, hi: real)
    requires forall i :: 0 <= i < |s| ==> lo <= s[i] <= hi
    ensures |s| as real * lo <= Sum(s) <= |s| as real * hi
  {
    if |s| > 0 {
      SumBounds(s[..|s| - 1], lo, hi);
    }
  }

  /** The middle value of a sorted list, or the mean of the two middle ones. */
  function Median(sorted: seq<real>): (r: real)
    requires |sorted| >= 1
    ensures Sorted(sorted) ==> sorted[(|sorted| - 1) / 2] <= r <= sorted[|sorted| / 2]
    ensures |sorted| % 2 == 1 ==> r in sorted
  {
    var n := |sorted|;
    if n % 2 == 0 then (sorted[n / 2] + sorted[n / 2 - 1]) / 2.0 else sorted[n / 2]
  }

  /** The statistics of a non-empty list of values: the minimum and maximum
      are values of the list and bound all of them; the median and the mean
      lie between them. */
  function MetricStats(values: seq<real>): (st: Stats)
    requires |values| >= 1
    ensures st.min in values && st.max in values
    ensures forall i :: 0 <= i < |values| ==> st.min <= values[i] <= st.max
    ensures st.min <= st.median <= st.max
    ensures st.min <= st.avg <= st.max
  {
    var s := Sort(values);
    BoundsFromSorted(values, s);
    Stats(s[0], s[|s| - 1], Sum(values) / |values| as real, Median(s))
  }

  /** `calculateMetricStats(data, metricPath)` as a value: zeros for a
      missing or empty series, otherwise the bounds of the selected values. */
  function StatsOf(data: Option<seq<Record>>, sel: Selector): (st: Stats)
    requires data.Some? ==> AllNumeric(data.value, sel)
    ensures data.None? || |data.value| == 0 ==> st == ZeroStats
    ensures data.Some? && |data.value| >= 1 ==>
      (exists i :: 0 <= i < |data.value| && st.min == Selected(data.value[i], sel).n)
      && (exists i :: 0 <= i < |data.value| && st.max == Selected(data.value[i], sel).n)
      && (forall i :: 0 <= i < |data.value| ==> st.min <= Selected(data.value[i], sel).n <= st.max)
      && st.min <= st.median <= st.max && st.min <= st.avg <= st.max
  {
    if data.None? || |data.value| == 0 then ZeroStats
    else
      ValuesBound(data.value, sel);
      MetricStats(Values(data.value, sel))
  }

  /** Bounds and members of the values carry over to the selected numbers. */
  lemma ValuesBound(data: seq<Record>, sel: Selector)
    requires |data| >= 1 && AllNumeric(data, sel)
    ensures var st := MetricStats(Values(data, sel));
      (exists i :: 0 <= i < |data| && st.min == Selected(data[i], sel).n)
      && (exists i :: 0 <= i < |data| && st.max == Selected(data[i], sel).n)
      && (forall i :: 0 <= i < |data| ==> st.min <= Selected(data[i], sel).n <= st.max)
  {
    var v := Values(data, sel);
    var st := MetricStats(v);
    var p :| 0 <= p < |v| && v[p] == st.min;
    var q :| 0 <= q < |v| && v[q] == st.max;
    assert Selected(data[p], sel).n == st.min;
    assert Selected(data[q], sel).n == st.max;
    forall i | 0 <= i < |data| ensures st.min <= Selected(data[i], sel).n <= st.max {
      assert v[i] == Selected(data[i], sel).n;
    }
  }

  /** The first and last of the values in sorted order are values of the
      list and bound all of them. */
  lemma SortedExtremes(values: seq<real>, s: seq<real>)
    requires |values| >= 1 && Sorted(s) && multiset(s) == multiset(values)
    ensures |s| == |values| && s[0] in values && s[|s| - 1] in values
    ensures forall i :: 0 <= i < |values| ==> s[0] <= values[i] <= s[|s| - 1]
  {
    assert |s| == |multiset(s)| == |values|;
    assert s[0] in multiset(s) && s[|s| - 1] in multiset(s);
    forall i | 0 <= i < |values| ensures s[0] <= values[i] <= s[|s| - 1] {
      assert values[i] in multiset(values);
      var k :| 0 <= k < |s| && s[k] == values[i];
    }
  }

  lemma MeanBetween(sum: real, n: nat, lo: real, hi: real)
    requires n >= 1 && n as real * lo <= sum <= n as real * hi
    ensures lo <= sum / n as real <= hi
  {
    var nr := n as real;
    assert sum / nr - lo == (sum - nr * lo) / nr;
    assert hi - sum / nr == (nr * hi - sum) / nr;
  }

  lemma BoundsFromSorted(values: seq<real>, s: seq<real>)
    requires |values| >= 1 && Sorted(s) && multiset(s) == multiset(values)
    ensures |s| == |values|
    ensures var st := Stats(s[0], s[|s| - 1], Sum(values) / |values| as real, Median(s));
      st.min in values && st.max in values
      && (forall i :: 0 <= i < |values| ==> st.min <= values[i] <= st.max)
      && st.min <= st.median <= st.max
      && st.min <= st.avg <= st.max
  {
    var n := |values|;
    SortedExtremes(values, s);
    MedianWithin(s);
    MeanWithin(values, s[0], s[n - 1]);
  }

  /** The median of a sorted list lies between its first and last values. */
  lemma MedianWithin(s: seq<real>)
    requires |s| >= 1 && Sorted(s)
    ensures s[0] <= Median(s) <= s[|s| - 1]
  {
    var lo, hi := (|s| - 1) / 2, |s| / 2;
    assert s[0] <= s[lo] && s[hi] <= s[|s| - 1];
  }

  /** Bounds on every value bound the mean. */
  lemma MeanWithin(values: seq<real>, lo: real, hi: real)
    requires |values| >= 1 && forall i :: 0 <= i < |values| ==> lo <= values[i] <= hi
    ensures lo <= Sum(values) / |values| as real <= hi
  {
    SumBounds(values, lo, hi);
    MeanBetween(Sum(values), |values|, lo, hi);
  }

  /** The statistics depend only on which values occur, how often, and not on their order. */
  lemma StatsOrderIndependent(a: seq<real>, b: seq<real>)
    requires |a| >= 1 && multiset(a) == multiset(b)
    ensures |b| >= 1 && MetricStats(a) == MetricStats(b)
  {
    assert |a| == |multiset(a)| == |multiset(b)| == |b|;
    var sa, sb := Sort(a), Sort(b);
    SortedUnique(sa, sb);
    SumPermutation(a, b);
    assert MetricStats(a) == Stats(sa[0], sa[|sa| - 1], Sum(a) / |a| as real, Median(sa));
    assert MetricStats(b) == Stats(sb[0], sb[|sb| - 1], Sum(b) / |b| as real, Median(sb));
  }

  /** The statistics of a series depend only on which records it holds,
      how often, and not on their order. */
  lemma StatsOfPermutation(a: seq<Record>, b: seq<Record>, sel: Selector)
    requires AllNumeric(a, sel) && multiset(a) == multiset(b)
    ensures AllNumeric(b, sel) && StatsOf(Some(a), sel) == StatsOf(Some(b), sel)
  {
    assert |a| == |multiset(a)| == |multiset(b)| == |b|;
    forall i | 0 <= i < |b| ensures Selected(b[i], sel).JNumber? {
      assert b[i] in multiset(a);
      var j :| 0 <= j < |a| && a[j] == b[i];
    }
    ValuesPermutation(a, b, sel);
    if |a| >= 1 {
      StatsOrderIndependent(Values(a, sel), Values(b, sel));
    }
  }

  /** Records that are a permutation of each other select a permutation of values. */
  lemma {:induction false} ValuesPermutation(a: seq<Record>, b: seq<Record>, sel: Selector)
    requires AllNumeric(a, sel) && AllNumeric(b, sel) && multiset(a) == multiset(b)
    ensures multiset(Values(a, sel)) == multiset(Values(b, sel))
  {
    assert |a| == |multiset(a)| == |multiset(b)| == |b|;
    if |a| > 0 {
      var n := |a| - 1;
      assert a[n] in multiset(b);
      var k :| 0 <= k < |b| && b[k] == a[n];
      RemoveOne(a, n);
      RemoveOne(b, k);
      ValuesRemoveOne(a, n, sel);
      ValuesRemoveOne(b, k, sel);
      ValuesPermutation(a[..n] + a[n + 1..], b[..k] + b[k + 1..], sel);
    }
  }

  /** Taking one record out takes its value out of the values. */
  lemma ValuesRemoveOne(data: seq<Record>, k: nat, sel: Selector)
    requires k < |data| && AllNumeric(data, sel)
    ensures AllNumeric(data[..k] + data[k + 1..], sel)
    ensures multiset(Values(data, sel))
      == multiset(Values(data[..k] + data[k + 1..], sel)) + multiset{Selected(data[k], sel).n}
  {
    var lo, x, hi := data[..k], [data[k]], data[k + 1..];
    assert data == lo + (x + hi);
    NumericParts(lo, x + hi, sel);
    NumericParts(x, hi, sel);
    NumericParts(lo, hi, sel);
    var vlo, vx, vhi := Values(lo, sel), Values(x, sel), Values(hi, sel);
    assert vx == [Selected(data[k], sel).n];
    calc {
      multiset(Values(data, sel));
      multiset(vlo + (vx + vhi));
      multiset(vlo + vhi) + multiset(vx);
    }
  }

  /** Taking one element out of a sequence takes one occurrence out of its multiset. */
  lemma RemoveOne<T>(s: seq<T>, k: nat)
    requires k < |s|
    ensures multiset(s[..k] + s[k + 1..]) == multiset(s) - multiset{s[k]}
  {
    assert s == s[..k] + [s[k]] + s[k + 1..];
  }

  /** A concatenation selects numbers exactly when both parts do, and its
      values are the values of the parts in order. */
  lemma NumericParts(p: seq<Record>, q: seq<Record>, sel: Selector)
    ensures AllNumeric(p + q, sel) <==> AllNumeric(p, sel) && AllNumeric(q, sel)
    ensures AllNumeric(p + q, sel) ==> Values(p + q, sel) == Values(p, sel) + Values(q, sel)
  {
    if AllNumeric(p + q, sel) {
      forall i | 0 <= i < |p| ensures Selected(p[i], sel).JNumber? {
        assert p[i] == (p + q)[i];
      }
      forall i | 0 <= i < |q| ensures Selected(q[i], sel).JNumber? {
        assert q[i] == (p + q)[|p| + i];
      }
    }
  }

  /** A record without the metric counts as a 0 and still counts towards
      the number of values the mean divides by. */
  lemma MissingMetricCounts(data: seq<Record>, extra: Record, k: string)
    requires AllNumeric(data, Key(k)) && k !in extra
    ensures AllNumeric(data + [extra], Key(k))
    ensures StatsOf(Some(data + [extra]), Key(k)) == MetricStats(Values(data, Key(k)) + [0.0])
  {
    var all := data + [extra];
    forall i | 0 <= i < |all| ensures Selected(all[i], Key(k)).JNumber? {
      if i < |data| {
        assert all[i] == data[i];
      }
    }
    assert Values(all, Key(k)) == Values(data, Key(k)) + [0.0];
  }

  /** `values.sort` in place, ascending. */
  method SortValues(a: array<real>)
    modifies a
    ensures Sorted(a[..]) && multiset(a[..]) == multiset(old(a[..]))
  {
    for i := 0 to a.Length
      invariant SortedUpTo(a[..], i)
      invariant multiset(a[..]) == multiset(old(a[..]))
    {
      InsertAt(a, i);
    }
    assert SortedUpTo(a[..], a.Length);
  }

  /** The first n values are in ascending order. */
  predicate SortedUpTo(s: seq<real>, n: nat)
  {
    forall p, q :: 0 <= p < q < n && q < |s| ==> s[p] <= s[q]
  }

  /** Moves `a[i]` down into the sorted prefix before it, by adjacent swaps. */
  method InsertAt(a: array<real>, i: nat)
    requires i < a.Length && SortedUpTo(a[..], i)
    modifies a
    ensures SortedUpTo(a[..], i + 1)
    ensures multiset(a[..]) == multiset(old(a[..]))
  {
    var j := i;
    while j > 0 && a[j - 1] > a[j]
      invariant 0 <= j <= i
      invariant multiset(a[..]) == multiset(old(a[..]))
      invariant SortedBut(a[..], i, j)
    {
      ghost var s := a[..];
      a[j - 1], a[j] := a[j], a[j - 1];
      SwapStep(s, a[..], i, j);
      j := j - 1;
    }
    SortedButDone(a[..], i, j);
  }

  /** The first i + 1 values are in order except for the one at j, which
      may be smaller than those before it but not larger than those after. */
  predicate SortedBut(s: seq<real>, i: nat, j: nat)
    requires j <= i < |s|
  {
    (forall p, q :: 0 <= p < q <= i && q != j ==> s[p] <= s[q])
    && (0 < j < i ==> s[j - 1] <= s[j + 1])
  }

  /** Swapping the out-of-place value with its larger left neighbour moves
      the gap one place down and keeps the values. */
  lemma SwapStep(s: seq<real>, t: seq<real>, i: nat, j: nat)
    requires 0 < j <= i < |s| && SortedBut(s, i, j) && s[j - 1] > s[j]
    requires t == s[j - 1 := s[j]][j := s[j - 1]]
    ensures SortedBut(t, i, j - 1) && multiset(t) == multiset(s)
  {
  }

  /** Once the out-of-place value is not below its left neighbour, the
      first i + 1 values are in order. */
  lemma SortedButDone(s: seq<real>, i: nat, j: nat)
    requires j <= i < |s| && SortedBut(s, i, j)
    requires j == 0 || s[j - 1] <= s[j]
    ensures SortedUpTo(s, i + 1)
  {
  }

  /** `data.map(entry => ...)` into a fresh array. */
  method GatherValues(records: seq<Record>, sel: Selector) returns (values: array<real>)
    requires AllNumeric(records, sel)
    ensures fresh(values) && values[..] == Values(records, sel)
  {
    values := new real[|records|];
    for i := 0 to |records|
      invariant values[..i] == Values(records, sel)[..i]
    {
      var v := SelectValue(records[i], sel);
      values[i] := v.n;
    }
    assert values[..] == values[..|records|];
  }

  /** `values.reduce((acc, val) => acc + val, 0)`. */
  method SumValues(values: array<real>) returns (sum: real)
    ensures sum == Sum(values[..])
  {
    sum := 0.0;
    for i := 0 to values.Length
      invariant sum == Sum(values[..i])
    {
      assert values[..i + 1][..i] == values[..i];
      sum := sum + values[i];
    }
    assert values[..values.Length] == values[..];
  }

  /** `calculateMetricStats(data, metricPath)`: the values are gathered
      record by record, sorted in place and summed in a loop. */
  method CalculateMetricStats(data: Option<seq<Record>>, sel: Selector) returns (st: Stats)
    requires data.Some? ==> AllNumeric(data.value, sel)
    ensures st == StatsOf(data, sel)
  {
    if data.None? || |data.value| == 0 {
      return ZeroStats;
    }
    var values := GatherValues(data.value, sel);
    SortValues(values);
    var n := values.Length;
    var sum := SumValues(values);
    var median := if n % 2 == 0 then (values[n / 2] + values[n / 2 - 1]) / 2.0 else values[n / 2];
    st := Stats(values[0], values[n - 1], sum / n as real, median);
    ghost var s := values[..];
    assert |s| == n && s[0] == values[0] && s[|s| - 1] == values[n - 1];
    assert Sum(s) == sum;
    assert Median(s) == median by {
      assert s[n / 2] == values[n / 2];
      if n % 2 == 0 {
        assert s[n / 2 - 1] == values[n / 2 - 1];
      }
    }
    StatsOfSorted(data.value, sel, s);
  }

  /** The statistics of non-empty data, read off any sorted arrangement of its values. */
  lemma StatsOfSorted(data: seq<Record>, sel: Selector, s: seq<real>)
    requires |data| >= 1 && AllNumeric(data, sel)
    requires Sorted(s) && multiset(s) == multiset(Values(data, sel))
    ensures |s| == |data|
    ensures StatsOf(Some(data), sel) == Stats(s[0], s[|s| - 1], Sum(s) / |s| as real, Median(s))
  {
    StatsFromSorted(Values(data, sel), s);
  }

  /** Any sorted arrangement of the values yields the statistics of the values. */
  lemma StatsFromSorted(values: seq<real>, s: seq<real>)
    requires |values| >= 1 && Sorted(s) && multiset(s) == multiset(values)
    ensures |s| == |values|
    ensures MetricStats(values) == Stats(s[0], s[|s| - 1], Sum(s) / |s| as real, Median(s))
  {
    var t := Sort(values);
    SortedUnique(s, t);
    SumSort(values);
    assert |s| == |multiset(s)| == |values|;
    assert MetricStats(values) == Stats(t[0], t[|t| - 1], Sum(values) / |values| as real, Median(t));
  }

  /** Four records with `x` = 4, 1, 3, 2 give min 1, max 4, mean and median 2.5. */
  lemma StatsExample()
    ensures var data := [map["x" := JNumber(4.0)], map["x" := JNumber(1.0)],
                         map["x" := JNumber(3.0)], map["x" := JNumber(2.0)]];
      AllNumeric(data, Key("x")) && StatsOf(Some(data), Key("x")) == Stats(1.0, 4.0, 2.5, 2.5)
  {
    var data := [map["x" := JNumber(4.0)], map["x" := JNumber(1.0)],
                 map["x" := JNumber(3.0)], map["x" := JNumber(2.0)]];
    assert Selected(data[0], Key("x")) == JNumber(4.0);
    assert Selected(data[1], Key("x")) == JNumber(1.0);
    assert Selected(data[2], Key("x")) == JNumber(3.0);
    assert Selected(data[3], Key("x")) == JNumber(2.0);
    assert Values(data, Key("x")) == [4.0, 1.0, 3.0, 2.0];
    assert multiset([4.0, 1.0, 3.0, 2.0]) == multiset([1.0, 2.0, 3.0, 4.0]);
    ExampleStats(Values(data, Key("x")));
  }

  /** Any arrangement of 1, 2, 3 and 4 has min 1, max 4, mean and median 2.5. */
  lemma ExampleStats(v: seq<real>)
    requires multiset(v) == multiset([1.0, 2.0, 3.0, 4.0])
    ensures |v| == 4 && MetricStats(v) == Stats(1.0, 4.0, 2.5, 2.5)
  {
    var sorted := [1.0, 2.0, 3.0, 4.0];
    assert |v| == |multiset(v)| == 4;
    StatsFromSorted(v, sorted);
    SumOfFour(1.0, 2.0, 3.0, 4.0);
    assert Median(sorted) == 2.5;
  }

  lemma SumOfFour(a: real, b: real, c: real, d: real)
    ensures Sum([a, b, c, d]) == a + b + c + d
  {
    assert [a][..0] == [];
    assert Sum([a]) == a;
    assert [a, b][..1] == [a];
    assert Sum([a, b]) == a + b;
    assert [a, b, c][..2] == [a, b];
    assert Sum([a, b, c]) == a + b + c;
    assert [a, b, c, d][..3] == [a, b, c];
  }
}
