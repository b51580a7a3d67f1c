/**
 * The distribution graph of one stock property: the range from the smallest
 * to the largest stored value is cut into equal-width buckets, each bucket
 * counts the values inside it (both ends included), and the counts become
 * the data, scale and size parameters of a chart URL.
 */
module Graph {
  import opened Wrappers
  import opened Text
  import opened Models

  // ---------------------------------------------------------------------
  // the values of a property

  /** `StockPropertyValue.objects.filter(stock_property__id=pid).values_list('value', flat=True)`. */
  function ValuesFor(values: seq<PropertyValue>, pid: nat): (r: seq<real>)
    ensures |r| <= |values|
    ensures forall x :: x in r <==> exists j :: 0 <= j < |values| && values[j].property == pid && values[j].value == x
  {
    if values == [] then []
    else
      var rest := ValuesFor(values[1..], pid);
      assert forall j :: 0 <= j < |values| - 1 ==> values[1..][j] == values[j + 1];
      if values[0].property == pid then [values[0].value] + rest else rest
  }

  /** `min(values)`. */
  function MinOf(s: seq<real>): (r: real)
    requires s != []
    ensures r in s && forall k :: 0 <= k < |s| ==> r <= s[k]
  {
    if |s| == 1 then s[0]
    else
      var m := MinOf(s[1..]);
      assert forall k :: 1 <= k < |s| ==> s[k] == s[1..][k - 1];
      if s[0] <= m then s[0] else m
  }

  /** `max(values)`. */
  function MaxOf(s: seq<real>): (r: real)
    requires s != []
    ensures r in s && forall k :: 0 <= k < |s| ==> s[k] <= r
  {
    if |s| == 1 then s[0]
    else
      var m := MaxOf(s[1..]);
      assert forall k :: 1 <= k < |s| ==> s[k] == s[1..][k - 1];
      if s[0] >= m then s[0] else m
  }

  /** The count query of one bucket: values `v` with `lo <= v <= hi`, both ends included. */
  function CountIn(s: seq<real>, lo: real, hi: real): (r: nat)
    ensures r <= |s|
  {
    if s == [] then 0
    else (if lo <= s[0] <= hi then 1 else 0) + CountIn(s[1..], lo, hi)
  }

  /** A range holding every value counts them all; a range holding none counts nothing. */
  lemma {:induction false} CountInAllOrNone(s: seq<real>, lo: real, hi: real)
    ensures (forall k :: 0 <= k < |s| ==> lo <= s[k] <= hi) ==> CountIn(s, lo, hi) == |s|
    ensures (forall k :: 0 <= k < |s| ==> !(lo <= s[k] <= hi)) ==> CountIn(s, lo, hi) == 0
  {
    if s != [] {
      CountInAllOrNone(s[1..], lo, hi);
      assert forall k :: 0 <= k < |s| - 1 ==> s[1..][k] == s[k + 1];
    }
  }

  /**
   * Two neighbouring ranges sharing the end point `mid` count the values on
   * `mid` twice: their counts add up to the whole range's count plus the
   * count at `mid`.
   */
  lemma {:induction false} CountInShared(s: seq<real>, lo: real, mid: real, hi: real)
    requires lo <= mid <= hi
    ensures CountIn(s, lo, mid) + CountIn(s, mid, hi) == CountIn(s, lo, hi) + CountIn(s, mid, mid)
  {
    if s != [] {
      CountInShared(s[1..], lo, mid, hi);
    }
  }

  // ---------------------------------------------------------------------
  // buckets

  /** `GroupedValue`: a bucket's count and its two ends. */
  datatype GroupedValue = GroupedValue(count: nat, start: real, end: real)

  /** What `create_data` returns: the buckets, and the smallest and largest count (`None` without buckets). */
  datatype GraphData = GraphData(buckets: seq<GroupedValue>, yMin: Option<nat>, yMax: Option<nat>)

  /** The bucket width `(max - min) / x_size`. */
  function Width(s: seq<real>, xSize: int): real
    requires s != [] && xSize != 0
  {
    (MaxOf(s) - MinOf(s)) / (xSize as real)
  }

  /** `k` widths `d` past `lo`. */
  function Point(lo: real, d: real, k: nat): real
  {
    lo + (k as real) * d
  }

  /** Where bucket k starts: the minimum plus k widths. */
  function Start(s: seq<real>, xSize: int, k: nat): real
    requires s != [] && xSize != 0
  {
    Point(MinOf(s), Width(s, xSize), k)
  }

  /** Bucket k: its range and the number of values in it. */
  function BucketAt(s: seq<real>, xSize: int, k: nat): GroupedValue
    requires s != [] && xSize != 0
  {
    GroupedValue(CountIn(s, Start(s, xSize, k), Start(s, xSize, k + 1)), Start(s, xSize, k), Start(s, xSize, k + 1))
  }

  /** The buckets `create_data` builds: `x_size` of them, none when `x_size` is negative. */
  function Buckets(s: seq<real>, xSize: int): (r: seq<GroupedValue>)
    requires s != [] && xSize != 0
    ensures |r| == if xSize > 0 then xSize else 0
  {
    seq(if xSize > 0 then xSize else 0, k requires 0 <= k => BucketAt(s, xSize, k))
  }

  /** One more width moves a point to the next one. */
  lemma NextPoint(lo: real, d: real, k: nat)
    ensures Point(lo, d, k + 1) == Point(lo, d, k) + d
  {
    assert ((k + 1) as real) * d == (k as real) * d + d;
  }

  /** `n` widths of `(hi - lo) / n` lead from `lo` to `hi`. */
  lemma LastPoint(lo: real, hi: real, n: nat)
    requires n > 0
    ensures Point(lo, (hi - lo) / (n as real), n) == hi
  {
  }

  /**
   * The buckets tile the range: the first starts at the minimum, each ends
   * one width after its start, each next one starts where the previous one
   * ended, and the last ends at the maximum.
   */
  lemma BucketsTile(s: seq<real>, xSize: int)
    requires s != [] && xSize > 0
    ensures var b := Buckets(s, xSize);
      && b[0].start == MinOf(s)
      && b[xSize - 1].end == MaxOf(s)
      && (forall k :: 0 <= k < xSize ==> b[k].end == b[k].start + Width(s, xSize))
      && (forall k :: 0 <= k < xSize - 1 ==> b[k].end == b[k + 1].start)
  {
    var b := Buckets(s, xSize);
    forall k | 0 <= k < xSize
      ensures b[k].end == b[k].start + Width(s, xSize)
    {
      NextPoint(MinOf(s), Width(s, xSize), k);
    }
    LastPoint(MinOf(s), MaxOf(s), xSize);
    assert b[xSize - 1] == BucketAt(s, xSize, xSize - 1);
  }

  /** A value between `lo` and `lo + n * d` lies in one of the `n` steps of width `d`. */
  lemma {:induction false} InSomeStep(lo: real, d: real, n: nat, v: real)
    requires n > 0 && d >= 0.0
    requires lo <= v <= Point(lo, d, n)
    ensures exists k :: 0 <= k < n && Point(lo, d, k) <= v <= Point(lo, d, k + 1)
    decreases n
  {
    if n == 1 || v <= Point(lo, d, n - 1) {
      if n == 1 {
        assert Point(lo, d, 0) == lo;
      } else {
        InSomeStep(lo, d, n - 1, v);
      }
    } else {
      assert Point(lo, d, n - 1) <= v;
    }
  }

  /** Every value lies in some bucket, so no value is left uncounted. */
  lemma BucketsCover(s: seq<real>, xSize: int, v: real)
    requires s != [] && xSize > 0 && v in s
    ensures exists k :: 0 <= k < xSize && Start(s, xSize, k) <= v <= Start(s, xSize, k + 1)
  {
    var lo, hi := MinOf(s), MaxOf(s);
    var d := Width(s, xSize);
    LastPoint(lo, hi, xSize);
    var j :| 0 <= j < |s| && s[j] == v;
    assert lo <= v <= hi;
    InSomeStep(lo, d, xSize, v);
    var k :| 0 <= k < xSize && Point(lo, d, k) <= v <= Point(lo, d, k + 1);
    assert Start(s, xSize, k) == Point(lo, d, k) && Start(s, xSize, k + 1) == Point(lo, d, k + 1);
  }

  /** `y` is the smallest bucket count (`None` when there are no buckets). */
  predicate IsMinCount(y: Option<nat>, b: seq<GroupedValue>)
  {
    (b == [] <==> y.None?)
    && (y.Some? ==> (forall k :: 0 <= k < |b| ==> y.value <= b[k].count) && exists k :: 0 <= k < |b| && b[k].count == y.value)
  }

  /** `y` is the largest bucket count (`None` when there are no buckets). */
  predicate IsMaxCount(y: Option<nat>, b: seq<GroupedValue>)
  {
    (b == [] <==> y.None?)
    && (y.Some? ==> (forall k :: 0 <= k < |b| ==> b[k].count <= y.value) && exists k :: 0 <= k < |b| && b[k].count == y.value)
  }

  /**
   * `create_data(x_size, y_size, pid)`: fails on a property without values
   * (`min` of nothing) and on `x_size == 0` (division by zero); otherwise
   * walks the buckets from the minimum, counting each and tracking the
   * smallest and largest count.
   */
  method CreateData(values: seq<PropertyValue>, pid: nat, xSize: int) returns (r: Option<GraphData>)
    ensures r.None? <==> ValuesFor(values, pid) == [] || xSize == 0
    ensures r.Some? ==> r.value.buckets == Buckets(ValuesFor(values, pid), xSize)
    ensures r.Some? ==> IsMinCount(r.value.yMin, r.value.buckets) && IsMaxCount(r.value.yMax, r.value.buckets)
  {
    var s := ValuesFor(values, pid);
    if s == [] || xSize == 0 {
      return None;
    }
    var a := MinOf(s);
    var b := MaxOf(s);
    var diff := (b - a) / (xSize as real);
    assert diff == Width(s, xSize);
    var buckets: seq<GroupedValue> := [];
    var start := a;
    var yMin: Option<nat> := None;
    var yMax: Option<nat> := None;
    ghost var atMin, atMax := 0, 0;
    var i := 0;
    while i < xSize
      invariant 0 <= i <= (if xSize > 0 then xSize else 0)
      invariant start == Start(s, xSize, i)
      invariant |buckets| == i
      invariant forall k :: 0 <= k < i ==> buckets[k] == BucketAt(s, xSize, k)
      invariant i == 0 <==> yMin.None?
      invariant i == 0 <==> yMax.None?
      invariant yMin.Some? ==> 0 <= atMin < i && buckets[atMin].count == yMin.value
      invariant yMax.Some? ==> 0 <= atMax < i && buckets[atMax].count == yMax.value
      invariant yMin.Some? ==> forall k :: 0 <= k < i ==> yMin.value <= buckets[k].count
      invariant yMax.Some? ==> forall k :: 0 <= k < i ==> buckets[k].count <= yMax.value
    {
      var end := start + diff;
      NextPoint(a, diff, i);
      assert end == Start(s, xSize, i + 1);
      var count := CountIn(s, start, end);
      if yMin.None? || count < yMin.value {
        yMin, atMin := Some(count), i;
      }
      if yMax.None? || count > yMax.value {
        yMax, atMax := Some(count), i;
      }
      buckets := buckets + [GroupedValue(count, start, end)];
      start := end;
      i := i + 1;
    }
    assert |buckets| == if xSize > 0 then xSize else 0;
    assert buckets == Buckets(s, xSize);
    r := Some(GraphData(buckets, yMin, yMax));
  }

  /** A value appended to the table is appended to the property's values when it is one of them. */
  lemma {:induction false} ValuesForSnoc(values: seq<PropertyValue>, v: PropertyValue, pid: nat)
    ensures ValuesFor(values + [v], pid) == ValuesFor(values, pid) + (if v.property == pid then [v.value] else [])
  {
    if values == [] {
      assert values + [v] == [v];
    } else {
      assert (values + [v])[1..] == values[1..] + [v];
      ValuesForSnoc(values[1..], v, pid);
    }
  }

  /** A bucket's count is the number of stored values of the property inside its range. */
  lemma {:induction false} ValuesForCount(values: seq<PropertyValue>, pid: nat, lo: real, hi: real)
    ensures CountIn(ValuesFor(values, pid), lo, hi)
         == |set j | 0 <= j < |values| && values[j].property == pid && lo <= values[j].value <= hi|
  {
    if values != [] {
      var n := |values| - 1;
      var init, last := values[..n], values[n];
      assert values == init + [last];
      ValuesForCount(init, pid, lo, hi);
      ValuesForSnoc(init, last, pid);
      var extra := if last.property == pid then [last.value] else [];
      CountInAppend(ValuesFor(init, pid), extra, lo, hi);
      MatchingSnoc(values, pid, lo, hi);
    }
  }

  /** The rows in range grow by the last row exactly when it is one of them. */
  lemma MatchingSnoc(values: seq<PropertyValue>, pid: nat, lo: real, hi: real)
    requires values != []
    ensures var n := |values| - 1;
      |set j | 0 <= j < |values| && values[j].property == pid && lo <= values[j].value <= hi|
      == |set j | 0 <= j < n && values[..n][j].property == pid && lo <= values[..n][j].value <= hi|
         + (if values[n].property == pid && lo <= values[n].value <= hi then 1 else 0)
  {
    var n := |values| - 1;
    var init := values[..n];
    var before := set j | 0 <= j < n && init[j].property == pid && lo <= init[j].value <= hi;
    var after := set j | 0 <= j < |values| && values[j].property == pid && lo <= values[j].value <= hi;
    if values[n].property == pid && lo <= values[n].value <= hi {
      assert after == before + {n};
    } else {
      assert after == before;
    }
  }

  // ---------------------------------------------------------------------
  // the example of the tests: ten values 0, 1000, ..., 9000

  /** Counting a concatenation counts both parts. */
  lemma {:induction false} CountInAppend(x: seq<real>, y: seq<real>, lo: real, hi: real)
    ensures CountIn(x + y, lo, hi) == CountIn(x, lo, hi) + CountIn(y, lo, hi)
  {
    if x != [] {
      CountInAppend(x[1..], y, lo, hi);
      assert (x + y)[1..] == x[1..] + y;
    } else {
      assert x + y == y;
    }
  }

  /** The ten values 0, 1000, ..., 9000 in ascending order. */
  predicate Thousands(s: seq<real>)
  {
    |s| == 10 && forall k :: 0 <= k < 10 ==> s[k] == (k * 1000) as real
  }

  lemma ThousandsRange(s: seq<real>)
    requires Thousands(s)
    ensures MinOf(s) == 0.0 && MaxOf(s) == 9000.0
  {
    var lo, hi := MinOf(s), MaxOf(s);
    assert forall k :: 0 <= k < 10 ==> 0.0 <= s[k] <= 9000.0;
    assert lo <= s[0] && s[9] <= hi;
  }

  /** One bucket holds all ten values. */
  lemma OneBucket(s: seq<real>)
    requires Thousands(s)
    ensures Buckets(s, 1) == [GroupedValue(10, 0.0, 9000.0)]
  {
    ThousandsRange(s);
    assert forall k :: 0 <= k < 10 ==> 0.0 <= s[k] <= 9000.0;
    CountInAllOrNone(s, 0.0, 9000.0);
    LastPoint(0.0, 9000.0, 1);
  }

  /** Two buckets hold five values each. */
  lemma TwoBuckets(s: seq<real>)
    requires Thousands(s)
    ensures Buckets(s, 2) == [GroupedValue(5, 0.0, 4500.0), GroupedValue(5, 4500.0, 9000.0)]
  {
    ThousandsRange(s);
    assert Width(s, 2) == 4500.0;
    assert Start(s, 2, 1) == 4500.0 && Start(s, 2, 2) == 9000.0;
    HalfCount(s, 0.0, 4500.0, true);
    HalfCount(s, 4500.0, 9000.0, false);
  }

  /** The lower half of the ten values is 0 to 4000, the upper half 5000 to 9000. */
  lemma HalfCount(s: seq<real>, lo: real, hi: real, lower: bool)
    requires Thousands(s)
    requires lower ==> lo == 0.0 && hi == 4500.0
    requires !lower ==> lo == 4500.0 && hi == 9000.0
    ensures CountIn(s, lo, hi) == 5
  {
    var low, high := s[..5], s[5..];
    assert s == low + high;
    CountInAppend(low, high, lo, hi);
    CountInAllOrNone(low, lo, hi);
    CountInAllOrNone(high, lo, hi);
  }

  /** Ten buckets hold one value each. */
  lemma TenBuckets(s: seq<real>)
    requires Thousands(s)
    ensures forall k :: 0 <= k < 10 ==> Buckets(s, 10)[k].count == 1
  {
    ThousandsRange(s);
    assert Width(s, 10) == 900.0;
    forall k | 0 <= k < 10
      ensures Buckets(s, 10)[k].count == 1
    {
      OneInTenth(s, k);
    }
  }

  lemma OneInTenth(s: seq<real>, k: nat)
    requires Thousands(s) && k < 10
    ensures CountIn(s, 0.0 + (k as real) * 900.0, 0.0 + ((k + 1) as real) * 900.0) == 1
  {
    var lo, hi := 0.0 + (k as real) * 900.0, 0.0 + ((k + 1) as real) * 900.0;
    var before, at, after := s[..k], [s[k]], s[k + 1..];
    assert s == before + at + after;
    CountInAppend(before + at, after, lo, hi);
    CountInAppend(before, at, lo, hi);
    CountInAllOrNone(before, lo, hi);
    CountInAllOrNone(after, lo, hi);
  }

  /** Moving the first value to the end changes no count. */
  lemma CountInRotate(s: seq<real>, lo: real, hi: real)
    requires s != []
    ensures CountIn(s[1..] + [s[0]], lo, hi) == CountIn(s, lo, hi)
  {
    CountInAppend(s[1..], [s[0]], lo, hi);
  }

  /** Sequences holding the same values have the same minimum and maximum. */
  lemma SameBounds(s: seq<real>, t: seq<real>)
    requires s != [] && t != []
    requires forall x :: x in s <==> x in t
    ensures MinOf(s) == MinOf(t) && MaxOf(s) == MaxOf(t)
  {
    var i :| 0 <= i < |t| && t[i] == MinOf(s);
    var j :| 0 <= j < |s| && s[j] == MinOf(t);
    var p :| 0 <= p < |t| && t[p] == MaxOf(s);
    var q :| 0 <= q < |s| && s[q] == MaxOf(t);
  }

  /** A rotation holds the same values. */
  lemma RotateSameValues(s: seq<real>)
    requires s != []
    ensures forall x :: x in s <==> x in s[1..] + [s[0]]
  {
    assert s == [s[0]] + s[1..];
  }

  lemma SameStarts(s: seq<real>, t: seq<real>, xSize: int, k: nat)
    requires s != [] && t != [] && xSize != 0
    requires MinOf(s) == MinOf(t) && MaxOf(s) == MaxOf(t)
    ensures Start(s, xSize, k) == Start(t, xSize, k)
  {
    assert Width(s, xSize) == Width(t, xSize);
  }

  lemma BucketAtRotate(s: seq<real>, xSize: int, k: nat)
    requires s != [] && xSize != 0
    ensures BucketAt(s[1..] + [s[0]], xSize, k) == BucketAt(s, xSize, k)
  {
    var t := s[1..] + [s[0]];
    RotateSameValues(s);
    SameBounds(s, t);
    SameStarts(s, t, xSize, k);
    SameStarts(s, t, xSize, k + 1);
    CountInRotate(s, Start(s, xSize, k), Start(s, xSize, k + 1));
  }

  /** The buckets do not depend on the order of the values: a rotation leaves them alone. */
  lemma BucketsRotate(s: seq<real>, xSize: int)
    requires s != [] && xSize != 0
    ensures Buckets(s[1..] + [s[0]], xSize) == Buckets(s, xSize)
  {
    var t := s[1..] + [s[0]];
    forall k | 0 <= k < |Buckets(s, xSize)|
      ensures Buckets(t, xSize)[k] == Buckets(s, xSize)[k]
    {
      BucketAtRotate(s, xSize, k);
    }
  }

  /**
   * The values in the order the tests store them (1000, ..., 9000, then 0):
   * one bucket holds all ten, two buckets five each, ten buckets one each.
   */
  lemma SavedOrder(t: seq<real>)
    requires |t| == 10 && t[9] == 0.0
    requires forall k :: 0 <= k < 9 ==> t[k] == ((k + 1) * 1000) as real
    ensures Buckets(t, 1) == [GroupedValue(10, 0.0, 9000.0)]
    ensures Buckets(t, 2) == [GroupedValue(5, 0.0, 4500.0), GroupedValue(5, 4500.0, 9000.0)]
    ensures forall k :: 0 <= k < 10 ==> Buckets(t, 10)[k].count == 1
  {
    var s := [t[9]] + t[..9];
    assert Thousands(s) by {
      forall k | 0 <= k < 10 ensures s[k] == (k * 1000) as real {
        if k > 0 { assert s[k] == t[k - 1]; }
      }
    }
    assert s[1..] + [s[0]] == t;
    BucketsRotate(s, 1);
    BucketsRotate(s, 2);
    BucketsRotate(s, 10);
    OneBucket(s);
    TwoBuckets(s);
    TenBuckets(s);
  }

  // ---------------------------------------------------------------------
  // chart parameters

  /** The parameters of the chart URL modelled here: size, data and data scale. */
  datatype ChartParams = ChartParams(chs: string, chd: string, chds: string)

  /** `str(d.number_of_companies)` for each bucket, in bucket order. */
  function CountTexts(data: seq<GroupedValue>): (r: seq<string>)
    ensures |r| == |data|
  {
    seq(|data|, k requires 0 <= k < |data| => NatToString(data[k].count))
  }

  /**
   * `create_graph_url`'s parameters: `chs` is `<x_size>x<y_size>`, `chd` is
   * `t:` and the comma-joined counts, `chds` is `y_min,y_max`. Without
   * buckets the call fails (`min` of nothing).
   */
  function GraphParams(data: seq<GroupedValue>, yMin: nat, yMax: nat, xSize: int, ySize: int): Option<ChartParams>
  {
    if data == [] then None
    else Some(ChartParams(IntToString(xSize) + "x" + IntToString(ySize),
                          "t:" + JoinCommas(CountTexts(data)),
                          NatToString(yMin) + "," + NatToString(yMax)))
  }

  /** Reading comma-separated counts back: each piece must be a non-empty run of digits. */
  function ParseCounts(t: string): Option<seq<nat>>
  {
    var pieces := SplitCommas(t);
    if forall k :: 0 <= k < |pieces| ==> pieces[k] != [] && AllDigits(pieces[k]) then
      Some(seq(|pieces|, k requires 0 <= k < |pieces| && AllDigits(pieces[k]) => DigitsValue(pieces[k])))
    else None
  }

  function Counts(data: seq<GroupedValue>): (r: seq<nat>)
    ensures |r| == |data|
  {
    seq(|data|, k requires 0 <= k < |data| => data[k].count)
  }

  lemma NatTextsRoundTrip(texts: seq<string>, ns: seq<nat>)
    requires |texts| == |ns| >= 1
    requires forall k :: 0 <= k < |ns| ==> texts[k] == NatToString(ns[k])
    ensures ParseCounts(JoinCommas(texts)) == Some(ns)
  {
    forall k | 0 <= k < |ns| ensures ',' !in texts[k] && DigitsValue(texts[k]) == ns[k] {
      NatToStringRoundTrip(ns[k]);
      assert forall j :: 0 <= j < |texts[k]| ==> texts[k][j] != ',';
    }
    SplitJoin(texts);
    var pieces := SplitCommas(JoinCommas(texts));
    assert forall k :: 0 <= k < |pieces| ==> pieces[k] != [] && AllDigits(pieces[k]);
    assert seq(|pieces|, k requires 0 <= k < |pieces| && AllDigits(pieces[k]) => DigitsValue(pieces[k])) == ns;
  }

  /** The `chd` data string gives back every bucket count, in bucket order; `chds` gives back the scale. */
  lemma ChartDataRoundTrip(data: seq<GroupedValue>, yMin: nat, yMax: nat, xSize: int, ySize: int)
    requires data != []
    ensures var p := GraphParams(data, yMin, yMax, xSize, ySize).value;
      && p.chd[..2] == "t:"
      && ParseCounts(p.chd[2..]) == Some(Counts(data))
      && ParseCounts(p.chds) == Some([yMin, yMax])
  {
    var p := GraphParams(data, yMin, yMax, xSize, ySize).value;
    NatTextsRoundTrip(CountTexts(data), Counts(data));
    assert p.chd[2..] == JoinCommas(CountTexts(data));
    NatTextsRoundTrip([NatToString(yMin), NatToString(yMax)], [yMin, yMax]);
    assert JoinCommas([NatToString(yMin), NatToString(yMax)]) == p.chds;
  }

  lemma NatTexts()
    ensures NatToString(0) == "0" && NatToString(4) == "4" && NatToString(5) == "5"
    ensures NatToString(10) == "10" && NatToString(75) == "75" && NatToString(220) == "220"
  {
  }

  /** The counts of the test's chart, comma-joined. */
  lemma ChartCountsText(data: seq<GroupedValue>)
    requires |data| == 5
    requires data[0].count == 10 && data[1].count == 5 && data[2].count == 0 && data[3].count == 4 && data[4].count == 10
    ensures JoinCommas(CountTexts(data)) == "10,5,0,4,10"
  {
    NatTexts();
    var texts := CountTexts(data);
    assert texts == ["10", "5", "0", "4", "10"];
    var tail := texts[1..];
    assert JoinCommas(tail[3..]) == "10";
    assert JoinCommas(tail[2..]) == "4,10";
    assert JoinCommas(tail[1..]) == "0,4,10";
    assert JoinCommas(tail) == "5,0,4,10";
  }

  /** The chart of the test: counts 10, 5, 0, 4, 10 on a 220 by 75 chart scaled 0 to 10. */
  lemma ChartExample()
    ensures var data := [GroupedValue(10, 0.0, 1.0), GroupedValue(5, 1.0, 2.0), GroupedValue(0, 2.0, 3.0),
                         GroupedValue(4, 3.0, 4.0), GroupedValue(10, 4.0, 5.0)];
      GraphParams(data, 0, 10, 220, 75) == Some(ChartParams("220x75", "t:10,5,0,4,10", "0,10"))
  {
    var data := [GroupedValue(10, 0.0, 1.0), GroupedValue(5, 1.0, 2.0), GroupedValue(0, 2.0, 3.0),
                 GroupedValue(4, 3.0, 4.0), GroupedValue(10, 4.0, 5.0)];
    ChartCountsText(data);
    NatTexts();
    assert IntToString(220) == "220" && IntToString(75) == "75";
    assert "220" + "x" + "75" == "220x75";
    assert "t:" + "10,5,0,4,10" == "t:10,5,0,4,10";
    assert "0" + "," + "10" == "0,10";
  }
}
