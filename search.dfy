/**
 * The criteria search: what the search query means over the tables. Every
 * company is joined with its values (a company without values gives one
 * row of nulls); a row counts for its company when it satisfies one of the
 * min/max criteria (any row counts when there are none); companies passing
 * the sector and exchange filters whose count reaches the number of
 * criteria are listed, fewest matches first, at most 25. `Query` then
 * builds, for each listed company, its values under the requested headers.
 */
module Search {
  import opened Wrappers
  import opened Text
  import opened Models

  // ---------------------------------------------------------------------
  // criteria on joined rows

  /** `MinMaxCriteria`: a property id and optional inclusive bounds. */
  datatype Criterion = Criterion(prop: nat, min: Option<real>, max: Option<real>)

  /** A row of the company/value/property join: the property id and the value, null when absent. */
  datatype Row = Row(prop: Option<nat>, value: Option<real>)

  /**
   * `to_sql` as a predicate: `p.id = prop`, and `v.value >= min` /
   * `v.value <= max` for the bounds present. A comparison with null is
   * not true, so a null row matches no criterion.
   */
  predicate RowMatches(c: Criterion, r: Row)
  {
    r.prop == Some(c.prop)
    && (c.min.Some? ==> r.value.Some? && r.value.value >= c.min.value)
    && (c.max.Some? ==> r.value.Some? && r.value.value <= c.max.value)
  }

  /** Without bounds a criterion only asks for the property; each bound adds its inequality. */
  lemma CriterionBounds(c: Criterion, v: real, p: nat)
    ensures RowMatches(Criterion(c.prop, None, None), Row(Some(p), Some(v))) <==> p == c.prop
    ensures RowMatches(Criterion(c.prop, c.min, None), Row(Some(c.prop), Some(v))) <==>
            (c.min.None? || v >= c.min.value)
    ensures RowMatches(Criterion(c.prop, None, c.max), Row(Some(c.prop), Some(v))) <==>
            (c.max.None? || v <= c.max.value)
    ensures !RowMatches(c, Row(None, None))
  {
  }

  /** The criteria OR-ed together. */
  predicate AnyMatch(criteria: seq<Criterion>, r: Row)
  {
    exists i :: 0 <= i < |criteria| && RowMatches(criteria[i], r)
  }

  /** The `where` clause: `1` (always) for no criteria, the disjunction otherwise. */
  predicate Counted(criteria: seq<Criterion>, r: Row)
  {
    |criteria| == 0 || AnyMatch(criteria, r)
  }

  /** `count(*)` for one company: how many of its rows pass the `where` clause. */
  function Tally(criteria: seq<Criterion>, rows: seq<Row>): (n: nat)
    ensures n <= |rows|
  {
    if rows == [] then 0
    else Tally(criteria, rows[..|rows| - 1]) + (if Counted(criteria, rows[|rows| - 1]) then 1 else 0)
  }

  // ---------------------------------------------------------------------
  // the join

  /** The first property with an id (`StockProperty.objects.get(id=...)`). */
  function PropertyById(properties: seq<StockProperty>, id: nat): (r: Option<StockProperty>)
    ensures r.Some? ==> r.value in properties && r.value.id == id
    ensures r.None? ==> forall i :: 0 <= i < |properties| ==> properties[i].id != id
  {
    if properties == [] then None
    else if properties[0].id == id then Some(properties[0])
    else PropertyById(properties[1..], id)
  }

  /** The values of a company in table order (`StockPropertyValue.objects.filter(symbol=...)`). */
  function ValuesOf(values: seq<PropertyValue>, company: nat): (r: seq<PropertyValue>)
    ensures forall x :: x in r ==> x in values && x.company == company
    ensures forall x :: x in values && x.company == company ==> x in r
  {
    if values == [] then []
    else
      var n := |values| - 1;
      var r := ValuesOf(values[..n], company);
      assert forall x :: x in values ==> x in values[..n] || x == values[n] by {
        assert values == values[..n] + [values[n]];
      }
      if values[n].company == company then r + [values[n]] else r
  }

  /** Each value of the company occurs as often as in the table, any other value not at all. */
  lemma {:induction false} ValuesOfMultiset(values: seq<PropertyValue>, company: nat)
    ensures forall x :: multiset(ValuesOf(values, company))[x] == if x.company == company then multiset(values)[x] else 0
  {
    if values != [] {
      var n := |values| - 1;
      ValuesOfMultiset(values[..n], company);
      assert values == values[..n] + [values[n]];
    }
  }

  /** A value's row: its property id when that property exists (the join finds it), null otherwise. */
  function JoinRow(properties: seq<StockProperty>, v: PropertyValue): Row
  {
    Row(if PropertyById(properties, v.property).Some? then Some(v.property) else None, Some(v.value))
  }

  /** The joined rows of one company; a single null row when it has no values (the outer join). */
  function RowsOf(properties: seq<StockProperty>, values: seq<PropertyValue>, company: nat): (r: seq<Row>)
    ensures |r| >= 1
  {
    var vs := ValuesOf(values, company);
    if vs == [] then [Row(None, None)]
    else seq(|vs|, i requires 0 <= i < |vs| => JoinRow(properties, vs[i]))
  }

  // ---------------------------------------------------------------------
  // the filters

  /**
   * `build_sector_criteria`: `Some(None)` adds nothing (no sector, or a
   * blank one); `Some(Some(n))` asks for `sector_id = n`; `None` is text
   * that is no number, which makes the query fail.
   */
  function SectorFilter(sector: Option<string>): (r: Option<Option<real>>)
    ensures sector.None? ==> r == Some(None)
  {
    if sector.None? || Strip(sector.value) == "" then Some(None)
    else match ParseDecimal(sector.value)
      case None => None
      case Some(d) => Some(Some(d))
  }

  /** `build_exchange_criteria`: nothing for no or a blank exchange, equality with the text otherwise. */
  function ExchangeFilter(exchange: Option<string>): (r: Option<string>)
    ensures exchange.None? ==> r.None?
  {
    if exchange.None? || Strip(exchange.value) == "" then None else exchange
  }

  /** Blank text (whitespace only) adds no constraint; other text constrains by equality. */
  lemma FiltersOnlyWhenNotBlank(text: string)
    ensures AllSpace(text) ==> SectorFilter(Some(text)) == Some(None) && ExchangeFilter(Some(text)) == None
    ensures !AllSpace(text) ==> ExchangeFilter(Some(text)) == Some(text)
    ensures !AllSpace(text) && ParseDecimal(text).Some? ==> SectorFilter(Some(text)) == Some(Some(ParseDecimal(text).value))
  {
    StripBlank(text);
  }

  predicate PassesFilters(c: Company, sector: Option<real>, exchange: Option<string>)
  {
    (sector.None? || c.sectorId as real == sector.value)
    && (exchange.None? || c.exchange == exchange.value)
  }

  // ---------------------------------------------------------------------
  // which companies, in which order

  /**
   * A company is listed when it passes the filters, some row of it is
   * counted (`group by` only yields companies with rows) and the count
   * reaches the number of criteria.
   */
  predicate Qualifies(properties: seq<StockProperty>, values: seq<PropertyValue>, criteria: seq<Criterion>,
                      sector: Option<real>, exchange: Option<string>, c: Company)
  {
    var n := Tally(criteria, RowsOf(properties, values, c.id));
    PassesFilters(c, sector, exchange) && n > 0 && n >= |criteria|
  }

  /** The listed companies with their counts, in company-table order. */
  function Tallies(properties: seq<StockProperty>, values: seq<PropertyValue>, criteria: seq<Criterion>,
                   sector: Option<real>, exchange: Option<string>, companies: seq<Company>): seq<(nat, nat)>
  {
    if companies == [] then []
    else
      var n := |companies| - 1;
      var c := companies[n];
      var r := Tallies(properties, values, criteria, sector, exchange, companies[..n]);
      if Qualifies(properties, values, criteria, sector, exchange, c)
      then r + [(c.id, Tally(criteria, RowsOf(properties, values, c.id)))]
      else r
  }

  /** The company at position `j` qualifies, and `x` is its id with its count. */
  predicate ListedAt(properties: seq<StockProperty>, values: seq<PropertyValue>, criteria: seq<Criterion>,
                     sector: Option<real>, exchange: Option<string>, companies: seq<Company>, j: int, x: (nat, nat))
  {
    0 <= j < |companies| && companies[j].id == x.0
    && Qualifies(properties, values, criteria, sector, exchange, companies[j])
    && x.1 == Tally(criteria, RowsOf(properties, values, companies[j].id))
  }

  /** Some company of the table qualifies and `x` is its id with its count. */
  predicate Listed(properties: seq<StockProperty>, values: seq<PropertyValue>, criteria: seq<Criterion>,
                   sector: Option<real>, exchange: Option<string>, companies: seq<Company>, x: (nat, nat))
  {
    exists j :: 0 <= j < |companies| && ListedAt(properties, values, criteria, sector, exchange, companies, j, x)
  }

  /** Every entry is a qualifying company with its count, and every qualifying company is listed. */
  lemma {:induction false} TalliesSpec(properties: seq<StockProperty>, values: seq<PropertyValue>, criteria: seq<Criterion>,
                                       sector: Option<real>, exchange: Option<string>, companies: seq<Company>)
    ensures forall k :: 0 <= k < |Tallies(properties, values, criteria, sector, exchange, companies)| ==>
      Listed(properties, values, criteria, sector, exchange, companies,
             Tallies(properties, values, criteria, sector, exchange, companies)[k])
    ensures forall j :: 0 <= j < |companies| && Qualifies(properties, values, criteria, sector, exchange, companies[j]) ==>
      (companies[j].id, Tally(criteria, RowsOf(properties, values, companies[j].id)))
        in Tallies(properties, values, criteria, sector, exchange, companies)
  {
    if companies != [] {
      var n := |companies| - 1;
      var front := companies[..n];
      var c := companies[n];
      var r0 := Tallies(properties, values, criteria, sector, exchange, front);
      var r := Tallies(properties, values, criteria, sector, exchange, companies);
      TalliesSpec(properties, values, criteria, sector, exchange, front);
      assert r[..|r0|] == r0;
      forall k | 0 <= k < |r|
        ensures Listed(properties, values, criteria, sector, exchange, companies, r[k])
      {
        if k < |r0| {
          assert r[k] == r0[k];
          assert Listed(properties, values, criteria, sector, exchange, front, r0[k]);
          var j :| 0 <= j < |front| && ListedAt(properties, values, criteria, sector, exchange, front, j, r0[k]);
          assert front[j] == companies[j];
          assert ListedAt(properties, values, criteria, sector, exchange, companies, j, r[k]);
        } else {
          assert ListedAt(properties, values, criteria, sector, exchange, companies, n, r[k]);
        }
      }
      forall j | 0 <= j < |companies| && Qualifies(properties, values, criteria, sector, exchange, companies[j])
        ensures (companies[j].id, Tally(criteria, RowsOf(properties, values, companies[j].id))) in r
      {
        if j < n {
          assert front[j] == companies[j];
          assert (front[j].id, Tally(criteria, RowsOf(properties, values, front[j].id))) in r0;
        } else {
          assert r == r0 + [(c.id, Tally(criteria, RowsOf(properties, values, c.id)))];
        }
      }
    }
  }

  predicate SortedByCount(s: seq<(nat, nat)>) {
    forall i, j :: 0 <= i < j < |s| ==> s[i].1 <= s[j].1
  }

  /** Puts `x` before the first entry with a count at least its own. */
  function Insert(x: (nat, nat), s: seq<(nat, nat)>): seq<(nat, nat)>
  {
    if s == [] then [x]
    else if x.1 <= s[0].1 then [x] + s
    else [s[0]] + Insert(x, s[1..])
  }

  /** `order by number`: ascending counts, equal counts in company-table order. */
  function SortByCount(s: seq<(nat, nat)>): seq<(nat, nat)>
  {
    if s == [] then [] else Insert(s[0], SortByCount(s[1..]))
  }

  /** Insertion adds exactly the one entry. */
  lemma {:induction false} InsertMultiset(x: (nat, nat), s: seq<(nat, nat)>)
    ensures multiset(Insert(x, s)) == multiset(s) + multiset{x}
  {
    if s != [] && x.1 > s[0].1 {
      InsertMultiset(x, s[1..]);
      var t := Insert(x, s[1..]);
      assert Insert(x, s) == [s[0]] + t;
      assert multiset([s[0]] + t) == multiset([s[0]]) + multiset(t);
      assert s == [s[0]] + s[1..];
      assert multiset(s) == multiset([s[0]]) + multiset(s[1..]);
    } else if s != [] {
      assert multiset([x] + s) == multiset([x]) + multiset(s);
    }
  }

  /** Inserting an entry at or above a bound into entries at or above it keeps them all there. */
  lemma {:induction false} InsertAbove(x: (nat, nat), s: seq<(nat, nat)>, b: nat)
    requires x.1 >= b && forall k :: 0 <= k < |s| ==> s[k].1 >= b
    ensures forall k :: 0 <= k < |Insert(x, s)| ==> Insert(x, s)[k].1 >= b
  {
    if s != [] && x.1 > s[0].1 {
      InsertAbove(x, s[1..], b);
    }
  }

  /** An entry no larger than every entry of a sorted list can go in front. */
  lemma ConsSorted(a: (nat, nat), t: seq<(nat, nat)>)
    requires SortedByCount(t)
    requires forall k :: 0 <= k < |t| ==> a.1 <= t[k].1
    ensures SortedByCount([a] + t)
  {
    var u := [a] + t;
    forall i, j | 0 <= i < j < |u| ensures u[i].1 <= u[j].1 {
      assert u[j] == t[j - 1];
      if i > 0 {
        assert u[i] == t[i - 1];
      }
    }
  }

  lemma {:induction false} InsertSorted(x: (nat, nat), s: seq<(nat, nat)>)
    requires SortedByCount(s)
    ensures SortedByCount(Insert(x, s))
    ensures multiset(Insert(x, s)) == multiset(s) + multiset{x}
  {
    InsertMultiset(x, s);
    if s == [] {
    } else if x.1 <= s[0].1 {
      ConsSorted(x, s);
    } else {
      var rest := s[1..];
      assert SortedByCount(rest) by {
        forall i, j | 0 <= i < j < |rest| ensures rest[i].1 <= rest[j].1 {
          assert rest[i] == s[i + 1] && rest[j] == s[j + 1];
        }
      }
      InsertSorted(x, rest);
      assert forall k :: 0 <= k < |rest| ==> rest[k].1 >= s[0].1 by {
        forall k | 0 <= k < |rest| ensures rest[k].1 >= s[0].1 {
          assert rest[k] == s[k + 1];
        }
      }
      InsertAbove(x, rest, s[0].1);
      ConsSorted(s[0], Insert(x, rest));
    }
  }

  /** The order is by count and loses or adds no company. */
  lemma {:induction false} SortByCountSpec(s: seq<(nat, nat)>)
    ensures SortedByCount(SortByCount(s))
    ensures multiset(SortByCount(s)) == multiset(s)
  {
    if s != [] {
      SortByCountSpec(s[1..]);
      InsertSorted(s[0], SortByCount(s[1..]));
      assert s == [s[0]] + s[1..];
    }
  }

  /** `limit 25`. */
  const LIMIT: nat := 25

  /** `order by number limit 25`. */
  function Ranked(all: seq<(nat, nat)>): seq<(nat, nat)>
  {
    var sorted := SortByCount(all);
    if |sorted| <= LIMIT then sorted else sorted[..LIMIT]
  }

  /**
   * The ranking keeps at most 25 entries, counts ascending, each one taken
   * from the input; it keeps them all when there are at most 25; and no
   * entry left out has a smaller count than one kept.
   */
  lemma RankedSpec(all: seq<(nat, nat)>)
    ensures |Ranked(all)| <= LIMIT
    ensures |Ranked(all)| == if |all| <= LIMIT then |all| else LIMIT
    ensures multiset(Ranked(all)) <= multiset(all)
    ensures SortedByCount(Ranked(all))
    ensures forall k :: 0 <= k < |Ranked(all)| ==> Ranked(all)[k] in all
    ensures |all| <= LIMIT ==> multiset(Ranked(all)) == multiset(all)
    ensures forall x, k :: x in all && x !in Ranked(all) && 0 <= k < |Ranked(all)| ==> Ranked(all)[k].1 <= x.1
  {
    var sorted := SortByCount(all);
    SortByCountSpec(all);
    var ids := Ranked(all);
    assert ids == sorted[..|ids|];
    RankedFromInput(all);
    RankedDropsLarger(all);
    assert |sorted| == |all| by {
      assert |multiset(sorted)| == |multiset(all)|;
    }
    assert sorted == ids + sorted[|ids|..];
    assert multiset(sorted) == multiset(ids) + multiset(sorted[|ids|..]);
  }

  /** Every ranked entry is one of the input's. */
  lemma RankedFromInput(all: seq<(nat, nat)>)
    ensures forall k :: 0 <= k < |Ranked(all)| ==> Ranked(all)[k] in all
  {
    var sorted := SortByCount(all);
    SortByCountSpec(all);
    var ids := Ranked(all);
    forall k | 0 <= k < |ids| ensures ids[k] in all {
      assert ids[k] == sorted[k];
      assert sorted[k] in multiset(sorted);
    }
  }

  /** An input entry cut by the limit has a count no smaller than any kept one. */
  lemma RankedDropsLarger(all: seq<(nat, nat)>)
    ensures forall x, k :: x in all && x !in Ranked(all) && 0 <= k < |Ranked(all)| ==> Ranked(all)[k].1 <= x.1
  {
    var sorted := SortByCount(all);
    SortByCountSpec(all);
    var ids := Ranked(all);
    forall x, k | x in all && x !in ids && 0 <= k < |ids| ensures ids[k].1 <= x.1 {
      assert x in multiset(sorted);
      var m :| 0 <= m < |sorted| && sorted[m] == x;
      assert forall i :: 0 <= i < |ids| ==> ids[i] == sorted[i];
    }
  }

  /**
   * The ids the search query yields: `None` when the sector text makes it
   * fail; otherwise the listed companies, fewest matches first, at most 25.
   */
  function SearchIds(properties: seq<StockProperty>, values: seq<PropertyValue>, companies: seq<Company>,
                     criteria: seq<Criterion>, sector: Option<string>, exchange: Option<string>): Option<seq<(nat, nat)>>
  {
    match SectorFilter(sector)
    case None => None
    case Some(sf) => Some(Ranked(Tallies(properties, values, criteria, sf, ExchangeFilter(exchange), companies)))
  }

  /** The query never lists more than 25 companies. */
  lemma SearchIdsBound(properties: seq<StockProperty>, values: seq<PropertyValue>, companies: seq<Company>,
                       criteria: seq<Criterion>, sector: Option<string>, exchange: Option<string>)
    ensures var ids := SearchIds(properties, values, companies, criteria, sector, exchange);
      ids.Some? ==> |ids.value| <= LIMIT
  {
    if SectorFilter(sector).Some? {
      RankedSpec(Tallies(properties, values, criteria, SectorFilter(sector).value, ExchangeFilter(exchange), companies));
    }
  }

  /**
   * What the query lists: at most 25 companies, counts ascending, each a
   * qualifying company with its count; and, when at most 25 qualify, every
   * one of them.
   */
  lemma SearchIdsSpec(properties: seq<StockProperty>, values: seq<PropertyValue>, companies: seq<Company>,
                      criteria: seq<Criterion>, sector: Option<string>, exchange: Option<string>)
    requires SectorFilter(sector).Some?
    ensures var ids := SearchIds(properties, values, companies, criteria, sector, exchange);
      var sf, ef := SectorFilter(sector).value, ExchangeFilter(exchange);
      && ids.Some?
      && |ids.value| <= LIMIT
      && SortedByCount(ids.value)
      && (forall k :: 0 <= k < |ids.value| ==> Listed(properties, values, criteria, sf, ef, companies, ids.value[k]))
      && (|Tallies(properties, values, criteria, sf, ef, companies)| <= LIMIT ==>
            forall j :: 0 <= j < |companies| && Qualifies(properties, values, criteria, sf, ef, companies[j]) ==>
              (companies[j].id, Tally(criteria, RowsOf(properties, values, companies[j].id))) in ids.value)
  {
    var sf, ef := SectorFilter(sector).value, ExchangeFilter(exchange);
    var all := Tallies(properties, values, criteria, sf, ef, companies);
    RankedSpec(all);
    TalliesSpec(properties, values, criteria, sf, ef, companies);
    var ids := Ranked(all);
    forall k | 0 <= k < |ids|
      ensures Listed(properties, values, criteria, sf, ef, companies, ids[k])
    {
      var m :| 0 <= m < |all| && all[m] == ids[k];
    }
    if |all| <= LIMIT {
      forall j | 0 <= j < |companies| && Qualifies(properties, values, criteria, sf, ef, companies[j])
        ensures (companies[j].id, Tally(criteria, RowsOf(properties, values, companies[j].id))) in ids
      {
        var x := (companies[j].id, Tally(criteria, RowsOf(properties, values, companies[j].id)));
        assert x in multiset(all);
      }
    }
  }

  /**
   * How the limit cuts the query's list: exactly 25 entries when more
   * companies qualify, all of them otherwise; each entry at most as often as
   * in the tallies; and no company left out has fewer matches than one listed.
   */
  lemma SearchIdsCut(properties: seq<StockProperty>, values: seq<PropertyValue>, companies: seq<Company>,
                     criteria: seq<Criterion>, sector: Option<string>, exchange: Option<string>)
    requires SectorFilter(sector).Some?
    ensures var ids := SearchIds(properties, values, companies, criteria, sector, exchange);
      var all := Tallies(properties, values, criteria, SectorFilter(sector).value, ExchangeFilter(exchange), companies);
      && ids.Some?
      && |ids.value| == (if |all| <= LIMIT then |all| else LIMIT)
      && multiset(ids.value) <= multiset(all)
      && (forall x, k :: x in all && x !in ids.value && 0 <= k < |ids.value| ==> ids.value[k].1 <= x.1)
  {
    RankedSpec(Tallies(properties, values, criteria, SectorFilter(sector).value, ExchangeFilter(exchange), companies));
  }

  // ---------------------------------------------------------------------
  // counting is conjunction

  /** How many rows satisfy some criterion. */
  function MatchCount(criteria: seq<Criterion>, rows: seq<Row>): nat
  {
    if rows == [] then 0
    else MatchCount(criteria, rows[..|rows| - 1]) + (if AnyMatch(criteria, rows[|rows| - 1]) then 1 else 0)
  }

  /** How many of the criteria some row satisfies. */
  function Satisfied(criteria: seq<Criterion>, rows: seq<Row>): (n: nat)
    ensures n <= |criteria|
  {
    if criteria == [] then 0
    else
      var c := criteria[|criteria| - 1];
      Satisfied(criteria[..|criteria| - 1], rows) + (if Met(c, rows) then 1 else 0)
  }

  predicate DistinctCriteria(criteria: seq<Criterion>) {
    forall i, j :: 0 <= i < j < |criteria| ==> criteria[i].prop != criteria[j].prop
  }

  predicate DistinctRowProps(rows: seq<Row>) {
    forall i, j :: 0 <= i < j < |rows| && rows[i].prop.Some? ==> rows[i].prop != rows[j].prop
  }

  lemma {:induction false} TallyIsMatchCount(criteria: seq<Criterion>, rows: seq<Row>)
    requires |criteria| > 0
    ensures Tally(criteria, rows) == MatchCount(criteria, rows)
  {
    if rows != [] {
      TallyIsMatchCount(criteria, rows[..|rows| - 1]);
    }
  }

  /** A criterion whose property no other has adds exactly the rows it matches. */
  lemma {:induction false} MatchCountSplit(criteria: seq<Criterion>, c: Criterion, rows: seq<Row>)
    requires forall i :: 0 <= i < |criteria| ==> criteria[i].prop != c.prop
    ensures MatchCount(criteria + [c], rows) == MatchCount(criteria, rows) + MatchCount([c], rows)
  {
    if rows != [] {
      var n := |rows| - 1;
      MatchCountSplit(criteria, c, rows[..n]);
      var r := rows[n];
      if AnyMatch(criteria + [c], r) {
        var i :| 0 <= i < |criteria + [c]| && RowMatches((criteria + [c])[i], r);
        if i < |criteria| {
          assert RowMatches(criteria[i], r);
          assert !RowMatches(c, r);
        } else {
          assert RowMatches([c][0], r);
        }
      }
      if AnyMatch(criteria, r) {
        var i :| 0 <= i < |criteria| && RowMatches(criteria[i], r);
        assert (criteria + [c])[i] == criteria[i];
      }
      if AnyMatch([c], r) {
        assert (criteria + [c])[|criteria|] == c;
      }
    }
  }

  /** Some row meets the criterion. */
  predicate Met(c: Criterion, rows: seq<Row>) {
    exists r :: r in rows && RowMatches(c, r)
  }

  /** Rows with distinct properties match one criterion at most once. */
  lemma {:induction false} MatchCountOne(c: Criterion, rows: seq<Row>)
    requires DistinctRowProps(rows)
    ensures MatchCount([c], rows) == if Met(c, rows) then 1 else 0
  {
    if rows != [] {
      var n := |rows| - 1;
      var front, last := rows[..n], rows[n];
      assert DistinctRowProps(front) by {
        forall i, j | 0 <= i < j < |front| && front[i].prop.Some? ensures front[i].prop != front[j].prop {
          assert front[i] == rows[i] && front[j] == rows[j];
        }
      }
      MatchCountOne(c, front);
      assert rows == front + [last];
      assert Met(c, rows) <==> Met(c, front) || RowMatches(c, last);
      assert AnyMatch([c], last) <==> RowMatches(c, last) by {
        assert [c][0] == c;
      }
      if RowMatches(c, last) {
        forall i | 0 <= i < |front| ensures !RowMatches(c, front[i]) {
          assert front[i] == rows[i];
        }
        assert !Met(c, front);
      }
    }
  }

  /** With distinct criteria and distinct row properties, matching rows and satisfied criteria are as many. */
  lemma {:induction false} MatchCountIsSatisfied(criteria: seq<Criterion>, rows: seq<Row>)
    requires DistinctCriteria(criteria) && DistinctRowProps(rows)
    ensures MatchCount(criteria, rows) == Satisfied(criteria, rows)
  {
    if criteria == [] {
      MatchCountNone(rows);
    } else {
      var n := |criteria| - 1;
      var front, c := criteria[..n], criteria[n];
      assert criteria == front + [c];
      MatchCountIsSatisfied(front, rows);
      MatchCountSplit(front, c, rows);
      MatchCountOne(c, rows);
    }
  }

  lemma {:induction false} MatchCountNone(rows: seq<Row>)
    ensures MatchCount([], rows) == 0
  {
    if rows != [] {
      MatchCountNone(rows[..|rows| - 1]);
    }
  }

  /** Every criterion is met by some row. */
  predicate AllMet(criteria: seq<Criterion>, rows: seq<Row>) {
    forall i :: 0 <= i < |criteria| ==> Met(criteria[i], rows)
  }

  /** All criteria are satisfied exactly when as many as there are criteria are. */
  lemma {:induction false} SatisfiedAll(criteria: seq<Criterion>, rows: seq<Row>)
    ensures Satisfied(criteria, rows) == |criteria| <==> AllMet(criteria, rows)
  {
    if criteria != [] {
      var n := |criteria| - 1;
      SatisfiedAll(criteria[..n], rows);
      assert forall i :: 0 <= i < n ==> criteria[..n][i] == criteria[i];
      assert AllMet(criteria, rows) <==> AllMet(criteria[..n], rows) && Met(criteria[n], rows);
    }
  }

  /**
   * The threshold turns the count into a conjunction: when the criteria
   * name distinct properties and the company's rows do too, the company's
   * count reaches the number of criteria exactly when every criterion is
   * satisfied by one of its rows.
   */
  lemma CountingIsConjunction(criteria: seq<Criterion>, rows: seq<Row>)
    requires |criteria| > 0
    requires DistinctCriteria(criteria) && DistinctRowProps(rows)
    ensures Tally(criteria, rows) <= |criteria|
    ensures Tally(criteria, rows) >= |criteria| <==> AllMet(criteria, rows)
  {
    TallyIsMatchCount(criteria, rows);
    MatchCountIsSatisfied(criteria, rows);
    SatisfiedAll(criteria, rows);
  }

  /** With one live value per pair, a company's joined rows name each property at most once. */
  lemma RowsDistinct(properties: seq<StockProperty>, values: seq<PropertyValue>, company: nat)
    requires PairsUnique(values)
    ensures DistinctRowProps(RowsOf(properties, values, company))
  {
    var vs := ValuesOf(values, company);
    ValuesOfDistinct(values, company);
    var rows := RowsOf(properties, values, company);
    if vs != [] {
      forall i, j | 0 <= i < j < |rows| && rows[i].prop.Some? ensures rows[i].prop != rows[j].prop {
        assert rows[i].prop == Some(vs[i].property);
      }
    }
  }

  lemma {:induction false} ValuesOfDistinct(values: seq<PropertyValue>, company: nat)
    requires PairsUnique(values)
    ensures forall i, j :: 0 <= i < j < |ValuesOf(values, company)| ==>
              ValuesOf(values, company)[i].property != ValuesOf(values, company)[j].property
  {
    if values != [] {
      var n := |values| - 1;
      var front := values[..n];
      assert PairsUnique(front) by {
        forall i, j | 0 <= i < j < |front|
          ensures (front[i].property, front[i].company) != (front[j].property, front[j].company)
        {
          assert front[i] == values[i] && front[j] == values[j];
        }
      }
      ValuesOfDistinct(front, company);
      var r := ValuesOf(front, company);
      if values[n].company == company {
        forall i | 0 <= i < |r| ensures r[i].property != values[n].property {
          assert r[i] in front;
          var m :| 0 <= m < n && front[m] == r[i];
          assert values[m] == r[i];
          assert (values[m].property, values[m].company) != (values[n].property, values[n].company);
        }
      }
    }
  }

  /**
   * A company qualifies, for distinct criteria on valid tables, exactly when
   * it passes the filters and each criterion is met by one of its values
   * (a value of an existing property within the bounds).
   */
  lemma QualifiesIffAllMet(properties: seq<StockProperty>, values: seq<PropertyValue>, criteria: seq<Criterion>,
                           sector: Option<real>, exchange: Option<string>, c: Company)
    requires |criteria| > 0 && DistinctCriteria(criteria) && PairsUnique(values)
    ensures Qualifies(properties, values, criteria, sector, exchange, c) <==>
      PassesFilters(c, sector, exchange) && AllMet(criteria, RowsOf(properties, values, c.id))
  {
    RowsDistinct(properties, values, c.id);
    CountingIsConjunction(criteria, RowsOf(properties, values, c.id));
  }

  /** Without criteria every company passing the filters qualifies, with one count per row. */
  lemma {:induction false} NoCriteriaListsAll(properties: seq<StockProperty>, values: seq<PropertyValue>,
                                              sector: Option<real>, exchange: Option<string>, c: Company)
    ensures Tally([], RowsOf(properties, values, c.id)) == |RowsOf(properties, values, c.id)|
    ensures Qualifies(properties, values, [], sector, exchange, c) <==> PassesFilters(c, sector, exchange)
  {
    TallyAll(RowsOf(properties, values, c.id));
  }

  lemma {:induction false} TallyAll(rows: seq<Row>)
    ensures Tally([], rows) == |rows|
  {
    if rows != [] {
      TallyAll(rows[..|rows| - 1]);
    }
  }

  /**
   * Two criteria on the same property are counted once per row: a company
   * whose single value meets both is still one short of the threshold.
   */
  lemma DuplicateCriteriaUndercount(p: nat, v: real)
    ensures var criteria := [Criterion(p, Some(v), None), Criterion(p, None, Some(v))];
      var rows := [Row(Some(p), Some(v))];
      && (forall i :: 0 <= i < 2 ==> RowMatches(criteria[i], rows[0]))
      && Tally(criteria, rows) == 1 < |criteria|
  {
    var criteria := [Criterion(p, Some(v), None), Criterion(p, None, Some(v))];
    var rows := [Row(Some(p), Some(v))];
    assert RowMatches(criteria[0], rows[0]);
    assert rows[..0] == [];
  }

  // ---------------------------------------------------------------------
  // assembling the answer

  /** `Result`: a listed company and its values under the headers. */
  datatype SearchResult = SearchResult(company: Company, values: seq<Option<real>>)

  /** How `query` ends: an exception (the search or a header lookup failed), or headers and results. */
  datatype QueryOutcome = QueryRaised | Answer(headers: seq<StockProperty>, results: seq<SearchResult>)

  /** The headers for `show`: all properties, or each criterion's property in criteria order. */
  function Headers(properties: seq<StockProperty>, criteria: seq<Criterion>, show: string): (r: Option<seq<StockProperty>>)
  {
    if show == "all" then Some(properties)
    else CriteriaHeaders(properties, criteria)
  }

  /** One property per criterion, `None` when one is missing (the lookup raises). */
  function CriteriaHeaders(properties: seq<StockProperty>, criteria: seq<Criterion>): (r: Option<seq<StockProperty>>)
    ensures r.Some? ==> |r.value| == |criteria|
    ensures r.Some? ==> forall k :: 0 <= k < |criteria| ==> r.value[k].id == criteria[k].prop && r.value[k] in properties
    ensures r.None? <==> exists k :: 0 <= k < |criteria| && PropertyById(properties, criteria[k].prop).None?
  {
    if criteria == [] then Some([])
    else
      var n := |criteria| - 1;
      assert forall k :: 0 <= k < n ==> criteria[..n][k] == criteria[k];
      match (CriteriaHeaders(properties, criteria[..n]), PropertyById(properties, criteria[n].prop))
      case (Some(hs), Some(p)) => Some(hs + [p])
      case _ => None
  }

  /** The company with an id (`Company.objects.get(id=...)`). */
  function CompanyById(companies: seq<Company>, id: nat): (r: Option<Company>)
    ensures r.Some? ==> r.value in companies && r.value.id == id
    ensures r.None? ==> forall i :: 0 <= i < |companies| ==> companies[i].id != id
  {
    if companies == [] then None
    else if companies[0].id == id then Some(companies[0])
    else CompanyById(companies[1..], id)
  }

  /** `vmap`: property id to value over a company's values, a later value overwriting an earlier one. */
  function ValueMap(vlist: seq<PropertyValue>): (m: map<nat, real>)
    ensures forall p :: p in m <==> exists i :: 0 <= i < |vlist| && vlist[i].property == p
  {
    if vlist == [] then map[]
    else
      var n := |vlist| - 1;
      var m := ValueMap(vlist[..n]);
      assert forall i :: 0 <= i < n ==> vlist[..n][i] == vlist[i];
      m[vlist[n].property := vlist[n].value]
  }

  /** With one value per property, the map gives each value under its own property. */
  lemma {:induction false} ValueMapDistinct(vlist: seq<PropertyValue>, i: nat)
    requires forall a, b :: 0 <= a < b < |vlist| ==> vlist[a].property != vlist[b].property
    requires i < |vlist|
    ensures ValueMap(vlist)[vlist[i].property] == vlist[i].value
  {
    var n := |vlist| - 1;
    if i < n {
      ValueMapDistinct(vlist[..n], i);
      assert vlist[..n][i] == vlist[i];
    }
  }

  /** One value per header, in header order: the map's value or `None`. */
  function Aligned(vmap: map<nat, real>, headers: seq<StockProperty>): (r: seq<Option<real>>)
    ensures |r| == |headers|
  {
    seq(|headers|, k requires 0 <= k < |headers| =>
      if headers[k].id in vmap then Some(vmap[headers[k].id]) else None)
  }

  /**
   * With one live value per pair, a listed company's value under a header
   * is its value for that property, and `None` exactly when it has none.
   */
  lemma AlignedValues(values: seq<PropertyValue>, company: nat, headers: seq<StockProperty>, k: nat)
    requires PairsUnique(values) && k < |headers|
    ensures var row := Aligned(ValueMap(ValuesOf(values, company)), headers);
      && (row[k].None? <==> forall j :: 0 <= j < |values| ==> !(values[j].company == company && values[j].property == headers[k].id))
      && (forall j :: 0 <= j < |values| && values[j].company == company && values[j].property == headers[k].id
            ==> row[k] == Some(values[j].value))
  {
    var vl := ValuesOf(values, company);
    ValuesOfDistinct(values, company);
    var row := Aligned(ValueMap(vl), headers);
    forall j | 0 <= j < |values| && values[j].company == company && values[j].property == headers[k].id
      ensures row[k] == Some(values[j].value)
    {
      assert values[j] in vl;
      var i :| 0 <= i < |vl| && vl[i] == values[j];
      ValueMapDistinct(vl, i);
    }
    if row[k].Some? {
      var i :| 0 <= i < |vl| && vl[i].property == headers[k].id;
      assert vl[i] in values;
    }
  }

  /** The result for one listed company: the company and its values under the headers. */
  function ResultFor(companies: seq<Company>, values: seq<PropertyValue>, headers: seq<StockProperty>, id: nat): Option<SearchResult>
  {
    match CompanyById(companies, id)
    case None => None
    case Some(c) => Some(SearchResult(c, Aligned(ValueMap(ValuesOf(values, id)), headers)))
  }

  /** The results for the listed ids, in order; `None` as soon as an id has no company (the lookup raises). */
  function ResultsFor(companies: seq<Company>, values: seq<PropertyValue>, headers: seq<StockProperty>,
                      ids: seq<(nat, nat)>): (r: Option<seq<SearchResult>>)
    ensures r.Some? ==> |r.value| == |ids|
  {
    if ids == [] then Some([])
    else
      var n := |ids| - 1;
      match (ResultsFor(companies, values, headers, ids[..n]), ResultFor(companies, values, headers, ids[n].0))
      case (Some(rs), Some(x)) => Some(rs + [x])
      case _ => None
  }

  /**
   * The results fail exactly when some listed id has no company; otherwise
   * result k is that company with its values lined up under the headers.
   */
  lemma ResultsForSpec(companies: seq<Company>, values: seq<PropertyValue>, headers: seq<StockProperty>,
                       ids: seq<(nat, nat)>)
    ensures var r := ResultsFor(companies, values, headers, ids);
      && (r.None? <==> Missing(companies, ids))
      && (r.Some? ==> forall k :: 0 <= k < |ids| ==>
            && r.value[k].company == CompanyById(companies, ids[k].0).value
            && r.value[k].company.id == ids[k].0
            && r.value[k].values == Aligned(ValueMap(ValuesOf(values, ids[k].0)), headers)
            && |r.value[k].values| == |headers|)
  {
    ResultsForFails(companies, values, headers, ids);
    ResultsForEntries(companies, values, headers, ids);
  }

  /** The results fail exactly when some listed id has no company. */
  lemma {:induction false} ResultsForFails(companies: seq<Company>, values: seq<PropertyValue>, headers: seq<StockProperty>,
                                           ids: seq<(nat, nat)>)
    ensures ResultsFor(companies, values, headers, ids).None? <==> Missing(companies, ids)
  {
    if ids != [] {
      var n := |ids| - 1;
      var front := ids[..n];
      ResultsForFails(companies, values, headers, front);
      ResultsForLast(companies, values, headers, ids);
      MissingLast(companies, ids);
    }
  }

  /** Some listed id has no company. */
  predicate Missing(companies: seq<Company>, ids: seq<(nat, nat)>)
  {
    exists k :: 0 <= k < |ids| && CompanyById(companies, ids[k].0).None?
  }

  /** A longer list has a missing id when its front has one or its last id is missing. */
  lemma MissingLast(companies: seq<Company>, ids: seq<(nat, nat)>)
    requires ids != []
    ensures Missing(companies, ids) <==>
      Missing(companies, ids[..|ids| - 1]) || CompanyById(companies, ids[|ids| - 1].0).None?
  {
    var n := |ids| - 1;
    var front := ids[..n];
    assert forall k :: 0 <= k < n ==> front[k] == ids[k];
    if Missing(companies, ids) {
      var k :| 0 <= k < |ids| && CompanyById(companies, ids[k].0).None?;
      if k < n {
        assert CompanyById(companies, front[k].0).None?;
      }
    }
  }

  /** The results fail when those of the front fail or the last id has no company. */
  lemma ResultsForLast(companies: seq<Company>, values: seq<PropertyValue>, headers: seq<StockProperty>,
                       ids: seq<(nat, nat)>)
    requires ids != []
    ensures ResultsFor(companies, values, headers, ids).None? <==>
      ResultsFor(companies, values, headers, ids[..|ids| - 1]).None? || CompanyById(companies, ids[|ids| - 1].0).None?
  {
  }

  /** When the results exist, entry k is the result for the k-th listed id. */
  lemma {:induction false} ResultsForEntries(companies: seq<Company>, values: seq<PropertyValue>, headers: seq<StockProperty>,
                                             ids: seq<(nat, nat)>)
    ensures ResultsFor(companies, values, headers, ids).Some? ==> forall k :: 0 <= k < |ids| ==>
      Some(ResultsFor(companies, values, headers, ids).value[k]) == ResultFor(companies, values, headers, ids[k].0)
  {
    if ids != [] {
      var n := |ids| - 1;
      ResultsForEntries(companies, values, headers, ids[..n]);
      assert forall k :: 0 <= k < n ==> ids[..n][k] == ids[k];
    }
  }

  /** What `query` returns: the search, then the headers, then one result per listed company. */
  function QuerySpec(properties: seq<StockProperty>, values: seq<PropertyValue>, companies: seq<Company>,
                     criteria: seq<Criterion>, sector: Option<string>, exchange: Option<string>, show: string): QueryOutcome
  {
    match SearchIds(properties, values, companies, criteria, sector, exchange)
    case None => QueryRaised
    case Some(ids) =>
      match Headers(properties, criteria, show)
      case None => QueryRaised
      case Some(headers) =>
        match ResultsFor(companies, values, headers, ids)
        case None => QueryRaised
        case Some(results) => Answer(headers, results)
  }

  /**
   * `query(criterias, sector, exchange, show)` over the database: runs the
   * search, picks the headers, then for each listed company builds its
   * value map and lines its values up with the headers.
   */
  method Query(db: Database, criteria: seq<Criterion>, sector: Option<string>, exchange: Option<string>, show: string)
    returns (out: QueryOutcome)
    ensures out == QuerySpec(db.properties, db.values, db.companies, criteria, sector, exchange, show)
    ensures out.Answer? ==> |out.results| <= LIMIT
  {
    var found := SearchIds(db.properties, db.values, db.companies, criteria, sector, exchange);
    if found.None? {
      return QueryRaised;
    }
    var ids := found.value;
    SearchIdsBound(db.properties, db.values, db.companies, criteria, sector, exchange);
    var hs := Headers(db.properties, criteria, show);
    if hs.None? {
      return QueryRaised;
    }
    var rs := BuildResults(db.companies, db.values, hs.value, ids);
    out := if rs.None? then QueryRaised else Answer(hs.value, rs.value);
  }

  /** The loop over the listed ids: per company, its value map and its row under the headers. */
  method BuildResults(companies: seq<Company>, values: seq<PropertyValue>, headers: seq<StockProperty>, ids: seq<(nat, nat)>)
    returns (r: Option<seq<SearchResult>>)
    ensures r == ResultsFor(companies, values, headers, ids)
  {
    var results: seq<SearchResult> := [];
    var i := 0;
    while i < |ids|
      invariant 0 <= i <= |ids|
      invariant ResultsFor(companies, values, headers, ids[..i]) == Some(results)
    {
      assert ids[..i + 1][..i] == ids[..i];
      var company := CompanyById(companies, ids[i].0);
      if company.None? {
        RaisedAfter(companies, values, headers, ids, i);
        return None;
      }
      var vmap := BuildValueMap(ValuesOf(values, ids[i].0));
      var row := AlignRow(vmap, headers);
      results := results + [SearchResult(company.value, row)];
      i := i + 1;
    }
    assert ids[..i] == ids;
    r := Some(results);
  }

  /** A missing company at position i makes every longer prefix fail too. */
  lemma {:induction false} RaisedAfter(companies: seq<Company>, values: seq<PropertyValue>, headers: seq<StockProperty>,
                                       ids: seq<(nat, nat)>, i: nat)
    requires i < |ids| && CompanyById(companies, ids[i].0).None?
    ensures ResultsFor(companies, values, headers, ids).None?
  {
    ResultsForSpec(companies, values, headers, ids);
  }

  /** The `vmap` loop: each of the company's values stored under its property, later ones overwriting. */
  method BuildValueMap(vlist: seq<PropertyValue>) returns (vmap: map<nat, real>)
    ensures vmap == ValueMap(vlist)
  {
    vmap := map[];
    var j := 0;
    while j < |vlist|
      invariant 0 <= j <= |vlist|
      invariant vmap == ValueMap(vlist[..j])
    {
      assert vlist[..j + 1][..j] == vlist[..j];
      vmap := vmap[vlist[j].property := vlist[j].value];
      j := j + 1;
    }
    assert vlist[..j] == vlist;
  }

  /** The header loop: one entry per header, the map's value or `None`. */
  method AlignRow(vmap: map<nat, real>, headers: seq<StockProperty>) returns (row: seq<Option<real>>)
    ensures row == Aligned(vmap, headers)
  {
    row := [];
    var h := 0;
    while h < |headers|
      invariant 0 <= h <= |headers|
      invariant |row| == h
      invariant forall k :: 0 <= k < h ==> row[k] == if headers[k].id in vmap then Some(vmap[headers[k].id]) else None
    {
      if headers[h].id in vmap {
        row := row + [Some(vmap[headers[h].id])];
      } else {
        row := row + [None];
      }
      h := h + 1;
    }
  }
}
