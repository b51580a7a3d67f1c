/**
 * The search form: the dynamic `min[N]` / `max[N]` fields are collected into
 * one criterion per property id, a blank field meaning "no bound"; the
 * exchange drop-down is the exchange list behind a placeholder entry.
 */
module Forms {
  import opened Wrappers
  import opened Text
  import opened Models
  import opened Search

  // ---------------------------------------------------------------------
  // field names

  datatype BoundKind = Min | Max

  function KindText(kind: BoundKind): string
  {
    if kind == Min then "min" else "max"
  }

  /**
   * `re.match(r'(?P<minmax>min|max)\[(?P<property_id>\d+)\]', k)`: the key
   * must start with `min[` or `max[`, then one or more digits and `]`;
   * anything may follow, since the match is anchored at the start only.
   */
  function ParseKey(k: string): Option<(BoundKind, nat)>
  {
    if |k| < 4 then None
    else
      var kind := if k[..4] == "min[" then Some(Min) else if k[..4] == "max[" then Some(Max) else None;
      var digits := DigitPrefix(k[4..]);
      if kind.None? || digits == [] || 4 + |digits| >= |k| || k[4 + |digits|] != ']' then None
      else Some((kind.value, DigitsValue(digits)))
  }

  /** Every key of the field form yields its kind and the integer value of its digits. */
  lemma ParseKeyMatches(kind: BoundKind, digits: string, rest: string)
    requires digits != [] && AllDigits(digits)
    ensures ParseKey(KindText(kind) + "[" + digits + "]" + rest) == Some((kind, DigitsValue(digits)))
  {
    var head := KindText(kind) + "[";
    KeyShape(head, digits, rest);
    if kind == Min {
      assert head == "min[";
    } else {
      assert head == "max[";
      assert head[1] != "min["[1];
    }
  }

  /** A four-character head, a run of digits and a closing bracket: where each part sits. */
  lemma KeyShape(head: string, digits: string, rest: string)
    requires |head| == 4 && digits != [] && AllDigits(digits)
    ensures var k := head + digits + "]" + rest;
      && |k| >= 4 && k[..4] == head && DigitPrefix(k[4..]) == digits
      && 4 + |digits| < |k| && k[4 + |digits|] == ']'
  {
    var k := head + digits + "]" + rest;
    var tail := digits + ("]" + rest);
    assert k == head + tail;
    assert k[..4] == head && k[4..] == tail;
    DigitPrefixStops(digits, "]" + rest);
    assert k[4 + |digits|] == tail[|digits|];
  }

  /** ... and only keys of that form yield anything. */
  lemma ParseKeyOnlyMatches(k: string)
    requires ParseKey(k).Some?
    ensures var (kind, id) := ParseKey(k).value;
      exists digits: string, rest: string :: (digits != [] && AllDigits(digits) && DigitsValue(digits) == id
                                             && k == KindText(kind) + "[" + digits + "]" + rest)
  {
    var (kind, id) := ParseKey(k).value;
    var digits := DigitPrefix(k[4..]);
    var rest := k[4 + |digits| + 1..];
    assert k[..4] == KindText(kind) + "[";
    assert k[4..4 + |digits|] == digits;
    assert k == k[..4] + k[4..4 + |digits|] + [k[4 + |digits|]] + rest;
    assert k == KindText(kind) + "[" + digits + "]" + rest;
  }

  // ---------------------------------------------------------------------
  // field values

  /** A submitted field: missing (`None`), a text, or the list of texts a query dictionary holds. */
  datatype FormValue = Null | Text(s: string) | Items(items: seq<string>)

  /** `__to_value`: an exception, or the bound (`None` for no bound). */
  datatype Parsed = ParseRaised | Bound(value: Option<real>)

  /** `__to_value`: a list gives its first text; `None` and blank text give no bound; other text is parsed. */
  function ToValue(v: FormValue): (r: Parsed)
    decreases if v.Items? then 1 else 0
    ensures v.Null? ==> r == Bound(None)
    ensures v.Items? && v.items == [] ==> r.ParseRaised?
    ensures v.Text? ==> (r == Bound(None) <==> AllSpace(v.s))
    ensures v.Text? && !AllSpace(v.s) ==> (r.ParseRaised? <==> ParseDecimal(v.s).None?)
    ensures v.Text? && r.Bound? && r.value.Some? ==> r.value == ParseDecimal(v.s)
  {
    match v
    case Null => Bound(None)
    case Items(items) => if items == [] then ParseRaised else ToValue(Text(items[0]))
    case Text(s) =>
      StripBlank(s);
      if Strip(s) == "" then Bound(None)
      else match ParseDecimal(s)
        case None => ParseRaised
        case Some(d) => Bound(Some(d))
  }

  /** A list stands for its first text, whatever follows it. */
  lemma ToValueFirst(first: string, more: seq<string>)
    ensures ToValue(Items([first] + more)) == ToValue(Text(first))
  {
  }

  // ---------------------------------------------------------------------
  // collecting the criteria

  function BoundOf(c: Criterion, kind: BoundKind): Option<real>
  {
    if kind == Min then c.min else c.max
  }

  /** The field's key names this kind and id. */
  predicate Names(entry: (string, FormValue), kind: BoundKind, id: nat)
  {
    ParseKey(entry.0) == Some((kind, id))
  }

  /** The field is a bound field whose value cannot be parsed. */
  predicate Raises(entry: (string, FormValue))
  {
    ParseKey(entry.0).Some? && ToValue(entry.1).ParseRaised?
  }

  /** One loop step: ignore the key, or create the id's criterion if new and set the named bound. */
  function Absorb(found: map<nat, Criterion>, entry: (string, FormValue)): Option<map<nat, Criterion>>
  {
    match ParseKey(entry.0)
    case None => Some(found)
    case Some((kind, id)) =>
      var c := if id in found then found[id] else Criterion(id, None, None);
      match ToValue(entry.1)
      case ParseRaised => None
      case Bound(x) => Some(found[id := SetBound(c, kind, x)])
  }

  function SetBound(c: Criterion, kind: BoundKind, x: Option<real>): (r: Criterion)
    ensures BoundOf(r, kind) == x && r.prop == c.prop
    ensures kind == Min ==> r.max == c.max
    ensures kind == Max ==> r.min == c.min
  {
    if kind == Min then c.(min := x) else c.(max := x)
  }

  lemma AbsorbBound(found: map<nat, Criterion>, e: (string, FormValue), kind: BoundKind, id: nat, x: Option<real>)
    requires ParseKey(e.0) == Some((kind, id)) && ToValue(e.1) == Bound(x)
    ensures Absorb(found, e) == Some(found[id := SetBound(if id in found then found[id] else Criterion(id, None, None), kind, x)])
  {
  }

  /** `found` after the loop over the fields in iteration order; `None` when a value raised. */
  function Collect(data: seq<(string, FormValue)>): Option<map<nat, Criterion>>
  {
    if data == [] then Some(map[])
    else
      match Collect(data[..|data| - 1])
      case None => None
      case Some(found) => Absorb(found, data[|data| - 1])
  }

  /** Collecting fails exactly when some bound field has a value that cannot be parsed. */
  lemma {:induction false} CollectRaises(data: seq<(string, FormValue)>)
    ensures Collect(data).None? <==> exists i :: 0 <= i < |data| && Raises(data[i])
  {
    if data != [] {
      var n := |data| - 1;
      CollectRaises(data[..n]);
      assert forall i :: 0 <= i < n ==> data[..n][i] == data[i];
      if Collect(data[..n]).Some? {
        AbsorbRaises(Collect(data[..n]).value, data[n]);
      }
    }
  }

  lemma AbsorbRaises(found: map<nat, Criterion>, e: (string, FormValue))
    ensures Absorb(found, e).None? <==> Raises(e)
  {
  }

  /**
   * The criteria found are keyed by their own property id, one per id named
   * by some field, and no others.
   */
  lemma {:induction false} CollectKeys(data: seq<(string, FormValue)>)
    requires Collect(data).Some?
    ensures var found := Collect(data).value;
      && (forall id :: id in found ==> found[id].prop == id)
      && (forall id :: id in found <==> exists i :: 0 <= i < |data| && ParseKey(data[i].0).Some? && ParseKey(data[i].0).value.1 == id)
  {
    if data != [] {
      var n := |data| - 1;
      CollectKeys(data[..n]);
      assert forall i :: 0 <= i < n ==> data[..n][i] == data[i];
    }
  }

  /** A bound holds the value of the last field naming it: `min[N]` and `max[N]` merge, a later field wins. */
  lemma {:induction false} CollectLastWins(data: seq<(string, FormValue)>, i: nat, kind: BoundKind, id: nat)
    requires Collect(data).Some?
    requires i < |data| && Names(data[i], kind, id)
    requires forall j :: i < j < |data| ==> !Names(data[j], kind, id)
    ensures id in Collect(data).value && ToValue(data[i].1).Bound?
    ensures BoundOf(Collect(data).value[id], kind) == ToValue(data[i].1).value
  {
    var n := |data| - 1;
    assert data[..n][..] == data[..n];
    if i < n {
      CollectLastWins(data[..n], i, kind, id);
    }
  }

  /** A bound that no field names stays unset. */
  lemma {:induction false} CollectUnnamed(data: seq<(string, FormValue)>, kind: BoundKind, id: nat)
    requires Collect(data).Some? && id in Collect(data).value
    requires forall j :: 0 <= j < |data| ==> !Names(data[j], kind, id)
    ensures BoundOf(Collect(data).value[id], kind) == None
  {
    var n := |data| - 1;
    assert forall j :: 0 <= j < n ==> data[..n][j] == data[j];
    if id in Collect(data[..n]).value {
      CollectUnnamed(data[..n], kind, id);
    }
  }

  lemma ToValueParsed(s: string)
    requires ParseDecimal(s).Some?
    ensures ToValue(Text(s)) == Bound(ParseDecimal(s))
  {
    ParsedNotBlank(s);
  }

  lemma KeyMin1()
    ensures ParseKey("min[1]") == Some((Min, 1))
  {
    ParseKeyMatches(Min, "1", "");
    assert KindText(Min) + "[" + "1" + "]" + "" == "min[1]";
  }

  lemma KeyMax1()
    ensures ParseKey("max[1]") == Some((Max, 1))
  {
    ParseKeyMatches(Max, "1", "");
    assert KindText(Max) + "[" + "1" + "]" + "" == "max[1]";
  }

  lemma KeyMin10()
    ensures ParseKey("min[10]") == Some((Min, 10))
  {
    ParseKeyMatches(Min, "10", "");
    assert KindText(Min) + "[" + "10" + "]" + "" == "min[10]";
    assert DigitsValue("10") == 10 by {
      assert "10"[..1] == "1";
    }
  }

  lemma KeySector()
    ensures ParseKey("sector") == None
  {
    assert "sector"[..4] == "sect";
    assert "sect"[0] != "min["[0] && "sect"[0] != "max["[0];
  }

  /** Four fields: one ignored, both bounds of one id, the lower bound of another. */
  lemma MergeFour(e0: (string, FormValue), e1: (string, FormValue), e2: (string, FormValue),
                  e3: (string, FormValue), low1: Option<real>, high1: Option<real>, low10: Option<real>)
    requires ParseKey(e0.0) == None
    requires ParseKey(e1.0) == Some((Min, 1)) && ToValue(e1.1) == Bound(low1)
    requires ParseKey(e2.0) == Some((Max, 1)) && ToValue(e2.1) == Bound(high1)
    requires ParseKey(e3.0) == Some((Min, 10)) && ToValue(e3.1) == Bound(low10)
    ensures Collect([e0, e1, e2, e3]) == Some(map[1 := Criterion(1, low1, high1), 10 := Criterion(10, low10, None)])
  {
    var c1b := Criterion(1, low1, high1);
    MergeThree(e0, e1, e2, low1, high1);
    var s3 := [e0, e1, e2];
    CollectSnoc(s3, e3);
    AbsorbBound(map[1 := c1b], e3, Min, 10, low10);
    assert s3 + [e3] == [e0, e1, e2, e3];
  }

  /** The first three of those fields: both bounds of one id. */
  lemma MergeThree(e0: (string, FormValue), e1: (string, FormValue), e2: (string, FormValue),
                   low1: Option<real>, high1: Option<real>)
    requires ParseKey(e0.0) == None
    requires ParseKey(e1.0) == Some((Min, 1)) && ToValue(e1.1) == Bound(low1)
    requires ParseKey(e2.0) == Some((Max, 1)) && ToValue(e2.1) == Bound(high1)
    ensures Collect([e0, e1, e2]) == Some(map[1 := Criterion(1, low1, high1)])
  {
    var c1 := Criterion(1, low1, None);
    var c1b := Criterion(1, low1, high1);
    MergeTwo(e0, e1, low1);
    var s2 := [e0, e1];
    CollectSnoc(s2, e2);
    AbsorbBound(map[1 := c1], e2, Max, 1, high1);
    assert map[1 := c1][1 := c1b] == map[1 := c1b];
    assert s2 + [e2] == [e0, e1, e2];
  }

  /** The first two: an ignored field, then the lower bound of one id. */
  lemma MergeTwo(e0: (string, FormValue), e1: (string, FormValue), low1: Option<real>)
    requires ParseKey(e0.0) == None
    requires ParseKey(e1.0) == Some((Min, 1)) && ToValue(e1.1) == Bound(low1)
    ensures Collect([e0, e1]) == Some(map[1 := Criterion(1, low1, None)])
  {
    var s1: seq<(string, FormValue)> := [] + [e0];
    CollectSnoc([], e0);
    CollectSnoc(s1, e1);
    AbsorbBound(map[], e1, Min, 1, low1);
    assert s1 + [e1] == [e0, e1];
  }

  lemma CollectSnoc(front: seq<(string, FormValue)>, e: (string, FormValue))
    ensures Collect(front + [e]) == if Collect(front).None? then None else Absorb(Collect(front).value, e)
  {
    assert (front + [e])[..|front|] == front;
  }

  /**
   * The form of the test: a sector field, both bounds of property 1 and the
   * lower bound of property 10 give two criteria, the first with both bounds.
   */
  lemma CollectMerges(low1: string, high1: string, low10: string)
    requires ParseDecimal(low1).Some? && ParseDecimal(high1).Some? && ParseDecimal(low10).Some?
    ensures Collect([("sector", Text("1")), ("min[1]", Text(low1)), ("max[1]", Text(high1)), ("min[10]", Text(low10))])
      == Some(map[1 := Criterion(1, ParseDecimal(low1), ParseDecimal(high1)), 10 := Criterion(10, ParseDecimal(low10), None)])
  {
    ToValueParsed(low1);
    ToValueParsed(high1);
    ToValueParsed(low10);
    KeySector();
    KeyMin1();
    KeyMax1();
    KeyMin10();
    MergeFour(("sector", Text("1")), ("min[1]", Text(low1)), ("max[1]", Text(high1)), ("min[10]", Text(low10)),
              ParseDecimal(low1), ParseDecimal(high1), ParseDecimal(low10));
  }

  // ---------------------------------------------------------------------
  // the form

  /** The placeholder put before the exchanges in the drop-down. */
  const EXCHANGE_PLACEHOLDER: (string, string) := ("", "Select exchange ...")

  /** `load_exchanges`: a copy of the exchange list with the placeholder inserted at index 0. */
  method LoadExchanges() returns (l: Choices)
    ensures |l| == |EXCHANGES| + 1
    ensures l[0] == EXCHANGE_PLACEHOLDER && l[1..] == EXCHANGES
  {
    l := EXCHANGES;
    l := [EXCHANGE_PLACEHOLDER] + l;
  }

  /** Choosing the placeholder selects no exchange: its code is none of the four and the search ignores it. */
  lemma PlaceholderSelectsNothing()
    ensures EXCHANGE_PLACEHOLDER.0 !in Codes(EXCHANGES)
    ensures ExchangeFilter(Some(EXCHANGE_PLACEHOLDER.0)) == None
  {
    ExchangeCodes(EXCHANGE_PLACEHOLDER.0);
    FiltersOnlyWhenNotBlank(EXCHANGE_PLACEHOLDER.0);
  }

  /** Criteria keyed by their own property id. */
  predicate Keyed(m: map<nat, Criterion>)
  {
    forall id :: id in m ==> m[id].prop == id
  }

  /** The search form's parsed criteria, `None` until fields have been parsed. */
  class SearchForm {
    var minmaxCriteria: Option<map<nat, Criterion>>

    predicate Valid()
      reads this
    {
      minmaxCriteria.Some? ==> Keyed(minmaxCriteria.value)
    }

    constructor ()
      ensures Valid() && minmaxCriteria.None?
    {
      minmaxCriteria := None;
    }

    /**
     * `find_minmax_criteria(data)`: collects the bound fields in iteration
     * order and replaces the parsed criteria wholesale; when a value raises,
     * the exception leaves the old criteria in place.
     */
    method FindMinMaxCriteria(data: seq<(string, FormValue)>) returns (raised: bool)
      requires Valid()
      modifies this
      ensures Valid()
      ensures raised <==> Collect(data).None?
      ensures raised ==> minmaxCriteria == old(minmaxCriteria)
      ensures !raised ==> minmaxCriteria == Collect(data)
    {
      var found: map<nat, Criterion> := map[];
      var i := 0;
      while i < |data|
        invariant 0 <= i <= |data|
        invariant Collect(data[..i]) == Some(found)
      {
        assert data[..i + 1][..i] == data[..i];
        var key := ParseKey(data[i].0);
        if key.Some? {
          var (kind, id) := key.value;
          var c := if id in found then found[id] else Criterion(id, None, None);
          var v := ToValue(data[i].1);
          if v.ParseRaised? {
            CollectRaises(data);
            return true;
          }
          if kind == Min {
            found := found[id := c.(min := v.value)];
          } else {
            found := found[id := c.(max := v.value)];
          }
          assert found[id] == SetBound(c, kind, v.value);
        }
        i := i + 1;
      }
      assert data[..i] == data;
      CollectKeys(data);
      minmaxCriteria := Some(found);
      raised := false;
    }

    /**
     * `to_criteria`: nothing before parsing; afterwards every parsed
     * criterion once, in the map's iteration order, so one per property id.
     */
    method ToCriteria() returns (c: seq<Criterion>)
      requires Valid()
      ensures minmaxCriteria.None? ==> c == []
      ensures minmaxCriteria.Some? ==> |c| == |minmaxCriteria.value.Keys| && DistinctCriteria(c)
      ensures minmaxCriteria.Some? ==> forall i :: 0 <= i < |c| ==> c[i].prop in minmaxCriteria.value && minmaxCriteria.value[c[i].prop] == c[i]
      ensures minmaxCriteria.Some? ==> forall id :: id in minmaxCriteria.value ==> exists i :: 0 <= i < |c| && c[i].prop == id
    {
      c := [];
      if minmaxCriteria.None? {
        return;
      }
      var m := minmaxCriteria.value;
      var left := m.Keys;
      while left != {}
        invariant left <= m.Keys
        invariant |c| + |left| == |m.Keys|
        invariant forall i :: 0 <= i < |c| ==> c[i].prop in m.Keys - left && m[c[i].prop] == c[i]
        invariant forall id :: id in m.Keys - left ==> exists i :: 0 <= i < |c| && c[i].prop == id
        invariant DistinctCriteria(c)
        decreases |left|
      {
        var id :| id in left;
        var before, leftBefore := c, left;
        c := c + [m[id]];
        left := left - {id};
        forall other | other in m.Keys - left
          ensures exists i :: 0 <= i < |c| && c[i].prop == other
        {
          if other == id {
            assert c[|c| - 1].prop == other;
          } else {
            assert other in m.Keys - leftBefore;
            var i :| 0 <= i < |before| && before[i].prop == other;
            assert c[i].prop == other;
          }
        }
      }
      assert m.Keys - left == m.Keys;
    }
  }
}
