/**
 * `Extractor.extract`: fetch the property's page for a company (through a
 * one-page cache), find the text, convert it, then upsert the company's
 * current value for the property and append to that value's history when
 * the value changed.
 *
 * The part after the page is in hand is the pure function `ExtractFrom` over
 * a `Store` (the value and history tables); the class `Extractor` keeps the
 * cache and drives the database object, and its method is proved to do what
 * `ExtractFrom` says.
 */
module Extraction {
  import opened Wrappers
  import opened Converter
  import opened Models

  // ---------------------------------------------------------------------
  // the live value of a (property, company) pair

  predicate IsPair(v: PropertyValue, prop: nat, company: nat) {
    v.property == prop && v.company == company
  }

  /** How many live values the pair has (the ORM's `get` wants exactly one). */
  function PairCount(values: seq<PropertyValue>, prop: nat, company: nat): nat
  {
    if values == [] then 0
    else (if IsPair(values[0], prop, company) then 1 else 0) + PairCount(values[1..], prop, company)
  }

  lemma {:induction false} PairCountZero(values: seq<PropertyValue>, prop: nat, company: nat)
    ensures PairCount(values, prop, company) == 0 <==>
            forall j :: 0 <= j < |values| ==> !IsPair(values[j], prop, company)
  {
    if values != [] {
      PairCountZero(values[1..], prop, company);
      assert forall j :: 1 <= j < |values| ==> values[j] == values[1..][j - 1];
    }
  }

  /** The first live value of the pair. */
  function PairIndex(values: seq<PropertyValue>, prop: nat, company: nat): (i: nat)
    requires PairCount(values, prop, company) > 0
    ensures i < |values| && IsPair(values[i], prop, company)
    ensures forall j :: 0 <= j < i ==> !IsPair(values[j], prop, company)
  {
    if IsPair(values[0], prop, company) then 0
    else
      var i := PairIndex(values[1..], prop, company);
      assert values[i + 1] == values[1..][i];
      i + 1
  }

  /** With one live value per pair there is never more than one to find. */
  lemma {:induction false} PairsUniqueCount(values: seq<PropertyValue>, prop: nat, company: nat)
    requires PairsUnique(values)
    ensures PairCount(values, prop, company) <= 1
  {
    if values != [] {
      PairsUniqueCount(values[1..], prop, company);
      if IsPair(values[0], prop, company) {
        PairCountZero(values[1..], prop, company);
      }
    }
  }

  /** With one live value per pair, the pair's row is the only one. */
  lemma OnlyPairAt(values: seq<PropertyValue>, i: nat, prop: nat, company: nat)
    requires PairsUnique(values)
    requires i < |values| && IsPair(values[i], prop, company)
    ensures forall j :: 0 <= j < |values| && j != i ==> !IsPair(values[j], prop, company)
  {
    forall j | 0 <= j < |values| && j != i
      ensures !IsPair(values[j], prop, company)
    {
      if j < i {
        assert (values[j].property, values[j].company) != (values[i].property, values[i].company);
      } else {
        assert (values[i].property, values[i].company) != (values[j].property, values[j].company);
      }
    }
  }

  lemma {:induction false} PairCountAppend(values: seq<PropertyValue>, x: PropertyValue, prop: nat, company: nat)
    ensures PairCount(values + [x], prop, company)
         == PairCount(values, prop, company) + (if IsPair(x, prop, company) then 1 else 0)
  {
    if values == [] {
      assert values + [x] == [x];
    } else {
      assert (values + [x])[1..] == values[1..] + [x];
      PairCountAppend(values[1..], x, prop, company);
    }
  }

  lemma {:induction false} PairCountUpdate(values: seq<PropertyValue>, i: nat, x: PropertyValue, prop: nat, company: nat)
    requires i < |values|
    requires IsPair(values[i], prop, company) == IsPair(x, prop, company)
    ensures PairCount(values[i := x], prop, company) == PairCount(values, prop, company)
  {
    if i > 0 {
      assert values[i := x][1..] == values[1..][i - 1 := x];
      PairCountUpdate(values[1..], i - 1, x, prop, company);
    } else {
      assert values[i := x][1..] == values[1..];
    }
  }

  // ---------------------------------------------------------------------
  // the value and history tables

  datatype Store = Store(values: seq<PropertyValue>, history: seq<HistoryEntry>, nextValue: nat)

  predicate StoreValid(st: Store) {
    ValueIdsUnique(st.values, st.nextValue) && PairsUnique(st.values) && HistoryLinked(st.values, st.history)
  }

  /**
   * The lookup-then-save of the current value: update the pair's live value,
   * or insert one with the next id; `None` when the pair has several (the
   * lookup raises). Also gives the saved row.
   */
  function Upsert(st: Store, company: nat, prop: nat, v: real): Option<(Store, PropertyValue)>
  {
    var n := PairCount(st.values, prop, company);
    if n > 1 then None
    else if n == 1 then
      var i := PairIndex(st.values, prop, company);
      var pv := st.values[i].(value := v);
      Some((st.(values := st.values[i := pv]), pv))
    else
      var pv := PropertyValue(st.nextValue, company, prop, v);
      Some((st.(values := st.values + [pv], nextValue := st.nextValue + 1), pv))
  }

  /** History stays linked when every value keeps its id and more may be added. */
  lemma HistoryLinkedGrows(values: seq<PropertyValue>, values': seq<PropertyValue>, history: seq<HistoryEntry>)
    requires HistoryLinked(values, history)
    requires |values| <= |values'| && forall j :: 0 <= j < |values| ==> values'[j].id == values[j].id
    ensures HistoryLinked(values', history)
  {
    forall k | 0 <= k < |history|
      ensures HasValueId(values', history[k].current)
    {
      var j :| 0 <= j < |values| && values[j].id == history[k].current;
      assert values'[j].id == history[k].current;
    }
  }

  /** Updating the pair's one live value in place. */
  lemma UpsertExisting(st: Store, company: nat, prop: nat, v: real)
    requires StoreValid(st) && PairCount(st.values, prop, company) == 1
    ensures Upsert(st, company, prop, v).Some?
    ensures var (st', pv) := Upsert(st, company, prop, v).value;
      && StoreValid(st')
      && st'.history == st.history
      && pv.value == v && IsPair(pv, prop, company)
      && PairCount(st'.values, prop, company) == 1
      && st'.values[PairIndex(st'.values, prop, company)] == pv
      && pv == st.values[PairIndex(st.values, prop, company)].(value := v)
      && st'.nextValue == st.nextValue
      && |st'.values| == |st.values|
      && (forall j :: 0 <= j < |st.values| && !IsPair(st.values[j], prop, company) ==> st'.values[j] == st.values[j])
  {
    var (st', pv) := Upsert(st, company, prop, v).value;
    var i := PairIndex(st.values, prop, company);
    assert st'.values == st.values[i := pv];
    PairCountUpdate(st.values, i, pv, prop, company);
    OnlyPairAt(st.values, i, prop, company);
    assert forall j :: 0 <= j < |st.values| ==>
      st'.values[j].id == st.values[j].id && st'.values[j].property == st.values[j].property
      && st'.values[j].company == st.values[j].company;
    HistoryLinkedGrows(st.values, st'.values, st.history);
    assert PairIndex(st'.values, prop, company) == i;
  }

  /** Adding the pair's first live value, with the next id. */
  lemma UpsertNew(st: Store, company: nat, prop: nat, v: real)
    requires StoreValid(st) && PairCount(st.values, prop, company) == 0
    ensures Upsert(st, company, prop, v).Some?
    ensures var (st', pv) := Upsert(st, company, prop, v).value;
      && StoreValid(st')
      && st'.history == st.history
      && pv.value == v && IsPair(pv, prop, company)
      && PairCount(st'.values, prop, company) == 1
      && st'.values[PairIndex(st'.values, prop, company)] == pv
      && st'.values == st.values + [pv]
      && pv.id == st.nextValue && st'.nextValue == st.nextValue + 1
  {
    var (st', pv) := Upsert(st, company, prop, v).value;
    PairCountZero(st.values, prop, company);
    PairCountAppend(st.values, pv, prop, company);
    assert forall j :: 0 <= j < |st.values| ==> st'.values[j] == st.values[j];
    HistoryLinkedGrows(st.values, st'.values, st.history);
    assert PairIndex(st'.values, prop, company) == |st.values|;
  }

  /**
   * After an upsert the pair has exactly one live value, holding `v`; no
   * other row changes; a row is added only when the pair had none; the
   * history is untouched and the tables stay valid.
   */
  lemma UpsertSavesOne(st: Store, company: nat, prop: nat, v: real)
    requires StoreValid(st)
    ensures Upsert(st, company, prop, v).Some?
    ensures var (st', pv) := Upsert(st, company, prop, v).value;
      && StoreValid(st')
      && st'.history == st.history
      && pv.value == v && IsPair(pv, prop, company)
      && PairCount(st'.values, prop, company) == 1
      && st'.values[PairIndex(st'.values, prop, company)] == pv
      && |st'.values| == |st.values| + (if PairCount(st.values, prop, company) == 0 then 1 else 0)
      && (forall j :: 0 <= j < |st.values| && !IsPair(st.values[j], prop, company) ==> st'.values[j] == st.values[j])
  {
    PairsUniqueCount(st.values, prop, company);
    if PairCount(st.values, prop, company) == 1 {
      UpsertExisting(st, company, prop, v);
    } else {
      UpsertNew(st, company, prop, v);
      var st' := Upsert(st, company, prop, v).value.0;
      assert forall j :: 0 <= j < |st.values| ==> st'.values[j] == st.values[j];
    }
  }

  /** Saving the same pair again never adds a second row. */
  lemma UpsertAgainAddsNothing(st: Store, company: nat, prop: nat, v: real, w: real)
    requires StoreValid(st)
    ensures Upsert(st, company, prop, v).Some?
    ensures var st1 := Upsert(st, company, prop, v).value.0;
      Upsert(st1, company, prop, w).Some? && |Upsert(st1, company, prop, w).value.0.values| == |st1.values|
  {
    UpsertSavesOne(st, company, prop, v);
    var st1 := Upsert(st, company, prop, v).value.0;
    UpsertSavesOne(st1, company, prop, w);
  }

  // ---------------------------------------------------------------------
  // history

  /**
   * The entry the history query lists first for a value: the latest date
   * (`order_by('-historical_date')`), ties going to the entry saved last.
   */
  function Newest(history: seq<HistoryEntry>, current: nat): (r: Option<nat>)
    ensures r.None? <==> forall k :: 0 <= k < |history| ==> history[k].current != current
    ensures r.Some? ==> r.value < |history| && history[r.value].current == current
    ensures r.Some? ==> forall k :: 0 <= k < |history| && history[k].current == current ==>
                          history[k].date <= history[r.value].date
    ensures r.Some? ==> forall k :: r.value < k < |history| && history[k].current == current ==>
                          history[k].date < history[r.value].date
  {
    if history == [] then None
    else
      var last := |history| - 1;
      var best := Newest(history[..last], current);
      assert forall k :: 0 <= k < last ==> history[..last][k] == history[k];
      if history[last].current == current && (best.None? || history[best.value].date <= history[last].date)
      then Some(last)
      else best
  }

  /** No two entries of the value share a date. */
  predicate DatedApart(history: seq<HistoryEntry>, current: nat)
  {
    forall k, m :: 0 <= k < m < |history| && history[k].current == current && history[m].current == current ==>
      history[k].date != history[m].date
  }

  /**
   * When the value's entries have distinct dates, the newest one is the
   * entry with the latest date, whatever rule breaks ties.
   */
  lemma NewestDetermined(history: seq<HistoryEntry>, current: nat, i: nat)
    requires DatedApart(history, current)
    requires i < |history| && history[i].current == current
    requires forall k :: 0 <= k < |history| && history[k].current == current ==> history[k].date <= history[i].date
    ensures Newest(history, current) == Some(i)
  {
    var r := Newest(history, current).value;
    assert history[r].date == history[i].date;
  }

  /** Appends `(current, v, today)` unless the newest entry of `current` already holds `v`. */
  function RecordHistory(history: seq<HistoryEntry>, current: nat, v: real, today: int): seq<HistoryEntry>
  {
    var n := Newest(history, current);
    if n.None? || history[n.value].value != v then history + [HistoryEntry(current, v, today)]
    else history
  }

  /**
   * The history is append-only and grows by at most one entry: one dated
   * today exactly when there was none for the value or the newest differs.
   */
  lemma RecordHistoryAppends(history: seq<HistoryEntry>, current: nat, v: real, today: int)
    ensures var h' := RecordHistory(history, current, v, today);
      && h'[..|history|] == history
      && |history| <= |h'| <= |history| + 1
      && (|h'| == |history| + 1 <==>
            Newest(history, current).None? || history[Newest(history, current).value].value != v)
      && (|h'| == |history| + 1 ==> h'[|history|] == HistoryEntry(current, v, today))
  {
    var h' := RecordHistory(history, current, v, today);
    assert h'[..|history|] == history;
  }

  /**
   * Recording the same value twice writes at most once, provided no entry of
   * the value is dated after the first recording (dates do not go backwards).
   */
  lemma RecordHistoryDedup(history: seq<HistoryEntry>, current: nat, v: real, today: int, later: int)
    requires forall k :: 0 <= k < |history| && history[k].current == current ==> history[k].date <= today
    ensures var h1 := RecordHistory(history, current, v, today);
      RecordHistory(h1, current, v, later) == h1
  {
    var h1 := RecordHistory(history, current, v, today);
    if h1 != history {
      var last := |history|;
      assert h1[last] == HistoryEntry(current, v, today);
      var n := Newest(h1, current);
      assert n.Some?;
      if n.value != last {
        assert false;
      }
    }
  }

  /** Recording on a day later than every entry of the value keeps its dates apart. */
  lemma RecordHistoryApart(history: seq<HistoryEntry>, current: nat, v: real, today: int)
    requires DatedApart(history, current)
    requires forall k :: 0 <= k < |history| && history[k].current == current ==> history[k].date < today
    ensures DatedApart(RecordHistory(history, current, v, today), current)
  {
    var h1 := RecordHistory(history, current, v, today);
    if h1 != history {
      assert h1 == history + [HistoryEntry(current, v, today)];
      forall k, m | 0 <= k < m < |h1| && h1[k].current == current && h1[m].current == current
        ensures h1[k].date != h1[m].date
      {
        if m == |history| {
          assert h1[k] == history[k];
        } else {
          assert h1[k] == history[k] && h1[m] == history[m];
        }
      }
    }
  }

  /** Recording for one value leaves the newest entry of every other value where it was. */
  lemma RecordHistoryOthers(history: seq<HistoryEntry>, current: nat, v: real, today: int, other: nat)
    requires other != current
    ensures var h1 := RecordHistory(history, current, v, today);
      Newest(h1, other) == Newest(history, other)
  {
    var h1 := RecordHistory(history, current, v, today);
    if h1 != history {
      assert h1[..|history|] == history;
    }
  }

  // ---------------------------------------------------------------------
  // one extraction

  /** How `extract` ends: one of its exceptions, `None`, or the saved value. */
  datatype Outcome =
    | DownloadFailed   // the downloader raised
    | NotFound         // the path found no text: `None`
    | ConversionRaised // the conversion expression raised
    | NotConverted     // the text is no decimal: `None`
    | LookupRaised     // several live values for the pair: the lookup raised
    | Saved(value: PropertyValue)

  /** What `extract` does once it holds the page: find, convert, upsert, record. */
  function ExtractFrom(st: Store, company: Company, prop: StockProperty, page: string,
                       findText: (string, string) -> Option<string>, today: int): (Outcome, Store)
  {
    match findText(page, prop.xmlPath)
    case None => (NotFound, st)
    case Some(text) =>
      match ExecuteConverter(text, prop.convert)
      case Raised => (ConversionRaised, st)
      case Converted(None) => (NotConverted, st)
      case Converted(Some(v)) =>
        match Upsert(st, company.id, prop.id, v)
        case None => (LookupRaised, st)
        case Some((st1, pv)) => (Saved(pv), st1.(history := RecordHistory(st1.history, pv.id, v, today)))
  }

  /** When no value is saved, neither the value table nor the history changes. */
  lemma NoWriteOnMiss(st: Store, company: Company, prop: StockProperty, page: string,
                      findText: (string, string) -> Option<string>, today: int)
    ensures !ExtractFrom(st, company, prop, page, findText, today).0.Saved? ==>
            ExtractFrom(st, company, prop, page, findText, today).1 == st
    ensures findText(page, prop.xmlPath).None? ==> ExtractFrom(st, company, prop, page, findText, today).0 == NotFound
    ensures findText(page, prop.xmlPath).Some? ==>
      var c := ExecuteConverter(findText(page, prop.xmlPath).value, prop.convert);
      (c.Raised? ==> ExtractFrom(st, company, prop, page, findText, today).0 == ConversionRaised)
      && (c == Converted(None) ==> ExtractFrom(st, company, prop, page, findText, today).0 == NotConverted)
  {
  }

  /**
   * A converted value on valid tables is saved: the pair then has exactly one
   * live value holding it, the tables stay valid, and the history grows by
   * at most the one entry `RecordHistory` adds.
   */
  lemma ExtractSaves(st: Store, company: Company, prop: StockProperty, page: string,
                     findText: (string, string) -> Option<string>, today: int, text: string, v: real)
    requires StoreValid(st)
    requires findText(page, prop.xmlPath) == Some(text)
    requires ExecuteConverter(text, prop.convert) == Converted(Some(v))
    ensures var (out, st') := ExtractFrom(st, company, prop, page, findText, today);
      && out.Saved? && out.value.value == v && IsPair(out.value, prop.id, company.id)
      && StoreValid(st')
      && PairCount(st'.values, prop.id, company.id) == 1
      && st'.values[PairIndex(st'.values, prop.id, company.id)] == out.value
      && st'.history == RecordHistory(st.history, out.value.id, v, today)
  {
    UpsertSavesOne(st, company.id, prop.id, v);
    var (st1, pv) := Upsert(st, company.id, prop.id, v).value;
    var st' := st1.(history := RecordHistory(st1.history, pv.id, v, today));
    assert HasValueId(st1.values, pv.id) by {
      assert st1.values[PairIndex(st1.values, prop.id, company.id)].id == pv.id;
    }
    RecordHistoryAppends(st1.history, pv.id, v, today);
    forall k | 0 <= k < |st'.history|
      ensures HasValueId(st'.values, st'.history[k].current)
    {
      if k < |st1.history| {
        assert st'.history[k] == st1.history[k];
      }
    }
  }

  /** An extraction keeps the value and history tables valid, whatever it ends in. */
  lemma ExtractKeepsValid(st: Store, company: Company, prop: StockProperty, page: string,
                          findText: (string, string) -> Option<string>, today: int)
    requires StoreValid(st)
    ensures StoreValid(ExtractFrom(st, company, prop, page, findText, today).1)
  {
    NoWriteOnMiss(st, company, prop, page, findText, today);
    var text := findText(page, prop.xmlPath);
    if text.Some? {
      var c := ExecuteConverter(text.value, prop.convert);
      if c.Converted? && c.value.Some? {
        ExtractSaves(st, company, prop, page, findText, today, text.value, c.value.value);
      }
    }
  }

  /**
   * Extracting the same value again, on a later or equal day, adds neither a
   * value row nor a history entry: the store is exactly as after the first.
   */
  lemma ExtractTwiceSameValue(st: Store, company: Company, prop: StockProperty, page: string,
                              findText: (string, string) -> Option<string>, today: int, later: int,
                              text: string, v: real)
    requires StoreValid(st)
    requires findText(page, prop.xmlPath) == Some(text)
    requires ExecuteConverter(text, prop.convert) == Converted(Some(v))
    requires forall k :: 0 <= k < |st.history| ==> st.history[k].date <= today
    ensures var st1 := ExtractFrom(st, company, prop, page, findText, today).1;
      ExtractFrom(st1, company, prop, page, findText, later).1 == st1
  {
    ExtractSaves(st, company, prop, page, findText, today, text, v);
    var (out1, st1) := ExtractFrom(st, company, prop, page, findText, today);
    ExtractSaves(st1, company, prop, page, findText, later, text, v);
    var pv := out1.value;
    UpsertSavesOne(st1, company.id, prop.id, v);
    var i := PairIndex(st1.values, prop.id, company.id);
    assert Upsert(st1, company.id, prop.id, v).value.1 == pv;
    assert Upsert(st1, company.id, prop.id, v).value.0.values == st1.values[i := pv];
    assert st1.values[i := pv] == st1.values;
    RecordHistoryDedup(st.history, pv.id, v, today, later);
  }

  // ---------------------------------------------------------------------
  // the extractor object

  /** The extractor: the last URL fetched and its page (`last_url`, `last_page`). */
  class Extractor {
    var lastUrl: Option<string>
    var lastPage: Option<string>
    /** Every URL handed to the downloader, in order. */
    ghost var downloads: seq<string>

    predicate Valid()
      reads this
    {
      lastUrl.Some? <==> lastPage.Some?
    }

    constructor ()
      ensures Valid() && lastUrl == None && downloads == []
    {
      lastUrl, lastPage := None, None;
      downloads := [];
    }

    /**
     * `extract(company, stock_property)`. `download` stands for the page
     * downloader (`None`: it raised), `findText` for the path lookup on a
     * page, `today` for the date of the history entry.
     */
    method Extract(db: Database, company: Company, prop: StockProperty,
                   download: string -> Option<string>,
                   findText: (string, string) -> Option<string>, today: int) returns (r: Outcome)
      requires Valid()
      modifies this, db
      ensures Valid()
      // the one-page cache
      ensures var url := FetchUrl(prop, company);
        if old(lastUrl) == Some(url) then
          downloads == old(downloads) && lastUrl == old(lastUrl) && lastPage == old(lastPage)
        else
          downloads == old(downloads) + [url]
          && (download(url).Some? ==> lastUrl == Some(url) && lastPage == download(url))
          && (download(url).None? ==> lastUrl == old(lastUrl) && lastPage == old(lastPage))
      // the tables
      ensures var url := FetchUrl(prop, company);
        if old(lastUrl) != Some(url) && download(url).None? then
          r == DownloadFailed && Store(db.values, db.history, db.nextValue) == old(Store(db.values, db.history, db.nextValue))
        else
          var page := if old(lastUrl) == Some(url) then old(lastPage).value else download(url).value;
          (r, Store(db.values, db.history, db.nextValue))
            == ExtractFrom(old(Store(db.values, db.history, db.nextValue)), company, prop, page, findText, today)
      ensures old(db.Valid()) ==> db.Valid()
      ensures db.sectors == old(db.sectors) && db.companies == old(db.companies)
      ensures db.properties == old(db.properties)
      ensures db.nextSector == old(db.nextSector) && db.nextCompany == old(db.nextCompany)
    {
      var url := FetchUrl(prop, company);
      var fetched := Fetch(url, download);
      if fetched.None? {
        return DownloadFailed;
      }
      var page := fetched.value;
      var st := Store(db.values, db.history, db.nextValue);
      var (out, st') := ExtractFrom(st, company, prop, page, findText, today);
      if StoreValid(st) {
        ExtractKeepsValid(st, company, prop, page, findText, today);
      }
      db.values, db.history, db.nextValue := st'.values, st'.history, st'.nextValue;
      r := out;
    }

    /**
     * The one-page cache: the page of the last URL when the URL is the same;
     * otherwise a download, remembered when it succeeds.
     */
    method Fetch(url: string, download: string -> Option<string>) returns (page: Option<string>)
      requires Valid()
      modifies this
      ensures Valid()
      ensures if old(lastUrl) == Some(url) then
          page == old(lastPage) && page.Some?
          && downloads == old(downloads) && lastUrl == old(lastUrl) && lastPage == old(lastPage)
        else
          page == download(url) && downloads == old(downloads) + [url]
          && (page.Some? ==> lastUrl == Some(url) && lastPage == page)
          && (page.None? ==> lastUrl == old(lastUrl) && lastPage == old(lastPage))
    {
      if lastUrl == Some(url) {
        page := lastPage;
      } else {
        downloads := downloads + [url];
        page := download(url);
        if page.Some? {
          lastUrl, lastPage := Some(url), page;
        }
      }
    }
  }
}
