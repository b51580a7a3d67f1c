/**
 * The company import from the symbol provider (`SymbolsClient`): each
 * `company` element of the provider's document is read field by field;
 * complete records update every company with the same symbol, or create
 * one, after finding or creating the record's sector by name.
 *
 * One element's effect is the pure `ImportOne` over a `Catalog` (the sector
 * and company tables); `ImportAll` folds it over the elements, stopping at
 * the first exception; the method `LoadSymbols` does the same with loops on
 * the database object.
 */
module Symbols {
  import opened Wrappers
  import opened Text
  import opened Models

  // ---------------------------------------------------------------------
  // reading a company element

  /** A child element of a `company` element: its tag and its text nodes, in document order. */
  datatype Field = Field(tag: string, texts: seq<string>)

  /** A `company` element, as the sequence of its descendant elements. */
  type Element = seq<Field>

  /** `"".join(texts)`. */
  function Concat(texts: seq<string>): string
  {
    if texts == [] then [] else texts[0] + Concat(texts[1..])
  }

  /**
   * `__elem_value(elem, tag)`: `None` when no descendant has the tag;
   * otherwise the first one's text, joined and stripped.
   */
  function ElemValue(e: Element, tag: string): Option<string>
  {
    if e == [] then None
    else if e[0].tag == tag then Some(Strip(Concat(e[0].texts)))
    else ElemValue(e[1..], tag)
  }

  /** The value is `None` exactly when no field has the tag, and otherwise that of the first such field. */
  lemma {:induction false} ElemValueFirst(e: Element, tag: string)
    ensures ElemValue(e, tag).None? <==> forall i :: 0 <= i < |e| ==> e[i].tag != tag
    ensures ElemValue(e, tag).Some? ==>
      exists i :: 0 <= i < |e| && e[i].tag == tag && ElemValue(e, tag).value == Strip(Concat(e[i].texts))
                 && forall j :: 0 <= j < i ==> e[j].tag != tag
  {
    if e != [] && e[0].tag != tag {
      ElemValueFirst(e[1..], tag);
      assert forall i :: 1 <= i < |e| ==> e[i] == e[1..][i - 1];
      if ElemValue(e, tag).Some? {
        var i :| 0 <= i < |e[1..]| && e[1..][i].tag == tag && ElemValue(e, tag).value == Strip(Concat(e[1..][i].texts))
                 && forall j :: 0 <= j < i ==> e[1..][j].tag != tag;
        assert e[i + 1].tag == tag;
      }
    }
  }

  /** The eight fields a company record needs. */
  datatype Record = Record(
    name: string, currency: string, exchange: string, size: string,
    sector: string, symbol: string, isin: string, guess: string)

  /** The record of an element; `None` when any of the eight fields is missing. */
  function ReadRecord(e: Element): Option<Record>
  {
    var name, currency, exchange := ElemValue(e, "name"), ElemValue(e, "currency"), ElemValue(e, "exchange");
    var size, sector, symbol := ElemValue(e, "size"), ElemValue(e, "sector"), ElemValue(e, "symbol");
    var isin, guess := ElemValue(e, "isin"), ElemValue(e, "reuters-symbol-guess");
    if name.None? || currency.None? || exchange.None? || size.None? || sector.None? || symbol.None?
       || isin.None? || guess.None?
    then None
    else Some(Record(name.value, currency.value, exchange.value, size.value,
                     sector.value, symbol.value, isin.value, guess.value))
  }

  /** `SIZE_MAP`: the provider's size names to size codes; `None` is the `KeyError`. */
  function SizeMap(size: string): (r: Option<string>)
    ensures r.Some? ==> r.value in Codes(SIZES)
  {
    SizeCodes(if size == "LARGE" then "L" else if size == "MID" then "M" else "S");
    if size == "LARGE" then Some("L")
    else if size == "MID" then Some("M")
    else if size == "SMALL" then Some("S")
    else None
  }

  /** Exactly LARGE, MID and SMALL are mapped, to L, M and S, and every size code is reached. */
  lemma SizeMapExact(size: string)
    ensures SizeMap(size).Some? <==> size in ["LARGE", "MID", "SMALL"]
    ensures SizeMap("LARGE") == Some("L") && SizeMap("MID") == Some("M") && SizeMap("SMALL") == Some("S")
    ensures forall code :: code in Codes(SIZES) ==> exists s :: SizeMap(s) == Some(code)
  {
    SizeCodes("");
    forall code | code in Codes(SIZES) ensures exists s :: SizeMap(s) == Some(code) {
      if code == "L" { assert SizeMap("LARGE") == Some(code); }
      else if code == "M" { assert SizeMap("MID") == Some(code); }
      else { assert SizeMap("SMALL") == Some(code); }
    }
  }

  // ---------------------------------------------------------------------
  // the sector and company tables

  datatype Catalog = Catalog(sectors: seq<Sector>, companies: seq<Company>, nextSector: nat, nextCompany: nat)

  predicate CatalogValid(cat: Catalog) {
    SectorIdsUnique(cat.sectors, cat.nextSector) && SectorNamesUnique(cat.sectors)
    && CompanyIdsUnique(cat.companies, cat.nextCompany)
  }

  /** The positions of the sectors with a name, in table order. */
  function SectorsNamed(sectors: seq<Sector>, name: string): (r: seq<nat>)
    ensures forall k :: 0 <= k < |r| ==> r[k] < |sectors| && sectors[r[k]].name == name
    ensures forall j :: 0 <= j < |sectors| && sectors[j].name == name ==> j in r
  {
    if sectors == [] then []
    else
      var n := |sectors| - 1;
      var r := SectorsNamed(sectors[..n], name);
      assert forall j :: 0 <= j < n ==> sectors[..n][j] == sectors[j];
      if sectors[n].name == name then r + [n] else r
  }

  /** With unique names a name is found at most once. */
  lemma NamedAtMostOnce(sectors: seq<Sector>, name: string)
    requires SectorNamesUnique(sectors)
    ensures |SectorsNamed(sectors, name)| <= 1
  {
    var r := SectorsNamed(sectors, name);
    if |r| > 1 {
      var a, b := r[0], r[1];
      if a == b {
        NamedDistinct(sectors, name);
      } else if a < b {
        assert false;
      } else {
        assert false;
      }
    }
  }

  lemma {:induction false} NamedDistinct(sectors: seq<Sector>, name: string)
    ensures forall k, l :: 0 <= k < l < |SectorsNamed(sectors, name)| ==>
              SectorsNamed(sectors, name)[k] < SectorsNamed(sectors, name)[l]
  {
    if sectors != [] {
      var n := |sectors| - 1;
      NamedDistinct(sectors[..n], name);
    }
  }

  /**
   * `get_sector_by_name`: the sector with the name, or a new one with the
   * next id; `None` when several have the name (the lookup raises).
   */
  function SectorFor(cat: Catalog, name: string): Option<(Catalog, Sector)>
  {
    var found := SectorsNamed(cat.sectors, name);
    if |found| > 1 then None
    else if |found| == 1 then Some((cat, cat.sectors[found[0]]))
    else
      var s := Sector(cat.nextSector, name);
      Some((cat.(sectors := cat.sectors + [s], nextSector := cat.nextSector + 1), s))
  }

  /**
   * The lookup never fails on a valid catalog; it returns the sector with
   * that name; it changes nothing when one exists and otherwise adds
   * exactly that sector; and the catalog stays valid.
   */
  lemma SectorForFindsOrCreates(cat: Catalog, name: string)
    requires CatalogValid(cat)
    ensures SectorFor(cat, name).Some?
    ensures var (cat', s) := SectorFor(cat, name).value;
      && s.name == name
      && s in cat'.sectors
      && CatalogValid(cat')
      && cat'.companies == cat.companies && cat'.nextCompany == cat.nextCompany
      && ((exists j :: 0 <= j < |cat.sectors| && cat.sectors[j].name == name) ==> cat' == cat)
      && ((forall j :: 0 <= j < |cat.sectors| ==> cat.sectors[j].name != name) ==>
            cat'.sectors == cat.sectors + [s] && s.id == cat.nextSector)
  {
    NamedAtMostOnce(cat.sectors, name);
    var found := SectorsNamed(cat.sectors, name);
    var (cat', s) := SectorFor(cat, name).value;
    if |found| == 0 {
      assert cat'.sectors[|cat.sectors|] == s;
    } else {
      assert cat.sectors[found[0]].name == name;
    }
  }

  /** A second lookup of the same name creates nothing and returns the same sector. */
  lemma SectorForIdempotent(cat: Catalog, name: string)
    requires CatalogValid(cat)
    ensures SectorFor(cat, name).Some?
    ensures var (cat1, s1) := SectorFor(cat, name).value;
      SectorFor(cat1, name) == Some((cat1, s1))
  {
    SectorForFindsOrCreates(cat, name);
    var (cat1, s1) := SectorFor(cat, name).value;
    var j :| 0 <= j < |cat1.sectors| && cat1.sectors[j] == s1;
    SectorForExisting(cat1, name, j);
  }

  /** A name held by a sector of a table with unique names finds that sector and changes nothing. */
  lemma SectorForExisting(cat: Catalog, name: string, j: nat)
    requires SectorNamesUnique(cat.sectors)
    requires j < |cat.sectors| && cat.sectors[j].name == name
    ensures SectorFor(cat, name) == Some((cat, cat.sectors[j]))
  {
    NamedAtMostOnce(cat.sectors, name);
    var found := SectorsNamed(cat.sectors, name);
    assert j in found;
    assert found[0] == j;
  }

  /** The positions of the companies with a symbol, in table order (`Company.objects.filter(symbol=...)`). */
  function WithSymbol(companies: seq<Company>, symbol: string): (r: seq<nat>)
    ensures forall k :: 0 <= k < |r| ==> r[k] < |companies| && companies[r[k]].symbol == symbol
    ensures forall j :: 0 <= j < |companies| && companies[j].symbol == symbol ==> j in r
    ensures forall k, l :: 0 <= k < l < |r| ==> r[k] < r[l]
  {
    if companies == [] then []
    else
      var n := |companies| - 1;
      var r := WithSymbol(companies[..n], symbol);
      assert forall j :: 0 <= j < n ==> companies[..n][j] == companies[j];
      if companies[n].symbol == symbol then r + [n] else r
  }

  lemma {:induction false} WithSymbolNone(companies: seq<Company>, symbol: string)
    requires forall j :: 0 <= j < |companies| ==> companies[j].symbol != symbol
    ensures WithSymbol(companies, symbol) == []
  {
    if companies != [] {
      var n := |companies| - 1;
      WithSymbolNone(companies[..n], symbol);
    }
  }

  /** The fields an update writes: everything from the record except the symbol itself. */
  function Refresh(c: Company, rec: Record, code: string, sectorId: nat): Company
  {
    c.(name := rec.name, currency := rec.currency, size := code, exchange := rec.exchange,
       sectorId := sectorId, isin := rec.isin, guess := rec.guess)
  }

  /** Every company with the record's symbol refreshed, every other one as it was. */
  function RefreshAll(companies: seq<Company>, rec: Record, code: string, sectorId: nat): (r: seq<Company>)
    ensures |r| == |companies|
  {
    seq(|companies|, j requires 0 <= j < |companies| =>
      if companies[j].symbol == rec.symbol then Refresh(companies[j], rec, code, sectorId) else companies[j])
  }

  /** A new company from a record; it has no ticker correction yet. */
  function NewCompany(id: nat, rec: Record, code: string, sectorId: nat): Company
  {
    Company(id, rec.name, rec.symbol, rec.currency, rec.exchange, code, sectorId, rec.isin, rec.guess, None)
  }

  /** The company half of one import: refresh every company with the symbol, or add one. */
  function StoreRecord(cat: Catalog, rec: Record, code: string, sectorId: nat): Catalog
  {
    if |WithSymbol(cat.companies, rec.symbol)| > 0 then
      cat.(companies := RefreshAll(cat.companies, rec, code, sectorId))
    else
      cat.(companies := cat.companies + [NewCompany(cat.nextCompany, rec, code, sectorId)],
           nextCompany := cat.nextCompany + 1)
  }

  /** What importing one element ends in: the new tables, and whether an exception was raised. */
  datatype Step = Step(cat: Catalog, raised: bool)

  /**
   * One iteration of `load_symbols`: skip an incomplete record; otherwise
   * find or create the sector, map the size (an unknown size raises, after
   * the sector is created), then refresh every company with the symbol, or
   * create one.
   */
  function ImportOne(cat: Catalog, e: Element): Step
  {
    match ReadRecord(e)
    case None => Step(cat, false)
    case Some(rec) =>
      match SectorFor(cat, rec.sector)
      case None => Step(cat, true)
      case Some((cat1, s)) =>
        match SizeMap(rec.size)
        case None => Step(cat1, true)
        case Some(code) => Step(StoreRecord(cat1, rec, code, s.id), false)
  }

  /** `load_symbols` over a list of elements: one after the other, stopping at the first exception. */
  function ImportAll(cat: Catalog, elements: seq<Element>): Step
  {
    if elements == [] then Step(cat, false)
    else
      var before := ImportAll(cat, elements[..|elements| - 1]);
      if before.raised then before else ImportOne(before.cat, elements[|elements| - 1])
  }

  /** An element missing any of the eight fields changes nothing. */
  lemma SkipsIncomplete(cat: Catalog, e: Element, tag: string)
    requires tag in ["name", "currency", "exchange", "size", "sector", "symbol", "isin", "reuters-symbol-guess"]
    requires forall i :: 0 <= i < |e| ==> e[i].tag != tag
    ensures ImportOne(cat, e) == Step(cat, false)
  {
    ElemValueFirst(e, tag);
  }

  /**
   * A listed symbol: every company with it is refreshed, none is added, no
   * other company changes, and the ids stay unique.
   */
  lemma StoreRecordRefreshes(cat: Catalog, rec: Record, code: string, sectorId: nat)
    requires CompanyIdsUnique(cat.companies, cat.nextCompany)
    requires exists j :: 0 <= j < |cat.companies| && cat.companies[j].symbol == rec.symbol
    ensures var cat' := StoreRecord(cat, rec, code, sectorId);
      && cat'.companies == RefreshAll(cat.companies, rec, code, sectorId)
      && cat'.sectors == cat.sectors && cat'.nextSector == cat.nextSector && cat'.nextCompany == cat.nextCompany
      && CompanyIdsUnique(cat'.companies, cat'.nextCompany)
  {
    var j :| 0 <= j < |cat.companies| && cat.companies[j].symbol == rec.symbol;
    assert j in WithSymbol(cat.companies, rec.symbol);
    RefreshAllKeepsIds(cat.companies, cat.nextCompany, rec, code, sectorId);
  }

  /** Refreshing changes no id, so unique ids stay unique. */
  lemma RefreshAllKeepsIds(companies: seq<Company>, next: nat, rec: Record, code: string, sectorId: nat)
    requires CompanyIdsUnique(companies, next)
    ensures CompanyIdsUnique(RefreshAll(companies, rec, code, sectorId), next)
  {
    var cs := RefreshAll(companies, rec, code, sectorId);
    assert forall i :: 0 <= i < |cs| ==> cs[i].id == companies[i].id;
  }

  /** A new symbol: exactly one company is added, with the next id, and the ids stay unique. */
  lemma StoreRecordCreates(cat: Catalog, rec: Record, code: string, sectorId: nat)
    requires CompanyIdsUnique(cat.companies, cat.nextCompany)
    requires forall j :: 0 <= j < |cat.companies| ==> cat.companies[j].symbol != rec.symbol
    ensures var cat' := StoreRecord(cat, rec, code, sectorId);
      && cat'.companies == cat.companies + [NewCompany(cat.nextCompany, rec, code, sectorId)]
      && cat'.sectors == cat.sectors && cat'.nextSector == cat.nextSector
      && CompanyIdsUnique(cat'.companies, cat'.nextCompany)
  {
    WithSymbolNone(cat.companies, rec.symbol);
  }

  lemma StoreRecordValid(cat: Catalog, rec: Record, code: string, sectorId: nat)
    requires CatalogValid(cat)
    ensures CatalogValid(StoreRecord(cat, rec, code, sectorId))
  {
    if exists j :: 0 <= j < |cat.companies| && cat.companies[j].symbol == rec.symbol {
      StoreRecordRefreshes(cat, rec, code, sectorId);
    } else {
      StoreRecordCreates(cat, rec, code, sectorId);
    }
  }

  /** Storing the same record twice is storing it once. */
  lemma StoreRecordIdempotent(cat: Catalog, rec: Record, code: string, sectorId: nat)
    requires CompanyIdsUnique(cat.companies, cat.nextCompany)
    ensures var cat' := StoreRecord(cat, rec, code, sectorId);
      StoreRecord(cat', rec, code, sectorId) == cat'
  {
    var cat' := StoreRecord(cat, rec, code, sectorId);
    var i: nat;
    if exists j :: 0 <= j < |cat.companies| && cat.companies[j].symbol == rec.symbol {
      StoreRecordRefreshes(cat, rec, code, sectorId);
      i :| 0 <= i < |cat.companies| && cat.companies[i].symbol == rec.symbol;
      RefreshAllTwice(cat.companies, rec, code, sectorId);
    } else {
      StoreRecordCreates(cat, rec, code, sectorId);
      i := |cat.companies|;
      RefreshAllNew(cat.companies, NewCompany(cat.nextCompany, rec, code, sectorId), rec, code, sectorId);
    }
    assert cat'.companies[i].symbol == rec.symbol;
    StoreRecordRefreshes(cat', rec, code, sectorId);
  }

  /** Refreshing twice with the same record is refreshing once. */
  lemma RefreshAllTwice(companies: seq<Company>, rec: Record, code: string, sectorId: nat)
    ensures var r := RefreshAll(companies, rec, code, sectorId);
      RefreshAll(r, rec, code, sectorId) == r
  {
    var r := RefreshAll(companies, rec, code, sectorId);
    forall j | 0 <= j < |r| && r[j].symbol == rec.symbol
      ensures Refresh(r[j], rec, code, sectorId) == r[j]
    {
      assert r[j] == Refresh(companies[j], rec, code, sectorId);
    }
    RefreshAllFixed(r, rec, code, sectorId);
  }

  /** A company just created from the record is not changed by refreshing with it. */
  lemma RefreshAllNew(companies: seq<Company>, c: Company, rec: Record, code: string, sectorId: nat)
    requires forall j :: 0 <= j < |companies| ==> companies[j].symbol != rec.symbol
    requires c == NewCompany(c.id, rec, code, sectorId)
    ensures RefreshAll(companies + [c], rec, code, sectorId) == companies + [c]
  {
    var cs := companies + [c];
    assert Refresh(c, rec, code, sectorId) == c;
    forall j | 0 <= j < |cs| && cs[j].symbol == rec.symbol
      ensures Refresh(cs[j], rec, code, sectorId) == cs[j]
    {
      assert j == |companies|;
    }
    RefreshAllFixed(cs, rec, code, sectorId);
  }

  /** Companies that already carry the record's data are left as they are. */
  lemma RefreshAllFixed(companies: seq<Company>, rec: Record, code: string, sectorId: nat)
    requires forall j :: 0 <= j < |companies| && companies[j].symbol == rec.symbol ==>
      Refresh(companies[j], rec, code, sectorId) == companies[j]
    ensures RefreshAll(companies, rec, code, sectorId) == companies
  {
  }

  /** Only the sector table decides what the sector lookup finds. */
  lemma SectorForSectorsOnly(cat: Catalog, other: Catalog, name: string, s: Sector)
    requires SectorFor(cat, name) == Some((cat, s))
    requires other.sectors == cat.sectors && other.nextSector == cat.nextSector
    ensures SectorFor(other, name) == Some((other, s))
  {
  }

  /**
   * A complete record with a known size: the sector is the one named (found
   * or created), the companies are stored as `StoreRecord` says, nothing is
   * raised and the catalog stays valid.
   */
  lemma ImportOneEffect(cat: Catalog, e: Element, rec: Record, code: string)
    requires CatalogValid(cat)
    requires ReadRecord(e) == Some(rec) && SizeMap(rec.size) == Some(code)
    ensures SectorFor(cat, rec.sector).Some?
    ensures var (cat1, s) := SectorFor(cat, rec.sector).value;
      && ImportOne(cat, e) == Step(StoreRecord(cat1, rec, code, s.id), false)
      && s.name == rec.sector
      && CatalogValid(ImportOne(cat, e).cat)
  {
    SectorForFindsOrCreates(cat, rec.sector);
    var (cat1, s) := SectorFor(cat, rec.sector).value;
    StoreRecordValid(cat1, rec, code, s.id);
  }

  /** An unknown size raises after the sector has been looked up or created; no company changes. */
  lemma UnknownSizeRaises(cat: Catalog, e: Element, rec: Record)
    requires CatalogValid(cat)
    requires ReadRecord(e) == Some(rec) && SizeMap(rec.size).None?
    ensures SectorFor(cat, rec.sector).Some?
    ensures ImportOne(cat, e) == Step(SectorFor(cat, rec.sector).value.0, true)
    ensures ImportOne(cat, e).cat.companies == cat.companies
  {
    SectorForFindsOrCreates(cat, rec.sector);
  }

  /** Importing the same element twice leaves the tables as the first import left them. */
  lemma ImportOneIdempotent(cat: Catalog, e: Element)
    requires CatalogValid(cat)
    requires !ImportOne(cat, e).raised
    ensures ImportOne(ImportOne(cat, e).cat, e) == ImportOne(cat, e)
  {
    if ReadRecord(e).Some? {
      var rec := ReadRecord(e).value;
      SectorForFindsOrCreates(cat, rec.sector);
      var (cat1, s) := SectorFor(cat, rec.sector).value;
      var code := SizeMap(rec.size).value;
      ImportOneEffect(cat, e, rec, code);
      var cat2 := StoreRecord(cat1, rec, code, s.id);
      assert cat2.sectors == cat1.sectors;
      var j :| 0 <= j < |cat1.sectors| && cat1.sectors[j] == s;
      SectorForExisting(cat2, rec.sector, j);
      StoreRecordIdempotent(cat1, rec, code, s.id);
    }
  }

  /** Every import keeps the catalog valid, whatever the elements. */
  lemma {:induction false} ImportAllValid(cat: Catalog, elements: seq<Element>)
    requires CatalogValid(cat)
    ensures CatalogValid(ImportAll(cat, elements).cat)
  {
    if elements != [] {
      var before := ImportAll(cat, elements[..|elements| - 1]);
      ImportAllValid(cat, elements[..|elements| - 1]);
      if !before.raised {
        ImportOneValid(before.cat, elements[|elements| - 1]);
      }
    }
  }

  lemma ImportOneValid(cat: Catalog, e: Element)
    requires CatalogValid(cat)
    ensures CatalogValid(ImportOne(cat, e).cat)
  {
    if ReadRecord(e).Some? {
      var rec := ReadRecord(e).value;
      if SizeMap(rec.size).Some? {
        ImportOneEffect(cat, e, rec, SizeMap(rec.size).value);
      } else {
        SectorForFindsOrCreates(cat, rec.sector);
      }
    }
  }

  // ---------------------------------------------------------------------
  // the import on the database object

  /** `load_symbols`, with the document's `company` elements given; tells whether it raised. */
  method LoadSymbols(db: Database, elements: seq<Element>) returns (raised: bool)
    modifies db
    ensures Step(Catalog(db.sectors, db.companies, db.nextSector, db.nextCompany), raised)
         == ImportAll(old(Catalog(db.sectors, db.companies, db.nextSector, db.nextCompany)), elements)
    ensures old(db.Valid()) ==> db.Valid()
    ensures db.properties == old(db.properties) && db.values == old(db.values)
    ensures db.history == old(db.history) && db.nextValue == old(db.nextValue)
  {
    ghost var start := Catalog(db.sectors, db.companies, db.nextSector, db.nextCompany);
    raised := false;
    var i := 0;
    while i < |elements|
      invariant 0 <= i <= |elements|
      invariant Step(Catalog(db.sectors, db.companies, db.nextSector, db.nextCompany), false)
             == ImportAll(start, elements[..i])
      invariant db.properties == old(db.properties) && db.values == old(db.values)
      invariant db.history == old(db.history) && db.nextValue == old(db.nextValue)
    {
      assert elements[..i + 1][..i] == elements[..i];
      raised := ImportElement(db, elements[i]);
      if raised {
        ImportAllStops(start, elements, i + 1);
        if old(db.Valid()) {
          ImportAllValid(start, elements);
        }
        return;
      }
      i := i + 1;
    }
    assert elements[..i] == elements;
    if old(db.Valid()) {
      ImportAllValid(start, elements);
    }
  }

  /** One iteration of the loop in `load_symbols`. */
  method ImportElement(db: Database, e: Element) returns (raised: bool)
    modifies db
    ensures Step(Catalog(db.sectors, db.companies, db.nextSector, db.nextCompany), raised)
         == ImportOne(old(Catalog(db.sectors, db.companies, db.nextSector, db.nextCompany)), e)
    ensures db.properties == old(db.properties) && db.values == old(db.values)
    ensures db.history == old(db.history) && db.nextValue == old(db.nextValue)
  {
    var cat := Catalog(db.sectors, db.companies, db.nextSector, db.nextCompany);
    var rec := ReadRecord(e);
    if rec.None? {
      return false;
    }
    var r := rec.value;
    var found := SectorFor(cat, r.sector);
    if found.None? {
      return true;
    }
    var (cat1, s) := found.value;
    db.sectors, db.nextSector := cat1.sectors, cat1.nextSector;
    var code := SizeMap(r.size);
    if code.None? {
      return true;
    }
    assert ImportOne(cat, e) == Step(StoreRecord(cat1, r, code.value, s.id), false);
    var listed := WithSymbol(db.companies, r.symbol);
    if |listed| > 0 {
      RefreshListed(db, listed, r, code.value, s.id);
    } else {
      db.companies := db.companies + [NewCompany(db.nextCompany, r, code.value, s.id)];
      db.nextCompany := db.nextCompany + 1;
    }
    raised := false;
  }

  /** The inner loop: refresh, one by one, the companies the symbol query listed. */
  method RefreshListed(db: Database, listed: seq<nat>, r: Record, code: string, sectorId: nat)
    requires listed == WithSymbol(db.companies, r.symbol)
    modifies db`companies
    ensures db.companies == RefreshAll(old(db.companies), r, code, sectorId)
  {
    ghost var before := db.companies;
    var k := 0;
    assert listed[..0] == [];
    while k < |listed|
      invariant 0 <= k <= |listed|
      invariant listed == WithSymbol(before, r.symbol)
      invariant db.companies == RefreshedAt(before, listed[..k], r, code, sectorId)
    {
      var j := listed[k];
      PrefixSnoc(listed, k);
      ListedOnce(before, r.symbol, k);
      RefreshedAtStep(before, listed[..k], j, r, code, sectorId);
      db.companies := db.companies[j := Refresh(db.companies[j], r, code, sectorId)];
      k := k + 1;
    }
    assert listed[..|listed|] == listed;
    RefreshedAtListed(before, r, code, sectorId);
  }

  /** One more element of a prefix. */
  lemma PrefixSnoc(s: seq<nat>, k: nat)
    requires k < |s|
    ensures s[..k + 1] == s[..k] + [s[k]]
  {
  }

  /** The symbol query lists each position once, in order. */
  lemma ListedOnce(companies: seq<Company>, symbol: string, k: nat)
    requires k < |WithSymbol(companies, symbol)|
    ensures var listed := WithSymbol(companies, symbol);
      listed[k] < |companies| && listed[k] !in listed[..k]
  {
    var listed := WithSymbol(companies, symbol);
    assert forall i :: 0 <= i < k ==> listed[..k][i] == listed[i];
  }

  /** The companies after refreshing those at the positions in `done`. */
  ghost function RefreshedAt(before: seq<Company>, done: seq<nat>, r: Record, code: string, sectorId: nat): (cs: seq<Company>)
    ensures |cs| == |before|
  {
    seq(|before|, j requires 0 <= j < |before| =>
      if j in done then Refresh(before[j], r, code, sectorId) else before[j])
  }

  /** Refreshing one more position not yet done. */
  lemma RefreshedAtStep(before: seq<Company>, done: seq<nat>, j: nat, r: Record, code: string, sectorId: nat)
    requires j < |before| && j !in done
    ensures var cs := RefreshedAt(before, done, r, code, sectorId);
      RefreshedAt(before, done + [j], r, code, sectorId) == cs[j := Refresh(cs[j], r, code, sectorId)]
  {
    var cs := RefreshedAt(before, done, r, code, sectorId);
    var cs' := RefreshedAt(before, done + [j], r, code, sectorId);
    forall i | 0 <= i < |before|
      ensures cs'[i] == cs[j := Refresh(cs[j], r, code, sectorId)][i]
    {
      assert (i in done + [j]) == (i in done || i == j);
    }
  }

  /** Refreshing exactly the positions the symbol query lists is refreshing every company with the symbol. */
  lemma RefreshedAtListed(before: seq<Company>, r: Record, code: string, sectorId: nat)
    ensures RefreshedAt(before, WithSymbol(before, r.symbol), r, code, sectorId) == RefreshAll(before, r, code, sectorId)
  {
    var listed := WithSymbol(before, r.symbol);
    forall j | 0 <= j < |before|
      ensures (j in listed) == (before[j].symbol == r.symbol)
    {
      if j in listed {
        var k :| 0 <= k < |listed| && listed[k] == j;
      }
    }
  }

  /** Once an import raises, the later elements are not looked at. */
  lemma {:induction false} ImportAllStops(cat: Catalog, elements: seq<Element>, i: nat)
    requires i <= |elements| && ImportAll(cat, elements[..i]).raised
    ensures ImportAll(cat, elements) == ImportAll(cat, elements[..i])
    decreases |elements| - i
  {
    if i < |elements| {
      assert elements[..i + 1][..i] == elements[..i];
      ImportAllStops(cat, elements, i + 1);
    } else {
      assert elements[..i] == elements;
    }
  }
}
