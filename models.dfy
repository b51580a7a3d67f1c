/**
 * The screener's records: sectors, companies, stock properties, the current
 * value of a property for a company and that value's history, plus the two
 * fixed choice lists of a company (size and exchange). The database the
 * object-relational mapper keeps them in is one object holding a table per
 * record kind and the next free id of each table.
 */
module Models {
  import opened Wrappers
  import opened Text
  import opened Converter

  // ---------------------------------------------------------------------
  // choices

  /** A choice list: stored code and display label. */
  type Choices = seq<(string, string)>

  /** The company sizes: Large, Medium, Small. */
  const SIZES: Choices := [("L", "Large"), ("M", "Medium"), ("S", "Small")]

  /** The Nordic exchanges a company can be listed on. */
  const EXCHANGES: Choices :=
    [ ("CSE", "Copenhagen Stock Exchange"),
      ("STO", "Stockholm Stock Exchange"),
      ("HEL", "Helsinki Stock Exchange"),
      ("ISE", "Iceland Stock Exchange") ]

  /** The codes of a choice list, in order. */
  function Codes(choices: Choices): (r: seq<string>)
    ensures |r| == |choices|
    ensures forall i :: 0 <= i < |r| ==> r[i] == choices[i].0
  {
    if choices == [] then [] else [choices[0].0] + Codes(choices[1..])
  }

  /** The size codes are exactly L, M and S, each once. */
  lemma SizeCodes(code: string)
    ensures Codes(SIZES) == ["L", "M", "S"]
    ensures code in Codes(SIZES) <==> code == "L" || code == "M" || code == "S"
  {
  }

  /** The exchange codes are exactly CSE, STO, HEL and ISE, each once. */
  lemma ExchangeCodes(code: string)
    ensures Codes(EXCHANGES) == ["CSE", "STO", "HEL", "ISE"]
    ensures code in Codes(EXCHANGES) <==> code == "CSE" || code == "STO" || code == "HEL" || code == "ISE"
  {
  }

  // ---------------------------------------------------------------------
  // records

  datatype Sector = Sector(id: nat, name: string)

  /**
   * A listed company. `size` and `exchange` hold choice codes; `guess` is
   * the provider's ticker guess and `ok` the manual correction, if any.
   */
  datatype Company = Company(
    id: nat,
    name: string,
    symbol: string,
    currency: string,
    exchange: string,
    size: string,
    sectorId: nat,
    isin: string,
    guess: string,
    ok: Option<string>)

  /** How to fetch a property: the page URL (with `SYMBOL` in it), the path, and the conversion. */
  datatype StockProperty = StockProperty(id: nat, name: string, url: string, xmlPath: string, convert: Expr)

  /** The current value of one property for one company. */
  datatype PropertyValue = PropertyValue(id: nat, company: nat, property: nat, value: real)

  /** One past value of a current value (`current` is that value's id), with its date as a day number. */
  datatype HistoryEntry = HistoryEntry(current: nat, value: real, date: int)

  /** `get_reuters_symbol`: the correction whenever there is one, even an empty one; the guess otherwise. */
  function EffectiveSymbol(c: Company): (r: string)
    ensures c.ok.Some? ==> r == c.ok.value
    ensures c.ok.None? ==> r == c.guess
  {
    if c.ok.Some? then c.ok.value else c.guess
  }

  /** Setting a correction overrides the guess; removing it brings the guess back. */
  lemma CorrectionOverridesGuess(c: Company, fix: string)
    ensures EffectiveSymbol(c.(ok := Some(fix))) == fix
    ensures EffectiveSymbol(c.(ok := None)) == c.guess
    ensures EffectiveSymbol(c.(ok := Some(""))) == ""
  {
  }

  /** The page to fetch for a property and a company: every `SYMBOL` in the URL replaced by the ticker. */
  function FetchUrl(p: StockProperty, c: Company): string
  {
    Replace(p.url, "SYMBOL", EffectiveSymbol(c))
  }

  /** A URL without the placeholder is fetched as it is, whatever the company. */
  lemma FetchUrlWithoutPlaceholder(p: StockProperty, c: Company)
    requires forall i: nat :: !OccursAt(p.url, i, "SYMBOL")
    ensures FetchUrl(p, c) == p.url
  {
    ReplaceAbsent(p.url, "SYMBOL", EffectiveSymbol(c));
  }

  /** A URL with one `SYMBOL` placeholder gets the company's effective ticker in its place. */
  lemma FetchUrlFillsSymbol(pre: string, post: string, p: StockProperty, c: Company)
    requires p.url == pre + "SYMBOL" + post
    requires forall i: nat :: i < |pre| ==> !OccursAt(p.url, i, "SYMBOL")
    requires forall i: nat :: !OccursAt(post, i, "SYMBOL")
    ensures FetchUrl(p, c) == pre + EffectiveSymbol(c) + post
  {
    ReplaceFirst(pre, "SYMBOL", post, EffectiveSymbol(c));
    ReplaceAbsent(post, "SYMBOL", EffectiveSymbol(c));
  }

  // ---------------------------------------------------------------------
  // table invariants

  predicate SectorIdsUnique(sectors: seq<Sector>, next: nat)
  {
    (forall i :: 0 <= i < |sectors| ==> sectors[i].id < next)
    && forall i, j :: 0 <= i < j < |sectors| ==> sectors[i].id != sectors[j].id
  }

  /** No two sectors share a name, so a lookup by name finds at most one. */
  predicate SectorNamesUnique(sectors: seq<Sector>)
  {
    forall i, j :: 0 <= i < j < |sectors| ==> sectors[i].name != sectors[j].name
  }

  predicate CompanyIdsUnique(companies: seq<Company>, next: nat)
  {
    (forall i :: 0 <= i < |companies| ==> companies[i].id < next)
    && forall i, j :: 0 <= i < j < |companies| ==> companies[i].id != companies[j].id
  }

  predicate ValueIdsUnique(values: seq<PropertyValue>, next: nat)
  {
    (forall i :: 0 <= i < |values| ==> values[i].id < next)
    && forall i, j :: 0 <= i < j < |values| ==> values[i].id != values[j].id
  }

  /** At most one live value per (property, company) pair. */
  predicate PairsUnique(values: seq<PropertyValue>)
  {
    forall i, j :: 0 <= i < j < |values| ==>
      (values[i].property, values[i].company) != (values[j].property, values[j].company)
  }

  /** Some live value carries the id. */
  predicate HasValueId(values: seq<PropertyValue>, id: nat)
  {
    exists j :: 0 <= j < |values| && values[j].id == id
  }

  /** Every history entry hangs off a live value. */
  predicate HistoryLinked(values: seq<PropertyValue>, history: seq<HistoryEntry>)
  {
    forall k :: 0 <= k < |history| ==> HasValueId(values, history[k].current)
  }

  /** The database: one table per record kind and the next free id of each. */
  class Database {
    var sectors: seq<Sector>
    var companies: seq<Company>
    var properties: seq<StockProperty>
    var values: seq<PropertyValue>
    var history: seq<HistoryEntry>
    var nextSector: nat
    var nextCompany: nat
    var nextValue: nat

    /**
     * Ids are unique per table, sector names are unique, there is one live
     * value per pair, and every history entry belongs to a live value.
     */
    predicate Valid()
      reads this
    {
      SectorIdsUnique(sectors, nextSector)
      && SectorNamesUnique(sectors)
      && CompanyIdsUnique(companies, nextCompany)
      && ValueIdsUnique(values, nextValue)
      && PairsUnique(values)
      && HistoryLinked(values, history)
    }

    /** An empty database holding the given property definitions. */
    constructor (props: seq<StockProperty>)
      ensures Valid()
      ensures sectors == [] && companies == [] && values == [] && history == []
      ensures properties == props
    {
      sectors, companies, properties, values, history := [], [], props, [], [];
      nextSector, nextCompany, nextValue := 1, 1, 1;
    }
  }
}
