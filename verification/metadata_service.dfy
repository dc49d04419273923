/** Asset classification: a holding is a stock or a real-estate fund
    (FII), decided from its name and ticker. */
module MetadataService {
  import opened Types
  import opened Text

  /** Units (share bundles) that trade under an `11` code like funds but
      are stocks. */
  const KnownUnits: set<string> := {"TAEE11", "ALUP11", "KLBN11", "SAPR11", "SANB11", "AESB11", "TIET11", "ENGI11", "CPLE11"}

  /** The ticker with its first `.SA` removed, upper-cased. */
  function CleanTicker(ticker: string): string {
    Upper(RemoveFirst(ticker, ".SA"))
  }

  /** The name marks a fund. */
  predicate NamesFund(name: string) {
    var upperName := Upper(name);
    Contains(upperName, "FUNDO INVEST") || Contains(upperName, "INV IMOB") || Contains(upperName, "FII")
  }

  /** `determineAssetClass`. The quote type is accepted and ignored. */
  function DetermineAssetClass(ticker: string, name: string, quoteType: string): (r: AssetClass)
    ensures NamesFund(name) ==> r == Fii
    ensures !NamesFund(name) ==> (r == Fii <==> EndsWith(CleanTicker(ticker), "11") && CleanTicker(ticker) !in KnownUnits)
  {
    if NamesFund(name) then Fii
    else
      var cleanTicker := CleanTicker(ticker);
      if EndsWith(cleanTicker, "11") then
        if cleanTicker in KnownUnits then Stock else Fii
      else Stock
  }

  /** Every known unit has an `11` code, so the unit list only ever
      overrides the `11` rule. */
  lemma KnownUnitsEndIn11(u: string)
    requires u in KnownUnits
    ensures EndsWith(u, "11")
  {
  }

  /** The quote type has no influence on the class. */
  lemma QuoteTypeIgnored(ticker: string, name: string, q1: string, q2: string)
    ensures DetermineAssetClass(ticker, name, q1) == DetermineAssetClass(ticker, name, q2)
  {
  }

  /** A normalised ticker and its bare code classify alike. */
  lemma SuffixIgnored(code: string, name: string, quoteType: string)
    requires !Contains(code, ".SA")
    ensures DetermineAssetClass(code + ".SA", name, quoteType) == DetermineAssetClass(code, name, quoteType)
  {
    RemoveAppendedSuffix(code);
  }

  /** The profile recorded when the quote service fails for `ticker`. */
  function FallbackProfile(ticker: string): (r: AssetProfile)
    ensures r.ticker == ticker && r.name == ticker
    ensures r.sector == "Unknown" && r.industry == "Unknown" && r.quoteType == "Unknown"
    ensures r.assetClass == DetermineAssetClass(ticker, ticker, "Unknown")
  {
    AssetProfile(ticker, ticker, "Unknown", "Unknown", "Unknown", DetermineAssetClass(ticker, ticker, "Unknown"))
  }

  /** The quote supplied a usable (present, non-empty) text. */
  predicate Supplied(v: Option<string>) {
    v.Some? && v.value != ""
  }

  /** The profile built from a quote: missing or empty fields fall back to
      the price module's long name and then the ticker, to "Unknown", and
      to "EQUITY"; the class is computed from the chosen name. */
  function ProfileFromQuote(ticker: string, quoteLongName: Option<string>, priceLongName: Option<string>,
                            sector: Option<string>, industry: Option<string>, quoteType: Option<string>): (r: AssetProfile)
    ensures r.ticker == ticker
    ensures r.name == (if Supplied(quoteLongName) then quoteLongName.value
                       else if Supplied(priceLongName) then priceLongName.value
                       else ticker)
    ensures r.sector == (if Supplied(sector) then sector.value else "Unknown")
    ensures r.industry == (if Supplied(industry) then industry.value else "Unknown")
    ensures r.quoteType == (if Supplied(quoteType) then quoteType.value else "EQUITY")
    ensures r.sector != "" && r.industry != "" && r.quoteType != ""
    ensures r.assetClass == DetermineAssetClass(ticker, r.name, r.quoteType)
  {
    var longName := OrElse(quoteLongName, OrElse(priceLongName, ticker));
    var qType := OrElse(quoteType, "EQUITY");
    AssetProfile(ticker, longName, OrElse(sector, "Unknown"), OrElse(industry, "Unknown"), qType,
                 DetermineAssetClass(ticker, longName, qType))
  }

  /** A quote that supplies nothing gives the fallback profile, except that
      its quote type reads "EQUITY" instead of "Unknown"; the class agrees
      because the quote type is ignored. */
  lemma EmptyQuoteIsFallback(ticker: string)
    ensures ProfileFromQuote(ticker, None, None, None, None, None) == FallbackProfile(ticker).(quoteType := "EQUITY")
  {
    QuoteTypeIgnored(ticker, ticker, "EQUITY", "Unknown");
  }

  /** A fallback profile is a fund exactly when the ticker's own text
      names one or its clean code is a non-unit `11`. */
  lemma FallbackClass(ticker: string)
    ensures FallbackProfile(ticker).assetClass == Fii <==>
      NamesFund(ticker) || (EndsWith(CleanTicker(ticker), "11") && CleanTicker(ticker) !in KnownUnits)
  {
  }

  /** A name without the letters F and I (in either case) names no fund. */
  lemma NoFundWords(name: string)
    requires forall i :: 0 <= i < |name| ==> name[i] !in "FfIi"
    ensures !NamesFund(name)
  {
    var u := Upper(name);
    assert 'F' !in u && 'I' !in u;
    AbsentHead(u, "FUNDO INVEST");
    AbsentHead(u, "INV IMOB");
    AbsentHead(u, "FII");
  }

  /** An upper-case exchange code with the market suffix appended, under a
      name that marks no fund, is classified by its code alone. */
  lemma ClassOfSuffixedCode(code: string, name: string, quoteType: string)
    requires !Contains(code, ".SA") && IsUpper(code) && !NamesFund(name)
    ensures DetermineAssetClass(code + ".SA", name, quoteType)
      == (if EndsWith(code, "11") && code !in KnownUnits then Fii else Stock)
  {
    RemoveAppendedSuffix(code);
    UpperOfUpper(code);
  }

  /** The name check wins over the ticker. */
  lemma FundNameExample()
    ensures DetermineAssetClass("TAEE11.SA", "Fii Taesa", "EQUITY") == Fii
  {
    LeadingFii("Fii Taesa");
  }

  /** The fallback profile of an upper-case code without the letters F and
      I, with the market suffix, is classified by the code alone. */
  lemma FallbackOfCode(code: string)
    requires |code| > 0 && forall i :: 0 <= i < |code| ==> code[i] !in "FfIi." && !('a' <= code[i] <= 'z')
    ensures FallbackProfile(code + ".SA").assetClass == (if EndsWith(code, "11") && code !in KnownUnits then Fii else Stock)
  {
    var t := code + ".SA";
    assert forall i :: 0 <= i < |t| ==> t[i] !in "FfIi" by {
      forall i | 0 <= i < |t|
        ensures t[i] !in "FfIi"
      {
        if i >= |code| {
          assert t[i] == ".SA"[i - |code|];
        }
      }
    }
    NoFundWords(t);
    AbsentHead(code, ".SA");
    ClassOfSuffixedCode(code, t, "Unknown");
  }

  /** A name that starts with "FII", in any case, marks a fund. */
  lemma LeadingFii(name: string)
    requires |name| >= 3 && UpperChar(name[0]) == 'F' && UpperChar(name[1]) == 'I' && UpperChar(name[2]) == 'I'
    ensures NamesFund(name)
  {
    var u := Upper(name);
    assert u[..3] == "FII";
    assert MatchAt(u, "FII", 0);
  }
}
