/** Ticker normalisation for the B3 exchange: every symbol the engine keys
    its holdings by carries the `.SA` market suffix. */
module B3Service {
  import opened Text

  /** `normalizeTicker`: trim and upper-case, then settle the suffix. */
  function NormalizeTicker(t: string): (r: string)
    ensures EndsWith(r, ".SA")
    ensures IsUpper(r)
    ensures IsTrimmed(r)
  {
    UpperKeepsTrimmed(Trim(t));
    WithMarketSuffix(Upper(Trim(t)))
  }

  /** The suffix rule applied to an already trimmed, upper-cased symbol: one
      ending in `.SA` is kept, otherwise one trailing fractional-market `F`
      is dropped from symbols longer than four characters and `.SA` is
      appended. */
  function WithMarketSuffix(clean: string): (r: string)
    requires IsUpper(clean) && IsTrimmed(clean)
    ensures EndsWith(r, ".SA")
    ensures IsUpper(r)
    ensures IsTrimmed(r)
    ensures EndsWith(clean, ".SA") <==> r == clean
    ensures !EndsWith(clean, ".SA") ==> |clean| + 2 <= |r| <= |clean| + 3
  {
    if EndsWith(clean, ".SA") then clean
    else
      var base := if EndsWith(clean, "F") && |clean| > 4 then clean[..|clean| - 1] else clean;
      SuffixedShape(base);
      base + ".SA"
  }

  /** Appending the market suffix to an upper-case symbol that does not
      start with whitespace gives an upper-case, trimmed ticker three
      characters longer. */
  lemma SuffixedShape(base: string)
    requires IsUpper(base) && (base == [] || !IsSpace(base[0]))
    ensures EndsWith(base + ".SA", ".SA") && IsUpper(base + ".SA") && IsTrimmed(base + ".SA")
    ensures |base + ".SA"| == |base| + 3
  {
    var r := base + ".SA";
    assert r[|base|..] == ".SA";
    assert r[0] == if base == [] then '.' else base[0];
  }

  /** The three outcomes, in terms of the trimmed upper-case input `u`. */
  lemma NormalizeTickerCases(t: string)
    ensures var u := Upper(Trim(t));
      && (EndsWith(u, ".SA") ==> NormalizeTicker(t) == u)
      && (!EndsWith(u, ".SA") && EndsWith(u, "F") && |u| > 4 ==> NormalizeTicker(t) == u[..|u| - 1] + ".SA")
      && (!EndsWith(u, ".SA") && !(EndsWith(u, "F") && |u| > 4) ==> NormalizeTicker(t) == u + ".SA")
  {
    var u := Upper(Trim(t));
    UpperKeepsTrimmed(Trim(t));
    NormalizeVia(t, u);
  }

  /** Only one `F` is removed: a doubled `F` leaves one in place. */
  lemma SecondFIsKept(clean: string)
    requires IsUpper(clean) && IsTrimmed(clean)
    requires !EndsWith(clean, ".SA") && EndsWith(clean, "FF") && |clean| > 4
    ensures EndsWith(WithMarketSuffix(clean), "F.SA")
  {
    var n := |clean|;
    EndsInTwoF(clean);
    var base := clean[..n - 1];
    assert WithMarketSuffix(clean) == base + ".SA";
    SuffixAfterF(base);
  }

  lemma EndsInTwoF(s: string)
    requires EndsWith(s, "FF")
    ensures EndsWith(s, "F") && s[|s| - 2] == 'F'
  {
    assert s[|s| - 2..][0] == s[|s| - 2];
    assert s[|s| - 1..] == [s[|s| - 2..][1]];
  }

  lemma SuffixAfterF(base: string)
    requires base != [] && base[|base| - 1] == 'F'
    ensures EndsWith(base + ".SA", "F.SA")
  {
    var r := base + ".SA";
    assert r[|r| - 4..] == [base[|base| - 1]] + ".SA";
  }

  /** Normalising twice is normalising once, so a ticker the exit adapter
      already normalised is left alone by the engine. */
  lemma {:induction false} NormalizeTickerIdempotent(t: string)
    ensures NormalizeTicker(NormalizeTicker(t)) == NormalizeTicker(t)
  {
    var r := NormalizeTicker(t);
    TrimOfTrimmed(r);
    UpperOfUpper(r);
    assert Upper(Trim(r)) == r;
    assert WithMarketSuffix(r) == r;
  }

  /** An input that is already trimmed and upper-case only has its suffix
      settled. */
  lemma NormalizeClean(t: string)
    requires IsTrimmed(t) && IsUpper(t)
    ensures NormalizeTicker(t) == WithMarketSuffix(t)
  {
    TrimOfTrimmed(t);
    UpperOfUpper(t);
  }

  /** Normalisation is the suffix rule applied to the trimmed upper-case
      input. */
  lemma NormalizeVia(t: string, u: string)
    requires Upper(Trim(t)) == u && IsTrimmed(u)
    ensures NormalizeTicker(t) == WithMarketSuffix(u)
  {
  }

  /** A fractional-market symbol loses its `F`. */
  lemma FractionalExample()
    ensures NormalizeTicker("ITUB4F") == "ITUB4.SA"
  {
    assert IsTrimmed("ITUB4F") && IsUpper("ITUB4F");
    assert WithMarketSuffix("ITUB4F") == "ITUB4.SA";
    NormalizeClean("ITUB4F");
  }

  /** Surrounding blanks and lower case are cleaned up. */
  lemma CleanupExample()
    ensures NormalizeTicker(" petr4 ") == "PETR4.SA"
  {
    CleanupTrim();
    CleanupUpper();
    CleanupSuffix();
    NormalizeVia(" petr4 ", "PETR4");
  }

  lemma CleanupSuffix()
    ensures IsTrimmed("PETR4") && IsUpper("PETR4")
    ensures WithMarketSuffix("PETR4") == "PETR4.SA"
  {
  }

  lemma CleanupTrim()
    ensures Trim(" petr4 ") == "petr4"
  {
    assert " petr4 " == [' '] + "petr4" + [' '];
    TrimPadded("petr4");
  }

  lemma CleanupUpper()
    ensures Upper("petr4") == "PETR4"
  {
    assert Upper("petr4") == [UpperChar('p')] + Upper("etr4");
    assert Upper("etr4") == [UpperChar('e')] + Upper("tr4");
    assert Upper("tr4") == [UpperChar('t')] + Upper("r4");
    assert Upper("r4") == [UpperChar('r')] + Upper("4");
  }

  /** A four-character symbol keeps its trailing `F`. */
  lemma ShortSymbolExample()
    ensures NormalizeTicker("ABCF") == "ABCF.SA"
  {
    assert IsTrimmed("ABCF") && IsUpper("ABCF");
    assert WithMarketSuffix("ABCF") == "ABCF.SA";
    NormalizeClean("ABCF");
  }
}
