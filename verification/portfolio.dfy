/** The portfolio compilation that follows the ledger: each ledger row is
    mapped to a sheet row, the holdings are recomputed from the ledger by a
    direction rule, the positive ones are kept and split into stocks and
    real-estate funds. */
module Portfolio {
  import opened Types
  import opened Text
  import opened B3Service
  import opened Timeline
  import opened LedgerProcessor
  import opened MetadataService

  // The Unified_Ledger sheet row.

  /** A row of the ledger sheet. The date column is kept as the timestamp:
      its dd/mm/yyyy rendering is not part of this model. */
  datatype SheetRow = SheetRow(
    date: int,
    action: TxType,
    ticker: string,
    quantity: real,
    unitPrice: real,
    totalValue: real,
    source: string,
    originalFile: string)

  /** The ticker as displayed: the first `.SA` removed. */
  function DisplayTicker(t: string): string {
    RemoveFirst(t, ".SA")
  }

  /** Displaying a normalised-style ticker `s + ".SA"` gives back `s`
      whenever `s` itself has no `.SA` in it. */
  lemma DisplayDropsSuffix(s: string)
    requires !Contains(s, ".SA")
    ensures DisplayTicker(s + ".SA") == s
  {
    RemoveAppendedSuffix(s);
  }

  /** The mapping of one ledger item to its sheet row. */
  function ToSheetRow(item: LedgerItem): (r: SheetRow)
    ensures r.source == "SYSTEM" <==> item.isVirtual
    ensures r.source == "FILE" <==> !item.isVirtual
    ensures item.tx.sourceFile == None || item.tx.sourceFile == Some("") ==> r.originalFile == "N/A"
    ensures item.tx.sourceFile.Some? && item.tx.sourceFile.value != "" ==> r.originalFile == item.tx.sourceFile.value
    ensures r.ticker == DisplayTicker(item.tx.ticker)
    ensures (r.date, r.action, r.quantity, r.unitPrice, r.totalValue)
         == (item.tx.date, item.tx.txType, item.tx.quantity, item.tx.unitPrice, item.tx.totalValue)
  {
    SheetRow(
      item.tx.date, item.tx.txType, DisplayTicker(item.tx.ticker),
      item.tx.quantity, item.tx.unitPrice, item.tx.totalValue,
      if item.isVirtual then "SYSTEM" else "FILE",
      OrElse(item.tx.sourceFile, "N/A"))
  }

  function ToSheetRows(ledger: seq<LedgerItem>): (r: seq<SheetRow>)
    ensures |r| == |ledger|
    ensures forall i :: 0 <= i < |ledger| ==> r[i] == ToSheetRow(ledger[i])
  {
    if ledger == [] then [] else [ToSheetRow(ledger[0])] + ToSheetRows(ledger[1..])
  }

  /** Every virtual row of an engine ledger shows its generator's tag as
      the original file, and every file row shows "SYSTEM" nowhere. */
  lemma EngineRowsShowGenerator(ledger: seq<LedgerItem>, i: int)
    requires WellFormedLedger(ledger) && 0 <= i < |ledger|
    ensures ledger[i].isVirtual ==>
      && ToSheetRow(ledger[i]).source == "SYSTEM"
      && ToSheetRow(ledger[i]).originalFile == GeneratorOf(ledger[i].tx.txType)
    ensures !ledger[i].isVirtual ==> ToSheetRow(ledger[i]).source == "FILE"
  {
    assert WellFormedVirtual(ledger[i]);
  }

  // The holdings fold.

  /** The direction rule: the signed change a ledger row makes to its
      ticker's holding. */
  function Change(item: LedgerItem): real {
    if Grows(item.tx.txType) then item.tx.quantity else -item.tx.quantity
  }

  /** The types that add to a position; every other type subtracts. */
  predicate Grows(t: TxType) {
    t == Buy || t == Split || t == MergerIn
  }

  /** Rows that grow the position are the buy-like ones. */
  lemma ChangeDirection(item: LedgerItem)
    ensures item.tx.txType in {Buy, Split, MergerIn} ==> Change(item) == item.tx.quantity
    ensures item.tx.txType in {Sell, ReverseSplit, MergerOut, ForcedSale} ==> Change(item) == -item.tx.quantity
  {
  }

  /** A JavaScript `Map` from ticker to quantity: the values, and the keys
      in the order they were first set. */
  datatype Tally = Tally(order: seq<string>, qty: map<string, real>)

  /** No key is listed twice. */
  ghost predicate Distinct(s: seq<string>) {
    s == [] || (s[0] !in s[1..] && Distinct(s[1..]))
  }

  lemma {:induction false} DistinctAppend(s: seq<string>, k: string)
    requires Distinct(s) && k !in s
    ensures Distinct(s + [k])
  {
    if s != [] {
      assert (s + [k])[1..] == s[1..] + [k];
      DistinctAppend(s[1..], k);
    }
  }

  /** The keys are listed once each, and exactly the keys are listed. */
  ghost predicate Valid(m: Tally) {
    Distinct(m.order) && forall t :: t in m.qty <==> t in m.order
  }

  /** `map.set(k, v)`: a new key goes to the end of the order. */
  function Set(m: Tally, k: string, v: real): Tally {
    Tally(if k in m.qty then m.order else m.order + [k], m.qty[k := v])
  }

  lemma SetKeepsValid(m: Tally, k: string, v: real)
    requires Valid(m)
    ensures Valid(Set(m, k, v))
  {
    if k !in m.qty {
      DistinctAppend(m.order, k);
    }
  }

  /** One turn of the loop: the row's ticker is set to its current amount
      (zero when unseen) plus the row's change. */
  function Bump(m: Tally, item: LedgerItem): Tally {
    Set(m, item.tx.ticker, Get(m.qty, item.tx.ticker) + Change(item))
  }

  /** The loop over the ledger, from tally `m`. */
  function FoldFrom(m: Tally, ledger: seq<LedgerItem>): Tally
    decreases |ledger|
  {
    if ledger == [] then m else FoldFrom(Bump(m, ledger[0]), ledger[1..])
  }

  function Fold(ledger: seq<LedgerItem>): Tally {
    FoldFrom(Tally([], map[]), ledger)
  }

  /** The fold keeps its map well formed: every ticker listed once, and
      exactly the tickers that have a quantity. */
  lemma {:induction false} FoldKeepsValid(m: Tally, ledger: seq<LedgerItem>)
    requires Valid(m)
    ensures Valid(FoldFrom(m, ledger))
    decreases |ledger|
  {
    if ledger == [] {
      assert FoldFrom(m, ledger) == m;
    } else {
      var t := ledger[0].tx.ticker;
      var next := Bump(m, ledger[0]);
      SetKeepsValid(m, t, Get(m.qty, t) + Change(ledger[0]));
      FoldKeepsValid(next, ledger[1..]);
      FoldStep(m, ledger);
      ValidEqual(FoldFrom(next, ledger[1..]), FoldFrom(m, ledger));
    }
  }

  lemma ValidEqual(a: Tally, b: Tally)
    requires Valid(a) && a == b
    ensures Valid(b)
  {
  }

  /** One turn of the fold loop. */
  lemma FoldStep(m: Tally, ledger: seq<LedgerItem>)
    requires ledger != []
    ensures FoldFrom(m, ledger) == FoldFrom(Bump(m, ledger[0]), ledger[1..])
  {
  }

  /** Folding a concatenation folds the parts in turn. */
  lemma {:induction false} FoldAppend(m: Tally, a: seq<LedgerItem>, b: seq<LedgerItem>)
    ensures FoldFrom(m, a + b) == FoldFrom(FoldFrom(m, a), b)
    decreases |a|
  {
    if a == [] {
      assert a + b == b;
      assert FoldFrom(m, a) == m;
    } else {
      var ab := a + b;
      assert ab[0] == a[0] && ab[1..] == a[1..] + b;
      var next := Bump(m, a[0]);
      FoldStep(m, ab);
      FoldStep(m, a);
      FoldAppend(next, a[1..], b);
    }
  }

  /** The fold records exactly the tickers the ledger mentions, besides
      those it started with. */
  lemma {:induction false} FoldKeys(m: Tally, ledger: seq<LedgerItem>, t: string)
    ensures t in FoldFrom(m, ledger).qty <==> t in m.qty || exists i :: 0 <= i < |ledger| && ledger[i].tx.ticker == t
    decreases |ledger|
  {
    if ledger != [] {
      var u := ledger[0].tx.ticker;
      FoldStep(m, ledger);
      FoldKeys(Bump(m, ledger[0]), ledger[1..], t);
      if exists i :: 0 <= i < |ledger[1..]| && ledger[1..][i].tx.ticker == t {
        var i :| 0 <= i < |ledger[1..]| && ledger[1..][i].tx.ticker == t;
        assert ledger[i + 1].tx.ticker == t;
      }
      if exists i :: 0 <= i < |ledger| && ledger[i].tx.ticker == t {
        var i :| 0 <= i < |ledger| && ledger[i].tx.ticker == t;
        if i > 0 {
          assert ledger[1..][i - 1].tx.ticker == t;
        }
      }
    }
  }

  // The round trip: folding the engine's own ledger.

  /** One replay step, folded, lands on the holdings the step left. */
  lemma StepFoldAgrees(order: seq<string>, e: Event, h: Holdings)
    requires e.Trade? ==> e.tx.txType.IsRaw()
    ensures FoldFrom(Tally(order, h), Apply(e, h).rows).qty == Apply(e, h).holdings
  {
    match e
    case Trade(tx) =>
    case StockSplit(s) =>
      SplitFoldAgrees(order, s, h);
    case Merger(m) =>
      MergeFoldAgrees(order, m.date, NormalizeTicker(m.oldTicker), NormalizeTicker(m.newTicker), m.ratio, h);
    case Exit(x) =>
      LiquidateFoldAgrees(order, x.date, NormalizeTicker(x.ticker), x.price, h);
  }

  lemma SplitFoldAgrees(order: seq<string>, split: SplitEvent, h: Holdings)
    ensures FoldFrom(Tally(order, h), ApplySplit(split, h).rows).qty == ApplySplit(split, h).holdings
  {
    var cur := Get(h, split.ticker);
    if cur > 0.0 && split.ratio != 1.0 {
      var r := ApplySplit(split, h);
      SplitAdjustmentSign(cur, split.ratio);
      assert cur + Change(r.rows[0]) == Times(cur, split.ratio);
    }
  }

  lemma MergeFoldAgrees(order: seq<string>, date: int, oldT: string, newT: string, ratio: real, h: Holdings)
    ensures FoldFrom(Tally(order, h), MergeInto(date, oldT, newT, ratio, h).rows).qty == MergeInto(date, oldT, newT, ratio, h).holdings
  {
    var q := Get(h, oldT);
    if q > 0.0 {
      var r := MergeInto(date, oldT, newT, ratio, h);
      var m1 := Bump(Tally(order, h), r.rows[0]);
      assert m1.qty == h[oldT := 0.0];
      assert FoldFrom(Tally(order, h), r.rows) == FoldFrom(m1, r.rows[1..]);
      var m2 := Bump(m1, r.rows[1]);
      assert r.rows[1..][0] == r.rows[1] && r.rows[1..][1..] == [];
      assert FoldFrom(m1, r.rows[1..]) == FoldFrom(m2, []) == m2;
    }
  }

  lemma LiquidateFoldAgrees(order: seq<string>, date: int, t: string, price: real, h: Holdings)
    ensures FoldFrom(Tally(order, h), LiquidateAt(date, t, price, h).rows).qty == LiquidateAt(date, t, price, h).holdings
  {
  }

  /** The first event of an all-raw timeline is no non-raw trade, and the
      rest of the timeline is all-raw too. */
  lemma RawTradesTail(tl: seq<Event>)
    requires tl != [] && RawTrades(TradesOf(tl))
    ensures tl[0].Trade? ==> tl[0].tx.txType.IsRaw()
    ensures RawTrades(TradesOf(tl[1..]))
  {
    ProjectionsDistribute([tl[0]], tl[1..]);
    assert tl == [tl[0]] + tl[1..];
    var head := TradesOf([tl[0]]);
    if tl[0].Trade? {
      assert TradesOf(tl)[0] == tl[0].tx;
    }
    forall i | 0 <= i < |TradesOf(tl[1..])|
      ensures TradesOf(tl[1..])[i].txType.IsRaw()
    {
      assert TradesOf(tl)[|head| + i] == TradesOf(tl[1..])[i];
    }
  }

  /** Replaying any timeline of BUY/SELL trades and corporate actions and
      folding the ledger it emits reproduces the replay's holdings. */
  lemma {:induction false} ReplayFoldAgrees(order: seq<string>, tl: seq<Event>, h: Holdings)
    requires RawTrades(TradesOf(tl))
    ensures FoldFrom(Tally(order, h), Replay(tl, h).rows).qty == Replay(tl, h).holdings
    decreases |tl|
  {
    if tl != [] {
      var first := Apply(tl[0], h);
      var rest := Replay(tl[1..], first.holdings);
      RawTradesTail(tl);
      StepFoldAgrees(order, tl[0], h);
      FoldAppend(Tally(order, h), first.rows, rest.rows);
      var m := FoldFrom(Tally(order, h), first.rows);
      ReplayFoldAgrees(m.order, tl[1..], first.holdings);
      assert m == Tally(m.order, first.holdings);
    }
  }

  /** When every input trade is a BUY or a SELL, recompiling the portfolio
      from the ledger gives exactly the engine's final holdings. */
  lemma ProcessFoldAgrees(history: seq<Transaction>, splits: seq<SplitEvent>, mergers: seq<MergerEvent>, exits: seq<ForcedExitEvent>)
    requires RawTrades(history)
    ensures Fold(Process(history, splits, mergers, exits)).qty == FinalHoldings(history, splits, mergers, exits)
  {
    var tl := BuildTimeline(history, splits, mergers, exits);
    BuildTimelineStreams(history, splits, mergers, exits, 0);
    forall i | 0 <= i < |TradesOf(tl)|
      ensures TradesOf(tl)[i].txType.IsRaw()
    {
      assert TradesOf(tl)[i] in multiset(TradesOf(tl));
      var j :| 0 <= j < |history| && history[j] == TradesOf(tl)[i];
    }
    ReplayFoldAgrees([], tl, map[]);
  }

  // Active holdings and the stock/fund partition.

  datatype Holding = Holding(ticker: string, qty: real, profile: Option<AssetProfile>)

  /** `profiles.get(t)`. */
  function Lookup(profiles: map<string, AssetProfile>, t: string): Option<AssetProfile> {
    if t in profiles then Some(profiles[t]) else None
  }

  /** The map's entries in key order, those with a positive quantity,
      each with its profile. */
  function ActiveFrom(keys: seq<string>, qty: map<string, real>, profiles: map<string, AssetProfile>): (r: seq<Holding>)
    ensures |r| <= |keys|
    ensures forall i :: 0 <= i < |r| ==> r[i].ticker in keys
  {
    if keys == [] then []
    else
      var t := keys[0];
      var rest := ActiveFrom(keys[1..], qty, profiles);
      if Get(qty, t) > 0.0 then [Holding(t, Get(qty, t), Lookup(profiles, t))] + rest else rest
  }

  /** Some entry of `s` is for ticker `t`. */
  predicate Lists(s: seq<Holding>, t: string) {
    exists i :: 0 <= i < |s| && s[i].ticker == t
  }

  lemma {:induction false} ActiveFromMembers(keys: seq<string>, qty: map<string, real>, profiles: map<string, AssetProfile>, t: string)
    ensures Lists(ActiveFrom(keys, qty, profiles), t) <==> t in keys && Get(qty, t) > 0.0
  {
    if keys != [] {
      ActiveFromMembers(keys[1..], qty, profiles, t);
      var rest := ActiveFrom(keys[1..], qty, profiles);
      var r := ActiveFrom(keys, qty, profiles);
      assert keys == [keys[0]] + keys[1..];
      if Get(qty, keys[0]) > 0.0 {
        assert r == [Holding(keys[0], Get(qty, keys[0]), Lookup(profiles, keys[0]))] + rest;
        assert r[0].ticker == keys[0] && keys[0] in keys;
        if Lists(rest, t) {
          var i :| 0 <= i < |rest| && rest[i].ticker == t;
          assert r[i + 1].ticker == t;
        }
        if Lists(r, t) {
          var i :| 0 <= i < |r| && r[i].ticker == t;
          if i > 0 {
            assert rest[i - 1].ticker == t;
          }
        }
      } else {
        assert r == rest;
        assert t in keys <==> t == keys[0] || t in keys[1..];
        assert t == keys[0] ==> !(t in keys && Get(qty, t) > 0.0);
      }
    }
  }

  /** An entry carries its ticker's positive quantity and its profile. */
  predicate EntryMatches(h: Holding, qty: map<string, real>, profiles: map<string, AssetProfile>) {
    h.qty == Get(qty, h.ticker) && h.qty > 0.0 && h.profile == Lookup(profiles, h.ticker)
  }

  lemma {:induction false} ActiveFromEntries(keys: seq<string>, qty: map<string, real>, profiles: map<string, AssetProfile>)
    ensures forall i :: 0 <= i < |ActiveFrom(keys, qty, profiles)| ==> EntryMatches(ActiveFrom(keys, qty, profiles)[i], qty, profiles)
  {
    if keys != [] {
      ActiveFromEntries(keys[1..], qty, profiles);
      var rest := ActiveFrom(keys[1..], qty, profiles);
      var r := ActiveFrom(keys, qty, profiles);
      if Get(qty, keys[0]) > 0.0 {
        assert r == [Holding(keys[0], Get(qty, keys[0]), Lookup(profiles, keys[0]))] + rest;
        forall i | 0 <= i < |r|
          ensures EntryMatches(r[i], qty, profiles)
        {
          if i > 0 {
            assert r[i] == rest[i - 1];
          }
        }
      } else {
        assert r == rest;
      }
    }
  }

  /** No ticker has two entries. */
  predicate DistinctTickers(s: seq<Holding>) {
    forall i, j :: 0 <= i < j < |s| ==> s[i].ticker != s[j].ticker
  }

  /** Entries follow the key order, so distinct keys give distinct
      entries. */
  lemma {:induction false} ActiveFromDistinct(keys: seq<string>, qty: map<string, real>, profiles: map<string, AssetProfile>)
    requires Distinct(keys)
    ensures DistinctTickers(ActiveFrom(keys, qty, profiles))
  {
    if keys != [] {
      var rest := ActiveFrom(keys[1..], qty, profiles);
      var r := ActiveFrom(keys, qty, profiles);
      ActiveFromDistinct(keys[1..], qty, profiles);
      if Get(qty, keys[0]) > 0.0 {
        assert r == [Holding(keys[0], Get(qty, keys[0]), Lookup(profiles, keys[0]))] + rest;
        forall i, j | 0 <= i < j < |r|
          ensures r[i].ticker != r[j].ticker
        {
          assert r[j] == rest[j - 1];
          if i > 0 {
            assert r[i] == rest[i - 1];
          }
        }
      } else {
        assert r == rest;
      }
    }
  }

  /** `activeHoldings`. */
  function ActiveHoldings(m: Tally, profiles: map<string, AssetProfile>): seq<Holding> {
    ActiveFrom(m.order, m.qty, profiles)
  }

  /** A ticker is an active holding exactly when the tally holds a positive
      quantity for it; the entry carries that quantity and its profile. */
  lemma ActiveHoldingsExactly(m: Tally, profiles: map<string, AssetProfile>, t: string)
    requires Valid(m)
    ensures var r := ActiveHoldings(m, profiles);
      && (Lists(r, t) <==> t in m.qty && m.qty[t] > 0.0)
      && (forall i :: 0 <= i < |r| ==> r[i].ticker in m.qty && r[i].qty == m.qty[r[i].ticker] && r[i].qty > 0.0)
      && (forall i :: 0 <= i < |r| ==> r[i].profile == Lookup(profiles, r[i].ticker))
  {
    ActiveFromMembers(m.order, m.qty, profiles, t);
    ActiveFromEntries(m.order, m.qty, profiles);
  }

  /** For the tally folded from a ledger: a ticker is listed as active, at
      most once, exactly when its recomputed quantity is positive. */
  lemma ActiveHoldingsOfLedger(ledger: seq<LedgerItem>, profiles: map<string, AssetProfile>, t: string)
    ensures var m := Fold(ledger);
      var r := ActiveHoldings(m, profiles);
      && (Lists(r, t) <==> t in m.qty && m.qty[t] > 0.0)
      && DistinctTickers(r)
  {
    FoldKeepsValid(Tally([], map[]), ledger);
    ActiveHoldingsExactly(Fold(ledger), profiles, t);
    ActiveFromDistinct(Fold(ledger).order, Fold(ledger).qty, profiles);
  }

  /** `h.profile?.assetClass === "FII"`. */
  predicate IsFii(h: Holding) {
    h.profile.Some? && h.profile.value.assetClass == Fii
  }

  function Stocks(s: seq<Holding>): (r: seq<Holding>)
    ensures forall i :: 0 <= i < |r| ==> !IsFii(r[i])
  {
    if s == [] then [] else (if IsFii(s[0]) then [] else [s[0]]) + Stocks(s[1..])
  }

  function Fiis(s: seq<Holding>): (r: seq<Holding>)
    ensures forall i :: 0 <= i < |r| ==> IsFii(r[i])
  {
    if s == [] then [] else (if IsFii(s[0]) then [s[0]] else []) + Fiis(s[1..])
  }

  /** The stock and fund tabs partition the active holdings: together they
      hold every holding exactly once, no holding is in both, and one
      without a profile goes to the stocks. */
  lemma {:induction false} Partition(s: seq<Holding>)
    ensures multiset(Stocks(s)) + multiset(Fiis(s)) == multiset(s)
    ensures forall h :: h in Stocks(s) ==> h !in Fiis(s)
    ensures forall h :: h in s && h.profile == None ==> h in Stocks(s)
  {
    if s != [] {
      Partition(s[1..]);
      assert s == [s[0]] + s[1..];
    }
  }

  // Display rows of the portfolio tabs.

  /** The textual columns of a portfolio-tab row. */
  datatype TabRow = TabRow(ticker: string, name: string, sector: string, industry: string, quantity: real)

  /** The row a holding gets on its portfolio tab; a missing profile leaves
      the texts empty. The ensures are the field mapping itself;
      `TabRowShowsCode` and `TabRowOfFallback` state what the row shows. */
  function ToTabRow(h: Holding): (r: TabRow)
    ensures r.ticker == DisplayTicker(h.ticker) && r.quantity == h.qty
    ensures h.profile == None ==> r.name == "" && r.sector == "" && r.industry == ""
    ensures h.profile.Some? ==>
      r.name == h.profile.value.name && r.sector == h.profile.value.sector && r.industry == h.profile.value.industry
  {
    if h.profile.Some? then
      TabRow(DisplayTicker(h.ticker), h.profile.value.name, h.profile.value.sector, h.profile.value.industry, h.qty)
    else
      TabRow(DisplayTicker(h.ticker), "", "", "", h.qty)
  }

  /** A holding under a normalised ticker `s + ".SA"` is shown on its tab
      by its bare exchange code `s`, with its quantity. */
  lemma TabRowShowsCode(h: Holding, s: string)
    requires h.ticker == s + ".SA" && !Contains(s, ".SA")
    ensures ToTabRow(h).ticker == s && ToTabRow(h).ticker + ".SA" == h.ticker
    ensures ToTabRow(h).quantity == h.qty
  {
    DisplayDropsSuffix(s);
  }

  /** A holding whose quote lookup failed shows its ticker as its name and
      "Unknown" as sector and industry. */
  lemma TabRowOfFallback(h: Holding)
    requires h.profile == Some(FallbackProfile(h.ticker))
    ensures ToTabRow(h).name == h.ticker
    ensures ToTabRow(h).sector == "Unknown" && ToTabRow(h).industry == "Unknown"
  {
  }
}
