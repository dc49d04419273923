/** The ledger reconciliation engine. The sorted timeline is replayed once
    over a per-ticker holdings map; every trade is copied to the ledger as a
    real row, and every corporate action that meets a positive position
    emits one or two virtual rows and adjusts the holdings. */
module LedgerProcessor {
  import opened Types
  import opened Text
  import opened B3Service
  import opened Timeline

  /** A ledger row: a transaction and whether the engine synthesized it. */
  datatype LedgerItem = LedgerItem(tx: Transaction, isVirtual: bool)

  /** The engine's running position per ticker. */
  type Holdings = map<string, real>

  /** The result of replaying part of the timeline: the rows emitted, and
      the holdings afterwards. */
  datatype Step = Step(rows: seq<LedgerItem>, holdings: Holdings)

  const GeneratedSplit := "GENERATED_SPLIT"
  const GeneratedMerger := "GENERATED_MERGER"
  const GeneratedExit := "GENERATED_EXIT"

  /** `holdings.get(t) || 0`: an unseen ticker holds nothing. */
  function Get(h: Holdings, t: string): real {
    if t in h then h[t] else 0.0
  }

  /** Multiplication of two amounts. Named, so that the solver treats the
      product as a term unless a proof opens it. */
  function Times(a: real, b: real): real {
    a * b
  }

  function Abs(x: real): real {
    if x < 0.0 then -x else x
  }

  /** A synthesized row; it has no id and carries its generator's tag. */
  function Virtual(date: int, txType: TxType, ticker: string, quantity: real, unitPrice: real, totalValue: real, source: string): LedgerItem {
    LedgerItem(Transaction(None, date, txType, ticker, quantity, unitPrice, totalValue, Some(source)), true)
  }

  /** TX: the trade is copied unchanged; a buy adds its quantity, a sell
      subtracts it, any other type leaves the amount alone (but the ticker
      is still recorded). */
  function ApplyTrade(tx: Transaction, h: Holdings): (r: Step)
    ensures r.rows == [LedgerItem(tx, false)]
    ensures tx.txType == Buy ==> Get(r.holdings, tx.ticker) == Get(h, tx.ticker) + tx.quantity
    ensures tx.txType == Sell ==> Get(r.holdings, tx.ticker) == Get(h, tx.ticker) - tx.quantity
    ensures !tx.txType.IsRaw() ==> Get(r.holdings, tx.ticker) == Get(h, tx.ticker)
  {
    var currentQty := Get(h, tx.ticker);
    var qtyChange := if tx.txType == Buy then tx.quantity else if tx.txType == Sell then -tx.quantity else 0.0;
    Step([LedgerItem(tx, false)], h[tx.ticker := currentQty + qtyChange])
  }

  /** A trade records its ticker and moves no other position. */
  lemma TradeFrame(tx: Transaction, h: Holdings)
    ensures ApplyTrade(tx, h).holdings.Keys == h.Keys + {tx.ticker}
    ensures forall t :: t != tx.ticker ==> Get(ApplyTrade(tx, h).holdings, t) == Get(h, t)
  {
  }

  /** Multiplying a positive position by `ratio` grows it exactly when the
      ratio exceeds one, and changes it exactly when the ratio is not one. */
  lemma SplitAdjustmentSign(cur: real, ratio: real)
    requires cur > 0.0
    ensures ratio > 1.0 <==> Times(cur, ratio) - cur > 0.0
    ensures ratio == 1.0 <==> Times(cur, ratio) - cur == 0.0
  {
    assert Times(cur, ratio) - cur == cur * (ratio - 1.0);
    if ratio > 1.0 {
      assert cur * (ratio - 1.0) > 0.0;
    } else if ratio < 1.0 {
      assert cur * (1.0 - ratio) > 0.0;
    }
  }

  /** SPLIT: a positive position is rescaled by the ratio, and the change is
      recorded as one SPLIT or REVERSE_SPLIT row; an empty or negative
      position, or a ratio of one, changes nothing. */
  function ApplySplit(split: SplitEvent, h: Holdings): (r: Step)
    ensures var cur := Get(h, split.ticker);
      cur <= 0.0 || split.ratio == 1.0 ==> r == Step([], h)
    ensures var cur := Get(h, split.ticker);
      cur > 0.0 && split.ratio != 1.0 ==>
        && |r.rows| == 1
        && var row := r.rows[0];
        && row.isVirtual
        && row.tx.date == split.date
        && row.tx.ticker == split.ticker
        && (row.tx.txType == Split <==> split.ratio > 1.0)
        && (row.tx.txType == ReverseSplit <==> split.ratio < 1.0)
        && row.tx.quantity == Abs(Times(cur, split.ratio) - cur)
        && row.tx.quantity > 0.0
        && row.tx.unitPrice == 0.0 && row.tx.totalValue == 0.0
        && row.tx.sourceFile == Some(GeneratedSplit)
        && r.holdings == h[split.ticker := Times(cur, split.ratio)]
  {
    var currentQty := Get(h, split.ticker);
    if currentQty > 0.0 then
      var newQty := Times(currentQty, split.ratio);
      var adjustment := newQty - currentQty;
      SplitAdjustmentSign(currentQty, split.ratio);
      if adjustment != 0.0 then
        var txType := if split.ratio > 1.0 then Split else ReverseSplit;
        Step([Virtual(split.date, txType, split.ticker, Abs(adjustment), 0.0, 0.0, GeneratedSplit)],
             h[split.ticker := newQty])
      else Step([], h)
    else Step([], h)
  }

  /** MERGER: the tickers are normalised and the position moved from the
      old one to the new one. */
  function ApplyMerger(merger: MergerEvent, h: Holdings): Step
  {
    MergeInto(merger.date, NormalizeTicker(merger.oldTicker), NormalizeTicker(merger.newTicker), merger.ratio, h)
  }

  /** The merger rule on normalised tickers: a positive position in `oldT`
      is closed by a MERGER_OUT row, immediately followed by a MERGER_IN row
      that reopens it on `newT` scaled by the ratio; the old ticker is
      zeroed first and the new one adds to whatever it holds afterwards. An
      empty old position changes nothing. */
  function MergeInto(date: int, oldT: string, newT: string, ratio: real, h: Holdings): (r: Step)
    ensures Get(h, oldT) <= 0.0 ==> r == Step([], h)
    ensures var q := Get(h, oldT);
      q > 0.0 ==>
        r.rows == [Virtual(date, MergerOut, oldT, q, 0.0, 0.0, GeneratedMerger),
                   Virtual(date, MergerIn, newT, Times(q, ratio), 0.0, 0.0, GeneratedMerger)]
  {
    var oldQty := Get(h, oldT);
    if oldQty > 0.0 then
      var newQty := Times(oldQty, ratio);
      var cleared := h[oldT := 0.0];
      var existingNewQty := Get(cleared, newT);
      Step([Virtual(date, MergerOut, oldT, oldQty, 0.0, 0.0, GeneratedMerger),
            Virtual(date, MergerIn, newT, newQty, 0.0, 0.0, GeneratedMerger)],
           cleared[newT := existingNewQty + newQty])
    else Step([], h)
  }

  /** Holdings across an effective merger: the old position is zeroed, the
      new ticker gains the scaled quantity on top of what it already held
      (so several tickers can merge into one), and no other ticker moves.
      A merger of a ticker into itself leaves just the scaled position. */
  lemma MergerConservation(date: int, oldT: string, newT: string, ratio: real, h: Holdings)
    requires Get(h, oldT) > 0.0
    ensures var q, r := Get(h, oldT), MergeInto(date, oldT, newT, ratio, h);
      && (oldT != newT ==> Get(r.holdings, oldT) == 0.0)
      && (oldT != newT ==> Get(r.holdings, newT) == Get(h, newT) + Times(q, ratio))
      && (oldT == newT ==> Get(r.holdings, newT) == Times(q, ratio))
      && r.holdings.Keys == h.Keys + {oldT, newT}
      && (forall t :: t != oldT && t != newT ==> Get(r.holdings, t) == Get(h, t))
  {
  }

  /** EXIT: the ticker is normalised and the position liquidated. */
  function ApplyExit(exit: ForcedExitEvent, h: Holdings): Step
  {
    LiquidateAt(exit.date, NormalizeTicker(exit.ticker), exit.price, h)
  }

  /** The exit rule on a normalised ticker: a positive position is sold in
      full at the settlement price by one FORCED_SALE row and the ticker is
      zeroed; otherwise nothing happens. */
  function LiquidateAt(date: int, t: string, price: real, h: Holdings): (r: Step)
    ensures Get(h, t) <= 0.0 ==> r == Step([], h)
    ensures var q := Get(h, t);
      q > 0.0 ==>
        && r.rows == [Virtual(date, ForcedSale, t, q, price, Times(q, price), GeneratedExit)]
        && r.holdings == h[t := 0.0]
  {
    var currentQty := Get(h, t);
    if currentQty > 0.0 then
      Step([Virtual(date, ForcedSale, t, currentQty, price, Times(currentQty, price), GeneratedExit)],
           h[t := 0.0])
    else Step([], h)
  }

  /** An effective exit zeroes its ticker, keeps the set of recorded
      tickers and moves no other position. */
  lemma ExitFrame(date: int, t: string, price: real, h: Holdings)
    requires Get(h, t) > 0.0
    ensures var r := LiquidateAt(date, t, price, h);
      && Get(r.holdings, t) == 0.0
      && r.holdings.Keys == h.Keys
      && (forall u :: u != t ==> Get(r.holdings, u) == Get(h, u))
  {
  }

  /** A corporate action that meets a position it can act on. */
  predicate Effective(e: Event, h: Holdings) {
    match e
    case Trade(_) => false
    case StockSplit(s) => Get(h, s.ticker) > 0.0 && s.ratio != 1.0
    case Merger(m) => Get(h, NormalizeTicker(m.oldTicker)) > 0.0
    case Exit(x) => Get(h, NormalizeTicker(x.ticker)) > 0.0
  }

  /** Rows an effective corporate action emits. */
  function Weight(e: Event): nat {
    if e.Merger? then 2 else 1
  }

  /** One pass of the replay loop's body. */
  function Apply(e: Event, h: Holdings): Step {
    match e
    case Trade(tx) => ApplyTrade(tx, h)
    case StockSplit(s) => ApplySplit(s, h)
    case Merger(m) => ApplyMerger(m, h)
    case Exit(x) => ApplyExit(x, h)
  }

  /** Every row of `rows` is virtual exactly when `virtual` holds, and the
      virtual ones are dated `date`. */
  predicate RowsShaped(rows: seq<LedgerItem>, virtual: bool, date: int) {
    forall i :: 0 <= i < |rows| ==> rows[i].isVirtual == virtual && (virtual ==> rows[i].tx.date == date)
  }

  /** A trade emits its one real row; a corporate action emits one row
      (two for a merger) when effective and is a no-op otherwise; every
      virtual row carries the action's own date. */
  lemma ApplyShape(e: Event, h: Holdings)
    ensures var r := Apply(e, h);
      && |r.rows| == (if e.Trade? then 1 else 0) + (if Effective(e, h) then Weight(e) else 0)
      && (!e.Trade? && !Effective(e, h) ==> r == Step([], h))
      && RowsShaped(r.rows, !e.Trade?, e.Date())
  {
    match e
    case Trade(tx) =>
    case StockSplit(s) =>
    case Merger(m) =>
      MergeShape(m.date, NormalizeTicker(m.oldTicker), NormalizeTicker(m.newTicker), m.ratio, h);
    case Exit(x) =>
      LiquidateShape(x.date, NormalizeTicker(x.ticker), x.price, h);
  }

  lemma MergeShape(date: int, oldT: string, newT: string, ratio: real, h: Holdings)
    ensures var r := MergeInto(date, oldT, newT, ratio, h);
      && |r.rows| == (if Get(h, oldT) > 0.0 then 2 else 0)
      && (Get(h, oldT) <= 0.0 ==> r == Step([], h))
      && RowsShaped(r.rows, true, date)
  {
  }

  lemma LiquidateShape(date: int, t: string, price: real, h: Holdings)
    ensures var r := LiquidateAt(date, t, price, h);
      && |r.rows| == (if Get(h, t) > 0.0 then 1 else 0)
      && (Get(h, t) <= 0.0 ==> r == Step([], h))
      && RowsShaped(r.rows, true, date)
  {
  }

  /** An exit whose ticker the adapter already normalised behaves exactly
      like the raw one: the engine's second normalisation changes nothing. */
  lemma ExitOnNormalisedTicker(exit: ForcedExitEvent, h: Holdings)
    ensures ApplyExit(exit.(ticker := NormalizeTicker(exit.ticker)), h) == ApplyExit(exit, h)
  {
    NormalizeTickerIdempotent(exit.ticker);
  }

  /** Likewise for the two tickers of a merger. */
  lemma MergerOnNormalisedTickers(merger: MergerEvent, h: Holdings)
    ensures ApplyMerger(merger.(oldTicker := NormalizeTicker(merger.oldTicker), newTicker := NormalizeTicker(merger.newTicker)), h)
         == ApplyMerger(merger, h)
  {
    NormalizeTickerIdempotent(merger.oldTicker);
    NormalizeTickerIdempotent(merger.newTicker);
  }

  /** The replay loop, left to right from holdings `h`. */
  function Replay(tl: seq<Event>, h: Holdings): Step {
    if tl == [] then Step([], h)
    else
      var first := Apply(tl[0], h);
      var rest := Replay(tl[1..], first.holdings);
      Step(first.rows + rest.rows, rest.holdings)
  }

  /** `LedgerProcessor.process`. */
  function Process(history: seq<Transaction>, splits: seq<SplitEvent>, mergers: seq<MergerEvent>, exits: seq<ForcedExitEvent>): seq<LedgerItem> {
    Replay(BuildTimeline(history, splits, mergers, exits), map[]).rows
  }

  /** The engine's holdings when `process` returns. */
  function FinalHoldings(history: seq<Transaction>, splits: seq<SplitEvent>, mergers: seq<MergerEvent>, exits: seq<ForcedExitEvent>): Holdings {
    Replay(BuildTimeline(history, splits, mergers, exits), map[]).holdings
  }

  /** Replaying a concatenation is replaying the first part and then the
      second from the holdings the first one left. */
  lemma {:induction false} ReplayAppend(a: seq<Event>, b: seq<Event>, h: Holdings)
    ensures var ra := Replay(a, h);
      var rb := Replay(b, ra.holdings);
      Replay(a + b, h) == Step(ra.rows + rb.rows, rb.holdings)
  {
    if a == [] {
      assert a + b == b;
    } else {
      var ab := a + b;
      assert ab[0] == a[0] && ab[1..] == a[1..] + b;
      var first := Apply(a[0], h);
      ReplayAppend(a[1..], b, first.holdings);
      var rest := Replay(a[1..], first.holdings);
      var whole := ReplayCons(ab, h);
      var prefix := ReplayCons(a, h);
      StepsCompose(first, rest, Replay(b, rest.holdings), Replay(a[1..] + b, first.holdings), whole, prefix);
    }
  }

  /** One unfolding of `Replay`, named. */
  lemma ReplayCons(tl: seq<Event>, h: Holdings) returns (r: Step)
    requires tl != []
    ensures r == Replay(tl, h)
    ensures r == Step(Apply(tl[0], h).rows + Replay(tl[1..], Apply(tl[0], h).holdings).rows,
                      Replay(tl[1..], Apply(tl[0], h).holdings).holdings)
  {
    r := Replay(tl, h);
  }

  /** The bookkeeping of `ReplayAppendStep` on plain steps. */
  lemma StepsCompose(first: Step, rest: Step, rb: Step, tail: Step, whole: Step, prefix: Step)
    requires tail == Step(rest.rows + rb.rows, rb.holdings)
    requires whole == Step(first.rows + tail.rows, tail.holdings)
    requires prefix == Step(first.rows + rest.rows, rest.holdings)
    ensures whole == Step(prefix.rows + rb.rows, rb.holdings)
  {
    assert first.rows + (rest.rows + rb.rows) == (first.rows + rest.rows) + rb.rows;
  }

  /** The transactions of the real (file) rows, in order. */
  function RealTxs(rows: seq<LedgerItem>): seq<Transaction> {
    if rows == [] then [] else (if rows[0].isVirtual then [] else [rows[0].tx]) + RealTxs(rows[1..])
  }

  lemma {:induction false} RealTxsDistribute(a: seq<LedgerItem>, b: seq<LedgerItem>)
    ensures RealTxs(a + b) == RealTxs(a) + RealTxs(b)
  {
    if a == [] {
      assert a + b == b;
    } else {
      assert (a + b)[1..] == a[1..] + b;
      RealTxsDistribute(a[1..], b);
    }
  }

  lemma {:induction false} VirtualRowsHaveNoReal(rows: seq<LedgerItem>, date: int)
    requires RowsShaped(rows, true, date)
    ensures RealTxs(rows) == []
  {
    if rows != [] {
      VirtualRowsHaveNoReal(rows[1..], date);
    }
  }

  /** The real rows of the ledger are the timeline's trades, unchanged and
      in timeline order; every other row is virtual. */
  lemma {:induction false} ReplayRealRows(tl: seq<Event>, h: Holdings)
    ensures RealTxs(Replay(tl, h).rows) == TradesOf(tl)
  {
    if tl != [] {
      var first := Apply(tl[0], h);
      ApplyShape(tl[0], h);
      ReplayRealRows(tl[1..], first.holdings);
      RealTxsDistribute(first.rows, Replay(tl[1..], first.holdings).rows);
      if !tl[0].Trade? {
        VirtualRowsHaveNoReal(first.rows, tl[0].Date());
      }
    }
  }

  /** The weighted number of corporate actions that meet a position as the
      replay reaches them. */
  function EffectiveCount(tl: seq<Event>, h: Holdings): nat {
    if tl == [] then 0
    else (if Effective(tl[0], h) then Weight(tl[0]) else 0) + EffectiveCount(tl[1..], Apply(tl[0], h).holdings)
  }

  /** The ledger has one row per trade plus one per effective split or exit
      and two per effective merger. */
  lemma {:induction false} ReplayLength(tl: seq<Event>, h: Holdings)
    ensures |Replay(tl, h).rows| == |TradesOf(tl)| + EffectiveCount(tl, h)
  {
    if tl != [] {
      ApplyShape(tl[0], h);
      ReplayLength(tl[1..], Apply(tl[0], h).holdings);
    }
  }

  /** At most every corporate action is effective. */
  lemma {:induction false} EffectiveCountBound(tl: seq<Event>, h: Holdings)
    ensures EffectiveCount(tl, h) <= |SplitsOf(tl)| + 2 * |MergersOf(tl)| + |ExitsOf(tl)|
  {
    if tl != [] {
      EffectiveCountBound(tl[1..], Apply(tl[0], h).holdings);
    }
  }

  /** The generator tag a synthesized row of a given type carries. */
  function GeneratorOf(t: TxType): string
    requires !t.IsRaw()
  {
    match t
    case Split => GeneratedSplit
    case ReverseSplit => GeneratedSplit
    case MergerOut => GeneratedMerger
    case MergerIn => GeneratedMerger
    case ForcedSale => GeneratedExit
  }

  /** A virtual row has no id, a synthesized type and its generator's tag;
      apart from MERGER_IN (whose quantity is scaled by an unchecked ratio)
      its quantity is positive. */
  predicate WellFormedVirtual(item: LedgerItem) {
    item.isVirtual ==>
      && item.tx.id == None
      && !item.tx.txType.IsRaw()
      && item.tx.sourceFile == Some(GeneratorOf(item.tx.txType))
      && (item.tx.txType != MergerIn ==> item.tx.quantity > 0.0)
  }

  predicate IsVirtualOf(item: LedgerItem, t: TxType) {
    item.isVirtual && item.tx.txType == t
  }

  /** Every virtual MERGER_OUT row is immediately followed by a virtual
      MERGER_IN row of the same date, and every virtual MERGER_IN row
      immediately follows a virtual MERGER_OUT row. */
  predicate MergersPaired(rows: seq<LedgerItem>) {
    && (forall i :: 0 <= i < |rows| && IsVirtualOf(rows[i], MergerOut) ==>
          i + 1 < |rows| && IsVirtualOf(rows[i + 1], MergerIn) && rows[i + 1].tx.date == rows[i].tx.date)
    && (forall i :: 0 <= i < |rows| && IsVirtualOf(rows[i], MergerIn) ==>
          0 < i && IsVirtualOf(rows[i - 1], MergerOut))
  }

  /** The shape every ledger the engine emits has. */
  predicate WellFormedLedger(rows: seq<LedgerItem>) {
    (forall i :: 0 <= i < |rows| ==> WellFormedVirtual(rows[i])) && MergersPaired(rows)
  }

  lemma ApplyWellFormed(e: Event, h: Holdings)
    ensures WellFormedLedger(Apply(e, h).rows)
  {
    match e
    case Trade(tx) =>
    case StockSplit(s) =>
      SplitWellFormed(s, h);
    case Merger(m) =>
      MergeWellFormed(m.date, NormalizeTicker(m.oldTicker), NormalizeTicker(m.newTicker), m.ratio, h);
    case Exit(x) =>
      LiquidateWellFormed(x.date, NormalizeTicker(x.ticker), x.price, h);
  }

  lemma SplitWellFormed(split: SplitEvent, h: Holdings)
    ensures WellFormedLedger(ApplySplit(split, h).rows)
  {
  }

  lemma LiquidateWellFormed(date: int, t: string, price: real, h: Holdings)
    ensures WellFormedLedger(LiquidateAt(date, t, price, h).rows)
  {
  }

  lemma MergeWellFormed(date: int, oldT: string, newT: string, ratio: real, h: Holdings)
    ensures WellFormedLedger(MergeInto(date, oldT, newT, ratio, h).rows)
  {
  }

  lemma {:induction false} WellFormedAppend(a: seq<LedgerItem>, b: seq<LedgerItem>)
    requires WellFormedLedger(a) && WellFormedLedger(b)
    ensures WellFormedLedger(a + b)
  {
    var r := a + b;
    forall i | 0 <= i < |r| && IsVirtualOf(r[i], MergerOut)
      ensures i + 1 < |r| && IsVirtualOf(r[i + 1], MergerIn) && r[i + 1].tx.date == r[i].tx.date
    {
      if i < |a| {
        assert r[i] == a[i] && r[i + 1] == a[i + 1];
      } else {
        assert r[i] == b[i - |a|] && r[i + 1] == b[i + 1 - |a|];
      }
    }
    forall i | 0 <= i < |r| && IsVirtualOf(r[i], MergerIn)
      ensures 0 < i && IsVirtualOf(r[i - 1], MergerOut)
    {
      if i < |a| {
        assert r[i] == a[i] && r[i - 1] == a[i - 1];
      } else {
        assert r[i] == b[i - |a|];
        if i > |a| {
          assert r[i - 1] == b[i - 1 - |a|];
        }
      }
    }
    forall i | 0 <= i < |r|
      ensures WellFormedVirtual(r[i])
    {
      if i < |a| {
        assert r[i] == a[i];
      } else {
        assert r[i] == b[i - |a|];
      }
    }
  }

  /** Whatever the inputs, every virtual row is tagged by its generator and
      merger rows come in adjacent OUT/IN pairs. */
  lemma {:induction false} ReplayWellFormed(tl: seq<Event>, h: Holdings)
    ensures WellFormedLedger(Replay(tl, h).rows)
  {
    if tl != [] {
      ApplyWellFormed(tl[0], h);
      ReplayWellFormed(tl[1..], Apply(tl[0], h).holdings);
      WellFormedAppend(Apply(tl[0], h).rows, Replay(tl[1..], Apply(tl[0], h).holdings).rows);
    }
  }

  /** `process` end to end: the file rows come out as a date-ordered
      permutation of the history in which same-day trades keep their input
      order; the remaining rows are well-formed virtual rows, at most one
      per split and exit and two per merger. */
  lemma ProcessSummary(history: seq<Transaction>, splits: seq<SplitEvent>, mergers: seq<MergerEvent>, exits: seq<ForcedExitEvent>, d: int)
    ensures var out := Process(history, splits, mergers, exits);
      && multiset(RealTxs(out)) == multiset(history)
      && DateOrdered(RealTxs(out))
      && TxsOnDate(RealTxs(out), d) == TxsOnDate(history, d)
      && WellFormedLedger(out)
      && |history| <= |out| <= |history| + |splits| + 2 * |mergers| + |exits|
  {
    ProcessKeepsTrades(history, splits, mergers, exits, d);
    ReplayWellFormed(BuildTimeline(history, splits, mergers, exits), map[]);
    ProcessLength(history, splits, mergers, exits);
  }

  /** The real rows of the ledger are the input trades, in date order, each
      date's trades in input order. */
  lemma ProcessKeepsTrades(history: seq<Transaction>, splits: seq<SplitEvent>, mergers: seq<MergerEvent>, exits: seq<ForcedExitEvent>, d: int)
    ensures var out := Process(history, splits, mergers, exits);
      && multiset(RealTxs(out)) == multiset(history)
      && DateOrdered(RealTxs(out))
      && TxsOnDate(RealTxs(out), d) == TxsOnDate(history, d)
  {
    var tl := BuildTimeline(history, splits, mergers, exits);
    BuildTimelineStreams(history, splits, mergers, exits, d);
    ReplayRealRows(tl, map[]);
  }

  /** One row per trade, plus at most one per split and exit and two per
      merger. */
  lemma ProcessLength(history: seq<Transaction>, splits: seq<SplitEvent>, mergers: seq<MergerEvent>, exits: seq<ForcedExitEvent>)
    ensures var out := Process(history, splits, mergers, exits);
      |history| <= |out| <= |history| + |splits| + 2 * |mergers| + |exits|
  {
    var tl := BuildTimeline(history, splits, mergers, exits);
    BuildTimelineStreams(history, splits, mergers, exits, 0);
    ReplayLength(tl, map[]);
    EffectiveCountBound(tl, map[]);
    assert |TradesOf(tl)| == |history| by {
      assert |multiset(TradesOf(tl))| == |multiset(history)|;
    }
    assert |SplitsOf(tl)| == |splits| by {
      assert |multiset(SplitsOf(tl))| == |multiset(splits)|;
    }
    assert |MergersOf(tl)| == |mergers| by {
      assert |multiset(MergersOf(tl))| == |multiset(mergers)|;
    }
    assert |ExitsOf(tl)| == |exits| by {
      assert |multiset(ExitsOf(tl))| == |multiset(exits)|;
    }
  }

  // Worked scenarios.

  /** A buy of 100 followed by a 2-for-1 split on a later day: the buy row,
      then a SPLIT row of 100 dated on the split day, leaving 200. */
  lemma SimpleSplitScenario(t: string, buy: Transaction, d: int)
    requires buy.txType == Buy && buy.ticker == t && buy.quantity == 100.0 && buy.date < d
    ensures var r := Replay([Trade(buy), StockSplit(SplitEvent(d, t, 2.0, 1.0, 2.0))], map[]);
      && r.rows == [LedgerItem(buy, false), Virtual(d, Split, t, 100.0, 0.0, 0.0, GeneratedSplit)]
      && r.holdings == map[t := 200.0]
  {
    var split := StockSplit(SplitEvent(d, t, 2.0, 1.0, 2.0));
    var tl := [Trade(buy), split];
    var h1 := ApplyTrade(buy, map[]).holdings;
    assert h1 == map[t := 100.0];
    var s := ApplySplit(split.split, h1);
    assert Times(100.0, 2.0) == 200.0;
    assert s == Step([Virtual(d, Split, t, 100.0, 0.0, 0.0, GeneratedSplit)], map[t := 200.0]);
    assert tl[1..] == [split] && tl[1..][1..] == [];
    assert Replay(tl[1..], h1) == Step(s.rows + [], s.holdings);
  }

  /** A 1-for-2 reverse split of 100 shares: one REVERSE_SPLIT row of 50,
      leaving 50. */
  lemma ReverseSplitScenario(t: string, d: int)
    ensures ApplySplit(SplitEvent(d, t, 1.0, 2.0, 0.5), map[t := 100.0])
      == Step([Virtual(d, ReverseSplit, t, 50.0, 0.0, 0.0, GeneratedSplit)], map[t := 50.0])
  {
    assert Times(100.0, 0.5) == 50.0;
  }

  /** Two positions merged one-for-one into a third on the same day: two
      MERGER_OUT/MERGER_IN pairs, and the target ends with the sum. */
  lemma MergerFanInScenario(a: string, b: string, c: string, d: int, h: Holdings)
    requires a != b && b != c && a != c
    requires Get(h, a) == 10.0 && Get(h, b) == 5.0 && Get(h, c) == 0.0
    ensures var first := MergeInto(d, a, c, 1.0, h);
      var second := MergeInto(d, b, c, 1.0, first.holdings);
      && first.rows == [Virtual(d, MergerOut, a, 10.0, 0.0, 0.0, GeneratedMerger), Virtual(d, MergerIn, c, 10.0, 0.0, 0.0, GeneratedMerger)]
      && second.rows == [Virtual(d, MergerOut, b, 5.0, 0.0, 0.0, GeneratedMerger), Virtual(d, MergerIn, c, 5.0, 0.0, 0.0, GeneratedMerger)]
      && Get(second.holdings, c) == 15.0
      && Get(second.holdings, a) == 0.0 && Get(second.holdings, b) == 0.0
  {
    assert Times(10.0, 1.0) == 10.0 && Times(5.0, 1.0) == 5.0;
    MergerConservation(d, a, c, 1.0, h);
    var first := MergeInto(d, a, c, 1.0, h);
    assert Get(first.holdings, b) == 5.0;
    MergerConservation(d, b, c, 1.0, first.holdings);
  }
}
