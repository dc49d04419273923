/** Timeline construction for the reconciliation engine: the four input
    streams are tagged into one closed sum type, concatenated, and sorted by
    date with a fixed kind priority breaking ties. The sort is an insertion
    sort, proved stable: events with equal date and kind keep their input
    order. */
module Timeline {
  import opened Types

  /** One tagged timeline entry; the kinds are the code's TX, SPLIT,
      MERGER and EXIT. */
  datatype Event =
    | Trade(tx: Transaction)
    | StockSplit(split: SplitEvent)
    | Merger(merger: MergerEvent)
    | Exit(exit: ForcedExitEvent)
  {
    /** The event date is its payload's date. */
    function Date(): int {
      match this
      case Trade(t) => t.date
      case StockSplit(s) => s.date
      case Merger(m) => m.date
      case Exit(e) => e.date
    }

    /** Rank used on equal dates: share-count changes first. */
    function Priority(): int {
      match this
      case StockSplit(_) => 1
      case Merger(_) => 2
      case Trade(_) => 3
      case Exit(_) => 4
    }
  }

  /** The sort comparator: date difference, else priority difference. */
  function Compare(a: Event, b: Event): int {
    var timeDiff := a.Date() - b.Date();
    if timeDiff != 0 then timeDiff else a.Priority() - b.Priority()
  }

  /** `a` may stand before `b` in the sorted timeline. */
  predicate Before(a: Event, b: Event) {
    Compare(a, b) <= 0
  }

  /** The comparator orders events lexicographically by (date, priority),
      is antisymmetric in sign, and reports equality exactly on equal keys. */
  lemma CompareIsLexicographic(a: Event, b: Event)
    ensures Before(a, b) <==> a.Date() < b.Date() || (a.Date() == b.Date() && a.Priority() <= b.Priority())
    ensures Compare(a, b) == -Compare(b, a)
    ensures Compare(a, b) == 0 <==> a.Date() == b.Date() && a.Priority() == b.Priority()
  {
  }

  predicate Sorted(s: seq<Event>) {
    forall i, j :: 0 <= i < j < |s| ==> Before(s[i], s[j])
  }

  /** On one date a sorted timeline puts splits before mergers, mergers
      before trades and trades before exits. */
  lemma SameDayOrder(s: seq<Event>, i: int, j: int)
    requires Sorted(s) && 0 <= i < |s| && 0 <= j < |s|
    requires s[i].Date() == s[j].Date() && s[i].Priority() < s[j].Priority()
    ensures i < j
  {
  }

  // Projections of a timeline back onto the four input streams.

  function TradesOf(s: seq<Event>): seq<Transaction> {
    if s == [] then [] else (if s[0].Trade? then [s[0].tx] else []) + TradesOf(s[1..])
  }

  function SplitsOf(s: seq<Event>): seq<SplitEvent> {
    if s == [] then [] else (if s[0].StockSplit? then [s[0].split] else []) + SplitsOf(s[1..])
  }

  function MergersOf(s: seq<Event>): seq<MergerEvent> {
    if s == [] then [] else (if s[0].Merger? then [s[0].merger] else []) + MergersOf(s[1..])
  }

  function ExitsOf(s: seq<Event>): seq<ForcedExitEvent> {
    if s == [] then [] else (if s[0].Exit? then [s[0].exit] else []) + ExitsOf(s[1..])
  }

  /** Each projection distributes over concatenation. */
  lemma ProjectionsDistribute(a: seq<Event>, b: seq<Event>)
    ensures TradesOf(a + b) == TradesOf(a) + TradesOf(b)
    ensures SplitsOf(a + b) == SplitsOf(a) + SplitsOf(b)
    ensures MergersOf(a + b) == MergersOf(a) + MergersOf(b)
    ensures ExitsOf(a + b) == ExitsOf(a) + ExitsOf(b)
  {
    TradesDistribute(a, b);
    SplitsDistribute(a, b);
    MergersDistribute(a, b);
    ExitsDistribute(a, b);
  }

  lemma {:induction false} TradesDistribute(a: seq<Event>, b: seq<Event>)
    ensures TradesOf(a + b) == TradesOf(a) + TradesOf(b)
  {
    if a != [] {
      assert (a + b)[1..] == a[1..] + b;
      TradesDistribute(a[1..], b);
    } else {
      assert a + b == b;
    }
  }

  lemma {:induction false} SplitsDistribute(a: seq<Event>, b: seq<Event>)
    ensures SplitsOf(a + b) == SplitsOf(a) + SplitsOf(b)
  {
    if a != [] {
      assert (a + b)[1..] == a[1..] + b;
      SplitsDistribute(a[1..], b);
    } else {
      assert a + b == b;
    }
  }

  lemma {:induction false} MergersDistribute(a: seq<Event>, b: seq<Event>)
    ensures MergersOf(a + b) == MergersOf(a) + MergersOf(b)
  {
    if a != [] {
      assert (a + b)[1..] == a[1..] + b;
      MergersDistribute(a[1..], b);
    } else {
      assert a + b == b;
    }
  }

  lemma {:induction false} ExitsDistribute(a: seq<Event>, b: seq<Event>)
    ensures ExitsOf(a + b) == ExitsOf(a) + ExitsOf(b)
  {
    if a != [] {
      assert (a + b)[1..] == a[1..] + b;
      ExitsDistribute(a[1..], b);
    } else {
      assert a + b == b;
    }
  }

  function TagTrades(h: seq<Transaction>): (r: seq<Event>)
    ensures |r| == |h|
    ensures TradesOf(r) == h && SplitsOf(r) == [] && MergersOf(r) == [] && ExitsOf(r) == []
  {
    if h == [] then [] else [Trade(h[0])] + TagTrades(h[1..])
  }

  function TagSplits(h: seq<SplitEvent>): (r: seq<Event>)
    ensures |r| == |h|
    ensures TradesOf(r) == [] && SplitsOf(r) == h && MergersOf(r) == [] && ExitsOf(r) == []
  {
    if h == [] then [] else [StockSplit(h[0])] + TagSplits(h[1..])
  }

  function TagMergers(h: seq<MergerEvent>): (r: seq<Event>)
    ensures |r| == |h|
    ensures TradesOf(r) == [] && SplitsOf(r) == [] && MergersOf(r) == h && ExitsOf(r) == []
  {
    if h == [] then [] else [Merger(h[0])] + TagMergers(h[1..])
  }

  function TagExits(h: seq<ForcedExitEvent>): (r: seq<Event>)
    ensures |r| == |h|
    ensures TradesOf(r) == [] && SplitsOf(r) == [] && MergersOf(r) == [] && ExitsOf(r) == h
  {
    if h == [] then [] else [Exit(h[0])] + TagExits(h[1..])
  }

  /** The unsorted timeline: trades, then splits, mergers and exits. Each
      input stream is recovered from it by projection. */
  function Tag(history: seq<Transaction>, splits: seq<SplitEvent>, mergers: seq<MergerEvent>, exits: seq<ForcedExitEvent>): (r: seq<Event>)
    ensures |r| == |history| + |splits| + |mergers| + |exits|
    ensures TradesOf(r) == history
    ensures SplitsOf(r) == splits
    ensures MergersOf(r) == mergers
    ensures ExitsOf(r) == exits
  {
    var a, b, c, d := TagTrades(history), TagSplits(splits), TagMergers(mergers), TagExits(exits);
    ProjectionsDistribute(a, b);
    ProjectionsDistribute(a + b, c);
    ProjectionsDistribute(a + b + c, d);
    a + b + c + d
  }

  /** The events of `s` with date `d` and priority `p`, in order. */
  function WithKey(s: seq<Event>, d: int, p: int): seq<Event> {
    if s == [] then []
    else (if s[0].Date() == d && s[0].Priority() == p then [s[0]] else []) + WithKey(s[1..], d, p)
  }

  /** Places `x` in front of the first element it may precede. */
  function Insert(x: Event, s: seq<Event>): (r: seq<Event>)
    ensures |r| == |s| + 1
    ensures multiset(r) == multiset(s) + multiset{x}
  {
    if s == [] then [x]
    else if Before(x, s[0]) then [x] + s
    else
      assert s == [s[0]] + s[1..];
      [s[0]] + Insert(x, s[1..])
  }

  lemma BeforeIsTotalPreorder(a: Event, b: Event, c: Event)
    ensures Before(a, b) || Before(b, a)
    ensures Before(a, b) && Before(b, c) ==> Before(a, c)
  {
  }

  /** Every element of `Insert(x, s)` is `x` or an element of `s`. */
  lemma InsertElements(x: Event, s: seq<Event>, j: int)
    requires 0 <= j < |s| + 1
    ensures Insert(x, s)[j] == x || Insert(x, s)[j] in s
  {
    var r := Insert(x, s);
    assert r[j] in multiset(r);
  }

  /** Prepending an element that may precede every element keeps a sorted
      sequence sorted. */
  lemma ConsSorted(y: Event, s: seq<Event>)
    requires Sorted(s)
    requires forall k :: 0 <= k < |s| ==> Before(y, s[k])
    ensures Sorted([y] + s)
  {
    var r := [y] + s;
    forall i, j | 0 <= i < j < |r|
      ensures Before(r[i], r[j])
    {
      assert r[j] == s[j - 1];
      if i > 0 {
        assert r[i] == s[i - 1];
      }
    }
  }

  lemma {:induction false} InsertKeepsSorted(x: Event, s: seq<Event>)
    requires Sorted(s)
    ensures Sorted(Insert(x, s))
  {
    if s == [] {
    } else if Before(x, s[0]) {
      forall k | 0 <= k < |s|
        ensures Before(x, s[k])
      {
        if k > 0 {
          BeforeIsTotalPreorder(x, s[0], s[k]);
        }
      }
      ConsSorted(x, s);
    } else {
      var rest := Insert(x, s[1..]);
      assert Sorted(s[1..]);
      InsertKeepsSorted(x, s[1..]);
      forall j | 0 <= j < |rest|
        ensures Before(s[0], rest[j])
      {
        InsertElements(x, s[1..], j);
        BeforeIsTotalPreorder(x, s[0], x);
      }
      ConsSorted(s[0], rest);
    }
  }

  /** Inserting `x` puts it in front of every event with its own key and
      leaves the order among events of any key unchanged. */
  lemma {:induction false} InsertKeepsKeyOrder(x: Event, s: seq<Event>, d: int, p: int)
    ensures WithKey(Insert(x, s), d, p) == WithKey([x], d, p) + WithKey(s, d, p)
  {
    if s == [] {
    } else if Before(x, s[0]) {
      WithKeyCons(x, s, d, p);
    } else {
      InsertKeepsKeyOrder(x, s[1..], d, p);
      InsertBehind(x, s, d, p);
    }
  }

  /** The inductive step of `InsertKeepsKeyOrder`: `x` goes behind `s[0]`,
      which cannot share its key. */
  lemma InsertBehind(x: Event, s: seq<Event>, d: int, p: int)
    requires s != [] && !Before(x, s[0])
    requires WithKey(Insert(x, s[1..]), d, p) == WithKey([x], d, p) + WithKey(s[1..], d, p)
    ensures WithKey(Insert(x, s), d, p) == WithKey([x], d, p) + WithKey(s, d, p)
  {
    InsertBehindHead(x, s, d, p);
    WithKeyTail(s, d, p);
    var own := WithKeyOne(x, d, p);
    var head := WithKeyOne(s[0], d, p);
    KeysDiffer(x, s[0], d, p);
    SwapWhenOneEmpty(head, own, WithKey(s[1..], d, p));
  }

  /** Behind the head, `Insert` keeps the head first. */
  lemma InsertBehindHead(x: Event, s: seq<Event>, d: int, p: int)
    requires s != [] && !Before(x, s[0])
    ensures WithKey(Insert(x, s), d, p) == WithKey([s[0]], d, p) + WithKey(Insert(x, s[1..]), d, p)
  {
    assert Insert(x, s) == [s[0]] + Insert(x, s[1..]);
    WithKeyCons(s[0], Insert(x, s[1..]), d, p);
  }

  lemma WithKeyTail(s: seq<Event>, d: int, p: int)
    requires s != []
    ensures WithKey(s, d, p) == WithKey([s[0]], d, p) + WithKey(s[1..], d, p)
  {
    assert [s[0]] + s[1..] == s;
    WithKeyCons(s[0], s[1..], d, p);
  }

  /** Two events that are strictly ordered do not both carry one key. */
  lemma KeysDiffer(x: Event, y: Event, d: int, p: int)
    requires !Before(x, y)
    ensures WithKey([x], d, p) == [] || WithKey([y], d, p) == []
  {
    var _ := WithKeyOne(x, d, p);
    var _ := WithKeyOne(y, d, p);
  }

  lemma SwapWhenOneEmpty(a: seq<Event>, b: seq<Event>, c: seq<Event>)
    requires a == [] || b == []
    ensures a + (b + c) == b + (a + c)
  {
    if a == [] {
      assert a + (b + c) == b + c == b + (a + c);
    } else {
      assert a + (b + c) == a + c == b + (a + c);
    }
  }

  /** `WithKey` of a single event: the event itself, or nothing. */
  lemma WithKeyOne(e: Event, d: int, p: int) returns (r: seq<Event>)
    ensures r == WithKey([e], d, p)
    ensures r == (if e.Date() == d && e.Priority() == p then [e] else [])
  {
    r := WithKey([e], d, p);
    assert [e][1..] == [];
  }

  lemma WithKeyCons(e: Event, s: seq<Event>, d: int, p: int)
    ensures WithKey([e] + s, d, p) == WithKey([e], d, p) + WithKey(s, d, p)
  {
    assert ([e] + s)[1..] == s;
    var _ := WithKeyOne(e, d, p);
  }

  /** The timeline sort: a stable insertion sort under `Compare`. */
  function SortTimeline(s: seq<Event>): (r: seq<Event>)
    ensures |r| == |s|
    ensures multiset(r) == multiset(s)
    ensures Sorted(r)
  {
    if s == [] then []
    else
      assert s == [s[0]] + s[1..];
      InsertKeepsSorted(s[0], SortTimeline(s[1..]));
      Insert(s[0], SortTimeline(s[1..]))
  }

  /** Stability: for every (date, kind) key, the events carrying it appear
      in the sorted timeline in exactly their input order. */
  lemma {:induction false} SortIsStable(s: seq<Event>, d: int, p: int)
    ensures WithKey(SortTimeline(s), d, p) == WithKey(s, d, p)
  {
    if s != [] {
      SortIsStable(s[1..], d, p);
      InsertKeepsKeyOrder(s[0], SortTimeline(s[1..]), d, p);
    }
  }

  // How often a payload occurs in a projection is how often its tagged
  // event occurs in the timeline.

  lemma {:induction false} TradeCount(s: seq<Event>, t: Transaction)
    ensures multiset(TradesOf(s))[t] == multiset(s)[Trade(t)]
  {
    if s != [] {
      TradeCount(s[1..], t);
      assert [s[0]] + s[1..] == s;
      TradeCountStep(s[0], s[1..], t);
    }
  }

  lemma TradeCountStep(e: Event, rest: seq<Event>, t: Transaction)
    requires multiset(TradesOf(rest))[t] == multiset(rest)[Trade(t)]
    ensures multiset(TradesOf([e] + rest))[t] == multiset([e] + rest)[Trade(t)]
  {
    TradesDistribute([e], rest);
    assert [e][1..] == [];
  }

  lemma {:induction false} SplitCount(s: seq<Event>, x: SplitEvent)
    ensures multiset(SplitsOf(s))[x] == multiset(s)[StockSplit(x)]
  {
    if s != [] {
      SplitCount(s[1..], x);
      assert [s[0]] + s[1..] == s;
      SplitCountStep(s[0], s[1..], x);
    }
  }

  lemma SplitCountStep(e: Event, rest: seq<Event>, x: SplitEvent)
    requires multiset(SplitsOf(rest))[x] == multiset(rest)[StockSplit(x)]
    ensures multiset(SplitsOf([e] + rest))[x] == multiset([e] + rest)[StockSplit(x)]
  {
    SplitsDistribute([e], rest);
    assert [e][1..] == [];
  }

  lemma {:induction false} MergerCount(s: seq<Event>, x: MergerEvent)
    ensures multiset(MergersOf(s))[x] == multiset(s)[Merger(x)]
  {
    if s != [] {
      MergerCount(s[1..], x);
      assert [s[0]] + s[1..] == s;
      MergerCountStep(s[0], s[1..], x);
    }
  }

  lemma MergerCountStep(e: Event, rest: seq<Event>, x: MergerEvent)
    requires multiset(MergersOf(rest))[x] == multiset(rest)[Merger(x)]
    ensures multiset(MergersOf([e] + rest))[x] == multiset([e] + rest)[Merger(x)]
  {
    MergersDistribute([e], rest);
    assert [e][1..] == [];
  }

  lemma {:induction false} ExitCount(s: seq<Event>, x: ForcedExitEvent)
    ensures multiset(ExitsOf(s))[x] == multiset(s)[Exit(x)]
  {
    if s != [] {
      ExitCount(s[1..], x);
      assert [s[0]] + s[1..] == s;
      ExitCountStep(s[0], s[1..], x);
    }
  }

  lemma ExitCountStep(e: Event, rest: seq<Event>, x: ForcedExitEvent)
    requires multiset(ExitsOf(rest))[x] == multiset(rest)[Exit(x)]
    ensures multiset(ExitsOf([e] + rest))[x] == multiset([e] + rest)[Exit(x)]
  {
    ExitsDistribute([e], rest);
    assert [e][1..] == [];
  }

  /** Reordering a timeline reorders each stream within it: every trade,
      split, merger and exit stays as often as it was. */
  lemma PermutationKeepsProjections(a: seq<Event>, b: seq<Event>)
    requires multiset(a) == multiset(b)
    ensures multiset(TradesOf(a)) == multiset(TradesOf(b))
    ensures multiset(SplitsOf(a)) == multiset(SplitsOf(b))
    ensures multiset(MergersOf(a)) == multiset(MergersOf(b))
    ensures multiset(ExitsOf(a)) == multiset(ExitsOf(b))
  {
    forall t | true ensures multiset(TradesOf(a))[t] == multiset(TradesOf(b))[t] {
      TradeCount(a, t);
      TradeCount(b, t);
    }
    forall x | true ensures multiset(SplitsOf(a))[x] == multiset(SplitsOf(b))[x] {
      SplitCount(a, x);
      SplitCount(b, x);
    }
    forall x | true ensures multiset(MergersOf(a))[x] == multiset(MergersOf(b))[x] {
      MergerCount(a, x);
      MergerCount(b, x);
    }
    forall x | true ensures multiset(ExitsOf(a))[x] == multiset(ExitsOf(b))[x] {
      ExitCount(a, x);
      ExitCount(b, x);
    }
  }

  /** Every projected trade comes from a trade event of the timeline. */
  lemma {:induction false} TradeCameFrom(s: seq<Event>, t: Transaction)
    requires t in TradesOf(s)
    ensures Trade(t) in s
  {
    if s[0].Trade? && s[0].tx == t {
    } else {
      TradeCameFrom(s[1..], t);
    }
  }

  /** Transactions in non-decreasing date order. */
  predicate DateOrdered(txs: seq<Transaction>) {
    forall i, j :: 0 <= i < j < |txs| ==> txs[i].date <= txs[j].date
  }

  /** The trades of a sorted timeline are in date order. */
  lemma {:induction false} SortedTradesByDate(s: seq<Event>)
    requires Sorted(s)
    ensures DateOrdered(TradesOf(s))
  {
    if s != [] {
      var rest := TradesOf(s[1..]);
      assert Sorted(s[1..]);
      SortedTradesByDate(s[1..]);
      if s[0].Trade? {
        var r := [s[0].tx] + rest;
        forall i, j | 0 <= i < j < |r|
          ensures r[i].date <= r[j].date
        {
          if i == 0 {
            assert r[j] in rest;
            TradeCameFrom(s[1..], r[j]);
            var k :| 0 <= k < |s[1..]| && s[1..][k] == Trade(r[j]);
            assert Before(s[0], s[k + 1]);
          } else {
            assert r[i] == rest[i - 1] && r[j] == rest[j - 1];
          }
        }
      }
    }
  }

  /** The transactions of `txs` dated `d`, in order. */
  function TxsOnDate(txs: seq<Transaction>, d: int): seq<Transaction> {
    if txs == [] then []
    else (if txs[0].date == d then [txs[0]] else []) + TxsOnDate(txs[1..], d)
  }

  /** Trades dated `d` are exactly the trade events with key (`d`, TX). */
  lemma {:induction false} TradesOnDate(s: seq<Event>, d: int)
    ensures TxsOnDate(TradesOf(s), d) == TradesOf(WithKey(s, d, 3))
  {
    if s != [] {
      TradesOnDate(s[1..], d);
      var head := if s[0].Trade? then [s[0].tx] else [];
      TxsOnDateDistributes(head, TradesOf(s[1..]), d);
      var key := if s[0].Date() == d && s[0].Priority() == 3 then [s[0]] else [];
      ProjectionsDistribute(key, WithKey(s[1..], d, 3));
    }
  }

  lemma {:induction false} TxsOnDateDistributes(a: seq<Transaction>, b: seq<Transaction>, d: int)
    ensures TxsOnDate(a + b, d) == TxsOnDate(a, d) + TxsOnDate(b, d)
  {
    if a != [] {
      assert (a + b)[1..] == a[1..] + b;
      TxsOnDateDistributes(a[1..], b, d);
    } else {
      assert a + b == b;
    }
  }

  /** Same-day trades keep their input order through the sort. */
  lemma SortKeepsSameDayTrades(s: seq<Event>, d: int)
    ensures TxsOnDate(TradesOf(SortTimeline(s)), d) == TxsOnDate(TradesOf(s), d)
  {
    TradesOnDate(SortTimeline(s), d);
    TradesOnDate(s, d);
    SortIsStable(s, d, 3);
  }

  /** The timeline the engine replays. */
  function BuildTimeline(history: seq<Transaction>, splits: seq<SplitEvent>, mergers: seq<MergerEvent>, exits: seq<ForcedExitEvent>): (r: seq<Event>)
    ensures Sorted(r)
    ensures multiset(r) == multiset(Tag(history, splits, mergers, exits))
  {
    SortTimeline(Tag(history, splits, mergers, exits))
  }

  /** The replayed timeline holds each input stream exactly (as multisets),
      its trades are in date order, and trades sharing a date keep their
      input order. */
  lemma BuildTimelineStreams(history: seq<Transaction>, splits: seq<SplitEvent>, mergers: seq<MergerEvent>, exits: seq<ForcedExitEvent>, d: int)
    ensures var tl := BuildTimeline(history, splits, mergers, exits);
      && multiset(TradesOf(tl)) == multiset(history)
      && multiset(SplitsOf(tl)) == multiset(splits)
      && multiset(MergersOf(tl)) == multiset(mergers)
      && multiset(ExitsOf(tl)) == multiset(exits)
      && DateOrdered(TradesOf(tl))
      && TxsOnDate(TradesOf(tl), d) == TxsOnDate(history, d)
  {
    var tagged := Tag(history, splits, mergers, exits);
    PermutationKeepsProjections(SortTimeline(tagged), tagged);
    SortedTradesByDate(SortTimeline(tagged));
    SortKeepsSameDayTrades(tagged, d);
  }
}
