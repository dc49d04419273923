/** The wiring of the rebuild run: every kept input file is read into one
    history, the engine replays it with the splits, mergers and forced
    exits, and the portfolio is recompiled from the resulting ledger. */
module Rebuild {
  import opened Types
  import opened Timeline
  import opened LedgerProcessor
  import opened Portfolio
  import opened DataManager

  /** An input file: its path and the records its parser produced. */
  datatype InputFile = InputFile(path: string, records: seq<RawRow>)

  /** The reading loop: each file's transactions, appended in file order. */
  function LoadAll(files: seq<InputFile>, renames: map<string, string>, parseFloat: string -> real): seq<Transaction>
  {
    if files == [] then []
    else ReadValues(files[0].path, files[0].records, renames, parseFloat) + LoadAll(files[1..], renames, parseFloat)
  }

  /** The transaction was read from one of the files. */
  predicate FromSomeFile(tx: Transaction, files: seq<InputFile>) {
    exists j :: 0 <= j < |files| && tx.sourceFile == Some(Basename(files[j].path))
  }

  /** The loaded history holds only BUY and SELL trades. */
  lemma {:induction false} LoadAllRaw(files: seq<InputFile>, renames: map<string, string>, parseFloat: string -> real)
    ensures RawTrades(LoadAll(files, renames, parseFloat))
  {
    if files != [] {
      var head := ReadValues(files[0].path, files[0].records, renames, parseFloat);
      var rest := LoadAll(files[1..], renames, parseFloat);
      assert LoadAll(files, renames, parseFloat) == head + rest;
      ReadValuesShape(files[0].path, files[0].records, renames, parseFloat);
      LoadAllRaw(files[1..], renames, parseFloat);
      assert RawTrades(head) && RawTrades(rest);
    }
  }

  /** Every loaded transaction is attributed to one of the files. */
  lemma {:induction false} LoadAllAttributed(files: seq<InputFile>, renames: map<string, string>, parseFloat: string -> real)
    ensures forall i :: 0 <= i < |LoadAll(files, renames, parseFloat)| ==> FromSomeFile(LoadAll(files, renames, parseFloat)[i], files)
  {
    if files != [] {
      var head := ReadValues(files[0].path, files[0].records, renames, parseFloat);
      var rest := LoadAll(files[1..], renames, parseFloat);
      assert LoadAll(files, renames, parseFloat) == head + rest;
      HeadAttributed(files, renames, parseFloat);
      LoadAllAttributed(files[1..], renames, parseFloat);
      forall i | 0 <= i < |head + rest|
        ensures FromSomeFile((head + rest)[i], files)
      {
        if i >= |head| {
          assert (head + rest)[i] == rest[i - |head|];
          TailAttributed(files, rest[i - |head|]);
        }
      }
    }
  }

  /** Every transaction read from the first file names it. */
  lemma HeadAttributed(files: seq<InputFile>, renames: map<string, string>, parseFloat: string -> real)
    requires files != []
    ensures var head := ReadValues(files[0].path, files[0].records, renames, parseFloat);
      forall i :: 0 <= i < |head| ==> FromSomeFile(head[i], files)
  {
    var head := ReadValues(files[0].path, files[0].records, renames, parseFloat);
    ReadValuesShape(files[0].path, files[0].records, renames, parseFloat);
    forall i | 0 <= i < |head|
      ensures FromSomeFile(head[i], files)
    {
      assert head[i].sourceFile == Some(Basename(files[0].path));
    }
  }

  /** A transaction from one of the later files is from one of the files. */
  lemma TailAttributed(files: seq<InputFile>, tx: Transaction)
    requires files != [] && FromSomeFile(tx, files[1..])
    ensures FromSomeFile(tx, files)
  {
    var j :| 0 <= j < |files[1..]| && tx.sourceFile == Some(Basename(files[1..][j].path));
    assert files[1..][j] == files[j + 1];
  }

  /** The whole run: the ledger keeps every loaded trade exactly once, in
      date order, with well-formed engine rows, and the holdings recompiled
      from it are the engine's own final holdings. */
  lemma RebuildAgrees(files: seq<InputFile>, renames: map<string, string>, parseFloat: string -> real,
                      splits: seq<SplitEvent>, mergers: seq<MergerEvent>, exits: seq<ForcedExitEvent>)
    ensures var history := LoadAll(files, renames, parseFloat);
      var ledger := Process(history, splits, mergers, exits);
      && multiset(RealTxs(ledger)) == multiset(history)
      && DateOrdered(RealTxs(ledger))
      && WellFormedLedger(ledger)
      && Fold(ledger).qty == FinalHoldings(history, splits, mergers, exits)
  {
    var history := LoadAll(files, renames, parseFloat);
    LoadAllRaw(files, renames, parseFloat);
    ProcessSummary(history, splits, mergers, exits, 0);
    ProcessFoldAgrees(history, splits, mergers, exits);
  }
}
