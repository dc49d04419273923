/** The import side of the tracker: which files of the input directory are
    broker exports, how a spreadsheet cell becomes a number, how a row's
    movement text becomes BUY or SELL, and how a row's asset is resolved
    through the renames table. Reading files and parsing CSV or XLSX are
    left to the caller: a file arrives as the records its parser produced. */
module DataManager {
  import opened Types
  import opened Text
  import opened B3Service

  // ---------------------------------------------------------------------
  // Input files
  // ---------------------------------------------------------------------

  /** The directory the broker exports are read from. */
  const InputDir: string := "data_inputs"

  /** Node's `path.extname` of a directory entry (a name without `/`): from
      the last `.` to the end, or empty when there is no dot, when the only
      dot starts the name, or for `..`. */
  function ExtName(name: string): (r: string)
    requires '/' !in name
    ensures r == [] || (r[0] == '.' && '.' !in r[1..] && EndsWith(name, r) && |r| < |name|)
  {
    var k := LastIndexOf(name, '.');
    if k <= 0 || name == ".." then ""
    else
      assert name[k..][1..] == name[k + 1..];
      name[k..]
  }

  /** The extensions of a broker export, lower-case. */
  const ExportExtensions: set<string> := {".csv", ".xlsx", ".xls"}

  /** `getAllFiles`' filter: a spreadsheet by extension, in any case, that is
      not the forced-exits table. */
  predicate IsInputFile(name: string)
    requires '/' !in name
  {
    Lower(ExtName(name)) in ExportExtensions && !StartsWith(name, "forced_exits")
  }

  /** `name` ends in `ext`, ignoring case, with something before it. */
  predicate HasExtension(name: string, ext: string) {
    |name| > |ext| && Lower(name[|name| - |ext|..]) == ext
  }

  lemma LowerToDot(c: char)
    ensures LowerChar(c) == '.' <==> c == '.'
  {
  }

  /** A lower-case extension of at least two characters is the file's
      extension exactly when the name ends in it, ignoring case, and is
      longer than it. */
  lemma {:induction false} ExtensionBySuffix(name: string, ext: string)
    requires '/' !in name
    requires |ext| >= 2 && ext[0] == '.' && '.' !in ext[1..]
    ensures Lower(ExtName(name)) == ext <==> HasExtension(name, ext)
  {
    var n := |name|;
    var j := n - |ext|;
    if Lower(ExtName(name)) == ext {
      var k := LastIndexOf(name, '.');
      assert ExtName(name) == name[k..];
    }
    if HasExtension(name, ext) {
      var tail := name[j..];
      assert Lower(tail)[0] == ext[0];
      LowerToDot(name[j]);
      assert name[j] == '.';
      forall i | j < i < n
        ensures name[i] != '.'
      {
        assert Lower(tail)[i - j] == ext[i - j] == ext[1..][i - j - 1];
        LowerToDot(name[i]);
      }
      var k := LastIndexOf(name, '.');
      assert k == j;
    }
  }

  lemma ExportExtensionShapes()
    ensures forall ext :: ext in ExportExtensions ==> |ext| >= 2 && ext[0] == '.' && '.' !in ext[1..]
  {
    assert ".csv"[1..] == "csv";
    assert ".xlsx"[1..] == "xlsx";
    assert ".xls"[1..] == "xls";
  }

  /** The filter stated by suffix: a name is kept exactly when it ends in
      `.csv`, `.xlsx` or `.xls` (in any case) after at least one more
      character, and does not start with `forced_exits`. */
  lemma InputFileBySuffix(name: string)
    requires '/' !in name
    ensures IsInputFile(name) <==>
      (exists ext :: ext in ExportExtensions && HasExtension(name, ext)) && !StartsWith(name, "forced_exits")
  {
    ExportExtensionShapes();
    var e := Lower(ExtName(name));
    if e in ExportExtensions {
      ExtensionBySuffix(name, e);
    }
    forall ext | ext in ExportExtensions && HasExtension(name, ext)
      ensures e in ExportExtensions
    {
      ExtensionBySuffix(name, ext);
    }
  }

  /** `getAllFiles`' filter: the kept entries of the directory listing, in
      listing order. */
  function InputFiles(entries: seq<string>): (r: seq<string>)
    requires forall i :: 0 <= i < |entries| ==> '/' !in entries[i]
    ensures |r| <= |entries|
    ensures forall i :: 0 <= i < |r| ==> '/' !in r[i]
    ensures forall name :: name in r <==> name in entries && '/' !in name && IsInputFile(name)
  {
    if entries == [] then []
    else
      var rest := InputFiles(entries[1..]);
      if IsInputFile(entries[0]) then [entries[0]] + rest else rest
  }

  /** A single entry is kept exactly when the filter accepts it. */
  lemma InputFilesOne(name: string)
    requires '/' !in name
    ensures InputFiles([name]) == (if IsInputFile(name) then [name] else [])
  {
    assert [name][1..] == [];
  }

  /** Filtering commutes with concatenation, so the kept entries stay in
      listing order. */
  lemma {:induction false} InputFilesAppend(a: seq<string>, b: seq<string>)
    requires forall i :: 0 <= i < |a| ==> '/' !in a[i]
    requires forall i :: 0 <= i < |b| ==> '/' !in b[i]
    ensures InputFiles(a + b) == InputFiles(a) + InputFiles(b)
  {
    if a == [] {
      assert a + b == b;
    } else {
      assert (a + b)[0] == a[0] && (a + b)[1..] == a[1..] + b;
      InputFilesAppend(a[1..], b);
    }
  }

  /** `path.join` of the input directory and an entry. */
  function InputPath(name: string): string {
    InputDir + "/" + name
  }

  /** `path.basename`: what follows the last `/`. */
  function Basename(path: string): (r: string)
    ensures '/' !in r && EndsWith(path, r)
  {
    var k := LastIndexOf(path, '/');
    path[k + 1..]
  }

  /** The file name recorded on a transaction is the directory entry it was
      read from. */
  lemma BasenameOfInputPath(name: string)
    requires '/' !in name
    ensures Basename(InputPath(name)) == name
  {
    var p := InputPath(name);
    assert p[|InputDir|] == '/';
    assert p[|InputDir| + 1..] == name;
    var k := LastIndexOf(p, '/');
    assert k == |InputDir| by {
      forall i | |InputDir| < i < |p|
        ensures p[i] != '/'
      {
        assert p[i] == name[i - |InputDir| - 1];
      }
    }
  }

  // ---------------------------------------------------------------------
  // Numbers
  // ---------------------------------------------------------------------

  /** A spreadsheet cell as the parsers deliver it: a number (XLSX), a text
      (CSV and XLSX), or anything else (missing, boolean, date). */
  datatype Cell = NumCell(num: real) | StrCell(text: string) | OtherCell

  /** What `parseNumber` returns: a number it already has, or the result of
      `parseFloat` on a text it prepared. `parseFloat` itself is not part of
      this model, so the prepared text is the observable outcome. */
  datatype Parsed = Value(v: real) | ParseFloatOf(arg: string)

  /** The Brazilian rewriting: thousands dots dropped, the first comma made
      the decimal point. */
  function BrazilianToDecimal(t: string): string {
    ReplaceFirst(RemoveAll(t, '.'), ',', '.')
  }

  /** `parseNumber`, branch for branch. */
  function ParseNumber(cell: Cell): Parsed {
    match cell
    case NumCell(x) => Value(x)
    case OtherCell => Value(0.0)
    case StrCell(s) =>
      var trimmed := Trim(s);
      if ',' in trimmed then ParseFloatOf(BrazilianToDecimal(trimmed))
      else
        var lastDot := LastIndexOf(trimmed, '.');
        var lastComma := LastIndexOf(trimmed, ',');
        if lastComma > lastDot then ParseFloatOf(BrazilianToDecimal(trimmed))
        else if lastDot > lastComma then ParseFloatOf(RemoveAll(trimmed, ','))
        else ParseFloatOf(trimmed)
  }

  /** Numbers pass through and cells that are neither number nor text
      count as zero. */
  lemma ParseNumberNonText(cell: Cell)
    requires !cell.StrCell?
    ensures ParseNumber(cell) == Value(if cell.NumCell? then cell.num else 0.0)
  {
  }

  /** The Brazilian rewriting of a text with a comma holds exactly one
      `.`, one `,` fewer, and every other character as often as before. */
  lemma BrazilianCounts(t: string)
    requires ',' in t
    ensures multiset(BrazilianToDecimal(t))['.'] == 1
    ensures multiset(BrazilianToDecimal(t))[','] == multiset(t)[','] - 1
    ensures forall c :: c != '.' && c != ',' ==> multiset(BrazilianToDecimal(t))[c] == multiset(t)[c]
  {
    var d := RemoveAll(t, '.');
    var u := BrazilianToDecimal(t);
    assert multiset(d)['.'] == 0;
    assert multiset(d)[','] == multiset(t)[','] > 0;
    ReplaceFirstCounts(d, ',', '.');
  }

  /** Dropping the dots around one comma keeps the comma in place. */
  lemma DotsAroundComma(a: string, b: string)
    ensures RemoveAll(a + "," + b, '.') == RemoveAll(a, '.') + "," + RemoveAll(b, '.')
  {
    RemoveAllAppend(a, [','] + b, '.');
    RemoveAllAppend([','], b, '.');
    RemoveAllOne(',', '.');
    assert a + "," + b == a + ([','] + b);
  }

  /** Dropping the dots adds no comma. */
  lemma DotsDroppedKeepNoComma(a: string)
    requires ',' !in a
    ensures ',' !in RemoveAll(a, '.')
  {
    assert multiset(RemoveAll(a, '.'))[','] == multiset(a)[','] == 0;
  }

  /** The Brazilian rewriting, read at the first comma: the dots of both
      sides are dropped, in order, and the comma becomes the point. */
  lemma BrazilianAtFirstComma(a: string, b: string)
    requires ',' !in a
    ensures BrazilianToDecimal(a + "," + b) == RemoveAll(a, '.') + "." + RemoveAll(b, '.')
  {
    DotsAroundComma(a, b);
    DotsDroppedKeepNoComma(a);
    ReplaceFirstAfter(RemoveAll(a, '.'), RemoveAll(b, '.'), ',', '.');
  }

  /** Dropping the one dot between two dot-free parts joins them. */
  lemma DotBetween(a: string, b: string)
    requires '.' !in a && '.' !in b
    ensures RemoveAll(a + "." + b, '.') == a + b
  {
    var dot := ['.'];
    assert a + "." + b == a + (dot + b);
    RemoveAllAppend(a, dot + b, '.');
    RemoveAllAppend(dot, b, '.');
    RemoveAllOne('.', '.');
    RemoveAllAbsent(a, '.');
    RemoveAllAbsent(b, '.');
    assert RemoveAll(dot + b, '.') == b;
  }

  /** A grouped amount such as `1.234,56`: the thousands dot goes and the
      decimal comma becomes the point. */
  lemma ThousandsText(a: string, b: string, c: string)
    requires '.' !in a && '.' !in b && '.' !in c && ',' !in a && ',' !in b
    ensures BrazilianToDecimal(a + "." + b + "," + c) == a + b + "." + c
  {
    var ab := a + "." + b;
    assert a + "." + b + "," + c == ab + "," + c;
    assert ',' !in ab;
    BrazilianAtFirstComma(ab, c);
    DotBetween(a, b);
    RemoveAllAbsent(c, '.');
  }

  /** A text with a comma is given the Brazilian rewriting after trimming. */
  lemma CommaText(s: string)
    requires ',' in Trim(s)
    ensures ParseNumber(StrCell(s)) == ParseFloatOf(BrazilianToDecimal(Trim(s)))
  {
  }

  /** Without a comma the trimmed text goes to `parseFloat` unchanged. */
  lemma NoCommaText(s: string)
    requires ',' !in Trim(s)
    ensures ParseNumber(StrCell(s)) == ParseFloatOf(Trim(s))
  {
    var t := Trim(s);
    assert LastIndexOf(t, ',') == -1;
    RemoveAllAbsent(t, ',');
  }

  /** The branch for a comma after the last dot is never taken: a text with
      any comma has already been rewritten. */
  lemma CommaBranchUnreachable(s: string)
    ensures var t := Trim(s);
      ',' !in t ==> LastIndexOf(t, ',') <= LastIndexOf(t, '.')
  {
  }

  // ---------------------------------------------------------------------
  // Movement type
  // ---------------------------------------------------------------------

  /** `w` (upper-case) occurs in `s` at `k`, ignoring ASCII case. */
  predicate MatchesAtIgnoringCase(s: string, w: string, k: int) {
    0 <= k && k + |w| <= |s| && forall i :: 0 <= i < |w| ==> UpperChar(s[k + i]) == w[i]
  }

  /** A case-insensitive regular expression made of the letters of `w`
      matches somewhere in `s`. */
  predicate MentionsIgnoringCase(s: string, w: string) {
    exists k :: 0 <= k <= |s| && MatchesAtIgnoringCase(s, w, k)
  }

  /** The words of the two movement patterns `/Compra/i` and `/Venda/i`,
      upper-cased. */
  const PurchaseWord: string := "COMPRA"
  const SaleWord: string := "VENDA"

  /** `rawType.match(/Compra/i)`, then `/Venda/i`, on the trimmed movement
      text; anything else defaults to BUY. */
  function ClassifyMovement(kind: Option<string>): (r: TxType)
    ensures r.IsRaw()
  {
    var rawType := Trim(OrElse(kind, ""));
    if Contains(Upper(rawType), PurchaseWord) then Buy
    else if Contains(Upper(rawType), SaleWord) then Sell
    else Buy
  }

  /** Searching the upper-cased text is a case-insensitive search. */
  lemma ContainsUpper(s: string, w: string)
    ensures Contains(Upper(s), w) <==> MentionsIgnoringCase(s, w)
  {
    if Contains(Upper(s), w) {
      UpperMatchMentions(s, w, IndexOf(Upper(s), w));
    }
    if MentionsIgnoringCase(s, w) {
      var k :| 0 <= k <= |s| && MatchesAtIgnoringCase(s, w, k);
      MentionMatchesUpper(s, w, k);
    }
  }

  lemma UpperMatchMentions(s: string, w: string, k: int)
    requires MatchAt(Upper(s), w, k)
    ensures MentionsIgnoringCase(s, w)
  {
    var u := Upper(s);
    forall i | 0 <= i < |w|
      ensures UpperChar(s[k + i]) == w[i]
    {
      assert u[k..k + |w|][i] == u[k + i];
    }
    assert MatchesAtIgnoringCase(s, w, k);
  }

  lemma MentionMatchesUpper(s: string, w: string, k: int)
    requires MatchesAtIgnoringCase(s, w, k)
    ensures Contains(Upper(s), w)
  {
    var u := Upper(s);
    assert u[k..k + |w|] == w;
    assert MatchAt(u, w, k);
  }

  lemma MentionWidens(s: string, w: string, i: nat, j: nat, k: int)
    requires i <= j <= |s| && MatchesAtIgnoringCase(s[i..j], w, k)
    ensures MatchesAtIgnoringCase(s, w, i + k)
  {
    forall n | 0 <= n < |w|
      ensures UpperChar(s[i + k + n]) == w[n]
    {
      assert s[i..j][k + n] == s[i + k + n];
    }
  }

  lemma MentionNarrows(s: string, w: string, i: nat, j: nat, k: int)
    requires i <= j <= |s| && AllSpace(s[..i]) && AllSpace(s[j..])
    requires |w| > 0 && !IsSpace(w[0]) && !IsSpace(w[|w| - 1])
    requires MatchesAtIgnoringCase(s, w, k)
    ensures MatchesAtIgnoringCase(s[i..j], w, k - i)
  {
    assert UpperChar(s[k]) == w[0];
    assert UpperChar(s[k + |w| - 1]) == w[|w| - 1];
    assert i <= k && k + |w| <= j;
    forall n | 0 <= n < |w|
      ensures UpperChar(s[i..j][k - i + n]) == w[n]
    {
      assert s[i..j][k - i + n] == s[k + n];
    }
  }

  /** A word that neither starts nor ends with whitespace is mentioned in
      the trimmed text exactly when it is mentioned in the text. */
  lemma TrimKeepsMentions(s: string, w: string)
    requires |w| > 0 && !IsSpace(w[0]) && !IsSpace(w[|w| - 1])
    ensures MentionsIgnoringCase(Trim(s), w) <==> MentionsIgnoringCase(s, w)
  {
    TrimIsSlice(s);
    var i, j :| 0 <= i <= j <= |s| && Trim(s) == s[i..j] && AllSpace(s[..i]) && AllSpace(s[j..]);
    if MentionsIgnoringCase(s[i..j], w) {
      var k :| 0 <= k <= |s[i..j]| && MatchesAtIgnoringCase(s[i..j], w, k);
      MentionWidens(s, w, i, j, k);
    }
    if MentionsIgnoringCase(s, w) {
      var k :| 0 <= k <= |s| && MatchesAtIgnoringCase(s, w, k);
      MentionNarrows(s, w, i, j, k);
    }
  }

  /** The classification in terms of the cell's own text: SELL exactly when
      it mentions "venda" but not "compra", in any case; BUY otherwise. */
  lemma ClassifyByMention(kind: Option<string>)
    ensures var text := OrElse(kind, "");
      ClassifyMovement(kind) == (if !MentionsIgnoringCase(text, PurchaseWord) && MentionsIgnoringCase(text, SaleWord) then Sell else Buy)
  {
    var text := OrElse(kind, "");
    TrimmedUpperSearch(text, PurchaseWord);
    TrimmedUpperSearch(text, SaleWord);
  }

  /** The search the classification runs, on the trimmed and upper-cased
      text, finds a word without surrounding whitespace exactly when the
      raw text mentions it in any case. */
  lemma TrimmedUpperSearch(text: string, w: string)
    requires |w| > 0 && !IsSpace(w[0]) && !IsSpace(w[|w| - 1])
    ensures Contains(Upper(Trim(text)), w) <==> MentionsIgnoringCase(text, w)
  {
    ContainsUpper(Trim(text), w);
    TrimKeepsMentions(text, w);
  }

  // ---------------------------------------------------------------------
  // Tickers and renames
  // ---------------------------------------------------------------------

  /** The ticker a row's asset resolves to: normalised, then replaced by
      the normalised rename target when the renames table has a non-empty
      entry for its bare code. */
  function ResolveTicker(asset: Option<string>, renames: map<string, string>): (r: string)
    ensures EndsWith(r, ".SA")
  {
    ResolveNormalized(NormalizeTicker(OrElse(asset, "")), renames)
  }

  /** The rename step on a normalised ticker. */
  function ResolveNormalized(ticker: string, renames: map<string, string>): string {
    var baseTicker := RemoveFirst(ticker, ".SA");
    if baseTicker in renames && renames[baseTicker] != "" then NormalizeTicker(renames[baseTicker])
    else ticker
  }

  /** A resolved ticker is a fixed point of normalisation, whether or not
      it was renamed. */
  lemma ResolvedIsNormal(asset: Option<string>, renames: map<string, string>)
    ensures NormalizeTicker(ResolveTicker(asset, renames)) == ResolveTicker(asset, renames)
  {
    var ticker := NormalizeTicker(OrElse(asset, ""));
    NormalizeTickerIdempotent(OrElse(asset, ""));
    var baseTicker := RemoveFirst(ticker, ".SA");
    if baseTicker in renames && renames[baseTicker] != "" {
      NormalizeTickerIdempotent(renames[baseTicker]);
    }
  }

  /** A bare exchange code: trimmed, upper-case, without the market suffix
      and without a fractional `F` the normaliser would drop. */
  predicate BareCode(code: string) {
    IsTrimmed(code) && IsUpper(code) && !Contains(code, ".SA") && !(EndsWith(code, "F") && |code| > 4)
  }

  /** A bare code normalises to itself plus `.SA`, and removing the suffix
      gives it back. */
  lemma BareCodeNormalizes(code: string)
    requires BareCode(code)
    ensures NormalizeTicker(code) == code + ".SA"
    ensures RemoveFirst(NormalizeTicker(code), ".SA") == code
  {
    NormalizeClean(code);
    if EndsWith(code, ".SA") {
      EndsWithContains(code, ".SA");
    }
    RemoveAppendedSuffix(code);
  }

  /** The renames table is keyed by bare code: a row naming a bare code
      takes the normalised rename target when the table has a non-empty
      one, and the code with `.SA` otherwise. */
  lemma ResolveOfCode(code: string, renames: map<string, string>)
    requires BareCode(code)
    ensures ResolveTicker(Some(code), renames)
      == if code in renames && renames[code] != "" then NormalizeTicker(renames[code]) else code + ".SA"
  {
    BareCodeNormalizes(code);
    ResolvePresent(code, renames);
    var n := NormalizeTicker(code);
    assert RemoveFirst(n, ".SA") == code;
    assert ResolveTicker(Some(code), renames) == ResolveNormalized(n, renames);
  }

  /** Renames are applied once: a code renamed to another bare code ends
      there, whatever the table says about the target. */
  lemma RenameIsNotTransitive(a: string, b: string, renames: map<string, string>)
    requires BareCode(a) && BareCode(b) && b != ""
    requires a in renames && renames[a] == b
    ensures ResolveTicker(Some(a), renames) == b + ".SA"
  {
    ResolveOfCode(a, renames);
    BareCodeNormalizes(b);
  }

  /** An asset that is already normalised resolves as the raw asset did. */
  lemma ResolveAfterNormalize(x: string, renames: map<string, string>)
    ensures ResolveTicker(Some(NormalizeTicker(x)), renames) == ResolveTicker(Some(x), renames)
  {
    NormalizeTickerIdempotent(x);
    ResolvePresent(x, renames);
    ResolvePresent(NormalizeTicker(x), renames);
  }

  /** A present asset, empty or not, is normalised as it stands. */
  lemma ResolvePresent(x: string, renames: map<string, string>)
    ensures ResolveTicker(Some(x), renames) == ResolveNormalized(NormalizeTicker(x), renames)
  {
    var t := OrElse(Some(x), "");
    assert t == x;
    assert ResolveTicker(Some(x), renames) == ResolveNormalized(NormalizeTicker(t), renames);
  }

  /** A missing asset resolves like an empty one: to the bare suffix `.SA`,
      unless the table renames the empty code. */
  lemma MissingAsset(renames: map<string, string>)
    ensures ResolveTicker(None, renames) == ResolveTicker(Some(""), renames)
    ensures "" !in renames || renames[""] == "" ==> ResolveTicker(None, renames) == ".SA"
  {
    assert OrElse(None, "") == "" == OrElse(Some(""), "");
    BareCodeNormalizes("");
  }

  // ---------------------------------------------------------------------
  // Rows
  // ---------------------------------------------------------------------

  /** One record of a broker export, by column: "Data" (already a
      timestamp), "Tipo de Movimentação", "Ativo", "Quantidade", "Valor" and
      "Preço". Absent or empty text columns are `None`. */
  datatype RawRow = RawRow(date: int, kind: Option<string>, asset: Option<string>,
                           quantity: Cell, value: Cell, price: Cell)

  /** The number a parsed cell stands for; `parseFloat` is supplied by the
      caller. */
  function Amount(p: Parsed, parseFloat: string -> real): real {
    match p
    case Value(x) => x
    case ParseFloatOf(text) => parseFloat(text)
  }

  /** `mapToTransaction`: one export record as a BUY or SELL transaction
      recorded against the file it came from. */
  function MapToTransaction(row: RawRow, fileName: string, renames: map<string, string>,
                            parseFloat: string -> real): (r: Transaction)
    ensures r.txType.IsRaw() && r.id.None? && r.sourceFile == Some(fileName)
    ensures EndsWith(r.ticker, ".SA") && NormalizeTicker(r.ticker) == r.ticker
    ensures r.date == row.date
  {
    ResolvedIsNormal(row.asset, renames);
    Transaction(None, row.date, ClassifyMovement(row.kind), ResolveTicker(row.asset, renames),
                Amount(ParseNumber(row.quantity), parseFloat),
                Amount(ParseNumber(row.price), parseFloat),
                Amount(ParseNumber(row.value), parseFloat),
                Some(fileName))
  }

  /** All records of one file, in order. */
  function MapRecords(records: seq<RawRow>, fileName: string, renames: map<string, string>,
                      parseFloat: string -> real): (r: seq<Transaction>)
    ensures |r| == |records|
    ensures forall i :: 0 <= i < |r| ==> r[i] == MapToTransaction(records[i], fileName, renames, parseFloat)
  {
    seq(|records|, i requires 0 <= i < |records| => MapToTransaction(records[i], fileName, renames, parseFloat))
  }

  /** Every transaction was read from the named file. */
  predicate ReadFrom(txs: seq<Transaction>, fileName: string) {
    forall i :: 0 <= i < |txs| ==> txs[i].sourceFile == Some(fileName)
  }

  /** `readValues`: a `.csv` file, or an `.xlsx`/`.xls` workbook, yields
      its records mapped to transactions; any other file yields none. A
      workbook without a readable first sheet has no records. */
  function ReadValues(filePath: string, records: seq<RawRow>, renames: map<string, string>,
                      parseFloat: string -> real): seq<Transaction>
  {
    var fileName := Basename(filePath);
    var ext := Lower(ExtName(fileName));
    if ext == ".csv" || ext == ".xlsx" || ext == ".xls" then MapRecords(records, fileName, renames, parseFloat)
    else []
  }

  /** What a file contributes: only BUY and SELL, all attributed to its base
      name, one per record for an export and nothing otherwise. */
  lemma ReadValuesShape(filePath: string, records: seq<RawRow>, renames: map<string, string>,
                        parseFloat: string -> real)
    ensures var r := ReadValues(filePath, records, renames, parseFloat);
      && RawTrades(r) && ReadFrom(r, Basename(filePath))
      && |r| == (if Lower(ExtName(Basename(filePath))) in ExportExtensions then |records| else 0)
  {
    var fileName := Basename(filePath);
    var ext := Lower(ExtName(fileName));
    var r := ReadValues(filePath, records, renames, parseFloat);
    if ext in ExportExtensions {
      assert ext == ".csv" || ext == ".xlsx" || ext == ".xls";
      assert r == MapRecords(records, fileName, renames, parseFloat);
      MappedRecords(records, fileName, renames, parseFloat);
    } else {
      assert r == [];
    }
  }

  /** Mapped records are BUY and SELL trades read from the file. */
  lemma MappedRecords(records: seq<RawRow>, fileName: string, renames: map<string, string>,
                      parseFloat: string -> real)
    ensures RawTrades(MapRecords(records, fileName, renames, parseFloat))
    ensures ReadFrom(MapRecords(records, fileName, renames, parseFloat), fileName)
  {
  }

  /** Every file the directory filter keeps is read in full, and recorded
      under its directory entry. */
  lemma InputFileIsRead(name: string, records: seq<RawRow>, renames: map<string, string>,
                        parseFloat: string -> real)
    requires '/' !in name && IsInputFile(name)
    ensures ReadValues(InputPath(name), records, renames, parseFloat) == MapRecords(records, name, renames, parseFloat)
  {
    BasenameOfInputPath(name);
  }
}
