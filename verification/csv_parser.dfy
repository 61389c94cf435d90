/** The internal-records parser, from a table of cells to transactions: column
    validation, amount-string normalisation, transaction type words, the
    reference and id rules of a row, and the loop that skips rows that fail
    to convert. Reading the file and parsing dates and decimals are outside
    this model: dates and decimal literals are parsed by functions the
    caller supplies. */
module CsvParser {
  import opened Wrappers
  import opened Models
  import opened Text

  /** A cell as the table hands it over: missing (NaN) or a value, given by
      its `str()` text. */
  datatype Cell = Null | Value(text: string)

  /** `str()` of a cell; a missing cell prints as "nan". */
  function CellText(c: Cell): string {
    match c
    case Null => "nan"
    case Value(s) => s
  }

  type Row = map<string, Cell>

  /** Field name to column name. */
  type ColumnMapping = map<string, string>

  const DefaultMapping: ColumnMapping :=
    map["date" := "date", "amount" := "amount", "description" := "description",
        "reference" := "reference", "type" := "type"]

  datatype Parser = Parser(mapping: ColumnMapping)

  /** A parser built without a mapping, or with an empty one, uses the
      default mapping. */
  function NewParser(mapping: Option<ColumnMapping>): (p: Parser)
    ensures mapping.Some? && |mapping.value| > 0 ==> p.mapping == mapping.value
    ensures mapping.None? || |mapping.value| == 0 ==> p.mapping == DefaultMapping
  {
    if mapping.Some? && |mapping.value| > 0 then Parser(mapping.value) else Parser(DefaultMapping)
  }

  /** The column a field is read from; an unmapped field is read from the
      column of its own name. */
  function Column(p: Parser, field: string): string {
    if field in p.mapping then p.mapping[field] else field
  }

  const RequiredFields: seq<string> := ["date", "amount"]

  /** A required field whose column is absent. */
  datatype MissingColumn = MissingColumn(field: string, column: string)

  function MissingAmong(p: Parser, fields: seq<string>, columns: seq<string>): (missing: seq<MissingColumn>)
    ensures |missing| <= |fields|
    ensures forall k :: 0 <= k < |missing| ==>
      missing[k].field in fields && missing[k].column == Column(p, missing[k].field) && missing[k].column !in columns
    ensures forall f :: f in fields && Column(p, f) !in columns ==> MissingColumn(f, Column(p, f)) in missing
  {
    if fields == [] then []
    else
      var f := fields[0];
      (if Column(p, f) !in columns then [MissingColumn(f, Column(p, f))] else []) + MissingAmong(p, fields[1..], columns)
  }

  /** Validation fails exactly when the date or the amount column is absent,
      and then names every missing one, date first. */
  function ValidateColumns(p: Parser, columns: seq<string>): (r: Result<(), seq<MissingColumn>>)
    ensures r.Ok? <==> Column(p, "date") in columns && Column(p, "amount") in columns
    ensures r.Err? ==> r.error != []
    ensures r.Err? ==> forall k :: 0 <= k < |r.error| ==>
      r.error[k].field in RequiredFields && r.error[k].column == Column(p, r.error[k].field)
      && r.error[k].column !in columns
    ensures r.Err? && Column(p, "date") !in columns ==> r.error[0] == MissingColumn("date", Column(p, "date"))
    ensures r.Err? && Column(p, "amount") !in columns ==>
      r.error[|r.error| - 1] == MissingColumn("amount", Column(p, "amount"))
  {
    var missing := MissingAmong(p, RequiredFields, columns);
    assert RequiredFields[1..][1..] == [];
    if missing == [] then
      assert "date" in RequiredFields && "amount" in RequiredFields;
      Ok(())
    else Err(missing)
  }

  /** How the separators of the stripped amount text are read. */
  datatype SeparatorCase = CommaDecimalWithDots | DotDecimalWithCommas | CommaOnly | NoComma

  function SeparatorsOf(s: string): SeparatorCase {
    if ',' in s && '.' in s then
      if LastIndexOf(s, ',') > LastIndexOf(s, '.') then CommaDecimalWithDots else DotDecimalWithCommas
    else if ',' in s then CommaOnly
    else NoComma
  }

  /** With a comma after the last dot, the dots are thousands separators and
      go, and the comma becomes the decimal point; a comma with no dot becomes
      the decimal point; otherwise the separators stay. */
  function NormalizeSeparators(s: string): string {
    match SeparatorsOf(s)
    case CommaDecimalWithDots => ReplaceAll(ReplaceAll(s, ".", ""), ",", ".")
    case CommaOnly => ReplaceAll(s, ",", ".")
    case _ => s
  }

  /** Drops "R$" and "$" and strips again. */
  function RemoveCurrency(t: string): string {
    Strip(ReplaceAll(ReplaceAll(t, "R$", ""), "$", ""))
  }

  /** The amount text handed to the decimal parser: "1.000,50" becomes
      "1000.50" and "-500,00" becomes "-500.00". */
  function NormalizeAmountText(value: string): string {
    RemoveCurrency(NormalizeSeparators(Strip(value)))
  }

  /** Turning every ',' into '.' leaves no ',' and as many '.' as there
      were ',' and '.' together; other characters are kept. */
  lemma CommaToDot(s: string)
    ensures ',' !in ReplaceAll(s, ",", ".")
    ensures multiset(ReplaceAll(s, ",", "."))['.'] == multiset(s)[','] + multiset(s)['.']
    ensures forall x :: x != ',' && x != '.' ==> multiset(ReplaceAll(s, ",", "."))[x] == multiset(s)[x]
  {
    CommaToDotCount(s, ',');
    CommaToDotCount(s, '.');
    forall x | x != ',' && x != '.' ensures multiset(ReplaceAll(s, ",", "."))[x] == multiset(s)[x] {
      CommaToDotCount(s, x);
    }
  }

  lemma {:induction false} CommaToDotCount(s: string, x: char)
    ensures multiset(ReplaceAll(s, ",", "."))[x] ==
      if x == ',' then 0 else if x == '.' then multiset(s)[','] + multiset(s)['.'] else multiset(s)[x]
    decreases |s|
  {
    if |s| >= 1 {
      CommaToDotCount(s[1..], x);
      assert s[..1] == [s[0]];
      assert s == [s[0]] + s[1..];
    }
  }

  lemma NormalizeSeparatorsSpec(s: string)
    ensures forall x :: x != ',' && x != '.' ==> multiset(NormalizeSeparators(s))[x] == multiset(s)[x]
    ensures SeparatorsOf(s) == CommaDecimalWithDots || SeparatorsOf(s) == CommaOnly ==>
      ',' !in NormalizeSeparators(s) && multiset(NormalizeSeparators(s))['.'] == multiset(s)[',']
    ensures SeparatorsOf(s) == DotDecimalWithCommas || SeparatorsOf(s) == NoComma ==>
      NormalizeSeparators(s) == s
  {
    match SeparatorsOf(s)
    case CommaDecimalWithDots =>
      var noDots := ReplaceAll(s, ".", "");
      RemoveChar(s, '.');
      CommaToDot(noDots);
    case CommaOnly =>
      CommaToDot(s);
    case _ =>
  }

  lemma RemoveCurrencySpec(t: string)
    ensures '$' !in RemoveCurrency(t)
    ensures forall x :: x != '$' && x != 'R' && !IsSpace(x) ==> multiset(RemoveCurrency(t))[x] == multiset(t)[x]
  {
    var u := ReplaceAll(t, "R$", "");
    RemoveChar(u, '$');
    forall x | x != '$' && x != 'R' && !IsSpace(x)
      ensures multiset(RemoveCurrency(t))[x] == multiset(t)[x]
    {
      ReplaceKeepsChar(t, "R$", "", x);
      StripKeeps(ReplaceAll(u, "$", ""), x);
    }
  }

  /** Normalisation keeps every digit and minus sign. */
  lemma NormalizeKeepsDigits(value: string, x: char)
    requires '0' <= x <= '9' || x == '-'
    ensures multiset(NormalizeAmountText(value))[x] == multiset(value)[x]
  {
    var s := Strip(value);
    var n := NormalizeSeparators(s);
    assert multiset(s)[x] == multiset(value)[x] by {
      StripKeeps(value, x);
    }
    SeparatorsKeep(s, x);
    CurrencyKeeps(n, x);
  }

  lemma SeparatorsKeep(s: string, x: char)
    requires x != ',' && x != '.'
    ensures multiset(NormalizeSeparators(s))[x] == multiset(s)[x]
  {
    NormalizeSeparatorsSpec(s);
  }

  lemma CurrencyKeeps(t: string, x: char)
    requires x != '$' && x != 'R' && !IsSpace(x)
    ensures multiset(RemoveCurrency(t))[x] == multiset(t)[x]
  {
    RemoveCurrencySpec(t);
  }

  /** Normalisation leaves no '$', and counts the separators by their case:
      when a comma is the decimal separator no comma is left and there are
      as many dots as there were commas; otherwise the numbers of commas
      and of dots are unchanged. */
  lemma NormalizeSeparatorsOfAmount(value: string)
    ensures '$' !in NormalizeAmountText(value)
    ensures var s := Strip(value);
      SeparatorsOf(s) == CommaDecimalWithDots || SeparatorsOf(s) == CommaOnly ==>
        ',' !in NormalizeAmountText(value) && multiset(NormalizeAmountText(value))['.'] == multiset(s)[',']
    ensures var s := Strip(value);
      SeparatorsOf(s) == DotDecimalWithCommas || SeparatorsOf(s) == NoComma ==>
        && multiset(NormalizeAmountText(value))[','] == multiset(s)[',']
        && multiset(NormalizeAmountText(value))['.'] == multiset(s)['.']
  {
    var s := Strip(value);
    NoDollar(NormalizeSeparators(s));
    match SeparatorsOf(s)
    case CommaDecimalWithDots => CommaDecimalCounts(s);
    case CommaOnly => CommaDecimalCounts(s);
    case DotDecimalWithCommas => DotDecimalCounts(s);
    case NoComma => DotDecimalCounts(s);
  }

  lemma CommaDecimalCounts(s: string)
    requires SeparatorsOf(s) == CommaDecimalWithDots || SeparatorsOf(s) == CommaOnly
    ensures var t := RemoveCurrency(NormalizeSeparators(s));
      ',' !in t && multiset(t)['.'] == multiset(s)[',']
  {
    var n := NormalizeSeparators(s);
    NormalizeSeparatorsSpec(s);
    CurrencyKeeps(n, ',');
    CurrencyKeeps(n, '.');
  }

  lemma DotDecimalCounts(s: string)
    requires SeparatorsOf(s) == DotDecimalWithCommas || SeparatorsOf(s) == NoComma
    ensures var t := RemoveCurrency(NormalizeSeparators(s));
      multiset(t)[','] == multiset(s)[','] && multiset(t)['.'] == multiset(s)['.']
  {
    var n := NormalizeSeparators(s);
    CurrencyKeeps(n, ',');
    CurrencyKeeps(n, '.');
    assert n == s;
  }

  lemma NoDollar(t: string)
    ensures '$' !in RemoveCurrency(t)
  {
    RemoveCurrencySpec(t);
  }

  /** Text with no currency mark and no surrounding whitespace passes
      through the currency removal unchanged. */
  lemma NoCurrency(t: string)
    requires 'R' !in t && '$' !in t
    requires t == [] || (!IsSpace(t[0]) && !IsSpace(t[|t| - 1]))
    ensures RemoveCurrency(t) == t
  {
    ReplaceAbsent(t, "R$", "");
    ReplaceAbsent(t, "$", "");
    StripUnpadded(t);
  }

  lemma BrazilianStripped()
    ensures Strip("1.000,50") == "1.000,50"
  {
    StripUnpadded("1.000,50");
  }

  lemma BrazilianSeparatorCase()
    ensures SeparatorsOf("1.000,50") == CommaDecimalWithDots
  {
    var s := "1.000,50";
    assert forall j :: 5 < j < |s| ==> s[j] != ',';
    assert forall j :: 1 < j < |s| ==> s[j] != '.';
    assert LastIndexOf(s, ',') == 5 && LastIndexOf(s, '.') == 1;
  }

  lemma BrazilianDotsRemoved()
    ensures ReplaceAll("1.000,50", ".", "") == "1000,50"
  {
    var a, b := "1", "000,50";
    ReplaceSingle(a, '.', b, "");
    assert a + ['.'] + b == "1.000,50";
    assert a + "" + b == "1000,50";
  }

  lemma BrazilianCommaReplaced()
    ensures ReplaceAll("1000,50", ",", ".") == "1000.50"
  {
    assert "1000,50" == "1000" + [','] + "50";
    ReplaceSingle("1000", ',', "50", ".");
  }

  lemma BrazilianNoCurrency()
    ensures RemoveCurrency("1000.50") == "1000.50"
  {
    NoCurrency("1000.50");
  }

  /** A comma after the last dot: "1.000,50" is read as 1000.50. */
  lemma NormalizeBrazilianExample()
    ensures NormalizeAmountText("1.000,50") == "1000.50"
  {
    BrazilianStripped();
    assert NormalizeSeparators("1.000,50") == "1000.50" by {
      BrazilianSeparatorCase();
      BrazilianDotsRemoved();
      BrazilianCommaReplaced();
    }
    BrazilianNoCurrency();
    NormalizeSteps("1.000,50", "1.000,50", "1000.50", "1000.50");
  }

  lemma NegativeStripped()
    ensures Strip("-500,00") == "-500,00"
  {
    StripUnpadded("-500,00");
  }

  lemma NegativeSeparatorCase()
    ensures NormalizeSeparators("-500,00") == ReplaceAll("-500,00", ",", ".")
  {
    assert SeparatorsOf("-500,00") == CommaOnly;
  }

  lemma NegativeCommaReplaced()
    ensures ReplaceAll("-500,00", ",", ".") == "-500.00"
  {
    assert "-500,00" == "-500" + [','] + "00";
    ReplaceSingle("-500", ',', "00", ".");
  }

  lemma NegativeNoCurrency()
    ensures RemoveCurrency("-500.00") == "-500.00"
  {
    NoCurrency("-500.00");
  }

  /** A lone comma is the decimal separator: "-500,00" is read as -500.00. */
  lemma NormalizeNegativeExample()
    ensures NormalizeAmountText("-500,00") == "-500.00"
  {
    NegativeStripped();
    NegativeSeparatorCase();
    NegativeCommaReplaced();
    NegativeNoCurrency();
    NormalizeSteps("-500,00", "-500,00", "-500.00", "-500.00");
  }

  /** The three stages of amount normalisation, one after the other. */
  lemma NormalizeSteps(value: string, stripped: string, separated: string, plain: string)
    requires Strip(value) == stripped
    requires NormalizeSeparators(stripped) == separated
    requires RemoveCurrency(separated) == plain
    ensures NormalizeAmountText(value) == plain
  {
  }

  lemma DotLastStripped()
    ensures Strip("1,234.56") == "1,234.56"
  {
    StripUnpadded("1,234.56");
  }

  lemma DotLastSeparatorCase()
    ensures SeparatorsOf("1,234.56") == DotDecimalWithCommas
  {
    var s := "1,234.56";
    assert forall j :: 1 < j < |s| ==> s[j] != ',';
    assert forall j :: 5 < j < |s| ==> s[j] != '.';
    assert LastIndexOf(s, ',') == 1 && LastIndexOf(s, '.') == 5;
  }

  lemma DotLastNoCurrency()
    ensures RemoveCurrency("1,234.56") == "1,234.56"
  {
    NoCurrency("1,234.56");
  }

  /** With the dot last, both separators are left for the decimal parser,
      which then refuses the text. */
  lemma NormalizeDotLastExample()
    ensures NormalizeAmountText("1,234.56") == "1,234.56"
  {
    DotLastStripped();
    assert NormalizeSeparators("1,234.56") == "1,234.56" by {
      DotLastSeparatorCase();
    }
    DotLastNoCurrency();
    NormalizeSteps("1,234.56", "1,234.56", "1,234.56", "1,234.56");
  }

  /** The amount of a cell: its text normalised, then read by the supplied
      decimal parser, which gives the amount in cents or nothing when it
      refuses the text. A number's text takes the same path, since
      normalisation leaves a plain numeral unchanged. */
  function CellAmount(c: Cell, parseDecimal: string -> Option<int>): Option<int> {
    parseDecimal(NormalizeAmountText(CellText(c)))
  }

  const CreditWords: set<string> := {"credit", "crédito", "credito", "c", "entrada", "receipt"}
  const DebitWords: set<string> := {"debit", "débito", "debito", "d", "saída", "saida", "payment"}

  /** A transaction type word, compared after lowering and stripping; the
      error carries the original text. */
  function ParseType(value: string): (r: Result<TransactionType, string>)
    ensures r == Ok(Credit) <==> Strip(Lower(value)) in CreditWords
    ensures r == Ok(Debit) <==> Strip(Lower(value)) in DebitWords
    ensures r.Err? <==> Strip(Lower(value)) !in CreditWords + DebitWords
    ensures r.Err? ==> r.error == value
  {
    TypeWordsDisjoint();
    var normalized := Strip(Lower(value));
    if normalized in CreditWords then Ok(Credit)
    else if normalized in DebitWords then Ok(Debit)
    else Err(value)
  }

  /** No word is both a credit and a debit word. */
  lemma TypeWordsDisjoint()
    ensures CreditWords !! DebitWords
  {
  }

  /** Type words are recognised whatever their case and surrounding
      whitespace. */
  lemma ParseTypeNormalizes(pre: string, value: string, post: string)
    requires AllSpace(pre) && AllSpace(post)
    ensures ParseType(pre + value + post).Ok? == ParseType(value).Ok?
    ensures ParseType(value).Ok? ==> ParseType(pre + value + post) == ParseType(value)
    ensures ParseType(Lower(value)).Ok? == ParseType(value).Ok?
    ensures ParseType(Lower(value)).Ok? ==> ParseType(Lower(value)) == ParseType(value)
  {
    LowerConcat(pre + value, post);
    LowerConcat(pre, value);
    LowerSpaces(pre);
    LowerSpaces(post);
    StripPadding(pre, Lower(value), post);
    LowerIdempotent(value);
  }

  lemma CreditWordLowered()
    ensures Lower("Crédito") == "crédito"
  {
  }

  lemma CreditWordStripped()
    ensures Strip("crédito") == "crédito"
  {
    StripUnpadded("crédito");
  }

  lemma CreditWordPadded()
    ensures ParseType(" Crédito ").Ok? == ParseType("Crédito").Ok?
    ensures ParseType("Crédito").Ok? ==> ParseType(" Crédito ") == ParseType("Crédito")
  {
    assert " Crédito " == " " + "Crédito" + " ";
    ParseTypeNormalizes(" ", "Crédito", " ");
  }

  /** Accents, capitals and padding: " Crédito " is a credit. */
  lemma ParseTypeCreditExample()
    ensures ParseType(" Crédito ") == Ok(Credit)
  {
    CreditWordLowered();
    CreditWordStripped();
    CreditWordPadded();
  }

  lemma ParseTypeDebitExample()
    ensures ParseType("SAÍDA") == Ok(Debit)
  {
    assert Lower("SAÍDA") == "saída";
    StripUnpadded("saída");
  }

  /** Without a type column the sign decides: zero and above is a credit. */
  function FallbackType(amount: int): (k: TransactionType)
    ensures k == Credit <==> amount >= 0
    ensures k == Debit <==> amount < 0
  {
    if amount >= 0 then Credit else Debit
  }

  /** The reference of a row: absent when the column is, and when its text
      is empty or "nan". */
  function RowReference(p: Parser, row: Row): (r: Option<string>)
    ensures r.None? <==>
      Column(p, "reference") !in row || CellText(row[Column(p, "reference")]) in {"", "nan"}
    ensures r.Some? ==> r.value == CellText(row[Column(p, "reference")]) && r.value != "" && r.value != "nan"
  {
    var col := Column(p, "reference");
    if col !in row then None
    else
      var text := CellText(row[col]);
      if text != "" && text != "nan" then Some(text) else None
  }

  /** The description of a row: the text of its column, empty when the column
      is absent. A missing cell reads "nan". */
  function RowDescription(p: Parser, row: Row): string {
    var col := Column(p, "description");
    if col in row then CellText(row[col]) else ""
  }

  /** The type of a row: its type word when the column is present and not
      missing, the sign of the amount otherwise. */
  function RowType(p: Parser, row: Row, amount: int): (r: Result<TransactionType, string>)
    ensures var col := Column(p, "type");
      col in row && row[col].Value? ==> r == ParseType(row[col].text)
    ensures var col := Column(p, "type");
      col !in row || row[col].Null? ==> r == Ok(FallbackType(amount))
  {
    var col := Column(p, "type");
    if col in row && row[col].Value? then ParseType(CellText(row[col])) else Ok(FallbackType(amount))
  }

  const RowIdPrefix: string := "INT-"

  /** The id of the row at `idx`: "INT-" and the index zero-padded to six
      digits. */
  function RowId(idx: nat): (id: string)
    ensures RowIdPrefix <= id && AllDigits(id[4..])
  {
    RowIdPrefix + ZeroPad(idx, 6)
  }

  /** Below a million rows every id has the same ten characters. */
  lemma RowIdLength(idx: nat)
    requires idx < 1000000
    ensures |RowId(idx)| == 10
  {
    assert Pow10(6) == 1000000;
    DigitsBelow(idx, 6);
  }

  /** A number below 10^k has at most k digits. */
  lemma {:induction false} DigitsBelow(n: nat, k: nat)
    requires n < Pow10(k) && k >= 1
    ensures |NatToDecimal(n)| <= k
    decreases k
  {
    if n >= 10 {
      DigitsBelow(n / 10, k - 1);
    }
  }

  function Pow10(k: nat): nat {
    if k == 0 then 1 else 10 * Pow10(k - 1)
  }

  /** Reads the row index back from an id. */
  function ParseRowId(id: string): Option<nat> {
    if |id| >= 4 && id[..4] == RowIdPrefix && AllDigits(id[4..]) then Some(DecimalValue(id[4..])) else None
  }

  /** Ids give back their row index, so two rows never share an id. */
  lemma RowIdRoundTrip(idx: nat)
    ensures ParseRowId(RowId(idx)) == Some(idx)
  {
    var id := RowId(idx);
    assert id[4..] == ZeroPad(idx, 6);
  }

  lemma RowIdInjective(i: nat, j: nat)
    requires RowId(i) == RowId(j)
    ensures i == j
  {
    RowIdRoundTrip(i);
    RowIdRoundTrip(j);
  }

  /** Why a row was skipped. */
  datatype RowError = BadDate | BadAmount | UnknownType(value: string)

  predicate HasRequiredColumns(p: Parser, row: Row) {
    Column(p, "date") in row && Column(p, "amount") in row
  }

  /** One row to a transaction: the date, then the amount, then the type; the
      first of these that fails decides the error. */
  function ConvertRow(p: Parser, row: Row, idx: nat, parseDate: Cell -> Option<int>,
                      parseDecimal: string -> Option<int>): (r: Result<Transaction, RowError>)
    requires HasRequiredColumns(p, row)
    ensures var day := parseDate(row[Column(p, "date")]);
      var amount := CellAmount(row[Column(p, "amount")], parseDecimal);
      && (r == Err(BadDate) <==> day.None?)
      && (r == Err(BadAmount) <==> day.Some? && amount.None?)
      && (r.Err? && r.error.UnknownType? <==>
            day.Some? && amount.Some? && RowType(p, row, amount.value).Err?)
      && (r.Ok? ==>
            && r.value.id == RowId(idx) && r.value.day == day.value && r.value.amount == amount.value
            && RowType(p, row, r.value.amount) == Ok(r.value.kind)
            && r.value.reference == RowReference(p, row)
            && r.value.description == RowDescription(p, row))
  {
    match parseDate(row[Column(p, "date")])
    case None => Err(BadDate)
    case Some(day) =>
      match CellAmount(row[Column(p, "amount")], parseDecimal)
      case None => Err(BadAmount)
      case Some(amount) =>
        match RowType(p, row, amount)
        case Err(v) => Err(UnknownType(v))
        case Ok(kind) =>
          Ok(Transaction(RowId(idx), day, amount, RowDescription(p, row), kind, RowReference(p, row)))
  }

  /** The row index a converted transaction came from. */
  function RowIndexOf(t: Transaction): Option<nat> {
    ParseRowId(t.id)
  }

  /** The positions, from `start` on, whose conversion succeeded: each
      exactly once, in increasing order. */
  function SurvivingRows<T, E>(outcomes: seq<Result<T, E>>, start: nat): (js: seq<nat>)
    requires start <= |outcomes|
    ensures |js| <= |outcomes| - start
    ensures forall k :: 0 <= k < |js| ==> start <= js[k] < |outcomes| && outcomes[js[k]].Ok?
    ensures forall k1, k2 :: 0 <= k1 < k2 < |js| ==> js[k1] < js[k2]
    ensures forall j :: start <= j < |outcomes| && outcomes[j].Ok? ==> j in js
    decreases |outcomes| - start
  {
    if start == |outcomes| then []
    else
      var rest := SurvivingRows(outcomes, start + 1);
      if outcomes[start].Ok? then [start] + rest else rest
  }

  /** The conversion of every row, row `j` converted with index `j`. */
  function Outcomes(p: Parser, rows: seq<Row>, parseDate: Cell -> Option<int>,
                    parseDecimal: string -> Option<int>): seq<Result<Transaction, RowError>>
    requires forall i :: 0 <= i < |rows| ==> HasRequiredColumns(p, rows[i])
  {
    seq(|rows|, j requires 0 <= j < |rows| => ConvertRow(p, rows[j], j, parseDate, parseDecimal))
  }

  /** Every successful outcome carries the id of its own position. */
  predicate IndexedOutcomes(os: seq<Result<Transaction, RowError>>) {
    forall j :: 0 <= j < |os| && os[j].Ok? ==> RowIndexOf(os[j].value) == Some(j)
  }

  lemma OutcomesIndexed(p: Parser, rows: seq<Row>, parseDate: Cell -> Option<int>,
                        parseDecimal: string -> Option<int>)
    requires forall i :: 0 <= i < |rows| ==> HasRequiredColumns(p, rows[i])
    ensures |Outcomes(p, rows, parseDate, parseDecimal)| == |rows|
    ensures forall j :: 0 <= j < |rows| ==>
      Outcomes(p, rows, parseDate, parseDecimal)[j] == ConvertRow(p, rows[j], j, parseDate, parseDecimal)
    ensures IndexedOutcomes(Outcomes(p, rows, parseDate, parseDecimal))
  {
    var os := Outcomes(p, rows, parseDate, parseDecimal);
    forall j | 0 <= j < |os| && os[j].Ok? ensures RowIndexOf(os[j].value) == Some(j) {
      RowIdRoundTrip(j);
    }
  }

  /** The successful outcomes, in order: each kept once, and none other. */
  function KeepConverted(os: seq<Result<Transaction, RowError>>): (txns: seq<Transaction>)
    requires IndexedOutcomes(os)
    ensures |txns| <= |os|
    ensures forall k :: 0 <= k < |txns| ==>
      RowIndexOf(txns[k]).Some? && RowIndexOf(txns[k]).value < |os| && os[RowIndexOf(txns[k]).value] == Ok(txns[k])
    ensures forall k1, k2 :: 0 <= k1 < k2 < |txns| ==> RowIndexOf(txns[k1]).value < RowIndexOf(txns[k2]).value
    ensures forall j :: 0 <= j < |os| && os[j].Ok? ==> os[j].value in txns
  {
    var js := SurvivingRows(os, 0);
    var txns := seq(|js|, k requires 0 <= k < |js| => os[js[k]].value);
    forall j | 0 <= j < |os| && os[j].Ok? ensures os[j].value in txns {
      var k :| 0 <= k < |js| && js[k] == j;
      assert txns[k] == os[j].value;
    }
    txns
  }

  /** The conversion of a whole table, rows indexed from zero: a row that
      fails is skipped and the others are kept, each once, in row order. */
  function ConvertDataFrame(p: Parser, rows: seq<Row>, parseDate: Cell -> Option<int>,
                            parseDecimal: string -> Option<int>): (txns: seq<Transaction>)
    requires forall i :: 0 <= i < |rows| ==> HasRequiredColumns(p, rows[i])
    ensures |txns| <= |rows|
    ensures forall k :: 0 <= k < |txns| ==>
      && RowIndexOf(txns[k]).Some? && RowIndexOf(txns[k]).value < |rows|
      && ConvertRow(p, rows[RowIndexOf(txns[k]).value], RowIndexOf(txns[k]).value, parseDate, parseDecimal) == Ok(txns[k])
    ensures forall k1, k2 :: 0 <= k1 < k2 < |txns| ==> RowIndexOf(txns[k1]).value < RowIndexOf(txns[k2]).value
    ensures forall j :: 0 <= j < |rows| && ConvertRow(p, rows[j], j, parseDate, parseDecimal).Ok? ==>
      ConvertRow(p, rows[j], j, parseDate, parseDecimal).value in txns
  {
    OutcomesIndexed(p, rows, parseDate, parseDecimal);
    KeepConverted(Outcomes(p, rows, parseDate, parseDecimal))
  }

  /** Converted transactions never share an id. */
  lemma ConvertedIdsUnique(p: Parser, rows: seq<Row>, parseDate: Cell -> Option<int>,
                           parseDecimal: string -> Option<int>)
    requires forall i :: 0 <= i < |rows| ==> HasRequiredColumns(p, rows[i])
    ensures UniqueIds(ConvertDataFrame(p, rows, parseDate, parseDecimal))
  {
    var txns := ConvertDataFrame(p, rows, parseDate, parseDecimal);
    forall k1, k2 | 0 <= k1 < k2 < |txns| ensures txns[k1].id != txns[k2].id {
      assert RowIndexOf(txns[k1]).value < RowIndexOf(txns[k2]).value;
    }
  }

  /** A table whose every row has exactly the listed columns. */
  predicate TableShape(columns: seq<string>, rows: seq<Row>) {
    forall i :: 0 <= i < |rows| ==> rows[i].Keys == set c | c in columns
  }

  /** Parsing a table: validation first, then conversion. */
  function Parse(p: Parser, columns: seq<string>, rows: seq<Row>, parseDate: Cell -> Option<int>,
                 parseDecimal: string -> Option<int>): (r: Result<seq<Transaction>, seq<MissingColumn>>)
    requires TableShape(columns, rows)
    ensures r.Err? <==> Column(p, "date") !in columns || Column(p, "amount") !in columns
    ensures r.Err? ==> ValidateColumns(p, columns) == Err(r.error)
    ensures r.Ok? ==> UniqueIds(r.value) && |r.value| <= |rows|
    ensures r.Ok? ==> forall k :: 0 <= k < |r.value| ==>
      && RowIndexOf(r.value[k]).Some? && RowIndexOf(r.value[k]).value < |rows|
      && ConvertRow(p, rows[RowIndexOf(r.value[k]).value], RowIndexOf(r.value[k]).value,
                    parseDate, parseDecimal) == Ok(r.value[k])
    ensures r.Ok? ==> forall k1, k2 :: 0 <= k1 < k2 < |r.value| ==>
      RowIndexOf(r.value[k1]).value < RowIndexOf(r.value[k2]).value
    ensures r.Ok? ==> forall j :: 0 <= j < |rows| && ConvertRow(p, rows[j], j, parseDate, parseDecimal).Ok? ==>
      ConvertRow(p, rows[j], j, parseDate, parseDecimal).value in r.value
  {
    match ValidateColumns(p, columns)
    case Err(missing) => Err(missing)
    case Ok(_) =>
      ConvertedIdsUnique(p, rows, parseDate, parseDecimal);
      Ok(ConvertDataFrame(p, rows, parseDate, parseDecimal))
  }
}
