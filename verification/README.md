# Bank reconciliation, modelled in Dafny

This project models the core of a bank reconciliation tool. The tool matches
the transactions of a bank statement against internal accounting records.
A run has four phases, followed by a summary:

1. **Exact matching.** Bank transactions are looked up through an index of
   internal transactions keyed by absolute amount. A match needs the same
   day and the same absolute amount, and the two references must not
   disagree.
2. **Fuzzy matching.** Bank transactions left unmatched are compared with
   every unclaimed internal transaction within a date tolerance and a
   relative amount threshold. The lowest score wins, and the first one wins
   a tie. A bank transaction with no candidate becomes UNMATCHED_BANK.
3. **Unmatched internal.** Every internal transaction no match consumed
   becomes UNMATCHED_INTERNAL.
4. **Duplicate detection.** Within each list, every transaction whose day
   and absolute amount occurred earlier in that list is flagged DUPLICATE.

The summary counts the results by status and adds up the absolute amounts.

The model also covers the internal-records parser. That covers:

- column validation;
- amount-text normalisation for Brazilian, comma-decimal and currency-marked
  amounts;
- the transaction type words in Portuguese and English;
- the reference, description, type and id rules of a row;
- the loop that skips rows that fail to convert.

Amounts are integers in cents and days are integer ordinals. The amount
threshold, the relative difference and the fuzzy score are exact reals.
Dates and decimal literals are parsed by functions that the caller passes
in as parameters.

Modules, in dependency order:

- `Wrappers`: `Option` and `Result`.
- `Models`: the entities and the summary arithmetic.
- `Grouping`: the insertion-ordered `defaultdict(list)` fold shared by the
  amount index and duplicate detection.
- `ExactMatching`, `FuzzyMatching`, `Duplicates`, `SummaryAggregation`:
  one module per engine step.
- `Reconciliation`: the whole run.
- `RunProperties`: the theorems about a whole run.
- `Text`: Python's `strip`, `lower`, `replace`, `rindex` and zero-padded
  formatting.
- `CsvParser`: the internal-records parser.

## Model

| member | source | states |
|---|---|---|
| Models.AbsAmount | src/engine/models.py:44-47 | the absolute amount is the amount or its negation, and never negative |
| Models.MatchRate | src/engine/models.py:90-96 | zero when there are no bank transactions; otherwise the matched share in percent; between 0 and 100 when no more are matched than exist; 100 when all are matched |
| Models.MatchRateThreeOfFour | src/engine/models.py:90-96 | three matched out of four gives a 75% match rate |
| Models.NewSummary | src/engine/models.py:73-88 | a fresh summary carries only the two list sizes; every counter and amount starts at zero |
| Models.ExactReasonText | src/engine/matcher.py:151-153 | the exact-match message always starts with the base text, and ends with ", and reference" exactly when both transactions have a reference |
| Models.SumAbsConcat | src/engine/matcher.py:289-290 | the absolute-amount total of two lists joined is the sum of their totals |
| Grouping.GroupBy | src/engine/matcher.py:114-117 | the keys are listed once each, exactly those with a bucket; a key has a bucket exactly when some element has it; each bucket is non-empty and holds exactly the elements of that key, in input order |
| ExactMatching.BuildAmountIndex | src/engine/matcher.py:110-117 | every transaction is in the bucket of its absolute amount; each bucket is non-empty and holds exactly the transactions with that amount, in input order |
| ExactMatching.CandidateIff | src/engine/matcher.py:110-129 | a transaction is a candidate for an amount exactly when it is in the internal list and has that absolute amount |
| ExactMatching.FindExactMatch | src/engine/matcher.py:119-156 | no match exactly when no candidate of the bank amount is unclaimed, on the same day and free of a reference conflict; a match is EXACT, HIGH, with zero differences, names the bank transaction and an internal transaction of the amount bucket such that no earlier transaction of the bucket qualifies |
| ExactMatching.ExactMatchViaIndex | src/engine/matcher.py:110-156 | looking up through the index finds a match exactly when some internal transaction qualifies, and the match is the first qualifying transaction in input order |
| ExactMatching.FirstExactSomeInBucket | src/engine/matcher.py:126-141 | the candidate picked from the amount bucket qualifies, and no transaction before it in the whole internal list qualifies |
| ExactMatching.FirstExactNoneInBucket | src/engine/matcher.py:126-156 | when the bucket yields no candidate, no internal transaction at all qualifies |
| ExactMatching.ExactPhase | src/engine/matcher.py:63-68 | every result is an EXACT match of a bank transaction of the list with a candidate of its amount, unclaimed before the phase, on the same day and free of a reference conflict; a bank transaction left without a match has no such candidate among the ids still unclaimed at the end; the claimed set grows by exactly the matched internal ids, none consumed twice |
| ExactMatching.ExactPhaseSnoc | src/engine/matcher.py:63-68 | phase 1 on a list with one more bank transaction is that transaction's turn after phase 1 on the list before it: its exact match among the still unclaimed ids is appended and claimed, and without one nothing changes |
| FuzzyMatching.AmountDiffPct | src/engine/matcher.py:178-184 | the candidate is skipped exactly when the bank amount is zero and the internal one is not; otherwise the percentage times the bank amount is the amount gap |
| FuzzyMatching.CandidateBounds | src/engine/matcher.py:168-187 | a fuzzy candidate is unclaimed, within the date tolerance, and has an amount gap of at most the threshold times the bank amount |
| FuzzyMatching.FindFuzzyMatch | src/engine/matcher.py:158-207 | no match exactly when there is no candidate; a match is FUZZY, names a candidate of the lowest score and no earlier candidate of that score, has MEDIUM confidence exactly when the dates are at most one day apart, and records the day and amount differences |
| FuzzyMatching.FuzzyTieKeepsFirst | src/engine/matcher.py:192-194 | of two candidates with the same score, the first one is chosen |
| FuzzyMatching.NegativeConfigMatchesNothing | src/engine/matcher.py:173-187 | a negative date tolerance or a negative threshold admits no fuzzy match |
| FuzzyMatching.FuzzyPhase | src/engine/matcher.py:76-88 | one result per bank transaction it is given, in order; a FUZZY result names an internal transaction of the list that was a fuzzy candidate and unclaimed before the phase; an UNMATCHED_BANK result has LOW confidence and its bank transaction has no fuzzy candidate among the ids still unclaimed at the end; the claimed set grows by exactly the matched ids, none consumed twice |
| FuzzyMatching.FuzzyPhaseSnoc | src/engine/matcher.py:76-88 | phase 2 on a list with one more bank transaction is that transaction's turn after phase 2 on the list before it: FUZZY and claimed exactly when a fuzzy match is found among the still unclaimed ids, UNMATCHED_BANK otherwise |
| Duplicates.FlagDuplicates | src/engine/matcher.py:217-233 | the flagged transactions are, with multiplicity, those whose day and absolute amount occurred earlier in the list; each result is DUPLICATE, MEDIUM, on the list's side, and names a group size of at least two |
| Duplicates.FlaggedIffKeySeenBefore | src/engine/matcher.py:218-225 | with unique ids, a transaction is flagged exactly when an earlier transaction of its list has the same day and absolute amount |
| Duplicates.LaterIffSeen | src/engine/matcher.py:218-225 | with unique ids, a transaction is a later occurrence of its group exactly when its key occurs earlier in the list |
| Duplicates.DetectDuplicates | src/engine/matcher.py:209-253 | the bank list's DUPLICATE results come first, then the internal list's; each part refers, with multiplicity, to the transactions whose day and absolute amount occurred earlier in that list, on that side, with its group's size |
| SummaryAggregation.Fold | src/engine/matcher.py:267-287 | each status counter grows by the number of results of that status; the matched count by the EXACT and FUZZY results; each amount by the absolute amounts of the matching side of those results |
| SummaryAggregation.GenerateSummary | src/engine/matcher.py:255-292 | the counts are the numbers of results per status, the matched count is exact plus fuzzy, the sizes and totals are those of the two input lists |
| SummaryAggregation.SumAbsPermutation | src/engine/matcher.py:289-290 | the amount totals do not depend on the order of a list |
| Reconciliation.ValidatedEngine | src/main.py:18-29 | settings are accepted exactly when the date tolerance is non-negative and the threshold lies between 0 and 1 |
| Reconciliation.DefaultEngineValid | src/engine/matcher.py:27-31 | the default settings, three days and 2%, pass the command line's checks and build that engine |
| Reconciliation.NewEngine | src/engine/matcher.py:39-40 | an engine is built exactly when the date tolerance is at most 999999999 days either way, the range of a `timedelta`, and then carries both settings unchanged |
| Reconciliation.ValidatedThenBuilt | src/main.py:18-22 | settings the command line accepts build an engine exactly when the tolerance is at most 999999999 days, and then the same engine the checks return |
| Reconciliation.ValidatedButNotBuilt | src/main.py:18-22 | a tolerance of a billion days passes the command line's check and then fails when the engine is built |
| Reconciliation.LeftForFuzzy | src/engine/matcher.py:71-74 | the bank transactions passed to phase 2 are a subsequence of the bank list, and each transaction occurs in it as often as in the bank list when no match refers to its id, and not at all otherwise |
| Reconciliation.Unclaimed | src/engine/matcher.py:91-92 | the internal transactions whose id was not claimed, and only those |
| Reconciliation.UnmatchedInternalResults | src/engine/matcher.py:90-99 | one UNMATCHED_INTERNAL, LOW result per unclaimed internal transaction, in input order, with no bank side and zero differences |
| Reconciliation.Reconcile | src/engine/matcher.py:42-108 | every result refers to the sides its status calls for; every EXACT pair has the same absolute amount and day and no reference conflict, and every FUZZY pair is within the date tolerance and amount threshold, both drawn from the inputs; a bank transaction left FUZZY or UNMATCHED_BANK has no exact match among the internal transactions no match consumed, and an UNMATCHED_BANK one no fuzzy candidate either; the summary's sizes and totals are those of the inputs and its matched count is the number of EXACT and FUZZY results |
| RunProperties.ResultsByStatus | src/engine/matcher.py:57-103 | the EXACT results are those of phase 1, the FUZZY and UNMATCHED_BANK results those of phase 2, and the UNMATCHED_INTERNAL and DUPLICATE results those of phases 3 and 4 |
| RunProperties.ReconcileClaimsUnique | src/engine/matcher.py:63-80 | no internal transaction id is consumed by two matches, and the claimed set is exactly the ids of the matched internal transactions |
| RunProperties.ReconcileInternalCoverage | src/engine/matcher.py:90-99 | an internal transaction is reported UNMATCHED_INTERNAL exactly when it is in the input and its id was not consumed by a match |
| RunProperties.ReconcileDuplicates | src/engine/matcher.py:101-103 | the DUPLICATE results are the duplicate detection of the two original lists, whatever the matching did, and there is one per repeated day-and-amount occurrence |
| RunProperties.ExactPhaseSplitsBank | src/engine/matcher.py:63-74 | with unique bank ids, the bank list is split, with multiplicity, into the exactly matched transactions and those passed to phase 2 |
| RunProperties.FuzzyBankSides | src/engine/matcher.py:76-88 | phase 2 yields a FUZZY or UNMATCHED_BANK result for each bank transaction it is given, in order, and nothing else |
| RunProperties.ReconcileBankCoverage | src/engine/matcher.py:63-88 | with unique bank ids, every bank transaction is referred to by exactly one EXACT, FUZZY or UNMATCHED_BANK result |
| RunProperties.ReconcileSummaryBank | src/engine/matcher.py:255-292 | with unique bank ids, matched plus unmatched bank is the bank count, the matched and unmatched bank amounts add up to the bank total, and the match rate lies between 0 and 100 |
| RunProperties.ReconcileSummaryInternal | src/engine/matcher.py:282-290 | the unmatched internal count and amount are those of the unclaimed internal transactions, the duplicate count is the number of repeated occurrences, and the amount difference is the bank total minus the internal total |
| RunProperties.ReconcilePhaseOrder | src/engine/matcher.py:57-103 | results come out phase by phase: EXACT, then FUZZY and UNMATCHED_BANK, then UNMATCHED_INTERNAL, then DUPLICATE |
| RunProperties.SinglePairMatchesExactly | src/engine/matcher.py:42-108 | one bank and one internal transaction with the same day and amount and no conflicting references reconcile to a single EXACT result and a 100% match rate |
| CsvParser.NewParser | src/parsers/csv_parser.py:39-47 | a parser without a mapping, or with an empty one, uses the default mapping; otherwise the given one |
| CsvParser.ValidateColumns | src/parsers/csv_parser.py:84-105 | validation fails exactly when the mapped date or amount column is absent, and then names each missing field with its column, date first |
| CsvParser.NormalizeKeepsDigits | src/parsers/csv_parser.py:179-191 | normalisation keeps every digit and minus sign of the amount text |
| CsvParser.CommaToDot | src/parsers/csv_parser.py:186-188 | replacing commas leaves no comma; the dots are the old commas and dots together; every other character keeps its count |
| CsvParser.NormalizeSeparatorsOfAmount | src/parsers/csv_parser.py:179-191 | no '$' is left; when a comma is the decimal separator no comma is left and there are as many dots as there were commas; with the dot last, or no comma, the numbers of commas and of dots are unchanged |
| CsvParser.NormalizeBrazilianExample | src/parsers/csv_parser.py:181-184 | "1.000,50" normalises to "1000.50" |
| CsvParser.NormalizeNegativeExample | src/parsers/csv_parser.py:186-188 | "-500,00" normalises to "-500.00" |
| CsvParser.NormalizeDotLastExample | src/parsers/csv_parser.py:182-191 | "1,234.56" is left as it is |
| CsvParser.ParseType | src/parsers/csv_parser.py:195-206 | the stripped lower-case text is a credit word exactly for CREDIT, a debit word exactly for DEBIT, and anything else is an error carrying the original text |
| CsvParser.ParseTypeNormalizes | src/parsers/csv_parser.py:197 | surrounding whitespace and letter case do not change whether or how a type word is recognised |
| CsvParser.TypeWordsDisjoint | src/parsers/csv_parser.py:198-199 | no word is both a credit and a debit word |
| Text.LowerIdempotent | src/parsers/csv_parser.py:197 | lowering leaves no capital, and lowering twice is lowering once |
| CsvParser.ParseTypeCreditExample | src/parsers/csv_parser.py:197-202 | " Crédito " is a credit |
| CsvParser.ParseTypeDebitExample | src/parsers/csv_parser.py:197-204 | "SAÍDA" is a debit |
| CsvParser.FallbackType | src/parsers/csv_parser.py:143-144 | without a type word, zero and above is a credit and below zero a debit |
| CsvParser.RowReference | src/parsers/csv_parser.py:136-152 | no reference exactly when the column is absent or its text is empty or "nan"; otherwise the cell's text |
| CsvParser.RowType | src/parsers/csv_parser.py:139-144 | a present, non-missing type cell decides through the type words; otherwise the sign of the amount decides |
| CsvParser.RowId | src/parsers/csv_parser.py:147 | an id is "INT-" followed by digits |
| CsvParser.RowIdRoundTrip | src/parsers/csv_parser.py:147 | the row index can be read back from its id |
| CsvParser.RowIdInjective | src/parsers/csv_parser.py:147 | two rows never get the same id |
| CsvParser.RowIdLength | src/parsers/csv_parser.py:147 | below a million rows every id is ten characters long |
| CsvParser.ConvertRow | src/parsers/csv_parser.py:121-155 | a row fails on its date first, then its amount, then its type word; a converted row carries the row's id, date, amount, type, reference and description |
| CsvParser.SurvivingRows | src/parsers/csv_parser.py:111-117 | the positions whose conversion succeeded, each once, in increasing order, and no others |
| CsvParser.ConvertDataFrame | src/parsers/csv_parser.py:107-119 | every converted row is kept, in row order, each carrying its own row's index; every other row is skipped |
| CsvParser.ConvertedIdsUnique | src/parsers/csv_parser.py:107-147 | the parsed transactions have pairwise distinct ids |
| CsvParser.Parse | src/parsers/csv_parser.py:69-71 | parsing fails exactly when a required column is missing, with the validation's list of missing columns; otherwise each transaction is its own row's successful conversion, in row order, every successfully converted row is kept, and the ids are distinct |
| Text.StripPadding | src/parsers/csv_parser.py:197 | surrounding whitespace makes no difference to `strip` |
| Text.StripKeeps | src/parsers/csv_parser.py:191 | `strip` removes only whitespace |
| Text.ZeroPad | src/parsers/csv_parser.py:147 | the padded text is all digits, has the requested width unless the number needs more, and reads back as the number |

## Left out

- Reading files is out of scope: CSV and Excel reading, the OFX parser, the Excel report, the command-line wiring and logging.
- Date parsing is a function parameter. Python's `strptime` over the list of formats is not modelled.
- Decimal parsing is a function parameter returning cents. Python's `Decimal` grammar is not modelled.
- Transactions keep no `source` or `raw_data` fields. Nothing in the core reads them.
- Match reasons are structured values. Only the exact-match message is rendered as text. The fuzzy message's percentage formatting is not modelled.
- FindFuzzyMatch: the score is an exact real, while the source computes it in binary floating point. Rounding could break a near-tie differently.
- Engine: the threshold is an exact real. The source converts it with `Decimal(str(float))`. A NaN threshold passes the command line's checks, because both comparisons are false, and then makes the amount comparison raise; a real cannot be NaN, so this failure is not modelled.
- Engine: the date tolerance is a whole number of days. The source builds a `timedelta` from it; NewEngine models the range check of that conversion, and the fuzzy phase takes any Engine value.
- NegativeConfigMatchesNothing: states its result for every Engine value, including tolerances below -999999999 days that NewEngine refuses to build.
- Duplicates.KeyOf: the duplicate key is the pair of day and absolute amount. The source builds a string key, so two equal amounts written with a different number of decimal places (`100` and `100.00`) fall into different groups there. One scale per list is assumed.
- CellAmount: a decimal that is NaN or infinite has no value in cents, so the model skips every such row. The source keeps a NaN row only when it has a type word, because comparing NaN with zero raises when the sign must decide the type. It keeps an infinite row always, and the sign decides the type when there is no type word.
- CellAmount: for a numeric cell, `str()` of the number goes through the same normalisation. This agrees with the source's direct conversion for every finite number.
- Text.LowerChar: lowers ASCII and Latin-1 capitals only. Python's full Unicode case mapping is not modelled.
- Text.IsSpace: the whitespace set is Python's `str.strip()` set for the Basic Multilingual Plane characters listed there.
- ReconcileBankCoverage: requires unique bank ids. Phase 2 selects bank transactions by id, so with repeated ids a bank transaction that did not match can be dropped when another with its id matched.
- ReconcileSummaryBank: requires unique bank ids, for the same reason.
- ValidatedEngine: returns one error message. The command-line library's error formatting is not modelled, and neither is the order in which it reports two bad options.
