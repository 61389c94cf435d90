/** A whole reconciliation run: exact matching through the amount index, fuzzy
    matching of what is left, one UNMATCHED_INTERNAL result per unclaimed
    internal transaction, then duplicate detection, and the summary of all
    results. */
module Reconciliation {
  import opened Wrappers
  import opened Models
  import opened ExactMatching
  import opened FuzzyMatching
  import opened Duplicates
  import opened SummaryAggregation
  import Grouping

  /** Three days of date tolerance and a 2% amount threshold. */
  const DefaultEngine: Engine := Engine(3, 0.02)

  /** The largest number of days a `timedelta` can hold, either way. */
  const MaxTimedeltaDays: int := 999999999

  /** Building an engine: the date tolerance becomes a `timedelta`, which
      fails for more than `MaxTimedeltaDays` days either way; the threshold
      is taken as it is. */
  function NewEngine(dateToleranceDays: int, amountThreshold: real): (r: Option<Engine>)
    ensures r.Some? <==> -MaxTimedeltaDays <= dateToleranceDays <= MaxTimedeltaDays
    ensures r.Some? ==> r.value.dateToleranceDays == dateToleranceDays && r.value.amountThreshold == amountThreshold
  {
    if dateToleranceDays < -MaxTimedeltaDays || dateToleranceDays > MaxTimedeltaDays then None
    else Some(Engine(dateToleranceDays, amountThreshold))
  }

  /** The command line's checks on the engine settings: a non-negative date
      tolerance and an amount threshold between 0 and 1. They set no upper
      bound on the tolerance, so settings they accept can still fail when the
      engine is built (see `ValidatedButNotBuilt`). */
  function ValidatedEngine(dateToleranceDays: int, amountThreshold: real): (r: Result<Engine, string>)
    ensures r.Ok? <==> dateToleranceDays >= 0 && 0.0 <= amountThreshold <= 1.0
    ensures r.Ok? ==> r.value == Engine(dateToleranceDays, amountThreshold)
  {
    if dateToleranceDays < 0 then Err("Date tolerance must be non-negative.")
    else if amountThreshold < 0.0 || amountThreshold > 1.0 then Err("Amount threshold must be between 0 and 1.")
    else Ok(Engine(dateToleranceDays, amountThreshold))
  }

  /** Settings the command line accepts build an engine exactly when the
      tolerance fits a `timedelta`, and then the same engine. */
  lemma ValidatedThenBuilt(dateToleranceDays: int, amountThreshold: real)
    requires ValidatedEngine(dateToleranceDays, amountThreshold).Ok?
    ensures NewEngine(dateToleranceDays, amountThreshold).Some? <==> dateToleranceDays <= MaxTimedeltaDays
    ensures NewEngine(dateToleranceDays, amountThreshold).Some? ==>
      NewEngine(dateToleranceDays, amountThreshold) == Some(ValidatedEngine(dateToleranceDays, amountThreshold).value)
  {
  }

  /** A tolerance of a billion days passes the command line's checks, and
      then building the engine fails. */
  lemma ValidatedButNotBuilt()
    ensures ValidatedEngine(1000000000, 0.02).Ok? && NewEngine(1000000000, 0.02).None?
  {
  }

  /** The defaults pass the command line's checks. */
  lemma DefaultEngineValid()
    ensures ValidatedEngine(3, 0.02) == Ok(DefaultEngine)
    ensures NewEngine(3, 0.02) == Some(DefaultEngine)
  {
  }

  /** The bank transactions handed to the fuzzy phase: those whose id no
      match refers to, in input order. */
  function LeftForFuzzy(bank: seq<Transaction>, results: seq<MatchResult>): (left: seq<Transaction>)
    ensures |left| <= |bank|
    ensures forall i :: 0 <= i < |left| ==> left[i] in bank && !MatchedBankId(results, left[i].id)
    ensures forall i :: 0 <= i < |bank| && !MatchedBankId(results, bank[i].id) ==> bank[i] in left
    ensures IsSubsequence(left, bank)
    ensures forall t :: multiset(left)[t] == if MatchedBankId(results, t.id) then 0 else multiset(bank)[t]
    decreases |bank|
  {
    if bank == [] then []
    else
      var head := if MatchedBankId(results, bank[0].id) then [] else [bank[0]];
      var rest := LeftForFuzzy(bank[1..], results);
      FilterStep(bank, results, rest);
      head + rest
  }

  /** One step of the filter keeps exactly the unmatched transactions. */
  lemma FilterStep(bank: seq<Transaction>, results: seq<MatchResult>, rest: seq<Transaction>)
    requires bank != [] && |rest| <= |bank| - 1 && IsSubsequence(rest, bank[1..])
    requires forall i :: 0 <= i < |rest| ==> rest[i] in bank[1..] && !MatchedBankId(results, rest[i].id)
    requires forall i :: 0 <= i < |bank| - 1 && !MatchedBankId(results, bank[1..][i].id) ==> bank[1..][i] in rest
    requires forall t :: multiset(rest)[t] == if MatchedBankId(results, t.id) then 0 else multiset(bank[1..])[t]
    ensures var left := (if MatchedBankId(results, bank[0].id) then [] else [bank[0]]) + rest;
      && |left| <= |bank|
      && (forall i :: 0 <= i < |left| ==> left[i] in bank && !MatchedBankId(results, left[i].id))
      && (forall i :: 0 <= i < |bank| && !MatchedBankId(results, bank[i].id) ==> bank[i] in left)
      && IsSubsequence(left, bank)
      && forall t :: multiset(left)[t] == if MatchedBankId(results, t.id) then 0 else multiset(bank)[t]
  {
    FilterMembers(bank, results, rest);
    FilterOrder(bank, results, rest);
  }

  lemma FilterMembers(bank: seq<Transaction>, results: seq<MatchResult>, rest: seq<Transaction>)
    requires bank != [] && |rest| <= |bank| - 1
    requires forall i :: 0 <= i < |rest| ==> rest[i] in bank[1..] && !MatchedBankId(results, rest[i].id)
    requires forall i :: 0 <= i < |bank| - 1 && !MatchedBankId(results, bank[1..][i].id) ==> bank[1..][i] in rest
    ensures var left := (if MatchedBankId(results, bank[0].id) then [] else [bank[0]]) + rest;
      && |left| <= |bank|
      && (forall i :: 0 <= i < |left| ==> left[i] in bank && !MatchedBankId(results, left[i].id))
      && (forall i :: 0 <= i < |bank| && !MatchedBankId(results, bank[i].id) ==> bank[i] in left)
  {
    assert forall t :: t in bank[1..] ==> t in bank;
    forall i | 0 < i < |bank| ensures bank[i] == bank[1..][i - 1] {
    }
  }

  lemma FilterOrder(bank: seq<Transaction>, results: seq<MatchResult>, rest: seq<Transaction>)
    requires bank != [] && IsSubsequence(rest, bank[1..])
    requires forall t :: multiset(rest)[t] == if MatchedBankId(results, t.id) then 0 else multiset(bank[1..])[t]
    ensures var left := (if MatchedBankId(results, bank[0].id) then [] else [bank[0]]) + rest;
      && IsSubsequence(left, bank)
      && forall t :: multiset(left)[t] == if MatchedBankId(results, t.id) then 0 else multiset(bank)[t]
  {
    var left := (if MatchedBankId(results, bank[0].id) then [] else [bank[0]]) + rest;
    assert multiset(bank) == multiset{bank[0]} + multiset(bank[1..]) by {
      assert bank == [bank[0]] + bank[1..];
    }
    if !MatchedBankId(results, bank[0].id) {
      assert left[0] == bank[0] && left[1..] == rest;
    } else if rest != [] {
      assert left == rest;
    }
  }

  /** The internal transactions whose id was not claimed, in input order. */
  function Unclaimed(internal: seq<Transaction>, claimed: set<string>): (u: seq<Transaction>)
    ensures |u| <= |internal|
    ensures forall t :: t in u <==> t in internal && t.id !in claimed
  {
    if internal == [] then []
    else (if internal[0].id in claimed then [] else [internal[0]]) + Unclaimed(internal[1..], claimed)
  }

  /** Phase 3: an UNMATCHED_INTERNAL result for every internal transaction
      whose id was not claimed, in input order. */
  function UnmatchedInternalResults(internal: seq<Transaction>, claimed: set<string>): (rs: seq<MatchResult>)
    ensures forall i :: 0 <= i < |rs| ==>
      && rs[i].status == UnmatchedInternal && rs[i].confidence == Low && rs[i].reason == NoBankFound
      && rs[i].internal.Some? && rs[i].bank.None? && rs[i].dateDiffDays == 0 && rs[i].amountDiff == 0
    ensures InternalSides(rs) == Unclaimed(internal, claimed)
  {
    if internal == [] then []
    else
      var rest := UnmatchedInternalResults(internal[1..], claimed);
      var head := if internal[0].id in claimed then []
                  else [InternalOnlyResult(internal[0], UnmatchedInternal, Low, NoBankFound)];
      var rs := head + rest;
      InternalSidesConcat(head, rest);
      rs
  }

  predicate AllWellFormed(rs: seq<MatchResult>) {
    forall r :: r in rs ==> WellFormed(r)
  }

  lemma IndexedWellFormed(rs: seq<MatchResult>)
    requires forall i :: 0 <= i < |rs| ==> WellFormed(rs[i])
    ensures AllWellFormed(rs)
  {
    forall r | r in rs ensures WellFormed(r) {
      var i :| 0 <= i < |rs| && rs[i] == r;
    }
  }

  lemma WellFormedConcat(a: seq<MatchResult>, b: seq<MatchResult>)
    requires AllWellFormed(a) && AllWellFormed(b)
    ensures AllWellFormed(a + b)
  {
    assert forall r :: r in a + b ==> r in a || r in b;
  }

  /** What each phase produced. */
  datatype Run = Run(
    exact: PhaseOutcome,
    leftover: seq<Transaction>,
    fuzzy: PhaseOutcome,
    unmatchedInternal: seq<MatchResult>,
    duplicates: seq<MatchResult>)

  function Phases(e: Engine, bank: seq<Transaction>, internal: seq<Transaction>): Run {
    var exact := ExactPhase(bank, BuildAmountIndex(internal), {});
    var leftover := LeftForFuzzy(bank, exact.results);
    var fuzzy := FuzzyPhase(e, leftover, internal, exact.claimed);
    Run(exact, leftover, fuzzy, UnmatchedInternalResults(internal, fuzzy.claimed), DetectDuplicates(bank, internal))
  }

  /** The results of the four phases, in phase order. */
  function AllResults(run: Run): seq<MatchResult> {
    run.exact.results + run.fuzzy.results + run.unmatchedInternal + run.duplicates
  }

  lemma RunWellFormed(e: Engine, bank: seq<Transaction>, internal: seq<Transaction>)
    ensures AllWellFormed(AllResults(Phases(e, bank, internal)))
  {
    var run := Phases(e, bank, internal);
    assert AllWellFormed(run.exact.results) by {
      ExactWellFormed(bank, BuildAmountIndex(internal), {});
    }
    assert AllWellFormed(run.fuzzy.results) by {
      FuzzyWellFormed(e, run.leftover, internal, run.exact.claimed);
    }
    assert AllWellFormed(run.unmatchedInternal) by {
      UnmatchedWellFormed(internal, run.fuzzy.claimed);
    }
    assert AllWellFormed(run.duplicates) by {
      DuplicatesWellFormed(bank, internal);
    }
    FourWellFormed(run.exact.results, run.fuzzy.results, run.unmatchedInternal, run.duplicates);
  }

  lemma ExactWellFormed(bank: seq<Transaction>, index: AmountIndex, claimed: set<string>)
    ensures AllWellFormed(ExactPhase(bank, index, claimed).results)
  {
    IndexedWellFormed(ExactPhase(bank, index, claimed).results);
  }

  lemma FuzzyWellFormed(e: Engine, unmatched: seq<Transaction>, internal: seq<Transaction>, claimed: set<string>)
    ensures AllWellFormed(FuzzyPhase(e, unmatched, internal, claimed).results)
  {
    IndexedWellFormed(FuzzyPhase(e, unmatched, internal, claimed).results);
  }

  lemma UnmatchedWellFormed(internal: seq<Transaction>, claimed: set<string>)
    ensures AllWellFormed(UnmatchedInternalResults(internal, claimed))
  {
    IndexedWellFormed(UnmatchedInternalResults(internal, claimed));
  }

  lemma DuplicatesWellFormed(bank: seq<Transaction>, internal: seq<Transaction>)
    ensures AllWellFormed(DetectDuplicates(bank, internal))
  {
    IndexedWellFormed(DetectDuplicates(bank, internal));
  }

  lemma FourWellFormed(a: seq<MatchResult>, b: seq<MatchResult>, c: seq<MatchResult>, d: seq<MatchResult>)
    requires AllWellFormed(a) && AllWellFormed(b) && AllWellFormed(c) && AllWellFormed(d)
    ensures AllWellFormed(a + b + c + d)
  {
    WellFormedConcat(a, b);
    WellFormedConcat(a + b, c);
    WellFormedConcat(a + b + c, d);
  }

  /** A match pairs transactions of the two input lists that qualify: an
      EXACT one has the same absolute amount and day and no reference
      conflict, a FUZZY one is within the date tolerance and the amount
      threshold. */
  predicate ValidMatch(e: Engine, bank: seq<Transaction>, internal: seq<Transaction>, r: MatchResult) {
    IsMatched(r) ==>
      && r.bank.Some? && r.internal.Some? && r.bank.value in bank && r.internal.value in internal
      && (r.status == Exact ==> ExactQualifies(r.bank.value, r.internal.value, {}))
      && (r.status == Fuzzy ==> FuzzyCandidate(e, r.bank.value, r.internal.value, {}))
  }

  /** A bank transaction that got no EXACT match has no exact match among
      the internal transactions whose ids are outside `claimed`, and one that
      stayed UNMATCHED_BANK has no fuzzy candidate among them either. */
  predicate NothingLeftFor(e: Engine, internal: seq<Transaction>, claimed: set<string>, r: MatchResult) {
    (r.status == Fuzzy || r.status == UnmatchedBank) && r.bank.Some? ==>
      forall t :: t in internal && t.id !in claimed ==>
        && !ExactQualifies(r.bank.value, t, {})
        && (r.status == UnmatchedBank ==> !FuzzyCandidate(e, r.bank.value, t, {}))
  }

  /** Phase 1's matches are valid. */
  lemma ExactMatchesValid(e: Engine, bank: seq<Transaction>, internal: seq<Transaction>, rs: seq<MatchResult>, claimed: set<string>)
    requires MatchesQualify(bank, BuildAmountIndex(internal), {}, rs)
    ensures forall r :: r in rs ==> ValidMatch(e, bank, internal, r) && NothingLeftFor(e, internal, claimed, r)
  {
    forall r | r in rs ensures ValidMatch(e, bank, internal, r) {
      var i :| 0 <= i < |rs| && rs[i] == r;
      CandidateIff(internal, r.internal.value, AbsAmount(r.bank.value));
    }
  }

  /** Phase 2's matches are valid, and what it leaves unmatched could not
      have been matched with an internal transaction left unclaimed. */
  lemma FuzzyMatchesValid(e: Engine, bank: seq<Transaction>, internal: seq<Transaction>, exact: PhaseOutcome,
                          leftover: seq<Transaction>, fuzzy: PhaseOutcome, claimed: set<string>)
    requires NoExactMatchLeft(bank, BuildAmountIndex(internal), exact)
    requires forall i :: 0 <= i < |leftover| ==> leftover[i] in bank && !MatchedBankId(exact.results, leftover[i].id)
    requires FuzzyShape(leftover, exact.claimed, fuzzy.results)
    requires FuzzyOutcomes(e, leftover, internal, exact.claimed, fuzzy)
    requires exact.claimed <= fuzzy.claimed <= claimed
    ensures forall r :: r in fuzzy.results ==> ValidMatch(e, bank, internal, r) && NothingLeftFor(e, internal, claimed, r)
  {
    var index := BuildAmountIndex(internal);
    forall r | r in fuzzy.results ensures ValidMatch(e, bank, internal, r) && NothingLeftFor(e, internal, claimed, r) {
      var i :| 0 <= i < |fuzzy.results| && fuzzy.results[i] == r;
      var b := leftover[i];
      var k :| 0 <= k < |bank| && bank[k] == b;
      forall t | t in internal && t.id !in claimed
        ensures !ExactQualifies(b, t, {})
        ensures r.status == UnmatchedBank ==> !FuzzyCandidate(e, b, t, {})
      {
        CandidateIff(internal, t, AbsAmount(b));
        assert !ExactCandidate(bank[k], t, exact.claimed) || t !in Candidates(index, AbsAmount(bank[k]));
        if r.status == UnmatchedBank {
          var j :| 0 <= j < |internal| && internal[j] == t;
          assert !FuzzyCandidate(e, b, internal[j], fuzzy.claimed);
        }
      }
    }
  }

  /** Results that are not matches and not bank-side outcomes say nothing
      about matching. */
  lemma OtherResultsValid(e: Engine, bank: seq<Transaction>, internal: seq<Transaction>, rs: seq<MatchResult>, claimed: set<string>)
    requires forall i :: 0 <= i < |rs| ==> rs[i].status == UnmatchedInternal || rs[i].status == Duplicate
    ensures forall r :: r in rs ==> ValidMatch(e, bank, internal, r) && NothingLeftFor(e, internal, claimed, r)
  {
    forall r | r in rs ensures r.status == UnmatchedInternal || r.status == Duplicate {
      var i :| 0 <= i < |rs| && rs[i] == r;
    }
  }

  lemma FourValid(e: Engine, bank: seq<Transaction>, internal: seq<Transaction>, claimed: set<string>,
                  a: seq<MatchResult>, b: seq<MatchResult>, c: seq<MatchResult>, d: seq<MatchResult>)
    requires forall r :: r in a ==> ValidMatch(e, bank, internal, r) && NothingLeftFor(e, internal, claimed, r)
    requires forall r :: r in b ==> ValidMatch(e, bank, internal, r) && NothingLeftFor(e, internal, claimed, r)
    requires forall r :: r in c ==> ValidMatch(e, bank, internal, r) && NothingLeftFor(e, internal, claimed, r)
    requires forall r :: r in d ==> ValidMatch(e, bank, internal, r) && NothingLeftFor(e, internal, claimed, r)
    ensures forall r :: r in a + b + c + d ==> ValidMatch(e, bank, internal, r) && NothingLeftFor(e, internal, claimed, r)
  {
  }

  /** The claims of phases 1 and 2 are the matched ids of the whole run. */
  lemma RunClaims(a: seq<MatchResult>, b: seq<MatchResult>, c: seq<MatchResult>, d: seq<MatchResult>)
    ensures MatchedInternalIds(a) + MatchedInternalIds(b) <= MatchedInternalIds(a + b + c + d)
  {
    MatchedInternalIdsConcat(a + b + c, d);
    MatchedInternalIdsConcat(a + b, c);
    MatchedInternalIdsConcat(a, b);
  }

  lemma RunValid(e: Engine, bank: seq<Transaction>, internal: seq<Transaction>)
    ensures var rs := AllResults(Phases(e, bank, internal));
      forall r :: r in rs ==> ValidMatch(e, bank, internal, r) && NothingLeftFor(e, internal, MatchedInternalIds(rs), r)
  {
    var run := Phases(e, bank, internal);
    var a, b, c, d := run.exact.results, run.fuzzy.results, run.unmatchedInternal, run.duplicates;
    var claimed := MatchedInternalIds(a + b + c + d);
    assert run.exact.claimed <= run.fuzzy.claimed <= claimed by {
      RunClaims(a, b, c, d);
    }
    ExactMatchesValid(e, bank, internal, a, claimed);
    FuzzyMatchesValid(e, bank, internal, run.exact, run.leftover, run.fuzzy, claimed);
    OtherResultsValid(e, bank, internal, c, claimed);
    OtherResultsValid(e, bank, internal, d, claimed);
    FourValid(e, bank, internal, claimed, a, b, c, d);
  }

  datatype Reconciliation = Reconciliation(results: seq<MatchResult>, summary: Summary)

  /** A reconciliation run. Every result refers to the sides its status
      calls for, and the summary counts the results and totals both lists. */
  function Reconcile(e: Engine, bank: seq<Transaction>, internal: seq<Transaction>): (out: Reconciliation)
    ensures AllWellFormed(out.results)
    ensures out.summary.totalBankTransactions == |bank|
    ensures out.summary.totalInternalTransactions == |internal|
    ensures out.summary.totalMatched == |WithStatus(out.results, Exact)| + |WithStatus(out.results, Fuzzy)|
    ensures out.summary.totalBankAmount == SumAbs(bank) && out.summary.totalInternalAmount == SumAbs(internal)
    ensures forall r :: r in out.results ==> ValidMatch(e, bank, internal, r)
    ensures forall r :: r in out.results ==> NothingLeftFor(e, internal, MatchedInternalIds(out.results), r)
  {
    var results := AllResults(Phases(e, bank, internal));
    RunWellFormed(e, bank, internal);
    RunValid(e, bank, internal);
    Reconciliation(results, GenerateSummary(results, bank, internal))
  }
}
