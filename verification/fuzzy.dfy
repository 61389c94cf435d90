/** Phase 2 of a reconciliation: tolerance-based matching of the bank
    transactions the exact phase left over, scanning the whole internal list
    and keeping the lowest score. */
module FuzzyMatching {
  import opened Wrappers
  import opened Models

  /** The engine's run configuration: the date tolerance in days and the
      amount threshold as a fraction of the bank amount (0.02 is 2%). An
      engine is built through `Reconciliation.NewEngine`, which refuses a
      tolerance outside the range of a `timedelta`. */
  datatype Engine = Engine(dateToleranceDays: int, amountThreshold: real)

  /** Distance between the two calendar days. */
  function DayDiff(b: Transaction, t: Transaction): (d: nat)
    ensures d == b.day - t.day || d == t.day - b.day
  {
    if b.day >= t.day then b.day - t.day else t.day - b.day
  }

  /** Distance between the two absolute amounts. */
  function AbsAmountGap(b: Transaction, t: Transaction): (g: nat)
    ensures g == AbsAmount(b) - AbsAmount(t) || g == AbsAmount(t) - AbsAmount(b)
  {
    if AbsAmount(b) >= AbsAmount(t) then AbsAmount(b) - AbsAmount(t) else AbsAmount(t) - AbsAmount(b)
  }

  /** The amount gap as a fraction of the bank amount. Two zero amounts differ
      by nothing; a zero bank amount against a non-zero one has no fraction. */
  function AmountDiffPct(b: Transaction, t: Transaction): (pct: Option<real>)
    ensures pct.None? <==> AbsAmount(b) == 0 && AbsAmount(t) != 0
    ensures pct.Some? ==> pct.value >= 0.0
    ensures pct.Some? ==> pct.value * (AbsAmount(b) as real) == AbsAmountGap(b, t) as real
  {
    if AbsAmount(b) == 0 && AbsAmount(t) == 0 then Some(0.0)
    else if AbsAmount(b) == 0 then None
    else Some(AbsAmountGap(b, t) as real / AbsAmount(b) as real)
  }

  /** A candidate passing the claim, date and amount filters. */
  predicate FuzzyCandidate(e: Engine, b: Transaction, t: Transaction, claimed: set<string>) {
    && t.id !in claimed
    && DayDiff(b, t) <= e.dateToleranceDays
    && AmountDiffPct(b, t).Some?
    && AmountDiffPct(b, t).value <= e.amountThreshold
  }

  /** Lower is better: days apart plus the amount gap in percent. */
  function Score(b: Transaction, t: Transaction): real {
    DayDiff(b, t) as real + AmountDiffPct(b, t).GetOr(0.0) * 100.0
  }

  /** `best` is the earliest candidate of lowest score among the first `n`
      entries of `cands`, or None when none of them is a candidate. */
  predicate BestAmong(e: Engine, b: Transaction, cands: seq<Transaction>, claimed: set<string>, n: nat, best: Option<nat>)
    requires n <= |cands|
  {
    match best
    case None => forall j :: 0 <= j < n ==> !FuzzyCandidate(e, b, cands[j], claimed)
    case Some(k) =>
      && k < n && FuzzyCandidate(e, b, cands[k], claimed)
      && (forall j :: 0 <= j < n && FuzzyCandidate(e, b, cands[j], claimed) ==> Score(b, cands[k]) <= Score(b, cands[j]))
      && (forall j :: 0 <= j < k && FuzzyCandidate(e, b, cands[j], claimed) ==> Score(b, cands[k]) < Score(b, cands[j]))
  }

  /** The scan from position `i` on, carrying the best so far; a candidate
      replaces it only with a strictly lower score. */
  function ScanFrom(e: Engine, b: Transaction, cands: seq<Transaction>, claimed: set<string>, i: nat, best: Option<nat>): (r: Option<nat>)
    requires i <= |cands|
    requires BestAmong(e, b, cands, claimed, i, best)
    ensures BestAmong(e, b, cands, claimed, |cands|, r)
    decreases |cands| - i
  {
    if i == |cands| then best
    else if FuzzyCandidate(e, b, cands[i], claimed) && (best.None? || Score(b, cands[i]) < Score(b, cands[best.value])) then
      ScanFrom(e, b, cands, claimed, i + 1, Some(i))
    else
      ScanFrom(e, b, cands, claimed, i + 1, best)
  }

  function FuzzyResult(b: Transaction, t: Transaction): MatchResult {
    var days := DayDiff(b, t);
    var diff := if b.amount >= t.amount then b.amount - t.amount else t.amount - b.amount;
    MatchResult(Some(b), Some(t), Fuzzy, if days <= 1 then Medium else Low, days, diff,
                FuzzyReason(days, AmountDiffPct(b, t).GetOr(0.0)))
  }

  lemma FractionBound(pct: real, threshold: real, base: real, gap: real)
    requires base >= 0.0 && pct * base == gap && pct <= threshold
    ensures gap <= threshold * base
  {
    assert pct * base <= threshold * base;
  }

  /** A candidate is unclaimed, within the date tolerance, and its amount gap
      is at most the threshold times the bank amount; a zero bank amount only
      admits a zero internal amount. */
  lemma CandidateBounds(e: Engine, b: Transaction, t: Transaction, claimed: set<string>)
    requires FuzzyCandidate(e, b, t, claimed)
    ensures t.id !in claimed && DayDiff(b, t) <= e.dateToleranceDays
    ensures (AbsAmountGap(b, t) as real) <= e.amountThreshold * (AbsAmount(b) as real)
    ensures AbsAmount(b) == 0 ==> AbsAmount(t) == 0
  {
    var pct := AmountDiffPct(b, t);
    FractionBound(pct.value, e.amountThreshold, AbsAmount(b) as real, AbsAmountGap(b, t) as real);
  }

  /** The fields of a fuzzy result, as the source fills them in. */
  lemma FuzzyResultFields(b: Transaction, t: Transaction)
    ensures var r := FuzzyResult(b, t);
      && r.bank == Some(b) && r.internal == Some(t) && r.status == Fuzzy
      && r.dateDiffDays == DayDiff(b, t)
      && (r.confidence == Medium <==> r.dateDiffDays <= 1)
      && (r.confidence == Low <==> r.dateDiffDays > 1)
      && (r.amountDiff == b.amount - t.amount || r.amountDiff == t.amount - b.amount)
      && r.amountDiff >= 0
  {
  }

  /** The fuzzy match for a bank transaction: the lowest-scoring candidate,
      the earliest one among equal scores, or None when no candidate passes
      the filters. */
  function FindFuzzyMatch(e: Engine, b: Transaction, internal: seq<Transaction>, claimed: set<string>): (r: Option<MatchResult>)
    ensures r.None? <==> forall j :: 0 <= j < |internal| ==> !FuzzyCandidate(e, b, internal[j], claimed)
    ensures r.Some? ==>
      && r.value.bank == Some(b) && r.value.internal.Some? && r.value.status == Fuzzy
      && var t := r.value.internal.value;
      && t in internal && FuzzyCandidate(e, b, t, claimed)
      && t.id !in claimed
      && r.value.dateDiffDays == DayDiff(b, t) <= e.dateToleranceDays
      && (AbsAmountGap(b, t) as real) <= e.amountThreshold * (AbsAmount(b) as real)
      && (AbsAmount(b) == 0 ==> AbsAmount(t) == 0)
      && (r.value.confidence == Medium <==> r.value.dateDiffDays <= 1)
      && (r.value.confidence == Low <==> r.value.dateDiffDays > 1)
      && (r.value.amountDiff == b.amount - t.amount || r.value.amountDiff == t.amount - b.amount)
      && r.value.amountDiff >= 0
      && (forall j :: 0 <= j < |internal| && FuzzyCandidate(e, b, internal[j], claimed) ==> Score(b, t) <= Score(b, internal[j]))
      && exists k :: (0 <= k < |internal| && internal[k] == t && FuzzyCandidate(e, b, t, claimed)
           && forall j :: 0 <= j < k && FuzzyCandidate(e, b, internal[j], claimed) ==> Score(b, t) < Score(b, internal[j]))
  {
    var best := ScanFrom(e, b, internal, claimed, 0, None);
    if best.None? then None
    else
      var t := internal[best.value];
      CandidateBounds(e, b, t, claimed);
      FuzzyResultFields(b, t);
      Some(FuzzyResult(b, t))
  }

  /** Each FUZZY result pairs its bank transaction with a transaction of the
      internal list that was a candidate before the phase, and each
      UNMATCHED_BANK result's bank transaction has no candidate left among
      the transactions still unclaimed at the end. */
  predicate FuzzyOutcomes(e: Engine, unmatched: seq<Transaction>, internal: seq<Transaction>, claimed: set<string>, out: PhaseOutcome) {
    forall i :: 0 <= i < |unmatched| && i < |out.results| ==>
      && (out.results[i].status == Fuzzy ==>
            && out.results[i].internal.Some? && out.results[i].internal.value in internal
            && FuzzyCandidate(e, unmatched[i], out.results[i].internal.value, claimed))
      && (out.results[i].status == UnmatchedBank ==>
            forall j :: 0 <= j < |internal| ==> !FuzzyCandidate(e, unmatched[i], internal[j], out.claimed))
  }

  /** One result per bank transaction, in order, each FUZZY with an internal
      side unclaimed before the phase or UNMATCHED_BANK with LOW
      confidence. */
  predicate FuzzyShape(unmatched: seq<Transaction>, claimed: set<string>, rs: seq<MatchResult>) {
    && |rs| == |unmatched|
    && forall i :: 0 <= i < |rs| ==>
      && rs[i].bank == Some(unmatched[i]) && WellFormed(rs[i])
      && (rs[i].status == Fuzzy || rs[i].status == UnmatchedBank)
      && (rs[i].status == UnmatchedBank ==> rs[i].confidence == Low)
      && (rs[i].status == Fuzzy ==> rs[i].internal.value.id !in claimed)
  }

  /** Phase 2: each leftover bank transaction, in order, gets a FUZZY result
      claiming its internal match, or an UNMATCHED_BANK result. */
  function FuzzyPhase(e: Engine, unmatched: seq<Transaction>, internal: seq<Transaction>, claimed: set<string>): (out: PhaseOutcome)
    ensures out.claimed == claimed + MatchedInternalIds(out.results)
    ensures FuzzyShape(unmatched, claimed, out.results)
    ensures FuzzyOutcomes(e, unmatched, internal, claimed, out)
    ensures ClaimsUnique(out.results)
    decreases |unmatched|
  {
    if unmatched == [] then PhaseOutcome([], claimed)
    else
      match FindFuzzyMatch(e, unmatched[0], internal, claimed)
      case None =>
        var u := BankOnlyResult(unmatched[0], UnmatchedBank, Low, NoInternalFound);
        var rest := FuzzyPhase(e, unmatched[1..], internal, claimed);
        ConsUnclaimed(u, rest.results);
        UnmatchedStep(e, unmatched, internal, claimed, u, rest);
        PhaseOutcome([u] + rest.results, rest.claimed)
      case Some(r) =>
        var id := r.internal.value.id;
        var rest := FuzzyPhase(e, unmatched[1..], internal, claimed + {id});
        assert id !in MatchedInternalIds(rest.results);
        ConsClaim(r, rest.results);
        FuzzyStep(e, unmatched, internal, claimed, r, rest);
        PhaseOutcome([r] + rest.results, rest.claimed)
  }

  /** An UNMATCHED_BANK turn in front of the later turns keeps their
      property. */
  lemma UnmatchedStep(e: Engine, unmatched: seq<Transaction>, internal: seq<Transaction>, claimed: set<string>,
                      u: MatchResult, rest: PhaseOutcome)
    requires unmatched != [] && claimed <= rest.claimed
    requires u == BankOnlyResult(unmatched[0], UnmatchedBank, Low, NoInternalFound)
    requires forall j :: 0 <= j < |internal| ==> !FuzzyCandidate(e, unmatched[0], internal[j], claimed)
    requires FuzzyShape(unmatched[1..], claimed, rest.results)
    requires FuzzyOutcomes(e, unmatched[1..], internal, claimed, rest)
    ensures FuzzyShape(unmatched, claimed, [u] + rest.results)
    ensures FuzzyOutcomes(e, unmatched, internal, claimed, PhaseOutcome([u] + rest.results, rest.claimed))
  {
    var rs := [u] + rest.results;
    forall i | 0 < i < |unmatched| && i < |rs|
      ensures rs[i] == rest.results[i - 1] && unmatched[i] == unmatched[1..][i - 1]
    {
    }
  }

  /** A FUZZY turn in front of the later turns keeps their property. */
  lemma FuzzyStep(e: Engine, unmatched: seq<Transaction>, internal: seq<Transaction>, claimed: set<string>,
                  r: MatchResult, rest: PhaseOutcome)
    requires unmatched != [] && r.status == Fuzzy && r.bank == Some(unmatched[0]) && r.internal.Some?
    requires r.internal.value in internal && FuzzyCandidate(e, unmatched[0], r.internal.value, claimed)
    requires FuzzyShape(unmatched[1..], claimed + {r.internal.value.id}, rest.results)
    requires FuzzyOutcomes(e, unmatched[1..], internal, claimed + {r.internal.value.id}, rest)
    ensures FuzzyShape(unmatched, claimed, [r] + rest.results)
    ensures FuzzyOutcomes(e, unmatched, internal, claimed, PhaseOutcome([r] + rest.results, rest.claimed))
  {
    var rs := [r] + rest.results;
    forall i | 0 < i < |unmatched| && i < |rs|
      ensures rs[i] == rest.results[i - 1] && unmatched[i] == unmatched[1..][i - 1]
    {
    }
  }

  /** One turn of the source's loop over the leftover bank transactions: the
      fuzzy match among the transactions still unclaimed is appended and its
      id claimed, or an UNMATCHED_BANK result is appended. */
  function FuzzyTurn(e: Engine, before: PhaseOutcome, b: Transaction, internal: seq<Transaction>): PhaseOutcome {
    match FindFuzzyMatch(e, b, internal, before.claimed)
    case None => PhaseOutcome(before.results + [BankOnlyResult(b, UnmatchedBank, Low, NoInternalFound)], before.claimed)
    case Some(r) => PhaseOutcome(before.results + [r], before.claimed + {r.internal.value.id})
  }

  /** Phase 2 is the source's loop: the outcome for a list with one more bank
      transaction at the end is that transaction's turn taken after the
      outcome for the list before it. */
  lemma {:induction false} FuzzyPhaseSnoc(e: Engine, unmatched: seq<Transaction>, b: Transaction,
                                          internal: seq<Transaction>, claimed: set<string>)
    ensures FuzzyPhase(e, unmatched + [b], internal, claimed) == FuzzyTurn(e, FuzzyPhase(e, unmatched, internal, claimed), b, internal)
    decreases |unmatched|
  {
    var s := unmatched + [b];
    if unmatched == [] {
      assert s[1..] == [];
    } else {
      assert s[0] == unmatched[0] && s[1..] == unmatched[1..] + [b];
      var m := FindFuzzyMatch(e, unmatched[0], internal, claimed);
      var h := if m.None? then BankOnlyResult(unmatched[0], UnmatchedBank, Low, NoInternalFound) else m.value;
      var c := if m.None? then claimed else claimed + {m.value.internal.value.id};
      var x := FuzzyPhase(e, unmatched[1..], internal, c);
      assert FuzzyPhase(e, unmatched, internal, claimed) == PhaseOutcome([h] + x.results, x.claimed);
      var y := FuzzyPhase(e, s[1..], internal, c);
      assert FuzzyPhase(e, s, internal, claimed) == PhaseOutcome([h] + y.results, y.claimed);
      FuzzyPhaseSnoc(e, unmatched[1..], b, internal, c);
      TurnBehindResult(e, h, x, b, internal);
    }
  }

  /** A result in front does not change a later turn. */
  lemma TurnBehindResult(e: Engine, h: MatchResult, x: PhaseOutcome, b: Transaction, internal: seq<Transaction>)
    ensures var y := FuzzyTurn(e, x, b, internal);
      FuzzyTurn(e, PhaseOutcome([h] + x.results, x.claimed), b, internal) == PhaseOutcome([h] + y.results, y.claimed)
  {
    var y := FuzzyTurn(e, x, b, internal);
    assert y.results == x.results + [y.results[|y.results| - 1]];
    assert [h] + (x.results + [y.results[|y.results| - 1]]) == ([h] + x.results) + [y.results[|y.results| - 1]];
  }

  /** Of two candidates with the same score, the one listed first wins. */
  lemma FuzzyTieKeepsFirst(e: Engine, b: Transaction, t1: Transaction, t2: Transaction, claimed: set<string>)
    requires FuzzyCandidate(e, b, t1, claimed) && FuzzyCandidate(e, b, t2, claimed)
    requires Score(b, t1) == Score(b, t2)
    ensures FindFuzzyMatch(e, b, [t1, t2], claimed).Some?
    ensures FindFuzzyMatch(e, b, [t1, t2], claimed).value.internal == Some(t1)
  {
    var internal := [t1, t2];
    assert FuzzyCandidate(e, b, internal[0], claimed);
    var r := FindFuzzyMatch(e, b, internal, claimed);
    var t := r.value.internal.value;
    var k :| 0 <= k < |internal| && internal[k] == t && FuzzyCandidate(e, b, t, claimed)
      && forall j :: 0 <= j < k && FuzzyCandidate(e, b, internal[j], claimed) ==> Score(b, t) < Score(b, internal[j]);
  }

  /** A negative date tolerance or amount threshold admits no candidate, so
      every leftover bank transaction stays unmatched. */
  lemma NegativeConfigMatchesNothing(e: Engine, b: Transaction, internal: seq<Transaction>, claimed: set<string>)
    requires e.dateToleranceDays < 0 || e.amountThreshold < 0.0
    ensures FindFuzzyMatch(e, b, internal, claimed).None?
  {
  }
}
