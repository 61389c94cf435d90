/** Properties of a whole reconciliation run: which results each phase
    contributes, that matches never share an internal transaction, that every
    bank and internal transaction is accounted for, and what the summary then
    adds up to. */
module RunProperties {
  import opened Wrappers
  import opened Models
  import opened ExactMatching
  import opened FuzzyMatching
  import opened Duplicates
  import opened SummaryAggregation
  import opened Reconciliation
  import Grouping

  lemma WithStatusOfFour(a: seq<MatchResult>, b: seq<MatchResult>, c: seq<MatchResult>, d: seq<MatchResult>, st: MatchStatus)
    ensures WithStatus(a + b + c + d, st) == WithStatus(a, st) + WithStatus(b, st) + WithStatus(c, st) + WithStatus(d, st)
  {
    WithStatusConcat(a + b + c, d, st);
    WithStatusConcat(a + b, c, st);
    WithStatusConcat(a, b, st);
  }

  /** The statuses each phase produces. */
  predicate PhaseStatuses(a: seq<MatchResult>, b: seq<MatchResult>, c: seq<MatchResult>, d: seq<MatchResult>) {
    && (forall r :: r in a ==> r.status == Exact)
    && (forall r :: r in b ==> r.status == Fuzzy || r.status == UnmatchedBank)
    && (forall r :: r in c ==> r.status == UnmatchedInternal)
    && (forall r :: r in d ==> r.status == Duplicate)
  }

  lemma RunStatuses(e: Engine, bank: seq<Transaction>, internal: seq<Transaction>)
    ensures var run := Phases(e, bank, internal);
      && Reconcile(e, bank, internal).results == AllResults(run)
      && PhaseStatuses(run.exact.results, run.fuzzy.results, run.unmatchedInternal, run.duplicates)
  {
  }

  lemma SelectMatched(a: seq<MatchResult>, b: seq<MatchResult>, c: seq<MatchResult>, d: seq<MatchResult>)
    requires PhaseStatuses(a, b, c, d)
    ensures WithStatus(a + b + c + d, Exact) == a
    ensures WithStatus(a + b + c + d, Fuzzy) == WithStatus(b, Fuzzy)
    ensures WithStatus(a + b + c + d, UnmatchedBank) == WithStatus(b, UnmatchedBank)
  {
    assert WithStatus(a + b + c + d, Exact) == a by {
      WithStatusOfFour(a, b, c, d, Exact);
      WithStatusAll(a, Exact);
      WithStatusNone(b, Exact);
      WithStatusNone(c, Exact);
      WithStatusNone(d, Exact);
    }
    assert WithStatus(a + b + c + d, Fuzzy) == WithStatus(b, Fuzzy) by {
      WithStatusOfFour(a, b, c, d, Fuzzy);
      WithStatusNone(a, Fuzzy);
      WithStatusNone(c, Fuzzy);
      WithStatusNone(d, Fuzzy);
    }
    assert WithStatus(a + b + c + d, UnmatchedBank) == WithStatus(b, UnmatchedBank) by {
      WithStatusOfFour(a, b, c, d, UnmatchedBank);
      WithStatusNone(a, UnmatchedBank);
      WithStatusNone(c, UnmatchedBank);
      WithStatusNone(d, UnmatchedBank);
    }
  }

  lemma SelectUnmatched(a: seq<MatchResult>, b: seq<MatchResult>, c: seq<MatchResult>, d: seq<MatchResult>)
    requires PhaseStatuses(a, b, c, d)
    ensures WithStatus(a + b + c + d, UnmatchedInternal) == c
    ensures WithStatus(a + b + c + d, Duplicate) == d
  {
    WithStatusOfFour(a, b, c, d, UnmatchedInternal);
    WithStatusNone(a, UnmatchedInternal);
    WithStatusNone(b, UnmatchedInternal);
    WithStatusAll(c, UnmatchedInternal);
    WithStatusNone(d, UnmatchedInternal);
    WithStatusOfFour(a, b, c, d, Duplicate);
    WithStatusNone(a, Duplicate);
    WithStatusNone(b, Duplicate);
    WithStatusNone(c, Duplicate);
    WithStatusAll(d, Duplicate);
  }

  /** Selecting one status from a run's results selects from the phase that
      produces it: EXACT results are exactly phase 1, FUZZY and UNMATCHED_BANK
      results come from phase 2, UNMATCHED_INTERNAL results are exactly phase
      3 and DUPLICATE results exactly phase 4. */
  lemma ResultsByStatus(e: Engine, bank: seq<Transaction>, internal: seq<Transaction>)
    ensures var run := Phases(e, bank, internal);
      var rs := Reconcile(e, bank, internal).results;
      && WithStatus(rs, Exact) == run.exact.results
      && WithStatus(rs, Fuzzy) == WithStatus(run.fuzzy.results, Fuzzy)
      && WithStatus(rs, UnmatchedBank) == WithStatus(run.fuzzy.results, UnmatchedBank)
      && WithStatus(rs, UnmatchedInternal) == run.unmatchedInternal
      && WithStatus(rs, Duplicate) == run.duplicates
  {
    var run := Phases(e, bank, internal);
    RunStatuses(e, bank, internal);
    SelectMatched(run.exact.results, run.fuzzy.results, run.unmatchedInternal, run.duplicates);
    SelectUnmatched(run.exact.results, run.fuzzy.results, run.unmatchedInternal, run.duplicates);
  }

  /** Results that claim nothing keep claims unique when appended. */
  lemma ClaimsUniqueAppendUnclaimed(a: seq<MatchResult>, b: seq<MatchResult>)
    requires ClaimsUnique(a)
    requires forall r :: r in b ==> !IsMatched(r)
    ensures ClaimsUnique(a + b)
    ensures MatchedInternalIds(a + b) == MatchedInternalIds(a)
  {
    assert MatchedInternalIds(b) == {};
    MatchedInternalIdsConcat(a, b);
    ClaimsUniqueConcat(a, b);
  }

  lemma ClaimsOfParts(a: seq<MatchResult>, b: seq<MatchResult>, c: seq<MatchResult>, d: seq<MatchResult>,
                      claimedA: set<string>, claimedB: set<string>)
    requires PhaseStatuses(a, b, c, d)
    requires ClaimsUnique(a) && ClaimsUnique(b) && claimedA == MatchedInternalIds(a)
    requires forall i :: 0 <= i < |b| ==> WellFormed(b[i])
    requires forall i :: 0 <= i < |b| && b[i].status == Fuzzy ==> b[i].internal.Some? && b[i].internal.value.id !in claimedA
    requires claimedB == claimedA + MatchedInternalIds(b)
    ensures ClaimsUnique(a + b + c + d)
    ensures claimedB == MatchedInternalIds(a + b + c + d)
  {
    assert MatchedInternalIds(a) !! MatchedInternalIds(b) by {
      forall x | x in MatchedInternalIds(b) ensures x !in claimedA {
        var r :| r in b && IsMatched(r) && r.internal.Some? && r.internal.value.id == x;
        var i :| 0 <= i < |b| && b[i] == r;
      }
    }
    ClaimsUniqueConcat(a, b);
    MatchedInternalIdsConcat(a, b);
    ClaimsUniqueAppendUnclaimed(a + b, c);
    ClaimsUniqueAppendUnclaimed(a + b + c, d);
  }

  /** What the two matching phases promise about their claims. */
  lemma MatchingPhaseClaims(e: Engine, bank: seq<Transaction>, internal: seq<Transaction>)
    ensures var run := Phases(e, bank, internal);
      var a, b := run.exact.results, run.fuzzy.results;
      && ClaimsUnique(a) && ClaimsUnique(b) && run.exact.claimed == MatchedInternalIds(a)
      && (forall i :: 0 <= i < |b| ==> WellFormed(b[i]))
      && (forall i :: 0 <= i < |b| && b[i].status == Fuzzy ==> b[i].internal.Some? && b[i].internal.value.id !in run.exact.claimed)
      && run.fuzzy.claimed == run.exact.claimed + MatchedInternalIds(b)
  {
    var run := Phases(e, bank, internal);
    ExactClaims(bank, BuildAmountIndex(internal));
    FuzzyClaims(e, run.leftover, internal, run.exact.claimed);
  }

  lemma ExactClaims(bank: seq<Transaction>, index: AmountIndex)
    ensures var exact := ExactPhase(bank, index, {});
      ClaimsUnique(exact.results) && exact.claimed == MatchedInternalIds(exact.results)
  {
    var exact := ExactPhase(bank, index, {});
    assert {} + MatchedInternalIds(exact.results) == MatchedInternalIds(exact.results);
  }

  lemma FuzzyClaims(e: Engine, unmatched: seq<Transaction>, internal: seq<Transaction>, claimed: set<string>)
    ensures var out := FuzzyPhase(e, unmatched, internal, claimed);
      var b := out.results;
      && ClaimsUnique(b)
      && (forall i :: 0 <= i < |b| ==> WellFormed(b[i]))
      && (forall i :: 0 <= i < |b| && b[i].status == Fuzzy ==> b[i].internal.Some? && b[i].internal.value.id !in claimed)
      && out.claimed == claimed + MatchedInternalIds(b)
  {
  }

  /** No internal transaction id is consumed by two matches, and the set of
      ids the run claimed is exactly the set its matches consume. */
  lemma ReconcileClaimsUnique(e: Engine, bank: seq<Transaction>, internal: seq<Transaction>)
    ensures ClaimsUnique(Reconcile(e, bank, internal).results)
    ensures Phases(e, bank, internal).fuzzy.claimed == MatchedInternalIds(Reconcile(e, bank, internal).results)
  {
    var run := Phases(e, bank, internal);
    RunStatuses(e, bank, internal);
    MatchingPhaseClaims(e, bank, internal);
    ClaimsOfParts(run.exact.results, run.fuzzy.results, run.unmatchedInternal, run.duplicates,
                  run.exact.claimed, run.fuzzy.claimed);
  }

  /** Every internal transaction whose id no match consumed gets an
      UNMATCHED_INTERNAL result, in input order, and no other does. */
  lemma ReconcileInternalCoverage(e: Engine, bank: seq<Transaction>, internal: seq<Transaction>)
    ensures var rs := Reconcile(e, bank, internal).results;
      var unmatched := WithStatus(rs, UnmatchedInternal);
      && unmatched == UnmatchedInternalResults(internal, MatchedInternalIds(rs))
      && (forall r :: r in unmatched ==> r.internal.Some?)
      && (forall t :: t in InternalSides(unmatched) <==> t in internal && t.id !in MatchedInternalIds(rs))
  {
    ResultsByStatus(e, bank, internal);
    ReconcileClaimsUnique(e, bank, internal);
  }

  /** The DUPLICATE results of a run are the duplicate detection of the two
      original lists, whatever the matching phases did; there is one per
      transaction whose day and absolute amount occurred earlier in its list. */
  lemma ReconcileDuplicates(e: Engine, bank: seq<Transaction>, internal: seq<Transaction>)
    ensures var rs := Reconcile(e, bank, internal).results;
      && WithStatus(rs, Duplicate) == DetectDuplicates(bank, internal)
      && |WithStatus(rs, Duplicate)| ==
         |Grouping.LaterOccurrences(bank, KeyOf)| + |Grouping.LaterOccurrences(internal, KeyOf)|
  {
    ResultsByStatus(e, bank, internal);
    FlagCount(bank, BankSide);
    FlagCount(internal, InternalSide);
  }

  /** Whether a result list refers to the same bank transactions is decided
      per id. */
  lemma {:induction false} LeftForFuzzySame(ts: seq<Transaction>, rs1: seq<MatchResult>, rs2: seq<MatchResult>)
    requires forall t :: t in ts ==> (MatchedBankId(rs1, t.id) <==> MatchedBankId(rs2, t.id))
    ensures LeftForFuzzy(ts, rs1) == LeftForFuzzy(ts, rs2)
    decreases |ts|
  {
    if ts != [] {
      LeftForFuzzySame(ts[1..], rs1, rs2);
    }
  }

  lemma UniqueIdsTail(ts: seq<Transaction>)
    requires UniqueIds(ts) && ts != []
    ensures UniqueIds(ts[1..])
    ensures forall t :: t in ts[1..] ==> t.id != ts[0].id
  {
    forall j, k | 0 <= j < k < |ts[1..]| ensures ts[1..][j].id != ts[1..][k].id {
      assert ts[1..][j] == ts[j + 1] && ts[1..][k] == ts[k + 1];
    }
    forall t | t in ts[1..] ensures t.id != ts[0].id {
      var j :| 0 <= j < |ts[1..]| && ts[1..][j] == t;
      assert t == ts[j + 1];
    }
  }

  /** The split when the first bank transaction found no exact match. */
  lemma SplitStepUnmatched(b0: Transaction, tail: seq<Transaction>, rest: seq<MatchResult>)
    requires forall r :: r in rest ==> r.bank.Some? && r.bank.value in tail
    requires forall t :: t in tail ==> t.id != b0.id
    requires multiset(BankSides(rest) + LeftForFuzzy(tail, rest)) == multiset(tail)
    ensures multiset(BankSides(rest) + LeftForFuzzy([b0] + tail, rest)) == multiset([b0] + tail)
  {
    var bank := [b0] + tail;
    assert bank[1..] == tail;
    assert !MatchedBankId(rest, b0.id);
    assert LeftForFuzzy(bank, rest) == [b0] + LeftForFuzzy(tail, rest);
  }

  /** The split when the first bank transaction matched exactly. */
  lemma SplitStepMatched(b0: Transaction, tail: seq<Transaction>, r: MatchResult, rest: seq<MatchResult>)
    requires r.bank == Some(b0) && IsMatched(r)
    requires forall x :: x in rest ==> x.bank.Some?
    requires forall t :: t in tail ==> t.id != b0.id
    requires multiset(BankSides(rest) + LeftForFuzzy(tail, rest)) == multiset(tail)
    ensures multiset(BankSides([r] + rest) + LeftForFuzzy([b0] + tail, [r] + rest)) == multiset([b0] + tail)
  {
    DropMatchedHead(b0, tail, r, rest);
    BankSidesConcat([r], rest);
  }

  /** A bank transaction matched at the head of the results is not passed
      on, and the results behind it pass on the same transactions of the
      rest of the list. */
  lemma DropMatchedHead(b0: Transaction, tail: seq<Transaction>, r: MatchResult, rest: seq<MatchResult>)
    requires r.bank == Some(b0) && IsMatched(r)
    requires forall t :: t in tail ==> t.id != b0.id
    ensures LeftForFuzzy([b0] + tail, [r] + rest) == LeftForFuzzy(tail, rest)
  {
    var bank := [b0] + tail;
    var results := [r] + rest;
    assert bank[1..] == tail;
    assert MatchedBankId(results, b0.id) by {
      assert r in results;
    }
    forall t | t in tail ensures MatchedBankId(results, t.id) <==> MatchedBankId(rest, t.id) {
      if MatchedBankId(results, t.id) {
        var x :| x in results && x.bank.Some? && x.bank.value.id == t.id && IsMatched(x);
        if x != r {
          assert x in rest;
        }
      }
      if MatchedBankId(rest, t.id) {
        var x :| x in rest && x.bank.Some? && x.bank.value.id == t.id && IsMatched(x);
        assert x in results;
      }
    }
    LeftForFuzzySame(tail, results, rest);
  }

  lemma BankSidesWithin(rs: seq<MatchResult>, ts: seq<Transaction>)
    requires forall i :: 0 <= i < |rs| ==> rs[i].bank.Some? && rs[i].bank.value in ts
    ensures forall r :: r in rs ==> r.bank.Some? && r.bank.value in ts
  {
    forall r | r in rs ensures r.bank.Some? && r.bank.value in ts {
      var i :| 0 <= i < |rs| && rs[i] == r;
    }
  }

  /** With unique bank ids, phase 1 splits the bank list: every bank
      transaction is either the bank side of one EXACT result or handed to
      the fuzzy phase, never both. */
  lemma {:induction false} ExactPhaseSplitsBank(bank: seq<Transaction>, index: AmountIndex, claimed: set<string>)
    requires UniqueIds(bank)
    ensures var out := ExactPhase(bank, index, claimed);
      && (forall r :: r in out.results ==> r.bank.Some?)
      && multiset(BankSides(out.results) + LeftForFuzzy(bank, out.results)) == multiset(bank)
    decreases |bank|
  {
    if bank != [] {
      UniqueIdsTail(bank);
      assert bank == [bank[0]] + bank[1..];
      match FindExactMatch(bank[0], index, claimed)
      case None =>
        var rest := ExactPhase(bank[1..], index, claimed);
        assert ExactPhase(bank, index, claimed) == rest;
        ExactPhaseSplitsBank(bank[1..], index, claimed);
        BankSidesWithin(rest.results, bank[1..]);
        SplitStepUnmatched(bank[0], bank[1..], rest.results);
      case Some(r) =>
        var rest := ExactPhase(bank[1..], index, claimed + {r.internal.value.id});
        assert ExactPhase(bank, index, claimed).results == [r] + rest.results;
        ExactPhaseSplitsBank(bank[1..], index, claimed + {r.internal.value.id});
        SplitStepMatched(bank[0], bank[1..], r, rest.results);
    }
  }

  /** Phase 2 results, split by their two statuses, keep their number and
      add up to the same bank amount. */
  lemma {:induction false} SplitByTwoStatuses(rs: seq<MatchResult>, s1: MatchStatus, s2: MatchStatus)
    requires s1 != s2
    requires forall r :: r in rs ==> r.status == s1 || r.status == s2
    ensures |WithStatus(rs, s1)| + |WithStatus(rs, s2)| == |rs|
    ensures BankAmountOf(WithStatus(rs, s1)) + BankAmountOf(WithStatus(rs, s2)) == BankAmountOf(rs)
    decreases |rs|
  {
    if rs != [] {
      assert forall r :: r in rs[1..] ==> r in rs;
      SplitByTwoStatuses(rs[1..], s1, s2);
      StatusStep(rs, s1);
      StatusStep(rs, s2);
    }
  }

  /** The bank sides of the results of one status, with multiplicity. */
  function BankSideBag(rs: seq<MatchResult>, st: MatchStatus): multiset<Transaction> {
    if rs == [] then multiset{}
    else (if rs[0].status == st && rs[0].bank.Some? then multiset{rs[0].bank.value} else multiset{})
         + BankSideBag(rs[1..], st)
  }

  lemma {:induction false} BankSideBagConcat(a: seq<MatchResult>, b: seq<MatchResult>, st: MatchStatus)
    ensures BankSideBag(a + b, st) == BankSideBag(a, st) + BankSideBag(b, st)
    decreases |a|
  {
    if a == [] {
      assert a + b == b;
    } else {
      assert (a + b)[0] == a[0];
      assert (a + b)[1..] == a[1..] + b;
      BankSideBagConcat(a[1..], b, st);
    }
  }

  lemma {:induction false} BankSideBagNone(rs: seq<MatchResult>, st: MatchStatus)
    requires forall r :: r in rs ==> r.status != st
    ensures BankSideBag(rs, st) == multiset{}
    decreases |rs|
  {
    if rs != [] {
      assert forall r :: r in rs[1..] ==> r in rs;
      BankSideBagNone(rs[1..], st);
    }
  }

  lemma BankSidesCons(rs: seq<MatchResult>)
    requires rs != [] && forall r :: r in rs ==> r.bank.Some?
    ensures multiset(BankSides(rs)) == multiset{rs[0].bank.value} + multiset(BankSides(rs[1..]))
  {
    assert forall r :: r in rs[1..] ==> r in rs;
    BankSidesConcat([rs[0]], rs[1..]);
    assert rs == [rs[0]] + rs[1..];
  }

  /** Results of two statuses that all carry a bank side: the two bags
      together are the multiset of their bank sides. */
  lemma {:induction false} BankSideBagSplit(rs: seq<MatchResult>, s1: MatchStatus, s2: MatchStatus)
    requires s1 != s2
    requires forall r :: r in rs ==> r.bank.Some? && (r.status == s1 || r.status == s2)
    ensures BankSideBag(rs, s1) + BankSideBag(rs, s2) == multiset(BankSides(rs))
    decreases |rs|
  {
    if rs != [] {
      var tail := rs[1..];
      var x := rs[0].bank.value;
      assert BankSideBag(tail, s1) + BankSideBag(tail, s2) == multiset(BankSides(tail)) by {
        assert forall r :: r in tail ==> r in rs;
        BankSideBagSplit(tail, s1, s2);
      }
      BankSidesCons(rs);
      BagsAddOne(x, BankSideBag(tail, s1), BankSideBag(tail, s2), multiset(BankSides(tail)));
      if rs[0].status == s1 {
        assert BankSideBag(rs, s1) == multiset{x} + BankSideBag(tail, s1);
        assert BankSideBag(rs, s2) == BankSideBag(tail, s2);
      } else {
        assert BankSideBag(rs, s1) == BankSideBag(tail, s1);
        assert BankSideBag(rs, s2) == multiset{x} + BankSideBag(tail, s2);
      }
    }
  }

  lemma BagsAddOne(x: Transaction, p: multiset<Transaction>, q: multiset<Transaction>, m: multiset<Transaction>)
    requires p + q == m
    ensures (multiset{x} + p) + q == multiset{x} + m
    ensures p + (multiset{x} + q) == multiset{x} + m
  {
  }

  /** The bank amount of results that all have a bank side is the total of
      their bank sides. */
  lemma {:induction false} BankAmountIsSumAbs(rs: seq<MatchResult>)
    requires forall r :: r in rs ==> r.bank.Some?
    ensures BankAmountOf(rs) == SumAbs(BankSides(rs))
    decreases |rs|
  {
    if rs != [] {
      assert forall r :: r in rs[1..] ==> r in rs;
      BankAmountIsSumAbs(rs[1..]);
      BankSidesConcat([rs[0]], rs[1..]);
      assert rs == [rs[0]] + rs[1..];
      assert BankSides(rs)[1..] == BankSides(rs[1..]);
    }
  }

  /** The bank transactions referred to by the EXACT, FUZZY and UNMATCHED_BANK
      results, with multiplicity. */
  function BankOutcomes(rs: seq<MatchResult>): multiset<Transaction> {
    BankSideBag(rs, Exact) + BankSideBag(rs, Fuzzy) + BankSideBag(rs, UnmatchedBank)
  }

  lemma BankOutcomesOfParts(a: seq<MatchResult>, b: seq<MatchResult>, c: seq<MatchResult>, d: seq<MatchResult>)
    requires PhaseStatuses(a, b, c, d)
    requires forall r :: r in a ==> r.bank.Some?
    requires forall r :: r in b ==> r.bank.Some?
    ensures BankOutcomes(a + b + c + d) == multiset(BankSides(a) + BankSides(b))
  {
    forall st | st == Exact || st == Fuzzy || st == UnmatchedBank
      ensures BankSideBag(a + b + c + d, st) == BankSideBag(a, st) + BankSideBag(b, st)
    {
      BankSideBagConcat(a + b + c, d, st);
      BankSideBagConcat(a + b, c, st);
      BankSideBagConcat(a, b, st);
      BankSideBagNone(c, st);
      BankSideBagNone(d, st);
    }
    BankSideBagNone(a, Fuzzy);
    BankSideBagNone(a, UnmatchedBank);
    BankSideBagNone(b, Exact);
    BankSideBagSplit(a, Exact, Fuzzy);
    BankSideBagSplit(b, Fuzzy, UnmatchedBank);
  }

  /** With unique bank ids, every result of phases 1 and 2 has a bank side,
      phase 2 yields only FUZZY and UNMATCHED_BANK results, and the bank
      sides of the two phases are the bank list with multiplicity. */
  lemma BankPhases(e: Engine, bank: seq<Transaction>, internal: seq<Transaction>)
    requires UniqueIds(bank)
    ensures var run := Phases(e, bank, internal);
      && (forall r :: r in run.exact.results ==> r.bank.Some?)
      && (forall r :: r in run.fuzzy.results ==> r.bank.Some? && (r.status == Fuzzy || r.status == UnmatchedBank))
      && multiset(BankSides(run.exact.results) + BankSides(run.fuzzy.results)) == multiset(bank)
  {
    var index := BuildAmountIndex(internal);
    var exact := ExactPhase(bank, index, {});
    var leftover := LeftForFuzzy(bank, exact.results);
    var fuzzy := FuzzyPhase(e, leftover, internal, exact.claimed);
    ExactPhaseSplitsBank(bank, index, {});
    FuzzyBankSides(e, leftover, internal, exact.claimed);
    assert Phases(e, bank, internal).exact == exact && Phases(e, bank, internal).fuzzy == fuzzy;
  }

  /** Phase 2 answers every bank transaction handed to it, in order. */
  lemma FuzzyBankSides(e: Engine, unmatched: seq<Transaction>, internal: seq<Transaction>, claimed: set<string>)
    ensures var rs := FuzzyPhase(e, unmatched, internal, claimed).results;
      && (forall r :: r in rs ==> r.bank.Some? && (r.status == Fuzzy || r.status == UnmatchedBank))
      && BankSides(rs) == unmatched
  {
    var rs := FuzzyPhase(e, unmatched, internal, claimed).results;
    forall r | r in rs ensures r.bank.Some? && (r.status == Fuzzy || r.status == UnmatchedBank) {
      var i :| 0 <= i < |rs| && rs[i] == r;
    }
  }

  /** With unique bank ids, every bank transaction is referred to by exactly
      one EXACT, FUZZY or UNMATCHED_BANK result. */
  lemma ReconcileBankCoverage(e: Engine, bank: seq<Transaction>, internal: seq<Transaction>)
    requires UniqueIds(bank)
    ensures BankOutcomes(Reconcile(e, bank, internal).results) == multiset(bank)
    ensures forall i :: 0 <= i < |bank| ==> BankOutcomes(Reconcile(e, bank, internal).results)[bank[i]] == 1
  {
    var run := Phases(e, bank, internal);
    RunStatuses(e, bank, internal);
    BankPhases(e, bank, internal);
    BankOutcomesOfParts(run.exact.results, run.fuzzy.results, run.unmatchedInternal, run.duplicates);
    forall i | 0 <= i < |bank| ensures multiset(bank)[bank[i]] == 1 {
      UniqueIdsOnce(bank, i);
    }
  }

  /** When the bank sides of `a` and `b` are the bank list with
      multiplicity and `b` holds only FUZZY and UNMATCHED_BANK results,
      `a` and `b`'s two statuses count the bank list and add up to its
      total. */
  lemma BankTotalsOfParts(a: seq<MatchResult>, b: seq<MatchResult>, bank: seq<Transaction>)
    requires forall r :: r in a ==> r.bank.Some?
    requires forall r :: r in b ==> r.bank.Some? && (r.status == Fuzzy || r.status == UnmatchedBank)
    requires multiset(BankSides(a) + BankSides(b)) == multiset(bank)
    ensures |a| + |WithStatus(b, Fuzzy)| + |WithStatus(b, UnmatchedBank)| == |bank|
    ensures BankAmountOf(a) + BankAmountOf(WithStatus(b, Fuzzy)) + BankAmountOf(WithStatus(b, UnmatchedBank)) == SumAbs(bank)
  {
    SplitByTwoStatuses(b, Fuzzy, UnmatchedBank);
    assert |multiset(BankSides(a) + BankSides(b))| == |bank|;
    BankAmountIsSumAbs(a);
    BankAmountIsSumAbs(b);
    SumAbsConcat(BankSides(a), BankSides(b));
    SumAbsPermutation(BankSides(a) + BankSides(b), bank);
  }

  lemma ReconcileSummaryIs(e: Engine, bank: seq<Transaction>, internal: seq<Transaction>)
    ensures var out := Reconcile(e, bank, internal);
      out.summary == GenerateSummary(out.results, bank, internal)
  {
  }

  /** With unique bank ids, the summary accounts for every bank transaction
      once: matched plus unmatched is the bank count, the matched and
      unmatched bank amounts add up to the bank total, and the match rate is
      a percentage. */
  lemma ReconcileSummaryBank(e: Engine, bank: seq<Transaction>, internal: seq<Transaction>)
    requires UniqueIds(bank)
    ensures var s := Reconcile(e, bank, internal).summary;
      && s.totalMatched + s.totalUnmatchedBank == s.totalBankTransactions == |bank|
      && s.matchedAmount + s.unmatchedBankAmount == s.totalBankAmount == SumAbs(bank)
      && 0.0 <= MatchRate(s) <= 100.0
  {
    var a, b := BankParts(e, bank, internal);
    var rs := Reconcile(e, bank, internal).results;
    ReconcileSummaryIs(e, bank, internal);
    BankSummary(rs, bank, internal, a, b);
  }

  /** A summary of results whose EXACT, FUZZY and UNMATCHED_BANK parts
      count the bank list and add up to its total balances on the bank
      side, and its match rate is a percentage. */
  lemma BankSummary(rs: seq<MatchResult>, bank: seq<Transaction>, internal: seq<Transaction>, a: seq<MatchResult>, b: seq<MatchResult>)
    requires WithStatus(rs, Exact) == a && WithStatus(rs, Fuzzy) == WithStatus(b, Fuzzy)
    requires WithStatus(rs, UnmatchedBank) == WithStatus(b, UnmatchedBank)
    requires |a| + |WithStatus(b, Fuzzy)| + |WithStatus(b, UnmatchedBank)| == |bank|
    requires BankAmountOf(a) + BankAmountOf(WithStatus(b, Fuzzy)) + BankAmountOf(WithStatus(b, UnmatchedBank)) == SumAbs(bank)
    ensures var s := GenerateSummary(rs, bank, internal);
      && s.totalMatched + s.totalUnmatchedBank == s.totalBankTransactions == |bank|
      && s.matchedAmount + s.unmatchedBankAmount == s.totalBankAmount == SumAbs(bank)
      && 0.0 <= MatchRate(s) <= 100.0
  {
    BankAccounting(GenerateSummary(rs, bank, internal), rs, bank, a, b);
  }

  /** The results of phases 1 and 2 by status, and their bank-side counts
      and amounts. */
  lemma BankParts(e: Engine, bank: seq<Transaction>, internal: seq<Transaction>) returns (a: seq<MatchResult>, b: seq<MatchResult>)
    requires UniqueIds(bank)
    ensures var rs := Reconcile(e, bank, internal).results;
      && WithStatus(rs, Exact) == a && WithStatus(rs, Fuzzy) == WithStatus(b, Fuzzy)
      && WithStatus(rs, UnmatchedBank) == WithStatus(b, UnmatchedBank)
    ensures |a| + |WithStatus(b, Fuzzy)| + |WithStatus(b, UnmatchedBank)| == |bank|
    ensures BankAmountOf(a) + BankAmountOf(WithStatus(b, Fuzzy)) + BankAmountOf(WithStatus(b, UnmatchedBank)) == SumAbs(bank)
  {
    var run := Phases(e, bank, internal);
    a, b := run.exact.results, run.fuzzy.results;
    ResultsByStatus(e, bank, internal);
    BankPhases(e, bank, internal);
    BankTotalsOfParts(a, b, bank);
  }

  lemma BankAccounting(s: Summary, rs: seq<MatchResult>, bank: seq<Transaction>, a: seq<MatchResult>, b: seq<MatchResult>)
    requires s.totalBankTransactions == |bank| && s.totalBankAmount == SumAbs(bank)
    requires s.totalMatched == |WithStatus(rs, Exact)| + |WithStatus(rs, Fuzzy)|
    requires s.totalUnmatchedBank == |WithStatus(rs, UnmatchedBank)|
    requires s.matchedAmount == BankAmountOf(WithStatus(rs, Exact)) + BankAmountOf(WithStatus(rs, Fuzzy))
    requires s.unmatchedBankAmount == BankAmountOf(WithStatus(rs, UnmatchedBank))
    requires WithStatus(rs, Exact) == a && WithStatus(rs, Fuzzy) == WithStatus(b, Fuzzy)
    requires WithStatus(rs, UnmatchedBank) == WithStatus(b, UnmatchedBank)
    requires |a| + |WithStatus(b, Fuzzy)| + |WithStatus(b, UnmatchedBank)| == |bank|
    requires BankAmountOf(a) + BankAmountOf(WithStatus(b, Fuzzy)) + BankAmountOf(WithStatus(b, UnmatchedBank)) == SumAbs(bank)
    ensures s.totalMatched + s.totalUnmatchedBank == s.totalBankTransactions == |bank|
    ensures s.matchedAmount + s.unmatchedBankAmount == s.totalBankAmount == SumAbs(bank)
    ensures 0.0 <= MatchRate(s) <= 100.0
  {
  }

  /** The rest of the summary: the internal and duplicate counts and the
      amount difference, which compares the two list totals. */
  lemma ReconcileSummaryInternal(e: Engine, bank: seq<Transaction>, internal: seq<Transaction>)
    ensures var out := Reconcile(e, bank, internal);
      var s := out.summary;
      && s.totalUnmatchedInternal == |Unclaimed(internal, MatchedInternalIds(out.results))|
      && s.unmatchedInternalAmount == SumAbs(Unclaimed(internal, MatchedInternalIds(out.results)))
      && s.totalDuplicates ==
         |Grouping.LaterOccurrences(bank, KeyOf)| + |Grouping.LaterOccurrences(internal, KeyOf)|
      && AmountDifference(s) == SumAbs(bank) - SumAbs(internal)
  {
    var out := Reconcile(e, bank, internal);
    var unmatched := WithStatus(out.results, UnmatchedInternal);
    ReconcileInternalCoverage(e, bank, internal);
    ReconcileDuplicates(e, bank, internal);
    InternalAmountIsSumAbs(unmatched);
  }

  lemma {:induction false} InternalAmountIsSumAbs(rs: seq<MatchResult>)
    requires forall r :: r in rs ==> r.internal.Some?
    ensures InternalAmountOf(rs) == SumAbs(InternalSides(rs))
    decreases |rs|
  {
    if rs != [] {
      assert forall r :: r in rs[1..] ==> r in rs;
      InternalAmountIsSumAbs(rs[1..]);
      InternalSidesConcat([rs[0]], rs[1..]);
      assert rs == [rs[0]] + rs[1..];
      assert InternalSides(rs)[1..] == InternalSides(rs[1..]);
    }
  }

  /** The order of the phases that produce each status. */
  function PhaseRank(st: MatchStatus): nat {
    match st
    case Exact => 0
    case Fuzzy => 1
    case UnmatchedBank => 1
    case UnmatchedInternal => 2
    case Duplicate => 3
  }

  lemma RankOfParts(a: seq<MatchResult>, b: seq<MatchResult>, c: seq<MatchResult>, d: seq<MatchResult>)
    requires PhaseStatuses(a, b, c, d)
    ensures var x := a + b + c + d;
      forall i, j :: 0 <= i < j < |x| ==> PhaseRank(x[i].status) <= PhaseRank(x[j].status)
  {
    var x := a + b + c + d;
    forall i | 0 <= i < |x|
      ensures PhaseRank(x[i].status) ==
        if i < |a| then 0 else if i < |a| + |b| then 1 else if i < |a| + |b| + |c| then 2 else 3
    {
      if i < |a| {
        assert x[i] == a[i];
      } else if i < |a| + |b| {
        assert x[i] == b[i - |a|];
      } else if i < |a| + |b| + |c| {
        assert x[i] == c[i - |a| - |b|];
      } else {
        assert x[i] == d[i - |a| - |b| - |c|];
      }
    }
  }

  /** Results come out phase by phase: every EXACT result precedes every
      FUZZY or UNMATCHED_BANK result, which precede every UNMATCHED_INTERNAL
      result, and DUPLICATE results come last. */
  lemma ReconcilePhaseOrder(e: Engine, bank: seq<Transaction>, internal: seq<Transaction>)
    ensures var rs := Reconcile(e, bank, internal).results;
      forall i, j :: 0 <= i < j < |rs| ==> PhaseRank(rs[i].status) <= PhaseRank(rs[j].status)
  {
    var run := Phases(e, bank, internal);
    RunStatuses(e, bank, internal);
    RankOfParts(run.exact.results, run.fuzzy.results, run.unmatchedInternal, run.duplicates);
  }

  /** A single transaction has no duplicate. */
  lemma NoDuplicateInSingleton(x: Transaction, side: Side)
    ensures FlagDuplicates([x], side) == []
  {
    var g := Grouping.GroupBy([x], KeyOf);
    if Flagged([x]) != [] {
      var y := Flagged([x])[0];
      Grouping.TailsFromLargeGroups(g.keys, g.members, y);
    }
  }

  /** The phases for one bank and one internal transaction that match
      exactly. */
  lemma SinglePairPhases(e: Engine, b: Transaction, t: Transaction)
    requires b.day == t.day && AbsAmount(b) == AbsAmount(t) && !ReferenceConflict(b, t)
    ensures Phases(e, [b], [t]) == Run(PhaseOutcome([ExactResult(b, t)], {t.id}), [], PhaseOutcome([], {t.id}), [], [])
  {
    var r := ExactResult(b, t);
    SinglePairExactPhase(b, t);
    MatchedLoneBank(b, r);
    EmptyFuzzyPhase(e, [t], {t.id});
    assert UnmatchedInternalResults([t], {t.id}) == [];
    NoDuplicateInSingleton(b, BankSide);
    NoDuplicateInSingleton(t, InternalSide);
  }

  /** A lone bank transaction that is matched is not passed to phase 2. */
  lemma MatchedLoneBank(b: Transaction, r: MatchResult)
    requires r.bank == Some(b) && IsMatched(r)
    ensures LeftForFuzzy([b], [r]) == []
  {
    assert MatchedBankId([r], b.id) by {
      assert r in [r];
    }
  }

  /** Phase 2 given no bank transactions yields nothing and claims nothing. */
  lemma EmptyFuzzyPhase(e: Engine, internal: seq<Transaction>, claimed: set<string>)
    ensures FuzzyPhase(e, [], internal, claimed) == PhaseOutcome([], claimed)
  {
  }

  lemma SinglePairExactPhase(b: Transaction, t: Transaction)
    requires b.day == t.day && AbsAmount(b) == AbsAmount(t) && !ReferenceConflict(b, t)
    ensures ExactPhase([b], BuildAmountIndex([t]), {}) == PhaseOutcome([ExactResult(b, t)], {t.id})
  {
    SinglePairFinds(b, t);
    OneBankExactPhase(b, BuildAmountIndex([t]), ExactResult(b, t));
  }

  /** A lone bank transaction that finds an exact match yields that one
      result and claims its internal id. */
  lemma OneBankExactPhase(b: Transaction, index: AmountIndex, r: MatchResult)
    requires FindExactMatch(b, index, {}) == Some(r)
    ensures r.internal.Some? && ExactPhase([b], index, {}) == PhaseOutcome([r], {r.internal.value.id})
  {
    var rest := ExactPhase([b][1..], index, {} + {r.internal.value.id});
    assert rest == PhaseOutcome([], {r.internal.value.id}) by {
      assert [b][1..] == [];
    }
    assert ExactPhase([b], index, {}) == PhaseOutcome([r] + rest.results, rest.claimed);
  }

  lemma SinglePairFinds(b: Transaction, t: Transaction)
    requires b.day == t.day && AbsAmount(b) == AbsAmount(t) && !ReferenceConflict(b, t)
    ensures FindExactMatch(b, BuildAmountIndex([t]), {}) == Some(ExactResult(b, t))
  {
    var index := BuildAmountIndex([t]);
    assert Candidates(index, AbsAmount(b)) == [t] by {
      CandidatesAreBucket([t], AbsAmount(b));
      assert [t][..0] == [];
    }
    assert ExactCandidate(b, t, {});
  }

  /** One bank and one internal transaction on the same day, with the same
      absolute amount and no conflicting references, reconcile to a single
      EXACT result and a 100% match rate. */
  lemma SinglePairMatchesExactly(e: Engine, b: Transaction, t: Transaction)
    requires b.day == t.day && AbsAmount(b) == AbsAmount(t) && !ReferenceConflict(b, t)
    ensures var out := Reconcile(e, [b], [t]);
      && out.results == [ExactResult(b, t)]
      && out.summary.totalMatched == out.summary.totalExactMatches == 1
      && out.summary.totalFuzzyMatches == out.summary.totalUnmatchedBank == 0
      && out.summary.totalUnmatchedInternal == out.summary.totalDuplicates == 0
      && MatchRate(out.summary) == 100.0
  {
    var r := ExactResult(b, t);
    SinglePairResults(e, b, t);
    ReconcileSummaryIs(e, [b], [t]);
    OneExactSummary(r, [b], [t]);
  }

  lemma SinglePairResults(e: Engine, b: Transaction, t: Transaction)
    requires b.day == t.day && AbsAmount(b) == AbsAmount(t) && !ReferenceConflict(b, t)
    ensures Reconcile(e, [b], [t]).results == [ExactResult(b, t)]
  {
    var rs := ReconcileResults(e, [b], [t]);
    SinglePairPhases(e, b, t);
    assert rs == [ExactResult(b, t)];
  }

  lemma ReconcileResults(e: Engine, bank: seq<Transaction>, internal: seq<Transaction>) returns (rs: seq<MatchResult>)
    ensures Reconcile(e, bank, internal).results == rs == AllResults(Phases(e, bank, internal))
  {
    rs := AllResults(Phases(e, bank, internal));
  }

  /** The summary of one EXACT result for one bank transaction counts one
      exact match and nothing else. */
  lemma OneExactSummary(r: MatchResult, bank: seq<Transaction>, internal: seq<Transaction>)
    requires r.status == Exact && |bank| == 1
    ensures var s := GenerateSummary([r], bank, internal);
      && s.totalMatched == s.totalExactMatches == 1
      && s.totalFuzzyMatches == s.totalUnmatchedBank == 0
      && s.totalUnmatchedInternal == s.totalDuplicates == 0
      && MatchRate(s) == 100.0
  {
    assert WithStatus([r], Exact) == [r];
  }
}
