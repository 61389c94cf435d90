/** The summary of a run: one pass over the results incrementing a counter
    per status and adding up absolute amounts, then the totals of the two
    original lists. */
module SummaryAggregation {
  import opened Wrappers
  import opened Models

  /** The absolute amount of a result's bank side, zero without one. */
  function BankAbs(r: MatchResult): nat {
    if r.bank.Some? then AbsAmount(r.bank.value) else 0
  }

  /** The absolute amount of a result's internal side, zero without one. */
  function InternalAbs(r: MatchResult): nat {
    if r.internal.Some? then AbsAmount(r.internal.value) else 0
  }

  function BankAmountOf(rs: seq<MatchResult>): nat {
    if rs == [] then 0 else BankAbs(rs[0]) + BankAmountOf(rs[1..])
  }

  function InternalAmountOf(rs: seq<MatchResult>): nat {
    if rs == [] then 0 else InternalAbs(rs[0]) + InternalAmountOf(rs[1..])
  }

  /** Counts one result, following the source's branch per status. */
  function Tally(s: Summary, r: MatchResult): Summary {
    match r.status
    case Exact =>
      s.(totalMatched := s.totalMatched + 1, totalExactMatches := s.totalExactMatches + 1,
         matchedAmount := s.matchedAmount + BankAbs(r))
    case Fuzzy =>
      s.(totalMatched := s.totalMatched + 1, totalFuzzyMatches := s.totalFuzzyMatches + 1,
         matchedAmount := s.matchedAmount + BankAbs(r))
    case UnmatchedBank =>
      s.(totalUnmatchedBank := s.totalUnmatchedBank + 1,
         unmatchedBankAmount := s.unmatchedBankAmount + BankAbs(r))
    case UnmatchedInternal =>
      s.(totalUnmatchedInternal := s.totalUnmatchedInternal + 1,
         unmatchedInternalAmount := s.unmatchedInternalAmount + InternalAbs(r))
    case Duplicate =>
      s.(totalDuplicates := s.totalDuplicates + 1)
  }

  /** The pass over the results, in order. Each counter ends up increased by
      the number of results of its status, and each amount by the absolute
      amounts of those results. */
  function Fold(s: Summary, rs: seq<MatchResult>): (out: Summary)
    ensures out.totalBankTransactions == s.totalBankTransactions
    ensures out.totalInternalTransactions == s.totalInternalTransactions
    ensures out.totalBankAmount == s.totalBankAmount && out.totalInternalAmount == s.totalInternalAmount
    ensures out.totalExactMatches == s.totalExactMatches + |WithStatus(rs, Exact)|
    ensures out.totalFuzzyMatches == s.totalFuzzyMatches + |WithStatus(rs, Fuzzy)|
    ensures out.totalUnmatchedBank == s.totalUnmatchedBank + |WithStatus(rs, UnmatchedBank)|
    ensures out.totalUnmatchedInternal == s.totalUnmatchedInternal + |WithStatus(rs, UnmatchedInternal)|
    ensures out.totalDuplicates == s.totalDuplicates + |WithStatus(rs, Duplicate)|
    ensures out.totalMatched == s.totalMatched + |WithStatus(rs, Exact)| + |WithStatus(rs, Fuzzy)|
    ensures out.matchedAmount ==
      s.matchedAmount + BankAmountOf(WithStatus(rs, Exact)) + BankAmountOf(WithStatus(rs, Fuzzy))
    ensures out.unmatchedBankAmount == s.unmatchedBankAmount + BankAmountOf(WithStatus(rs, UnmatchedBank))
    ensures out.unmatchedInternalAmount ==
      s.unmatchedInternalAmount + InternalAmountOf(WithStatus(rs, UnmatchedInternal))
    decreases |rs|
  {
    if rs == [] then s
    else
      var out := Fold(Tally(s, rs[0]), rs[1..]);
      StatusStep(rs, Exact);
      StatusStep(rs, Fuzzy);
      StatusStep(rs, UnmatchedBank);
      StatusStep(rs, UnmatchedInternal);
      StatusStep(rs, Duplicate);
      out
  }

  /** Selecting one status from a non-empty list: the first result, if it
      has that status, and the selection from the rest; the amounts follow. */
  lemma StatusStep(rs: seq<MatchResult>, st: MatchStatus)
    requires rs != []
    ensures var head := if rs[0].status == st then [rs[0]] else [];
      && WithStatus(rs, st) == head + WithStatus(rs[1..], st)
      && BankAmountOf(WithStatus(rs, st)) == (if rs[0].status == st then BankAbs(rs[0]) else 0) + BankAmountOf(WithStatus(rs[1..], st))
      && InternalAmountOf(WithStatus(rs, st)) == (if rs[0].status == st then InternalAbs(rs[0]) else 0) + InternalAmountOf(WithStatus(rs[1..], st))
  {
    var rest := WithStatus(rs[1..], st);
    if rs[0].status == st {
      assert ([rs[0]] + rest)[0] == rs[0];
      assert ([rs[0]] + rest)[1..] == rest;
    } else {
      assert [] + rest == rest;
    }
  }

  /** The summary of a run. The two amount totals are taken over the original
      lists, so a transaction referenced by several results counts once. */
  function GenerateSummary(results: seq<MatchResult>, bank: seq<Transaction>, internal: seq<Transaction>): (s: Summary)
    ensures s.totalBankTransactions == |bank| && s.totalInternalTransactions == |internal|
    ensures s.totalExactMatches == |WithStatus(results, Exact)|
    ensures s.totalFuzzyMatches == |WithStatus(results, Fuzzy)|
    ensures s.totalUnmatchedBank == |WithStatus(results, UnmatchedBank)|
    ensures s.totalUnmatchedInternal == |WithStatus(results, UnmatchedInternal)|
    ensures s.totalDuplicates == |WithStatus(results, Duplicate)|
    ensures s.totalMatched == s.totalExactMatches + s.totalFuzzyMatches
    ensures s.matchedAmount == BankAmountOf(WithStatus(results, Exact)) + BankAmountOf(WithStatus(results, Fuzzy))
    ensures s.unmatchedBankAmount == BankAmountOf(WithStatus(results, UnmatchedBank))
    ensures s.unmatchedInternalAmount == InternalAmountOf(WithStatus(results, UnmatchedInternal))
    ensures s.totalBankAmount == SumAbs(bank) && s.totalInternalAmount == SumAbs(internal)
  {
    var counted := Fold(NewSummary(|bank|, |internal|), results);
    counted.(totalBankAmount := SumAbs(bank), totalInternalAmount := SumAbs(internal))
  }

  /** Taking one element out of a list takes its absolute amount out of the
      total. */
  lemma {:induction false} SumAbsRemove(s: seq<Transaction>, k: nat)
    requires k < |s|
    ensures SumAbs(s) == AbsAmount(s[k]) + SumAbs(s[..k] + s[k + 1..])
    decreases |s|
  {
    if k > 0 {
      SumAbsRemove(s[1..], k - 1);
      assert s[1..][..k - 1] + s[1..][k..] == (s[..k] + s[k + 1..])[1..];
      assert (s[..k] + s[k + 1..])[0] == s[0];
    } else {
      assert s[..k] + s[k + 1..] == s[1..];
    }
  }

  lemma RemoveAt(b: seq<Transaction>, k: nat)
    requires k < |b|
    ensures multiset(b) == multiset(b[..k] + b[k + 1..]) + multiset{b[k]}
  {
    assert b == b[..k] + [b[k]] + b[k + 1..];
  }

  /** Where the head of `a` sits in its permutation `b`. */
  lemma PositionOf(a: seq<Transaction>, b: seq<Transaction>) returns (k: nat)
    requires a != [] && multiset(a) == multiset(b)
    ensures k < |b| && b[k] == a[0]
  {
    assert a[0] in multiset(a);
    k :| 0 <= k < |b| && b[k] == a[0];
  }

  lemma MultisetCancel(p: multiset<Transaction>, q: multiset<Transaction>, x: Transaction)
    requires p + multiset{x} == q + multiset{x}
    ensures p == q
  {
    forall y ensures p[y] == q[y] {
      assert (p + multiset{x})[y] == (q + multiset{x})[y];
    }
  }

  /** The amount totals do not depend on the order of the input list. */
  lemma {:induction false} SumAbsPermutation(a: seq<Transaction>, b: seq<Transaction>)
    requires multiset(a) == multiset(b)
    ensures SumAbs(a) == SumAbs(b)
    decreases |a|
  {
    if a != [] {
      var x := a[0];
      var k := PositionOf(a, b);
      var rest := b[..k] + b[k + 1..];
      assert multiset(a[1..]) == multiset(rest) by {
        RemoveAt(b, k);
        assert multiset(a) == multiset(a[1..]) + multiset{x} by {
          assert a == [x] + a[1..];
        }
        MultisetCancel(multiset(a[1..]), multiset(rest), x);
      }
      SumAbsPermutation(a[1..], rest);
      SumAbsRemove(b, k);
      assert SumAbs(a) == AbsAmount(x) + SumAbs(a[1..]);
    } else {
      assert |b| == |multiset(b)| == 0;
    }
  }
}
