/** The data model of the reconciliation engine: transactions, match results
    and the run summary, with the derived quantities the engine and the
    report read from them.

    Dates are integer day ordinals (only the calendar day of a timestamp is
    ever compared) and amounts are exact integers in cents (the source uses
    `Decimal`, never floating point). */
module Models {
  import opened Wrappers

  datatype TransactionType = Credit | Debit

  datatype MatchStatus = Exact | Fuzzy | UnmatchedBank | UnmatchedInternal | Duplicate

  datatype MatchConfidence = High | Medium | Low

  /** Which input list a transaction came from. */
  datatype Side = BankSide | InternalSide

  datatype Transaction = Transaction(
    id: string,
    day: int,
    amount: int,
    description: string,
    kind: TransactionType,
    reference: Option<string>)

  /** The absolute amount, used by the index, the tolerance arithmetic and the
      duplicate key. */
  function AbsAmount(t: Transaction): (a: nat)
    ensures a == t.amount || a == -t.amount
  {
    if t.amount < 0 then -t.amount else t.amount
  }

  /** Why a result was produced. The numeric fields of `FuzzyReason` and
      `PossibleDuplicate` are what the source formats into its message. */
  datatype MatchReason =
    | ExactReason(withReference: bool)
    | FuzzyReason(dateDiffDays: nat, amountDiffPct: real)
    | NoInternalFound
    | NoBankFound
    | PossibleDuplicate(groupSize: nat, side: Side)

  const ExactReasonBase: string := "Exact match: same date, amount"
  const ReferenceSuffix: string := ", and reference"

  /** The message of an exact match; it mentions the reference only when both
      sides carried one. */
  function ExactReasonText(withReference: bool): (text: string)
    ensures ExactReasonBase <= text
    ensures withReference <==> (|text| >= |ReferenceSuffix| && text[|text| - |ReferenceSuffix|..] == ReferenceSuffix)
  {
    var text := ExactReasonBase + (if withReference then ReferenceSuffix else "");
    assert withReference || text[|text| - 1] != ReferenceSuffix[|ReferenceSuffix| - 1];
    text
  }

  datatype MatchResult = MatchResult(
    bank: Option<Transaction>,
    internal: Option<Transaction>,
    status: MatchStatus,
    confidence: MatchConfidence,
    dateDiffDays: nat,
    amountDiff: int,
    reason: MatchReason)

  predicate IsMatched(r: MatchResult) {
    r.status == Exact || r.status == Fuzzy
  }

  /** `a` is `b` with some elements left out, the rest in their order. */
  predicate IsSubsequence<T(==)>(a: seq<T>, b: seq<T>)
    decreases |b|
  {
    if a == [] then true
    else if b == [] then false
    else (a[0] == b[0] && IsSubsequence(a[1..], b[1..])) || IsSubsequence(a, b[1..])
  }

  /** Some EXACT or FUZZY result refers to a bank transaction with this id. */
  predicate MatchedBankId(results: seq<MatchResult>, id: string) {
    exists r :: r in results && r.bank.Some? && r.bank.value.id == id && IsMatched(r)
  }

  /** Which sides a result of each status refers to. */
  predicate WellFormed(r: MatchResult) {
    match r.status
    case Exact => r.bank.Some? && r.internal.Some?
    case Fuzzy => r.bank.Some? && r.internal.Some?
    case UnmatchedBank => r.bank.Some? && r.internal.None?
    case UnmatchedInternal => r.bank.None? && r.internal.Some?
    case Duplicate => r.bank.Some? != r.internal.Some?
  }

  /** A result carrying only the bank side: the source's defaults of zero
      date and amount difference apply. */
  function BankOnlyResult(b: Transaction, status: MatchStatus, confidence: MatchConfidence, reason: MatchReason): (r: MatchResult)
    ensures r.bank == Some(b) && r.internal.None?
    ensures r.dateDiffDays == 0 && r.amountDiff == 0
  {
    MatchResult(Some(b), None, status, confidence, 0, 0, reason)
  }

  /** A result carrying only the internal side, with zero differences. */
  function InternalOnlyResult(t: Transaction, status: MatchStatus, confidence: MatchConfidence, reason: MatchReason): (r: MatchResult)
    ensures r.bank.None? && r.internal == Some(t)
    ensures r.dateDiffDays == 0 && r.amountDiff == 0
  {
    MatchResult(None, Some(t), status, confidence, 0, 0, reason)
  }

  /** The results of one status, in their original order. */
  function WithStatus(rs: seq<MatchResult>, st: MatchStatus): (out: seq<MatchResult>)
    ensures |out| <= |rs|
  {
    if rs == [] then []
    else (if rs[0].status == st then [rs[0]] else []) + WithStatus(rs[1..], st)
  }

  /** The selection holds exactly the results of that status. */
  lemma {:induction false} WithStatusMembers(rs: seq<MatchResult>, st: MatchStatus)
    ensures forall r :: r in WithStatus(rs, st) <==> r in rs && r.status == st
  {
    if rs != [] {
      WithStatusMembers(rs[1..], st);
      assert rs == [rs[0]] + rs[1..];
    }
  }

  lemma {:induction false} WithStatusConcat(a: seq<MatchResult>, b: seq<MatchResult>, st: MatchStatus)
    ensures WithStatus(a + b, st) == WithStatus(a, st) + WithStatus(b, st)
  {
    if a == [] {
      assert a + b == b;
    } else {
      var head := if a[0].status == st then [a[0]] else [];
      assert (a + b)[0] == a[0] && (a + b)[1..] == a[1..] + b;
      assert WithStatus(a + b, st) == head + WithStatus(a[1..] + b, st);
      WithStatusConcat(a[1..], b, st);
    }
  }

  lemma {:induction false} WithStatusNone(rs: seq<MatchResult>, st: MatchStatus)
    requires forall r :: r in rs ==> r.status != st
    ensures WithStatus(rs, st) == []
  {
    if rs != [] {
      WithStatusNone(rs[1..], st);
    }
  }

  lemma {:induction false} WithStatusAll(rs: seq<MatchResult>, st: MatchStatus)
    requires forall r :: r in rs ==> r.status == st
    ensures WithStatus(rs, st) == rs
  {
    if rs != [] {
      WithStatusAll(rs[1..], st);
    }
  }

  /** The bank transactions the results refer to, in order. */
  function BankSides(rs: seq<MatchResult>): (ts: seq<Transaction>)
    requires forall r :: r in rs ==> r.bank.Some?
    ensures |ts| == |rs|
    ensures forall i :: 0 <= i < |rs| ==> ts[i] == rs[i].bank.value
  {
    if rs == [] then [] else [rs[0].bank.value] + BankSides(rs[1..])
  }

  /** The internal transactions the results refer to, in order. */
  function InternalSides(rs: seq<MatchResult>): (ts: seq<Transaction>)
    requires forall r :: r in rs ==> r.internal.Some?
    ensures |ts| == |rs|
    ensures forall i :: 0 <= i < |rs| ==> ts[i] == rs[i].internal.value
  {
    if rs == [] then [] else [rs[0].internal.value] + InternalSides(rs[1..])
  }

  lemma BankSidesConcat(a: seq<MatchResult>, b: seq<MatchResult>)
    requires forall r :: r in a ==> r.bank.Some?
    requires forall r :: r in b ==> r.bank.Some?
    ensures BankSides(a + b) == BankSides(a) + BankSides(b)
  {
    assert forall r :: r in a + b ==> r in a || r in b;
    var l, r := BankSides(a + b), BankSides(a) + BankSides(b);
    assert |l| == |r|;
    forall i | 0 <= i < |l| ensures l[i] == r[i] {
      if i >= |a| {
        assert (a + b)[i] == b[i - |a|];
      }
    }
  }

  lemma InternalSidesConcat(a: seq<MatchResult>, b: seq<MatchResult>)
    requires forall r :: r in a ==> r.internal.Some?
    requires forall r :: r in b ==> r.internal.Some?
    ensures InternalSides(a + b) == InternalSides(a) + InternalSides(b)
  {
    assert forall r :: r in a + b ==> r in a || r in b;
    var l, r := InternalSides(a + b), InternalSides(a) + InternalSides(b);
    assert |l| == |r|;
    forall i | 0 <= i < |l| ensures l[i] == r[i] {
      if i >= |a| {
        assert (a + b)[i] == b[i - |a|];
      }
    }
  }

  /** The ids of the internal transactions consumed by EXACT or FUZZY results. */
  function MatchedInternalIds(rs: seq<MatchResult>): set<string> {
    set r | r in rs && IsMatched(r) && r.internal.Some? :: r.internal.value.id
  }

  lemma MatchedInternalIdsConcat(a: seq<MatchResult>, b: seq<MatchResult>)
    ensures MatchedInternalIds(a + b) == MatchedInternalIds(a) + MatchedInternalIds(b)
  {
    assert forall r :: r in a + b <==> r in a || r in b;
  }

  predicate ClaimsInternal(r: MatchResult) {
    IsMatched(r) && r.internal.Some?
  }

  /** No internal transaction id is consumed by two matches. */
  predicate ClaimsUnique(rs: seq<MatchResult>) {
    forall i, j :: 0 <= i < j < |rs| && ClaimsInternal(rs[i]) && ClaimsInternal(rs[j]) ==>
      rs[i].internal.value.id != rs[j].internal.value.id
  }

  /** A result that claims nothing adds no claim in front of others. */
  lemma ConsUnclaimed(u: MatchResult, rest: seq<MatchResult>)
    requires !ClaimsInternal(u) && ClaimsUnique(rest)
    ensures MatchedInternalIds([u] + rest) == MatchedInternalIds(rest)
    ensures ClaimsUnique([u] + rest)
  {
    assert forall x :: x in [u] + rest <==> x == u || x in rest;
    var ab := [u] + rest;
    forall i, j | 0 <= i < j < |ab| && ClaimsInternal(ab[i]) && ClaimsInternal(ab[j])
      ensures ab[i].internal.value.id != ab[j].internal.value.id
    {
      assert ab[i] == rest[i - 1] && ab[j] == rest[j - 1];
    }
  }

  /** A claim of a fresh id in front of results with unique claims keeps the
      claims unique and adds that id. */
  lemma ConsClaim(r: MatchResult, rest: seq<MatchResult>)
    requires ClaimsInternal(r) && r.internal.value.id !in MatchedInternalIds(rest) && ClaimsUnique(rest)
    ensures MatchedInternalIds([r] + rest) == {r.internal.value.id} + MatchedInternalIds(rest)
    ensures ClaimsUnique([r] + rest)
  {
    assert forall x :: x in [r] + rest <==> x == r || x in rest;
    var ab := [r] + rest;
    forall i, j | 0 <= i < j < |ab| && ClaimsInternal(ab[i]) && ClaimsInternal(ab[j])
      ensures ab[i].internal.value.id != ab[j].internal.value.id
    {
      assert ab[j] == rest[j - 1];
      if i == 0 {
        assert ab[j] in rest;
      } else {
        assert ab[i] == rest[i - 1];
      }
    }
  }

  lemma ClaimsUniqueConcat(a: seq<MatchResult>, b: seq<MatchResult>)
    requires ClaimsUnique(a) && ClaimsUnique(b)
    requires MatchedInternalIds(a) !! MatchedInternalIds(b)
    ensures ClaimsUnique(a + b)
  {
    var ab := a + b;
    forall i, j | 0 <= i < j < |ab| && ClaimsInternal(ab[i]) && ClaimsInternal(ab[j])
      ensures ab[i].internal.value.id != ab[j].internal.value.id
    {
      if i < |a| && |a| <= j {
        assert ab[i] == a[i] && ab[i].internal.value.id in MatchedInternalIds(a);
        assert ab[j] == b[j - |a|] && ab[j].internal.value.id in MatchedInternalIds(b);
      } else if |a| <= i {
        assert ab[i] == b[i - |a|] && ab[j] == b[j - |a|];
      }
    }
  }

  /** What a matching phase hands to the next one: its results and the set of
      internal ids claimed so far. */
  datatype PhaseOutcome = PhaseOutcome(results: seq<MatchResult>, claimed: set<string>)

  predicate UniqueIds(ts: seq<Transaction>) {
    forall i, j :: 0 <= i < j < |ts| ==> ts[i].id != ts[j].id
  }

  /** The sum of the absolute amounts of a list of transactions. */
  function SumAbs(ts: seq<Transaction>): (total: nat)
    ensures ts == [] ==> total == 0
  {
    if ts == [] then 0 else AbsAmount(ts[0]) + SumAbs(ts[1..])
  }

  lemma {:induction false} SumAbsConcat(a: seq<Transaction>, b: seq<Transaction>)
    ensures SumAbs(a + b) == SumAbs(a) + SumAbs(b)
    decreases |a|
  {
    if a == [] {
      assert a + b == b;
    } else {
      assert (a + b)[0] == a[0];
      assert (a + b)[1..] == a[1..] + b;
      SumAbsConcat(a[1..], b);
    }
  }

  /** With unique ids, every transaction occurs once in its list. */
  lemma {:induction false} UniqueIdsOnce(ts: seq<Transaction>, i: nat)
    requires UniqueIds(ts) && i < |ts|
    ensures multiset(ts)[ts[i]] == 1
    decreases |ts|
  {
    assert ts == [ts[0]] + ts[1..];
    if i == 0 {
      assert ts[0] !in ts[1..] by {
        forall j | 0 <= j < |ts[1..]| ensures ts[1..][j] != ts[0] {
          assert ts[1..][j].id == ts[j + 1].id != ts[0].id;
        }
      }
    } else {
      assert UniqueIds(ts[1..]) by {
        forall j, k | 0 <= j < k < |ts[1..]| ensures ts[1..][j].id != ts[1..][k].id {
          assert ts[1..][j] == ts[j + 1] && ts[1..][k] == ts[k + 1];
        }
      }
      UniqueIdsOnce(ts[1..], i - 1);
      assert ts[i] == ts[1..][i - 1];
      assert ts[i] != ts[0] by {
        assert ts[0].id != ts[i].id;
      }
    }
  }

  datatype Summary = Summary(
    totalBankTransactions: nat,
    totalInternalTransactions: nat,
    totalMatched: nat,
    totalExactMatches: nat,
    totalFuzzyMatches: nat,
    totalUnmatchedBank: nat,
    totalUnmatchedInternal: nat,
    totalDuplicates: nat,
    totalBankAmount: int,
    totalInternalAmount: int,
    matchedAmount: int,
    unmatchedBankAmount: int,
    unmatchedInternalAmount: int)

  /** A summary as first built for a run: only the two list sizes are set. */
  function NewSummary(bankCount: nat, internalCount: nat): (s: Summary)
    ensures s.totalBankTransactions == bankCount && s.totalInternalTransactions == internalCount
    ensures s.totalMatched == s.totalExactMatches == s.totalFuzzyMatches == 0
    ensures s.totalUnmatchedBank == s.totalUnmatchedInternal == s.totalDuplicates == 0
    ensures s.totalBankAmount == s.totalInternalAmount == s.matchedAmount == 0
    ensures s.unmatchedBankAmount == s.unmatchedInternalAmount == 0
  {
    Summary(bankCount, internalCount, 0, 0, 0, 0, 0, 0, 0, 0, 0, 0, 0)
  }

  /** The matched share of the bank transactions, in percent; zero for an
      empty bank list. */
  function MatchRate(s: Summary): (rate: real)
    ensures s.totalBankTransactions == 0 ==> rate == 0.0
    ensures s.totalBankTransactions > 0 ==>
      rate * (s.totalBankTransactions as real) == (s.totalMatched as real) * 100.0
    ensures s.totalMatched <= s.totalBankTransactions ==> 0.0 <= rate <= 100.0
    ensures 0 < s.totalBankTransactions == s.totalMatched ==> rate == 100.0
  {
    if s.totalBankTransactions == 0 then 0.0
    else (s.totalMatched as real / s.totalBankTransactions as real) * 100.0
  }

  lemma MatchRateThreeOfFour(s: Summary)
    requires s.totalBankTransactions == 4 && s.totalMatched == 3
    ensures MatchRate(s) == 75.0
  {
  }

  /** Bank total minus internal total; both totals are sums of absolute
      amounts. */
  function AmountDifference(s: Summary): int {
    s.totalBankAmount - s.totalInternalAmount
  }
}
