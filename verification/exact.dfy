/** Phase 1 of a reconciliation: the amount index over the internal list and
    first-fit exact matching of each bank transaction. */
module ExactMatching {
  import opened Wrappers
  import opened Models
  import Grouping

  /** Internal transactions grouped by absolute amount. */
  type AmountIndex = map<nat, seq<Transaction>>

  /** Groups the transactions by absolute amount, keeping input order within
      each bucket. */
  function BuildAmountIndex(txns: seq<Transaction>): (index: AmountIndex)
    ensures forall i :: 0 <= i < |txns| ==> AbsAmount(txns[i]) in index && txns[i] in index[AbsAmount(txns[i])]
    ensures forall a :: a in index ==> index[a] == Grouping.Bucket(txns, AbsAmount, a) && index[a] != []
  {
    var g := Grouping.GroupBy(txns, AbsAmount);
    assert forall i :: 0 <= i < |txns| ==> Grouping.Seen(txns, AbsAmount, AbsAmount(txns[i]));
    g.members
  }

  /** The bucket for an amount; an amount nobody has yields no candidates. */
  function Candidates(index: AmountIndex, amount: nat): seq<Transaction> {
    if amount in index then index[amount] else []
  }

  /** Looking an amount up in the index gives exactly the transactions of the
      list with that absolute amount, in list order. */
  lemma CandidatesAreBucket(txns: seq<Transaction>, amount: nat)
    ensures Candidates(BuildAmountIndex(txns), amount) == Grouping.Bucket(txns, AbsAmount, amount)
  {
    var g := Grouping.GroupBy(txns, AbsAmount);
    if amount !in g.members {
      assert !Grouping.Seen(txns, AbsAmount, amount);
    }
  }

  /** The index's bucket for an amount holds exactly the transactions of the
      list with that absolute amount. */
  lemma CandidateIff(txns: seq<Transaction>, t: Transaction, amount: nat)
    ensures t in Candidates(BuildAmountIndex(txns), amount) <==> t in txns && AbsAmount(t) == amount
  {
    CandidatesAreBucket(txns, amount);
    Grouping.BucketWithin(txns, AbsAmount, amount);
    var bucket := Grouping.Bucket(txns, AbsAmount, amount);
    if t in bucket {
      var i :| 0 <= i < |bucket| && bucket[i] == t;
    }
    if t in txns && AbsAmount(t) == amount {
      var i :| 0 <= i < |txns| && txns[i] == t;
    }
  }

  /** A reference counts only when it is present and non-empty. */
  predicate HasReference(t: Transaction) {
    t.reference.Some? && t.reference.value != ""
  }

  /** Both sides carry a reference and the two differ. */
  predicate ReferenceConflict(b: Transaction, t: Transaction) {
    HasReference(b) && HasReference(t) && b.reference.value != t.reference.value
  }

  /** What an entry of the bank transaction's bucket must satisfy. */
  predicate ExactCandidate(b: Transaction, t: Transaction, claimed: set<string>) {
    t.id !in claimed && t.day == b.day && !ReferenceConflict(b, t)
  }

  /** An exact match for `b` anywhere in the internal list. */
  predicate ExactQualifies(b: Transaction, t: Transaction, claimed: set<string>) {
    AbsAmount(t) == AbsAmount(b) && ExactCandidate(b, t, claimed)
  }

  /** First-fit scan of a bucket. */
  function FirstExact(b: Transaction, cands: seq<Transaction>, claimed: set<string>): (r: Option<nat>)
    ensures r.Some? ==> r.value < |cands| && ExactCandidate(b, cands[r.value], claimed)
    ensures r.Some? ==> forall j :: 0 <= j < r.value ==> !ExactCandidate(b, cands[j], claimed)
    ensures r.None? ==> forall j :: 0 <= j < |cands| ==> !ExactCandidate(b, cands[j], claimed)
    decreases |cands|
  {
    if cands == [] then None
    else if ExactCandidate(b, cands[0], claimed) then Some(0)
    else
      match FirstExact(b, cands[1..], claimed)
      case None => None
      case Some(i) => Some(i + 1)
  }

  function ExactResult(b: Transaction, t: Transaction): MatchResult {
    MatchResult(Some(b), Some(t), Exact, High, 0, 0, ExactReason(HasReference(b) && HasReference(t)))
  }

  /** The exact match for a bank transaction, or None to leave it for the
      fuzzy phase. */
  function FindExactMatch(b: Transaction, index: AmountIndex, claimed: set<string>): (r: Option<MatchResult>)
    ensures r.Some? ==>
      && r.value.status == Exact && r.value.confidence == High
      && r.value.dateDiffDays == 0 && r.value.amountDiff == 0
      && r.value.bank == Some(b) && r.value.internal.Some?
      && r.value.internal.value in Candidates(index, AbsAmount(b))
      && ExactCandidate(b, r.value.internal.value, claimed)
      && r.value.reason == ExactReason(HasReference(b) && HasReference(r.value.internal.value))
    ensures r.Some? ==> var cands := Candidates(index, AbsAmount(b));
      exists k :: 0 <= k < |cands| && cands[k] == r.value.internal.value
        && forall j :: 0 <= j < k ==> !ExactCandidate(b, cands[j], claimed)
    ensures r.None? <==> forall t :: t in Candidates(index, AbsAmount(b)) ==> !ExactCandidate(b, t, claimed)
  {
    var cands := Candidates(index, AbsAmount(b));
    match FirstExact(b, cands, claimed)
    case None => None
    case Some(i) => Some(ExactResult(b, cands[i]))
  }

  lemma FirstExactCons(b: Transaction, x: Transaction, rest: seq<Transaction>, claimed: set<string>)
    ensures ExactCandidate(b, x, claimed) ==> FirstExact(b, [x] + rest, claimed) == Some(0)
    ensures !ExactCandidate(b, x, claimed) ==>
      FirstExact(b, [x] + rest, claimed).Some? == FirstExact(b, rest, claimed).Some?
    ensures !ExactCandidate(b, x, claimed) && FirstExact(b, rest, claimed).Some? ==>
      FirstExact(b, [x] + rest, claimed).value == FirstExact(b, rest, claimed).value + 1
  {
    assert ([x] + rest)[1..] == rest;
  }

  /** No first fit in the bucket means nothing in the whole list qualifies. */
  lemma FirstExactNoneInBucket(b: Transaction, s: seq<Transaction>, claimed: set<string>)
    requires FirstExact(b, Grouping.Bucket(s, AbsAmount, AbsAmount(b)), claimed).None?
    ensures forall i :: 0 <= i < |s| ==> !ExactQualifies(b, s[i], claimed)
  {
    var bucket := Grouping.Bucket(s, AbsAmount, AbsAmount(b));
    forall i | 0 <= i < |s| ensures !ExactQualifies(b, s[i], claimed) {
      if AbsAmount(s[i]) == AbsAmount(b) {
        assert s[i] in bucket;
        var j :| 0 <= j < |bucket| && bucket[j] == s[i];
      }
    }
  }

  /** First-fit in the bucket is first-fit in the whole list under the
      amount condition. */
  lemma {:induction false} FirstExactSomeInBucket(b: Transaction, s: seq<Transaction>, claimed: set<string>)
    requires FirstExact(b, Grouping.Bucket(s, AbsAmount, AbsAmount(b)), claimed).Some?
    ensures var bucket := Grouping.Bucket(s, AbsAmount, AbsAmount(b));
      var k := FirstExact(b, bucket, claimed).value;
      exists i :: (0 <= i < |s| && bucket[k] == s[i] && ExactQualifies(b, s[i], claimed)
        && forall j :: 0 <= j < i ==> !ExactQualifies(b, s[j], claimed))
    decreases |s|
  {
    var a := AbsAmount(b);
    var bucket := Grouping.Bucket(s, AbsAmount, a);
    var rest := Grouping.Bucket(s[1..], AbsAmount, a);
    var k := FirstExact(b, bucket, claimed).value;
    Grouping.BucketCons(s, AbsAmount, a);
    if AbsAmount(s[0]) == a && ExactCandidate(b, s[0], claimed) {
      assert bucket == [s[0]] + rest;
      FirstExactCons(b, s[0], rest, claimed);
      assert ExactQualifies(b, s[0], claimed);
    } else {
      var k' := if AbsAmount(s[0]) == a then k - 1 else k;
      if AbsAmount(s[0]) == a {
        assert bucket == [s[0]] + rest;
        FirstExactCons(b, s[0], rest, claimed);
      } else {
        assert bucket == rest;
      }
      assert FirstExact(b, rest, claimed) == Some(k') && bucket[k] == rest[k'];
      FirstExactSomeInBucket(b, s[1..], claimed);
      var i' :| 0 <= i' < |s[1..]| && rest[k'] == s[1..][i'] && ExactQualifies(b, s[1..][i'], claimed)
        && forall j :: 0 <= j < i' ==> !ExactQualifies(b, s[1..][j], claimed);
      ShiftWitness(b, s, claimed, i');
    }
  }

  /** A first qualifying position in the tail, behind a head that does not
      qualify, is a first qualifying position in the whole list. */
  lemma ShiftWitness(b: Transaction, s: seq<Transaction>, claimed: set<string>, i': nat)
    requires s != [] && i' < |s[1..]| && ExactQualifies(b, s[1..][i'], claimed)
    requires forall j :: 0 <= j < i' ==> !ExactQualifies(b, s[1..][j], claimed)
    requires !ExactQualifies(b, s[0], claimed)
    ensures exists i :: (0 <= i < |s| && s[1..][i'] == s[i] && ExactQualifies(b, s[i], claimed)
      && forall j :: 0 <= j < i ==> !ExactQualifies(b, s[j], claimed))
  {
    forall j | 0 <= j < i' + 1 ensures !ExactQualifies(b, s[j], claimed) {
      if j > 0 { assert s[j] == s[1..][j - 1]; }
    }
    assert s[1..][i'] == s[i' + 1];
  }

  /** Matching through the index gives the same answer as scanning the whole
      internal list for the first transaction with the bank transaction's
      absolute amount, its calendar day, no claim on it and no reference
      conflict. */
  lemma ExactMatchViaIndex(b: Transaction, internal: seq<Transaction>, claimed: set<string>)
    ensures var r := FindExactMatch(b, BuildAmountIndex(internal), claimed);
      && (r.None? <==> forall i :: 0 <= i < |internal| ==> !ExactQualifies(b, internal[i], claimed))
      && (r.Some? ==> exists i :: (0 <= i < |internal| && r.value.internal == Some(internal[i])
            && ExactQualifies(b, internal[i], claimed)
            && forall j :: 0 <= j < i ==> !ExactQualifies(b, internal[j], claimed)))
  {
    CandidatesAreBucket(internal, AbsAmount(b));
    if FirstExact(b, Grouping.Bucket(internal, AbsAmount, AbsAmount(b)), claimed).None? {
      FirstExactNoneInBucket(b, internal, claimed);
    } else {
      FirstExactSomeInBucket(b, internal, claimed);
    }
  }

  /** Every result is an EXACT match of a bank transaction of the list with
      a candidate of its amount that was unclaimed before the phase, on the
      same day and free of a reference conflict. */
  predicate MatchesQualify(bank: seq<Transaction>, index: AmountIndex, claimed: set<string>, rs: seq<MatchResult>) {
    forall i :: 0 <= i < |rs| ==>
      && rs[i].status == Exact && rs[i].bank.Some? && rs[i].internal.Some?
      && rs[i].bank.value in bank
      && rs[i].internal.value in Candidates(index, AbsAmount(rs[i].bank.value))
      && ExactCandidate(rs[i].bank.value, rs[i].internal.value, claimed)
  }

  /** A bank transaction whose id no match names has no candidate of its
      amount left that is unclaimed, on its day and free of a conflict. */
  predicate NoExactMatchLeft(bank: seq<Transaction>, index: AmountIndex, out: PhaseOutcome) {
    forall i :: 0 <= i < |bank| && !MatchedBankId(out.results, bank[i].id) ==>
      forall t :: t in Candidates(index, AbsAmount(bank[i])) ==> !ExactCandidate(bank[i], t, out.claimed)
  }

  /** Phase 1: every bank transaction, in order, tries an exact match; each
      match claims its internal id before the next bank transaction is
      considered. */
  function ExactPhase(bank: seq<Transaction>, index: AmountIndex, claimed: set<string>): (out: PhaseOutcome)
    ensures out.claimed == claimed + MatchedInternalIds(out.results)
    ensures |out.results| <= |bank|
    ensures MatchesQualify(bank, index, claimed, out.results)
    ensures NoExactMatchLeft(bank, index, out)
    ensures ClaimsUnique(out.results)
    decreases |bank|
  {
    if bank == [] then PhaseOutcome([], claimed)
    else
      match FindExactMatch(bank[0], index, claimed)
      case None =>
        var rest := ExactPhase(bank[1..], index, claimed);
        NoMatchStep(bank, index, claimed, rest);
        rest
      case Some(r) =>
        var id := r.internal.value.id;
        var rest := ExactPhase(bank[1..], index, claimed + {id});
        assert id !in MatchedInternalIds(rest.results);
        ConsClaim(r, rest.results);
        MatchStep(bank, index, claimed, r, rest);
        PhaseOutcome([r] + rest.results, rest.claimed)
  }

  /** A turn without a match keeps both properties of the later turns. */
  lemma NoMatchStep(bank: seq<Transaction>, index: AmountIndex, claimed: set<string>, rest: PhaseOutcome)
    requires bank != [] && claimed <= rest.claimed
    requires forall t :: t in Candidates(index, AbsAmount(bank[0])) ==> !ExactCandidate(bank[0], t, claimed)
    requires MatchesQualify(bank[1..], index, claimed, rest.results)
    requires NoExactMatchLeft(bank[1..], index, rest)
    ensures MatchesQualify(bank, index, claimed, rest.results)
    ensures NoExactMatchLeft(bank, index, rest)
  {
    assert forall t :: t in bank[1..] ==> t in bank;
    forall i | 0 < i < |bank| ensures bank[i] == bank[1..][i - 1] {
    }
  }

  /** A turn with a match in front of the later turns keeps both
      properties. */
  lemma MatchStep(bank: seq<Transaction>, index: AmountIndex, claimed: set<string>, r: MatchResult, rest: PhaseOutcome)
    requires bank != [] && r.status == Exact && r.bank == Some(bank[0]) && r.internal.Some?
    requires r.internal.value in Candidates(index, AbsAmount(bank[0]))
    requires ExactCandidate(bank[0], r.internal.value, claimed)
    requires MatchesQualify(bank[1..], index, claimed + {r.internal.value.id}, rest.results)
    requires NoExactMatchLeft(bank[1..], index, rest)
    ensures MatchesQualify(bank, index, claimed, [r] + rest.results)
    ensures NoExactMatchLeft(bank, index, PhaseOutcome([r] + rest.results, rest.claimed))
  {
    var rs := [r] + rest.results;
    assert forall t :: t in bank[1..] ==> t in bank;
    assert forall i :: 0 < i < |rs| ==> rs[i] == rest.results[i - 1];
    assert MatchedBankId(rs, bank[0].id) by {
      assert rs[0] == r;
    }
    forall i | 0 < i < |bank| && !MatchedBankId(rs, bank[i].id)
      ensures !MatchedBankId(rest.results, bank[1..][i - 1].id)
    {
      assert bank[i] == bank[1..][i - 1];
    }
  }

  /** One turn of the source's loop over the bank list: a bank transaction
      with an exact match among the transactions still unclaimed appends
      that match and claims its id; one without leaves the outcome as it
      was. */
  function ExactTurn(before: PhaseOutcome, b: Transaction, index: AmountIndex): PhaseOutcome {
    match FindExactMatch(b, index, before.claimed)
    case None => before
    case Some(r) => PhaseOutcome(before.results + [r], before.claimed + {r.internal.value.id})
  }

  /** Phase 1 is the source's loop: the outcome for a list with one more bank
      transaction at the end is that transaction's turn taken after the
      outcome for the list before it. */
  lemma {:induction false} ExactPhaseSnoc(bank: seq<Transaction>, b: Transaction, index: AmountIndex, claimed: set<string>)
    ensures ExactPhase(bank + [b], index, claimed) == ExactTurn(ExactPhase(bank, index, claimed), b, index)
    decreases |bank|
  {
    var s := bank + [b];
    if bank == [] {
      assert s[1..] == [];
    } else {
      assert s[0] == bank[0] && s[1..] == bank[1..] + [b];
      match FindExactMatch(bank[0], index, claimed)
      case None =>
        ExactPhaseSnoc(bank[1..], b, index, claimed);
      case Some(r) =>
        var c := claimed + {r.internal.value.id};
        var x := ExactPhase(bank[1..], index, c);
        assert ExactPhase(bank, index, claimed) == PhaseOutcome([r] + x.results, x.claimed);
        var y := ExactPhase(s[1..], index, c);
        assert ExactPhase(s, index, claimed) == PhaseOutcome([r] + y.results, y.claimed);
        ExactPhaseSnoc(bank[1..], b, index, c);
        TurnBehindMatch(r, x, b, index);
    }
  }

  /** A match in front does not change a later turn. */
  lemma TurnBehindMatch(r: MatchResult, x: PhaseOutcome, b: Transaction, index: AmountIndex)
    ensures var y := ExactTurn(x, b, index);
      ExactTurn(PhaseOutcome([r] + x.results, x.claimed), b, index) == PhaseOutcome([r] + y.results, y.claimed)
  {
    match FindExactMatch(b, index, x.claimed)
    case None =>
    case Some(m) =>
      assert [r] + (x.results + [m]) == ([r] + x.results) + [m];
  }
}
