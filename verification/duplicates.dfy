/** Phase 4 of a reconciliation: duplicate detection within each original
    input list, independent of what the matching phases claimed. */
module Duplicates {
  import opened Wrappers
  import opened Models
  import Grouping

  /** Transactions on the same calendar day with the same absolute amount are
      suspected duplicates. */
  datatype DupKey = DupKey(day: int, absAmount: nat)

  function KeyOf(t: Transaction): DupKey {
    DupKey(t.day, AbsAmount(t))
  }

  /** How many transactions of `s` share the key of `t`. */
  function GroupSize(s: seq<Transaction>, t: Transaction): nat {
    |Grouping.Bucket(s, KeyOf, KeyOf(t))|
  }

  /** A DUPLICATE result referring to `t` on the side of the list it came
      from. */
  function DuplicateResult(t: Transaction, side: Side, groupSize: nat): (r: MatchResult)
    ensures r.status == Duplicate && r.confidence == Medium && WellFormed(r)
    ensures side == BankSide ==> r.bank == Some(t) && r.internal.None?
    ensures side == InternalSide ==> r.internal == Some(t) && r.bank.None?
    ensures r.reason == PossibleDuplicate(groupSize, side)
  {
    match side
    case BankSide => BankOnlyResult(t, Duplicate, Medium, PossibleDuplicate(groupSize, side))
    case InternalSide => InternalOnlyResult(t, Duplicate, Medium, PossibleDuplicate(groupSize, side))
  }

  /** The transactions flagged in one list: every group of the same key, in
      order of the key's first appearance, without its first member. */
  function Flagged(s: seq<Transaction>): seq<Transaction> {
    var g := Grouping.GroupBy(s, KeyOf);
    Grouping.Tails(g.keys, g.members)
  }

  /** A flagged transaction shares its key with at least one other member of
      its list. */
  lemma FlaggedGroupSize(s: seq<Transaction>, t: Transaction)
    requires t in Flagged(s)
    ensures GroupSize(s, t) >= 2
  {
    var g := Grouping.GroupBy(s, KeyOf);
    LargeGroupSize(g.keys, g.members, s, t);
  }

  lemma LargeGroupSize(keys: seq<DupKey>, m: map<DupKey, seq<Transaction>>, s: seq<Transaction>, t: Transaction)
    requires forall k :: k in m ==> m[k] == Grouping.Bucket(s, KeyOf, k)
    requires t in Grouping.Tails(keys, m)
    ensures GroupSize(s, t) >= 2
  {
    Grouping.TailsFromLargeGroups(keys, m, t);
    var k :| k in m && |m[k]| > 1 && t in m[k];
    var i :| 0 <= i < |m[k]| && m[k][i] == t;
    assert KeyOf(t) == k;
  }

  /** One DUPLICATE result per flagged transaction, in order. */
  function ResultsFor(f: seq<Transaction>, s: seq<Transaction>, side: Side): (rs: seq<MatchResult>)
    ensures |rs| == |f|
    ensures forall i :: 0 <= i < |f| ==> rs[i] == DuplicateResult(f[i], side, GroupSize(s, f[i]))
    decreases |f|
  {
    if f == [] then []
    else [DuplicateResult(f[0], side, GroupSize(s, f[0]))] + ResultsFor(f[1..], s, side)
  }

  /** The results refer to the flagged transactions, in order. */
  lemma ResultsForSides(f: seq<Transaction>, s: seq<Transaction>, side: Side)
    ensures var rs := ResultsFor(f, s, side);
      side == BankSide ==> (forall i :: 0 <= i < |rs| ==> rs[i].bank.Some?) && BankSides(rs) == f
    ensures var rs := ResultsFor(f, s, side);
      side == InternalSide ==> (forall i :: 0 <= i < |rs| ==> rs[i].internal.Some?) && InternalSides(rs) == f
  {
    var rs := ResultsFor(f, s, side);
    if side == BankSide {
      assert forall r :: r in rs ==> r.bank.Some?;
    } else {
      assert forall r :: r in rs ==> r.internal.Some?;
    }
  }

  /** The DUPLICATE results for one list, each naming the size of its group. */
  function FlagDuplicates(s: seq<Transaction>, side: Side): (rs: seq<MatchResult>)
    ensures forall i :: 0 <= i < |rs| ==>
      && rs[i].status == Duplicate && rs[i].confidence == Medium && WellFormed(rs[i])
      && (side == BankSide ==> rs[i].bank.Some? && rs[i].internal.None?)
      && (side == InternalSide ==> rs[i].internal.Some? && rs[i].bank.None?)
    ensures side == BankSide ==>
      multiset(BankSides(rs)) == multiset(Grouping.LaterOccurrences(s, KeyOf))
    ensures side == InternalSide ==>
      multiset(InternalSides(rs)) == multiset(Grouping.LaterOccurrences(s, KeyOf))
    ensures forall i :: 0 <= i < |rs| ==>
      var t := if side == BankSide then rs[i].bank.value else rs[i].internal.value;
      rs[i].reason == PossibleDuplicate(GroupSize(s, t), side) && GroupSize(s, t) >= 2
  {
    var f := Flagged(s);
    Grouping.TailsAreLaterOccurrences(s, KeyOf);
    var rs := ResultsFor(f, s, side);
    ResultsForSides(f, s, side);
    FlaggedReasons(s, side);
    rs
  }

  lemma FlaggedReasons(s: seq<Transaction>, side: Side)
    ensures var f := Flagged(s);
      var rs := ResultsFor(f, s, side);
      forall i :: 0 <= i < |rs| ==>
        var t := if side == BankSide then rs[i].bank.value else rs[i].internal.value;
        rs[i].reason == PossibleDuplicate(GroupSize(s, t), side) && GroupSize(s, t) >= 2
  {
    var f := Flagged(s);
    forall t | t in f ensures GroupSize(s, t) >= 2 {
      FlaggedGroupSize(s, t);
    }
    ReasonsFor(f, s, side);
  }

  lemma ReasonsFor(f: seq<Transaction>, s: seq<Transaction>, side: Side)
    requires forall t :: t in f ==> GroupSize(s, t) >= 2
    ensures var rs := ResultsFor(f, s, side);
      forall i :: 0 <= i < |rs| ==>
        var t := if side == BankSide then rs[i].bank.value else rs[i].internal.value;
        rs[i].reason == PossibleDuplicate(GroupSize(s, t), side) && GroupSize(s, t) >= 2
  {
    var rs := ResultsFor(f, s, side);
    forall i | 0 <= i < |rs|
      ensures var t := if side == BankSide then rs[i].bank.value else rs[i].internal.value;
        rs[i].reason == PossibleDuplicate(GroupSize(s, t), side) && GroupSize(s, t) >= 2
    {
      assert f[i] in f;
    }
  }

  /** One result per flagged transaction. */
  lemma FlagCount(s: seq<Transaction>, side: Side)
    ensures |FlagDuplicates(s, side)| == |Grouping.LaterOccurrences(s, KeyOf)|
  {
    var rs := FlagDuplicates(s, side);
    if side == BankSide {
      assert |multiset(BankSides(rs))| == |rs|;
    } else {
      assert |multiset(InternalSides(rs))| == |rs|;
    }
  }

  /** `rs` is what phase 4 reports for list `s` on `side`: one DUPLICATE
      result per later occurrence of a (day, absolute amount) key, with
      multiplicity, each naming its group's size. */
  predicate DuplicatePart(s: seq<Transaction>, side: Side, rs: seq<MatchResult>) {
    && |rs| == |Grouping.LaterOccurrences(s, KeyOf)|
    && (forall i :: 0 <= i < |rs| ==>
          && rs[i].status == Duplicate && rs[i].confidence == Medium && WellFormed(rs[i])
          && (side == BankSide ==>
                (rs[i].bank.Some? && rs[i].internal.None?
                 && rs[i].reason == PossibleDuplicate(GroupSize(s, rs[i].bank.value), side)))
          && (side == InternalSide ==>
                (rs[i].internal.Some? && rs[i].bank.None?
                 && rs[i].reason == PossibleDuplicate(GroupSize(s, rs[i].internal.value), side))))
    && (side == BankSide ==>
          multiset(BankSides(rs)) == multiset(Grouping.LaterOccurrences(s, KeyOf)))
    && (side == InternalSide ==>
          multiset(InternalSides(rs)) == multiset(Grouping.LaterOccurrences(s, KeyOf)))
  }

  lemma FlagPart(s: seq<Transaction>, side: Side)
    ensures DuplicatePart(s, side, FlagDuplicates(s, side))
  {
    FlagCount(s, side);
  }

  /** Phase 4: the bank list's duplicates first, then the internal list's. */
  function DetectDuplicates(bank: seq<Transaction>, internal: seq<Transaction>): (rs: seq<MatchResult>)
    ensures forall i :: 0 <= i < |rs| ==> rs[i].status == Duplicate && WellFormed(rs[i])
    ensures var nb := |Grouping.LaterOccurrences(bank, KeyOf)|;
      && nb <= |rs|
      && DuplicatePart(bank, BankSide, rs[..nb])
      && DuplicatePart(internal, InternalSide, rs[nb..])
  {
    var a := FlagDuplicates(bank, BankSide);
    var b := FlagDuplicates(internal, InternalSide);
    FlagPart(bank, BankSide);
    FlagPart(internal, InternalSide);
    JoinParts(a, b);
    a + b
  }

  lemma JoinParts(a: seq<MatchResult>, b: seq<MatchResult>)
    ensures (a + b)[..|a|] == a && (a + b)[|a|..] == b
  {
  }

  lemma LaterIffSeen(s: seq<Transaction>, i: nat)
    requires UniqueIds(s) && i < |s|
    ensures s[i] in Grouping.LaterOccurrences(s, KeyOf) <==> Grouping.Seen(s[..i], KeyOf, KeyOf(s[i]))
  {
    var later := Grouping.LaterOccurrences(s, KeyOf);
    if s[i] in later {
      var k :| 0 <= k < |later| && later[k] == s[i];
      var j :| 0 <= j < |s| && s[j] == later[k] && Grouping.Seen(s[..j], KeyOf, KeyOf(s[j]));
      assert s[i].id == s[j].id;
      assert i == j;
    }
  }

  /** With unique ids, a transaction is flagged exactly when an earlier
      transaction of its list has the same day and absolute amount; the first
      member of a group is never flagged. */
  lemma FlaggedIffKeySeenBefore(s: seq<Transaction>, side: Side, i: nat)
    requires UniqueIds(s) && i < |s|
    ensures var rs := FlagDuplicates(s, side);
      side == BankSide ==> (s[i] in BankSides(rs) <==> Grouping.Seen(s[..i], KeyOf, KeyOf(s[i])))
    ensures var rs := FlagDuplicates(s, side);
      side == InternalSide ==> (s[i] in InternalSides(rs) <==> Grouping.Seen(s[..i], KeyOf, KeyOf(s[i])))
  {
    var rs := FlagDuplicates(s, side);
    var later := Grouping.LaterOccurrences(s, KeyOf);
    LaterIffSeen(s, i);
    assert s[i] in later <==> s[i] in multiset(later);
    if side == BankSide {
      assert s[i] in BankSides(rs) <==> s[i] in multiset(BankSides(rs));
    } else {
      assert s[i] in InternalSides(rs) <==> s[i] in multiset(InternalSides(rs));
    }
  }
}
