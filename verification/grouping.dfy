/** Grouping a sequence by a key in one left-to-right pass, the way the
    source fills a `defaultdict(list)`: every element is appended to the list
    of its key, and the dictionary remembers the order in which keys first
    appeared. Both the amount index and duplicate detection are built this
    way. */
module Grouping {

  /** `keys` lists every key once, in order of first appearance; `members[k]`
      holds the elements with key `k`, in input order. */
  datatype Groups<K(==,!new), T> = Groups(keys: seq<K>, members: map<K, seq<T>>)

  predicate Distinct<K(==,!new)>(ks: seq<K>) {
    forall i, j :: 0 <= i < j < |ks| ==> ks[i] != ks[j]
  }

  /** Some element of `s` has key `k`. */
  predicate Seen<K(==,!new), T>(s: seq<T>, key: T -> K, k: K) {
    exists i :: 0 <= i < |s| && key(s[i]) == k
  }

  /** The elements of `s` whose key is `k`, in input order. */
  function Bucket<K(==,!new), T>(s: seq<T>, key: T -> K, k: K): (b: seq<T>)
    ensures |b| <= |s|
    ensures forall i :: 0 <= i < |b| ==> key(b[i]) == k
    ensures forall i :: 0 <= i < |s| && key(s[i]) == k ==> s[i] in b
    ensures b == [] <==> !Seen(s, key, k)
    decreases |s|
  {
    if s == [] then []
    else
      var prefix := s[..|s| - 1];
      var last := s[|s| - 1];
      var b := Bucket(prefix, key, k) + (if key(last) == k then [last] else []);
      assert forall i :: 0 <= i < |prefix| ==> prefix[i] == s[i];
      assert Seen(prefix, key, k) ==> Seen(s, key, k);
      assert Seen(s, key, k) ==> Seen(prefix, key, k) || key(last) == k;
      b
  }

  /** A bucket holds only elements of the list. */
  lemma {:induction false} BucketWithin<K(!new), T>(s: seq<T>, key: T -> K, k: K)
    ensures forall x :: x in Bucket(s, key, k) ==> x in s
    decreases |s|
  {
    if s != [] {
      var prefix := s[..|s| - 1];
      BucketWithin(prefix, key, k);
      assert forall x :: x in prefix ==> x in s;
    }
  }

  /** The bucket read from the front: the first element, if it has key `k`,
      followed by the bucket of the rest. */
  lemma {:induction false} BucketCons<K(!new), T>(s: seq<T>, key: T -> K, k: K)
    requires s != []
    ensures Bucket(s, key, k) == (if key(s[0]) == k then [s[0]] else []) + Bucket(s[1..], key, k)
    decreases |s|
  {
    if |s| > 1 {
      var prefix := s[..|s| - 1];
      BucketCons(prefix, key, k);
      assert prefix[0] == s[0];
      assert prefix[1..] == s[1..][..|s[1..]| - 1];
      assert s[1..][|s[1..]| - 1] == s[|s| - 1];
    } else {
      assert s[1..] == [];
      assert s[..|s| - 1] == [];
    }
  }

  /** Appends one element to the list of its key. */
  function Insert<K(==,!new), T>(g: Groups<K, T>, x: T, key: T -> K): Groups<K, T> {
    var k := key(x);
    if k in g.members then Groups(g.keys, g.members[k := g.members[k] + [x]])
    else Groups(g.keys + [k], g.members[k := [x]])
  }

  /** `g` is the grouping of `s`: distinct keys, one listed key per group,
      and the groups are exactly the non-empty buckets of `s`. */
  ghost predicate GroupsOf<K(!new), T>(g: Groups<K, T>, s: seq<T>, key: T -> K) {
    && Distinct(g.keys)
    && (forall i :: 0 <= i < |g.keys| ==> g.keys[i] in g.members)
    && (forall k :: k in g.members ==> k in g.keys)
    && (forall k :: k in g.members <==> Seen(s, key, k))
    && (forall k :: k in g.members ==> g.members[k] == Bucket(s, key, k) && g.members[k] != [])
  }

  lemma SeenSnoc<K(!new), T>(s: seq<T>, key: T -> K, k: K)
    requires s != []
    ensures Seen(s, key, k) <==> Seen(s[..|s| - 1], key, k) || key(s[|s| - 1]) == k
  {
    var prefix := s[..|s| - 1];
    assert forall i :: 0 <= i < |prefix| ==> prefix[i] == s[i];
    if Seen(s, key, k) && key(s[|s| - 1]) != k {
      var i :| 0 <= i < |s| && key(s[i]) == k;
      assert key(prefix[i]) == k;
    }
  }

  /** Inserting the next element keeps the grouping in step with the input. */
  lemma InsertStep<K(!new), T>(g: Groups<K, T>, s: seq<T>, key: T -> K)
    requires s != [] && GroupsOf(g, s[..|s| - 1], key)
    ensures GroupsOf(Insert(g, s[|s| - 1], key), s, key)
  {
    InsertKeys(g, s[|s| - 1], key);
    InsertSeen(g, s, key);
    InsertBuckets(g, s, key);
  }

  lemma InsertKeys<K(!new), T>(g: Groups<K, T>, x: T, key: T -> K)
    requires Distinct(g.keys)
    requires forall i :: 0 <= i < |g.keys| ==> g.keys[i] in g.members
    requires forall k :: k in g.members ==> k in g.keys
    ensures var g' := Insert(g, x, key);
      && Distinct(g'.keys)
      && (forall i :: 0 <= i < |g'.keys| ==> g'.keys[i] in g'.members)
      && (forall k :: k in g'.members ==> k in g'.keys)
  {
    var k0 := key(x);
    if k0 !in g.members {
      var keys := g.keys + [k0];
      assert k0 !in g.keys;
      forall i, j | 0 <= i < j < |keys| ensures keys[i] != keys[j] {
        if j == |g.keys| {
          assert keys[i] == g.keys[i];
        }
      }
    }
  }

  lemma InsertSeen<K(!new), T>(g: Groups<K, T>, s: seq<T>, key: T -> K)
    requires s != []
    requires forall k :: k in g.members <==> Seen(s[..|s| - 1], key, k)
    ensures forall k :: k in Insert(g, s[|s| - 1], key).members <==> Seen(s, key, k)
  {
    forall k ensures k in Insert(g, s[|s| - 1], key).members <==> Seen(s, key, k) {
      SeenSnoc(s, key, k);
    }
  }

  lemma InsertBuckets<K(!new), T>(g: Groups<K, T>, s: seq<T>, key: T -> K)
    requires s != []
    requires forall k :: k in g.members ==> g.members[k] == Bucket(s[..|s| - 1], key, k) && g.members[k] != []
    requires forall k :: k in g.members <==> Seen(s[..|s| - 1], key, k)
    ensures var g' := Insert(g, s[|s| - 1], key);
      forall k :: k in g'.members ==> g'.members[k] == Bucket(s, key, k) && g'.members[k] != []
  {
    var last := s[|s| - 1];
    var g' := Insert(g, last, key);
    forall k | k in g'.members ensures g'.members[k] == Bucket(s, key, k) && g'.members[k] != [] {
      assert Bucket(s, key, k) == Bucket(s[..|s| - 1], key, k) + (if key(last) == k then [last] else []);
    }
  }

  /** One pass over `s`, inserting every element in order. */
  function GroupBy<K(==,!new), T>(s: seq<T>, key: T -> K): (g: Groups<K, T>)
    ensures Distinct(g.keys)
    ensures forall i :: 0 <= i < |g.keys| ==> g.keys[i] in g.members
    ensures forall k :: k in g.members ==> k in g.keys
    ensures forall k :: k in g.members <==> Seen(s, key, k)
    ensures forall k :: k in g.members ==> g.members[k] == Bucket(s, key, k) && g.members[k] != []
    decreases |s|
  {
    if s == [] then Groups([], map[])
    else
      var g := GroupBy(s[..|s| - 1], key);
      InsertStep(g, s, key);
      Insert(g, s[|s| - 1], key)
  }

  /** The elements of `s` whose key already occurred earlier in `s`, in input
      order: every member of a group except its first. */
  function LaterOccurrences<K(==,!new), T>(s: seq<T>, key: T -> K): (later: seq<T>)
    ensures |later| <= |s|
    ensures forall i :: 0 <= i < |later| ==>
      exists j :: 0 <= j < |s| && s[j] == later[i] && Seen(s[..j], key, key(s[j]))
    ensures forall j :: 0 <= j < |s| && Seen(s[..j], key, key(s[j])) ==> s[j] in later
    decreases |s|
  {
    if s == [] then []
    else
      var prefix := s[..|s| - 1];
      var last := s[|s| - 1];
      var later := LaterOccurrences(prefix, key) + (if Seen(prefix, key, key(last)) then [last] else []);
      assert forall j :: 0 <= j < |prefix| ==> prefix[j] == s[j] && prefix[..j] == s[..j];
      later
  }

  /** What a group contributes when all but its first member are taken. */
  function TailOf<K(==,!new), T>(m: map<K, seq<T>>, k: K): seq<T> {
    if k in m && |m[k]| > 1 then m[k][1..] else []
  }

  /** All groups, in key order, each without its first member. */
  function Tails<K(==,!new), T>(keys: seq<K>, m: map<K, seq<T>>): seq<T>
    decreases |keys|
  {
    if keys == [] then [] else TailOf(m, keys[0]) + Tails(keys[1..], m)
  }

  /** Every element of the tails belongs to a group of two or more. */
  lemma {:induction false} TailsFromLargeGroups<K(!new), T>(keys: seq<K>, m: map<K, seq<T>>, x: T)
    requires x in Tails(keys, m)
    ensures exists k :: k in m && |m[k]| > 1 && x in m[k]
    decreases |keys|
  {
    if x in TailOf(m, keys[0]) {
      var k := keys[0];
      assert x in m[k];
    } else {
      TailsFromLargeGroups(keys[1..], m, x);
    }
  }

  lemma {:induction false} TailsSnoc<K(!new), T>(keys: seq<K>, k: K, m: map<K, seq<T>>)
    ensures Tails(keys + [k], m) == Tails(keys, m) + TailOf(m, k)
    decreases |keys|
  {
    if keys == [] {
      assert Tails([k], m) == TailOf(m, k) + Tails([], m);
    } else {
      assert (keys + [k])[0] == keys[0];
      assert (keys + [k])[1..] == keys[1..] + [k];
      TailsSnoc(keys[1..], k, m);
    }
  }

  lemma {:induction false} TailsUnchanged<K(!new), T>(keys: seq<K>, m: map<K, seq<T>>, k: K, v: seq<T>)
    requires k !in keys
    ensures Tails(keys, m[k := v]) == Tails(keys, m)
    decreases |keys|
  {
    if keys != [] {
      TailsUnchanged(keys[1..], m, k, v);
    }
  }

  /** Appending `x` to a non-empty group that is listed once adds exactly `x`
      to the tails. */
  lemma {:induction false} TailsExtend<K(!new), T>(keys: seq<K>, m: map<K, seq<T>>, k: K, x: T)
    requires Distinct(keys) && k in keys
    requires k in m && m[k] != []
    ensures multiset(Tails(keys, m[k := m[k] + [x]])) == multiset(Tails(keys, m)) + multiset{x}
    decreases |keys|
  {
    var m' := m[k := m[k] + [x]];
    if keys[0] == k {
      assert k !in keys[1..] by {
        forall i | 0 <= i < |keys[1..]| ensures keys[1..][i] != k {
          assert keys[1..][i] == keys[i + 1];
        }
      }
      TailsUnchanged(keys[1..], m, k, m[k] + [x]);
      assert TailOf(m', k) == TailOf(m, k) + [x] by {
        assert (m[k] + [x])[1..] == m[k][1..] + [x];
      }
    } else {
      assert k in keys[1..];
      assert Distinct(keys[1..]) by {
        forall i, j | 0 <= i < j < |keys[1..]| ensures keys[1..][i] != keys[1..][j] {
          assert keys[1..][i] == keys[i + 1] && keys[1..][j] == keys[j + 1];
        }
      }
      TailsExtend(keys[1..], m, k, x);
      assert TailOf(m', keys[0]) == TailOf(m, keys[0]);
    }
  }

  /** Taking every group but its first member yields, up to order, exactly the
      elements whose key occurred earlier in the input. */
  lemma {:induction false} TailsAreLaterOccurrences<K(!new), T>(s: seq<T>, key: T -> K)
    ensures multiset(Tails(GroupBy(s, key).keys, GroupBy(s, key).members)) == multiset(LaterOccurrences(s, key))
    decreases |s|
  {
    if s != [] {
      var prefix := s[..|s| - 1];
      var x := s[|s| - 1];
      var k := key(x);
      var gp := GroupBy(prefix, key);
      TailsAreLaterOccurrences(prefix, key);
      if k in gp.members {
        TailsExtend(gp.keys, gp.members, k, x);
      } else {
        assert k !in gp.keys;
        TailsSnoc(gp.keys, k, gp.members[k := [x]]);
        TailsUnchanged(gp.keys, gp.members, k, [x]);
      }
    }
  }
}
