/** Insertion-ordered association lists: what System.Collections.Specialized.ListDictionary
    does with its linked list of (key, value) nodes, stated on sequences. */
module Assoc {
  import opened Wrappers

  /** Some entry has key k. */
  predicate HasKey<K(==), V>(s: seq<(K, V)>, k: K)
  {
    exists j :: 0 <= j < |s| && s[j].0 == k
  }

  /** No key occurs twice: every list a ListDictionary holds has this shape. */
  predicate DistinctKeys<K(==), V>(s: seq<(K, V)>)
  {
    forall i, j :: 0 <= i < j < |s| ==> s[i].0 != s[j].0
  }

  /** The position of the first entry with key k, or -1: the node a ListDictionary walk stops at. */
  function Find<K(==), V>(s: seq<(K, V)>, k: K): (i: int)
    ensures -1 <= i < |s|
    ensures i < 0 <==> !HasKey(s, k)
    ensures 0 <= i ==> s[i].0 == k && forall j :: 0 <= j < i ==> s[j].0 != k
  {
    if s == [] then -1
    else if s[0].0 == k then 0
    else
      var j := Find(s[1..], k);
      assert forall m :: 0 < m < |s| ==> s[m] == s[1..][m - 1];
      if j < 0 then -1 else j + 1
  }

  /** The indexer's get: the value stored under k, or None (C#'s null) when k is absent. */
  function Lookup<K(==), V>(s: seq<(K, V)>, k: K): Option<V>
  {
    var i := Find(s, k);
    if i < 0 then None else Some(s[i].1)
  }

  /** The indexer's set: overwrite the value of k where it stands, or append (k, v) at the end. */
  function Put<K(==), V>(s: seq<(K, V)>, k: K, v: V): (r: seq<(K, V)>)
    ensures forall p :: p in r ==> p in s || p == (k, v)
  {
    var i := Find(s, k);
    if i < 0 then s + [(k, v)] else s[i := (k, v)]
  }

  /** Remove: unlink the entry for k; nothing happens when k is absent. */
  function Remove<K(==), V>(s: seq<(K, V)>, k: K): (r: seq<(K, V)>)
    ensures forall p :: p in r ==> p in s
  {
    var i := Find(s, k);
    if i < 0 then s else s[..i] + s[i + 1..]
  }

  /** The Keys collection, in insertion order. */
  function KeysOf<K, V>(s: seq<(K, V)>): (r: seq<K>)
    ensures |r| == |s| && forall i :: 0 <= i < |s| ==> r[i] == s[i].0
  {
    seq(|s|, i requires 0 <= i < |s| => s[i].0)
  }

  /** The Values collection, in the same order as the keys. */
  function ValuesOf<K, V>(s: seq<(K, V)>): (r: seq<V>)
    ensures |r| == |s| && forall i :: 0 <= i < |s| ==> r[i] == s[i].1
  {
    seq(|s|, i requires 0 <= i < |s| => s[i].1)
  }

  /** Find has a single answer: the first index holding k. */
  lemma {:induction false} FindFirst<K, V>(s: seq<(K, V)>, k: K, i: int)
    requires 0 <= i < |s| && s[i].0 == k
    requires forall j :: 0 <= j < i ==> s[j].0 != k
    ensures Find(s, k) == i
  {
  }

  /** Lookup finds a value exactly when the key is present, and that value is stored under it. */
  lemma {:induction false} LookupHasKey<K, V>(s: seq<(K, V)>, k: K)
    ensures Lookup(s, k).Some? <==> HasKey(s, k)
    ensures Lookup(s, k).Some? ==> (k, Lookup(s, k).value) in s
  {
  }

  /** In a list without duplicate keys, any entry (k, v) is what Lookup returns for k. */
  lemma {:induction false} LookupEntry<K, V>(s: seq<(K, V)>, i: int)
    requires DistinctKeys(s) && 0 <= i < |s|
    ensures Lookup(s, s[i].0) == Some(s[i].1)
  {
    FindFirst(s, s[i].0, i);
  }

  /** After a set, k maps to v and every other key maps to what it mapped to before. */
  lemma {:induction false} LookupPut<K, V>(s: seq<(K, V)>, k: K, v: V, k': K)
    ensures Lookup(Put(s, k, v), k') == if k' == k then Some(v) else Lookup(s, k')
  {
    var r := Put(s, k, v);
    var i := Find(s, k);
    var j := Find(s, k');
    if k' == k {
      if i < 0 { FindFirst(r, k, |s|); } else { FindFirst(r, k, i); }
    } else if j >= 0 {
      FindFirst(r, k', j);
    } else {
      assert !HasKey(r, k') by {
        forall m | 0 <= m < |r| ensures r[m].0 != k' {
          if m < |s| && m != i { assert r[m] == s[m]; }
        }
      }
    }
  }

  /** A set overwrites in place: the key order is kept, or k is appended at the end. */
  lemma {:induction false} KeysOfPut<K, V>(s: seq<(K, V)>, k: K, v: V)
    ensures KeysOf(Put(s, k, v)) == if HasKey(s, k) then KeysOf(s) else KeysOf(s) + [k]
  {
  }

  /** A set never introduces a duplicate key. */
  lemma {:induction false} PutDistinct<K, V>(s: seq<(K, V)>, k: K, v: V)
    requires DistinctKeys(s)
    ensures DistinctKeys(Put(s, k, v))
  {
  }

  /** After a remove, k is absent and every other key maps to what it mapped to before. */
  lemma {:induction false} LookupRemove<K, V>(s: seq<(K, V)>, k: K, k': K)
    requires DistinctKeys(s)
    ensures Lookup(Remove(s, k), k') == if k' == k then None else Lookup(s, k')
  {
    var r := Remove(s, k);
    var i := Find(s, k);
    if i >= 0 {
      assert forall m :: 0 <= m < i ==> r[m] == s[m];
      assert forall m :: i <= m < |r| ==> r[m] == s[m + 1];
      var j := Find(s, k');
      if k' == k {
        assert !HasKey(r, k);
      } else if j < 0 {
        assert !HasKey(r, k');
      } else if j < i {
        FindFirst(r, k', j);
      } else {
        FindFirst(r, k', j - 1);
      }
    }
  }

  /** A remove never introduces a duplicate, and shrinks the list by one exactly when the
      key was there. */
  lemma {:induction false} RemoveDistinct<K, V>(s: seq<(K, V)>, k: K)
    requires DistinctKeys(s)
    ensures DistinctKeys(Remove(s, k))
    ensures |Remove(s, k)| == if HasKey(s, k) then |s| - 1 else |s|
  {
    var r := Remove(s, k);
    var i := Find(s, k);
    if i >= 0 {
      assert forall m :: 0 <= m < i ==> r[m] == s[m];
      assert forall m :: i <= m < |r| ==> r[m] == s[m + 1];
    }
  }

  /** Removing an absent key leaves the list as it was. */
  lemma {:induction false} RemoveAbsent<K, V>(s: seq<(K, V)>, k: K)
    requires !HasKey(s, k)
    ensures Remove(s, k) == s
  {
  }

  /** Removing a key unlinks its first entry and keeps every other entry in its order. */
  lemma {:induction false} RemoveMiddle<K, V>(a: seq<(K, V)>, k: K, v: V, b: seq<(K, V)>)
    requires !HasKey(a, k)
    ensures Remove(a + [(k, v)] + b, k) == a + b
  {
    var s := a + [(k, v)] + b;
    FindFirst(s, k, |a|);
    assert s[..|a|] == a && s[|a| + 1..] == b;
  }

  /** Remove followed by a containment test on the same key answers false. */
  lemma {:induction false} RemoveThenAbsent<K, V>(s: seq<(K, V)>, k: K)
    requires DistinctKeys(s)
    ensures !HasKey(Remove(s, k), k)
  {
    LookupRemove(s, k, k);
    LookupHasKey(Remove(s, k), k);
  }

  /** Appending a fresh key and then removing it gives back the list. */
  lemma {:induction false} RemoveAppended<K, V>(s: seq<(K, V)>, k: K, v: V)
    requires !HasKey(s, k)
    ensures Remove(s + [(k, v)], k) == s
  {
    RemoveMiddle(s, k, v, []);
    assert s + [(k, v)] + [] == s + [(k, v)];
  }

  /** Writing back the value already stored under k changes nothing. */
  lemma {:induction false} PutSame<K, V>(s: seq<(K, V)>, k: K)
    requires HasKey(s, k)
    ensures Put(s, k, Lookup(s, k).value) == s
  {
  }

  /** A second set of the same key undoes the first. */
  lemma {:induction false} PutPut<K, V>(s: seq<(K, V)>, k: K, v: V, w: V)
    ensures Put(Put(s, k, v), k, w) == Put(s, k, w)
  {
    var i := Find(s, k);
    if i < 0 {
      FindFirst(s + [(k, v)], k, |s|);
    } else {
      FindFirst(Put(s, k, v), k, i);
    }
  }
}
