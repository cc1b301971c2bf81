/** The three ways the scripts fill a Python dictionary in a loop.

    - `d[k] = v` for each entry (`Assign`): the last write of a key wins.
    - `dd[k].add(v)` on a `defaultdict(set)` (`Group`): each key collects the set of
      values written under it, and a key exists only once something was added.
    - the same `d[k] = v` loop seen with the dictionary's own iteration order
      (`Put`, `PutAll`): CPython dictionaries iterate in first-insertion order, and
      overwriting a key keeps its place.
 */
module Dicts {
  import opened Wrappers
  import opened Seqs

  /** The keys written by a sequence of entries. */
  function KeysOf<K, V>(entries: seq<(K, V)>): set<K> {
    set i | 0 <= i < |entries| :: entries[i].0
  }

  lemma KeysOfSnoc<K, V>(entries: seq<(K, V)>)
    requires |entries| > 0
    ensures KeysOf(entries) == KeysOf(entries[..|entries| - 1]) + {entries[|entries| - 1].0}
  {
    var prefix := entries[..|entries| - 1];
    forall k | k in KeysOf(entries)
      ensures k in KeysOf(prefix) + {entries[|entries| - 1].0}
    {
      var i :| 0 <= i < |entries| && entries[i].0 == k;
      if i < |prefix| {
        assert prefix[i].0 == k;
      }
    }
    forall k | k in KeysOf(prefix)
      ensures k in KeysOf(entries)
    {
      var i :| 0 <= i < |prefix| && prefix[i].0 == k;
      assert entries[i].0 == k;
    }
  }

  lemma KeysOfCons<K, V>(entries: seq<(K, V)>)
    requires |entries| > 0
    ensures KeysOf(entries) == {entries[0].0} + KeysOf(entries[1..])
  {
    var rest := entries[1..];
    forall k | k in KeysOf(entries)
      ensures k in {entries[0].0} + KeysOf(rest)
    {
      var i :| 0 <= i < |entries| && entries[i].0 == k;
      if i > 0 {
        assert rest[i - 1].0 == k;
      }
    }
    forall k | k in KeysOf(rest)
      ensures k in KeysOf(entries)
    {
      var i :| 0 <= i < |rest| && rest[i].0 == k;
      assert entries[i + 1].0 == k;
    }
  }

  /** No later entry writes the key of entry `i`. */
  predicate IsLastWrite<K(==), V>(entries: seq<(K, V)>, i: int)
    requires 0 <= i < |entries|
  {
    forall j :: i < j < |entries| ==> entries[j].0 != entries[i].0
  }

  /** `for k, v in entries: d[k] = v`, starting from an empty dictionary. */
  function Assign<K(==), V>(entries: seq<(K, V)>): (m: map<K, V>)
    ensures m.Keys == KeysOf(entries)
    decreases |entries|
  {
    if |entries| == 0 then map[]
    else
      var last := entries[|entries| - 1];
      KeysOfSnoc(entries);
      Assign(entries[..|entries| - 1])[last.0 := last.1]
  }

  /** Last writer wins: each key holds the value of the last entry that wrote it. */
  lemma {:induction false} AssignLastWrite<K, V>(entries: seq<(K, V)>, i: nat)
    requires i < |entries| && IsLastWrite(entries, i)
    ensures Assign(entries)[entries[i].0] == entries[i].1
    decreases |entries|
  {
    if i < |entries| - 1 {
      var prefix := entries[..|entries| - 1];
      assert prefix[i] == entries[i];
      assert IsLastWrite(prefix, i) by {
        forall j | i < j < |prefix|
          ensures prefix[j].0 != prefix[i].0
        {
          assert prefix[j] == entries[j];
        }
      }
      AssignLastWrite(prefix, i);
      assert entries[|entries| - 1].0 != entries[i].0;
    }
  }

  /** Running the loop over `a` and then over `b` is `a`'s dictionary updated by
      `b`'s: later writes override earlier ones key by key. */
  lemma {:induction false} AssignAppend<K, V>(a: seq<(K, V)>, b: seq<(K, V)>)
    ensures Assign(a + b) == Assign(a) + Assign(b)
    decreases |b|
  {
    if |b| == 0 {
      assert a + b == a;
    } else {
      var n := |b| - 1;
      AssignAppend(a, b[..n]);
      assert (a + b)[..|a + b| - 1] == a + b[..n];
      assert (a + b)[|a + b| - 1] == b[n];
      assert Assign(a + b) == Assign(a + b[..n])[b[n].0 := b[n].1];
      assert Assign(b) == Assign(b[..n])[b[n].0 := b[n].1];
      UpdateAfterUnion(Assign(a), Assign(b[..n]), b[n].0, b[n].1);
    }
  }

  lemma UpdateAfterUnion<K, V>(m: map<K, V>, m': map<K, V>, k: K, v: V)
    ensures (m + m')[k := v] == m + m'[k := v]
  {
  }

  lemma {:induction false} KeysOfAppend<K, V>(a: seq<(K, V)>, b: seq<(K, V)>)
    ensures KeysOf(a + b) == KeysOf(a) + KeysOf(b)
  {
    var ab := a + b;
    forall k | k in KeysOf(ab)
      ensures k in KeysOf(a) + KeysOf(b)
    {
      var i :| 0 <= i < |ab| && ab[i].0 == k;
      if i >= |a| {
        assert b[i - |a|].0 == k;
      }
    }
    forall k | k in KeysOf(a) + KeysOf(b)
      ensures k in KeysOf(ab)
    {
      if k in KeysOf(a) {
        var i :| 0 <= i < |a| && a[i].0 == k;
        assert ab[i].0 == k;
      } else {
        var i :| 0 <= i < |b| && b[i].0 == k;
        assert ab[|a| + i].0 == k;
      }
    }
  }

  /** A key is written by the nested loop exactly when one of the inner runs writes it. */
  lemma {:induction false} KeysOfFlatten<K, V>(parts: seq<seq<(K, V)>>, k: K)
    ensures k in KeysOf(Flatten(parts)) <==> exists j :: 0 <= j < |parts| && k in KeysOf(parts[j])
    decreases |parts|
  {
    if |parts| > 0 {
      KeysOfAppend(parts[0], Flatten(parts[1..]));
      KeysOfFlatten(parts[1..], k);
      assert forall j :: 1 <= j < |parts| ==> parts[1..][j - 1] == parts[j];
      if k in KeysOf(Flatten(parts[1..])) {
        var j :| 0 <= j < |parts[1..]| && k in KeysOf(parts[1..][j]);
        assert k in KeysOf(parts[j + 1]);
      }
    }
  }

  /** When every entry carries the same value, so does every key. */
  lemma {:induction false} AssignConstant<K, V>(entries: seq<(K, V)>, v: V, k: K)
    requires forall i :: 0 <= i < |entries| ==> entries[i].1 == v
    requires k in Assign(entries)
    ensures Assign(entries)[k] == v
    decreases |entries|
  {
    var n := |entries| - 1;
    if entries[n].0 != k {
      assert forall i :: 0 <= i < n ==> entries[..n][i] == entries[i];
      AssignConstant(entries[..n], v, k);
    }
  }

  /** Nested `d[k] = v` loops: a key holds the value the last inner run that wrote
      it gave it. */
  lemma {:induction false} AssignFlattenLast<K, V>(parts: seq<seq<(K, V)>>, i: nat, k: K)
    requires i < |parts| && k in KeysOf(parts[i])
    requires forall j :: i < j < |parts| ==> k !in KeysOf(parts[j])
    ensures k in Assign(Flatten(parts)) && Assign(Flatten(parts))[k] == Assign(parts[i])[k]
    decreases |parts|
  {
    var rest := Flatten(parts[1..]);
    AssignAppend(parts[0], rest);
    assert forall j :: 1 <= j < |parts| ==> parts[1..][j - 1] == parts[j];
    if i == 0 {
      KeysOfFlatten(parts[1..], k);
      assert k !in Assign(rest);
    } else {
      AssignFlattenLast(parts[1..], i - 1, k);
    }
  }

  /** `for k, v in entries: dd[k].add(v)` on a `defaultdict(set)`. */
  function Group<K(==), V(==)>(entries: seq<(K, V)>): (m: map<K, set<V>>)
    ensures m.Keys == KeysOf(entries)
    ensures forall k :: k in m ==> m[k] != {}
    decreases |entries|
  {
    if |entries| == 0 then map[]
    else
      var last := entries[|entries| - 1];
      var prev := Group(entries[..|entries| - 1]);
      var held := if last.0 in prev then prev[last.0] else {};
      KeysOfSnoc(entries);
      prev[last.0 := held + {last.1}]
  }

  /** The key-value pairs of a dictionary of sets. */
  function Pairs<K, V>(m: map<K, set<V>>): set<(K, V)>
  {
    set k, v | k in m && v in m[k] :: (k, v)
  }

  /** Grouping keeps exactly the distinct entries: a value sits under a key iff some
      entry wrote that value under that key. Duplicates collapse, nothing is lost. */
  lemma {:induction false} GroupPairs<K, V>(entries: seq<(K, V)>)
    ensures Pairs(Group(entries)) == Elements(entries)
    decreases |entries|
  {
    if |entries| > 0 {
      var prefix := entries[..|entries| - 1];
      var last := entries[|entries| - 1];
      GroupPairs(prefix);
      var m := Group(entries);
      var prev := Group(prefix);
      assert entries == prefix + [last];
      assert Elements(entries) == Elements(prefix) + {last};
      assert Pairs(m) == Pairs(prev) + {last} by {
        forall e | e in Pairs(m)
          ensures e in Pairs(prev) + {last}
        {
          assert e.0 in m && e.1 in m[e.0];
          if e.0 != last.0 {
            assert e.0 in prev && e.1 in prev[e.0];
          } else if e.1 != last.1 {
            assert e.0 in prev && e.1 in prev[e.0];
          }
        }
        forall e | e in Pairs(prev)
          ensures e in Pairs(m)
        {
          assert e.0 in prev && e.1 in prev[e.0];
          assert e.0 in m && e.1 in m[e.0];
        }
        assert last.0 in m && last.1 in m[last.0];
      }
    }
  }

  /** A dictionary in iteration order: its items as a sequence with distinct keys. */
  predicate DistinctKeys<K(==), V>(d: seq<(K, V)>) {
    forall i, j :: 0 <= i < j < |d| ==> d[i].0 != d[j].0
  }

  /** `d.get(k)` on an insertion-ordered dictionary. */
  function Get<K(==), V>(d: seq<(K, V)>, k: K): (r: Option<V>)
    ensures r.Some? <==> k in KeysOf(d)
    ensures r.Some? ==> exists i :: 0 <= i < |d| && d[i] == (k, r.value)
    decreases |d|
  {
    if |d| == 0 then None
    else if d[0].0 == k then Some(d[0].1)
    else
      var r := Get(d[1..], k);
      KeysOfCons(d);
      assert r.Some? ==> exists i :: 1 <= i < |d| && d[i] == (k, r.value) by {
        if r.Some? {
          var i :| 0 <= i < |d[1..]| && d[1..][i] == (k, r.value);
          assert d[i + 1] == (k, r.value);
        }
      }
      r
  }

  /** In a dictionary every item is found by its own key. */
  lemma {:induction false} GetItem<K, V>(d: seq<(K, V)>, i: nat)
    requires DistinctKeys(d) && i < |d|
    ensures Get(d, d[i].0) == Some(d[i].1)
    decreases |d|
  {
    if i > 0 {
      assert d[1..][i - 1] == d[i];
      GetItem(d[1..], i - 1);
    }
  }

  /** `d[k] = v` on an insertion-ordered dictionary: an existing key keeps its
      place and takes the new value, a new key goes at the end. */
  function Put<K(==), V>(d: seq<(K, V)>, k: K, v: V): (r: seq<(K, V)>)
    ensures KeysOf(r) == KeysOf(d) + {k}
    ensures k !in KeysOf(d) ==> r == d + [(k, v)]
    ensures k in KeysOf(d) ==> |r| == |d| && forall i :: 0 <= i < |d| ==> r[i].0 == d[i].0
    ensures DistinctKeys(d) ==> DistinctKeys(r)
    decreases |d|
  {
    if |d| == 0 then
      assert KeysOf([(k, v)]) == {k} by {
        KeysOfCons([(k, v)]);
      }
      [(k, v)]
    else
      KeysOfCons(d);
      if d[0].0 == k then
        var r := [(k, v)] + d[1..];
        assert r[1..] == d[1..];
        KeysOfCons(r);
        r
      else
        var rest := Put(d[1..], k, v);
        var r := [d[0]] + rest;
        assert r[1..] == rest;
        KeysOfCons(r);
        assert DistinctKeys(d) ==> d[0].0 !in KeysOf(d[1..]);
        assert DistinctKeys(d) ==> DistinctKeys(r) by {
          if DistinctKeys(d) {
            assert DistinctKeys(d[1..]);
            forall i, j | 0 <= i < j < |r|
              ensures r[i].0 != r[j].0
            {
              if i == 0 {
                assert r[j] == rest[j - 1];
                assert r[j].0 in KeysOf(rest);
              }
            }
          }
        }
        r
  }

  /** `d[k] = v` adds an item exactly when `k` was not yet a key. */
  lemma PutLength<K, V>(d: seq<(K, V)>, k: K, v: V)
    ensures |Put(d, k, v)| == |d| + if Get(d, k).Some? then 0 else 1
  {
  }

  /** Reading back after `d[k] = v`: `k` now gives `v`, every other key is untouched. */
  lemma {:induction false} GetPut<K, V>(d: seq<(K, V)>, k: K, v: V, k': K)
    ensures Get(Put(d, k, v), k') == if k' == k then Some(v) else Get(d, k')
    decreases |d|
  {
    if |d| > 0 && d[0].0 != k {
      GetPut(d[1..], k, v, k');
      assert Put(d, k, v)[1..] == Put(d[1..], k, v);
    } else if |d| > 0 {
      assert Put(d, k, v)[1..] == d[1..];
    }
  }

  /** `for k, v in entries: d[k] = v` on an insertion-ordered dictionary. */
  function PutAll<K(==), V>(entries: seq<(K, V)>): (d: seq<(K, V)>)
    ensures DistinctKeys(d)
    ensures KeysOf(d) == KeysOf(entries)
    decreases |entries|
  {
    if |entries| == 0 then []
    else
      var last := entries[|entries| - 1];
      KeysOfSnoc(entries);
      Put(PutAll(entries[..|entries| - 1]), last.0, last.1)
  }

  /** The ordered dictionary holds the same key-value pairs as the plain one:
      iteration order aside, `PutAll` and `Assign` are the same loop. */
  lemma {:induction false} PutAllAgreesWithAssign<K, V>(entries: seq<(K, V)>, k: K)
    ensures Get(PutAll(entries), k) == if k in Assign(entries) then Some(Assign(entries)[k]) else None
    decreases |entries|
  {
    if |entries| > 0 {
      var prefix := entries[..|entries| - 1];
      var last := entries[|entries| - 1];
      PutAllAgreesWithAssign(prefix, k);
      GetPut(PutAll(prefix), last.0, last.1, k);
    }
  }
}
