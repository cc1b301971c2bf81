/** `nell_ids_to_freebase_mids` from iter1/nell2freebase.py: joins the NELL
    label -> id dictionary with the Freebase label table on equal labels, giving
    NELL id -> set of Freebase identifier tuples, optionally restricted to a set of
    ids. */
module Correspondence {
  import opened Wrappers
  import opened Dicts
  import NellLabels
  import opened FreebaseLabels

  /** The join loop: for each NELL label, in the dictionary's iteration order, that
      is itself a key of the Freebase table (the NELL side is not normalized), the
      NELL id is mapped to that key's set of identifier tuples. */
  function JoinLabels(
    items: seq<(string, int)>,
    target: map<string, MidTuples>
  ): (m: map<int, MidTuples>)
    ensures forall k :: k in m <==> exists i :: 0 <= i < |items| && items[i].1 == k && items[i].0 in target
    decreases |items|
  {
    if |items| == 0 then map[]
    else
      var n := |items| - 1;
      var prev := JoinLabels(items[..n], target);
      assert forall i :: 0 <= i < n ==> items[..n][i] == items[i];
      if items[n].0 in target then prev[items[n].1 := target[items[n].0]] else prev
  }

  /** The item at `i` matches, and no later matching item carries the same id. */
  predicate IsLastMatch(items: seq<(string, int)>, target: map<string, MidTuples>, i: int)
    requires 0 <= i < |items|
  {
    && items[i].0 in target
    && forall j :: i < j < |items| && items[j].1 == items[i].1 ==> items[j].0 !in target
  }

  /** An id takes the target set of the last matching label that carries it. */
  lemma {:induction false} JoinLabelsLastMatch(
    items: seq<(string, int)>,
    target: map<string, MidTuples>,
    i: nat
  )
    requires i < |items| && IsLastMatch(items, target, i)
    ensures JoinLabels(items, target)[items[i].1] == target[items[i].0]
    decreases |items|
  {
    var n := |items| - 1;
    if i < n {
      var prefix := items[..n];
      assert prefix[i] == items[i];
      assert IsLastMatch(prefix, target, i) by {
        forall j | i < j < |prefix| && prefix[j].1 == prefix[i].1
          ensures prefix[j].0 !in target
        {
          assert prefix[j] == items[j];
        }
      }
      JoinLabelsLastMatch(prefix, target, i);
    }
  }

  /** No two labels share an id. */
  predicate DistinctIds(items: seq<(string, int)>) {
    forall i, j :: 0 <= i < j < |items| ==> items[i].1 != items[j].1
  }

  /** When no two labels share an id, every matching label hands its target set to
      its id, whatever the iteration order. */
  lemma JoinLabelsInjective(items: seq<(string, int)>, target: map<string, MidTuples>, i: nat)
    requires DistinctIds(items)
    requires i < |items| && items[i].0 in target
    ensures JoinLabels(items, target)[items[i].1] == target[items[i].0]
  {
    JoinLabelsLastMatch(items, target, i);
  }

  /** `if nellids:` keeps only the listed ids; `None` or an empty set keeps all. */
  predicate Kept(nellids: Option<set<int>>, k: int) {
    nellids.None? || nellids.value == {} || k in nellids.value
  }

  /** Keeps only the ids in `nellids` when that set is given and non-empty. */
  function RestrictIds(m: map<int, MidTuples>, nellids: Option<set<int>>): (r: map<int, MidTuples>)
    ensures forall k :: k in r <==> k in m && Kept(nellids, k)
    ensures forall k :: k in r ==> r[k] == m[k]
  {
    if nellids.Some? && nellids.value != {} then map k | k in m && k in nellids.value :: m[k] else m
  }

  /** The whole function: read the NELL labels, then the Wikidata records, then join
      and restrict. A fault in either input aborts. */
  function NellIdsToFreebaseMids(
    nellLines: seq<string>,
    records: seq<WikidataRecord>,
    nellids: Option<set<int>>): (r: Result<map<int, MidTuples>, Located<FaultKind>>)
    ensures r.Ok? <==> NellLabels.GetNellLabelsToIds(nellLines).Ok? && GetFbLabelsToMids(records).Ok?
  {
    match NellLabels.GetNellLabelsToIds(nellLines)
    case Err(e) => Err(e)
    case Ok(index) =>
      match GetFbLabelsToMids(records)
      case Err(e) => Err(e)
      case Ok(target) => Ok(RestrictIds(JoinLabels(index.labelToId, target), nellids))
  }

  /** On a dictionary with distinct labels, an id is a key of the restricted join
      iff it survives the `nellids` filter and one of its labels is a key of the
      Freebase table. */
  lemma JoinRestrictKeys(
    d: seq<(string, int)>,
    target: map<string, MidTuples>,
    nellids: Option<set<int>>,
    k: int
  )
    requires DistinctKeys(d)
    ensures k in RestrictIds(JoinLabels(d, target), nellids)
            <==> Kept(nellids, k) && exists l :: Get(d, l) == Some(k) && l in target
  {
    if k in JoinLabels(d, target) {
      var i :| 0 <= i < |d| && d[i].1 == k && d[i].0 in target;
      GetItem(d, i);
    }
    if exists l :: Get(d, l) == Some(k) && l in target {
      var l :| Get(d, l) == Some(k) && l in target;
      var i :| 0 <= i < |d| && d[i] == (l, k);
    }
  }

  /** When no two labels share an id, a kept id holds the set of its label. */
  lemma JoinRestrictValues(
    d: seq<(string, int)>,
    target: map<string, MidTuples>,
    nellids: Option<set<int>>,
    k: int,
    l: string
  )
    requires DistinctIds(d)
    requires Get(d, l) == Some(k) && l in target && Kept(nellids, k)
    ensures var r := RestrictIds(JoinLabels(d, target), nellids);
            k in r && r[k] == target[l]
  {
    var i :| 0 <= i < |d| && d[i] == (l, k);
    JoinLabelsInjective(d, target, i);
  }

  /** A NELL id is a key of the correspondence iff it survives the `nellids` filter
      and one of its labels is a key of the Freebase table; when no two labels share
      the id, its value is that label's set of tuples. */
  lemma CorrespondenceMembership(
    nellLines: seq<string>,
    records: seq<WikidataRecord>,
    nellids: Option<set<int>>,
    k: int)
    requires NellLabels.AllLinesParse(nellLines) && AllRecordsRead(records)
    ensures var index := NellLabels.GetNellLabelsToIds(nellLines).value;
            var target := GetFbLabelsToMids(records).value;
            var r := NellIdsToFreebaseMids(nellLines, records, nellids).value;
            && (k in r <==> Kept(nellids, k) && exists l :: Get(index.labelToId, l) == Some(k) && l in target)
            && (DistinctIds(index.labelToId) ==>
                  forall l :: Get(index.labelToId, l) == Some(k) && l in target && Kept(nellids, k)
                    ==> k in r && r[k] == target[l])
  {
    assert NellIdsToFreebaseMids(nellLines, records, nellids).Ok?;
    var index := NellLabels.GetNellLabelsToIds(nellLines).value;
    var target := GetFbLabelsToMids(records).value;
    NellLabels.IndexLabelsIsPutAll(Traverse(nellLines, NellLabels.ParseIdLabel).value);
    assert NellIdsToFreebaseMids(nellLines, records, nellids).value
        == RestrictIds(JoinLabels(index.labelToId, target), nellids);
    JoinRestrictKeys(index.labelToId, target, nellids, k);
    if DistinctIds(index.labelToId) {
      forall l | Get(index.labelToId, l) == Some(k) && l in target && Kept(nellids, k)
        ensures k in NellIdsToFreebaseMids(nellLines, records, nellids).value
        ensures NellIdsToFreebaseMids(nellLines, records, nellids).value[k] == target[l]
      {
        JoinRestrictValues(index.labelToId, target, nellids, k, l);
      }
    }
  }
}
