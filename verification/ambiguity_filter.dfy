/** `filter_n2m` from iter2/gen_predicate_file.py: keeps the NELL ids whose label
    led to exactly one Wikidata entity carrying exactly one Freebase identifier, and
    maps each kept id to that identifier. */
module AmbiguityFilter {
  import opened Seqs
  import opened FreebaseLabels

  /** An id whose set holds exactly one tuple, and that tuple exactly one identifier. */
  predicate IsUnambiguous(tuples: MidTuples) {
    |tuples| == 1 && forall t :: t in tuples ==> |t| == 1
  }

  /** The identifier an unambiguous set pops: its only one. */
  function SoleMid(tuples: MidTuples): (mid: string)
    requires IsUnambiguous(tuples)
    ensures tuples == {[mid]}
  {
    SingletonIsDisplay(tuples);
    var t :| t in tuples;
    assert |t| == 1 && t == [t[0]];
    t[0]
  }

  /** The sets the filter keeps are exactly the one-tuple, one-identifier displays. */
  lemma UnambiguousIffSingleMid(tuples: MidTuples)
    ensures IsUnambiguous(tuples) <==> exists mid :: tuples == {[mid]}
  {
    if IsUnambiguous(tuples) {
      var mid := SoleMid(tuples);
      assert tuples == {[mid]};
    }
    if exists mid :: tuples == {[mid]} {
      var mid :| tuples == {[mid]};
      assert |tuples| == 1;
    }
  }

  /** `filter_n2m`: keeps the unambiguous ids, each mapped to its only identifier. */
  function FilterN2M(n2m: map<int, MidTuples>): (r: map<int, string>)
    ensures r.Keys <= n2m.Keys
    ensures forall k :: k in r <==> k in n2m && IsUnambiguous(n2m[k])
    ensures forall k :: k in r ==> n2m[k] == {[r[k]]}
  {
    map k | k in n2m && IsUnambiguous(n2m[k]) :: SoleMid(n2m[k])
  }

  /** Read as a relation, the filter keeps `k -> mid` exactly when `k`'s set is the
      single tuple `(mid,)`. */
  lemma FilterN2MExactly(n2m: map<int, MidTuples>, k: int, mid: string)
    ensures (k in FilterN2M(n2m) && FilterN2M(n2m)[k] == mid) <==> (k in n2m && n2m[k] == {[mid]})
  {
    if k in n2m && n2m[k] == {[mid]} {
      UnambiguousIffSingleMid(n2m[k]);
      assert [FilterN2M(n2m)[k]] in {[mid]};
    }
  }

  /** Filtering twice changes nothing: the filter's own output, read back as sets of
      one one-identifier tuple, passes it unchanged. */
  lemma FilterN2MStable(n2m: map<int, MidTuples>)
    ensures var r := FilterN2M(n2m);
            FilterN2M(map k | k in r :: {[r[k]]}) == r
  {
    var r := FilterN2M(n2m);
    var lifted := map k | k in r :: {[r[k]]};
    forall k | k in lifted
      ensures IsUnambiguous(lifted[k])
    {
      UnambiguousIffSingleMid(lifted[k]);
    }
    forall k | k in lifted
      ensures FilterN2M(lifted)[k] == r[k]
    {
      FilterN2MExactly(lifted, k, r[k]);
    }
  }
}
