/** The counting loop of `print_nid2mid_stats` in iter1/nell2freebase.py: how many
    NELL ids have a label shared by several Wikidata entities, and how many of those
    entities themselves carry several Freebase identifiers. The counters are
    returned instead of printed. */
module CorrespondenceStats {
  import opened Seqs
  import opened FreebaseLabels

  /** Ids whose set holds more than one tuple: several Wikidata entities had the label. */
  function SharedLabelIds(m: map<int, MidTuples>): set<int> {
    set k | k in m && |m[k]| > 1
  }

  /** `(id, tuple)` pairs whose tuple holds more than one Freebase identifier. */
  function MultiMidTuples(m: map<int, MidTuples>): set<(int, seq<string>)> {
    set k, t | k in m && t in m[k] && |t| > 1 :: (k, t)
  }

  /** The part of `SharedLabelIds` among the ids in `keys`. */
  function SharedLabelIdsOf(m: map<int, MidTuples>, keys: set<int>): set<int> {
    set k | k in keys && k in m && |m[k]| > 1
  }

  /** The part of `MultiMidTuples` that belongs to the ids in `keys`. */
  function MultiMidTuplesOf(m: map<int, MidTuples>, keys: set<int>): set<(int, seq<string>)> {
    set k, t | k in keys && k in m && t in m[k] && |t| > 1 :: (k, t)
  }

  /** The tuples of one id that hold several identifiers, tagged with the id. */
  function Tagged(k: int, tuples: MidTuples): set<(int, seq<string>)> {
    set t | t in tuples && |t| > 1 :: (k, t)
  }

  /** Visiting one more id adds it to the shared-label count exactly when its set
      holds several tuples. */
  lemma SharedLabelIdsStep(m: map<int, MidTuples>, done: set<int>, k: int)
    requires k in m && k !in done
    ensures |SharedLabelIdsOf(m, done + {k})| == |SharedLabelIdsOf(m, done)| + (if |m[k]| > 1 then 1 else 0)
  {
    if |m[k]| > 1 {
      assert SharedLabelIdsOf(m, done + {k}) == SharedLabelIdsOf(m, done) + {k};
    } else {
      assert SharedLabelIdsOf(m, done + {k}) == SharedLabelIdsOf(m, done);
    }
  }

  /** Visiting one more id adds the tuples of that id, and no tuple twice. */
  lemma MultiMidTuplesStep(m: map<int, MidTuples>, done: set<int>, k: int)
    requires k in m && k !in done
    ensures |MultiMidTuplesOf(m, done + {k})| == |MultiMidTuplesOf(m, done)| + |Tagged(k, m[k])|
  {
    assert MultiMidTuplesOf(m, done + {k}) == MultiMidTuplesOf(m, done) + Tagged(k, m[k]);
    assert MultiMidTuplesOf(m, done) !! Tagged(k, m[k]);
  }

  /** No id has a shared label exactly when every id maps to at most one tuple. */
  lemma SharedLabelIdsEmpty(m: map<int, MidTuples>)
    ensures |SharedLabelIds(m)| == 0 <==> forall k :: k in m ==> |m[k]| <= 1
  {
    if |SharedLabelIds(m)| != 0 {
      var k := Pick(SharedLabelIds(m));
      assert k in m && |m[k]| > 1;
    } else {
      forall k | k in m
        ensures |m[k]| <= 1
      {
        assert k !in SharedLabelIds(m);
      }
    }
  }

  /** No tuple is counted exactly when every tuple holds at most one identifier. */
  lemma MultiMidTuplesEmpty(m: map<int, MidTuples>)
    ensures |MultiMidTuples(m)| == 0 <==> forall k, t :: k in m && t in m[k] ==> |t| <= 1
  {
    if |MultiMidTuples(m)| != 0 {
      var kt := Pick(MultiMidTuples(m));
      assert kt.0 in m && kt.1 in m[kt.0] && |kt.1| > 1;
    } else {
      forall k, t | k in m && t in m[k]
        ensures |t| <= 1
      {
        assert (k, t) !in MultiMidTuples(m);
      }
    }
  }

  /** The inner statistics loop over one id's tuples, counting those with more than
      one identifier, in whatever order the set yields them. */
  method CountMultiMid(k: int, tuples: MidTuples) returns (count: nat)
    ensures count == |Tagged(k, tuples)|
  {
    count := 0;
    var rest := tuples;
    ghost var seen: set<seq<string>> := {};
    while rest != {}
      invariant seen <= tuples && rest == tuples - seen
      invariant count == |Tagged(k, seen)|
      decreases |rest|
    {
      // Naming a member of the non-empty `rest` lets the verifier see that
      // the choice below exists.
      ghost var member := Pick(rest);
      var t :| t in rest;
      if |t| > 1 {
        count := count + 1;
        assert Tagged(k, seen + {t}) == Tagged(k, seen) + {(k, t)};
      } else {
        assert Tagged(k, seen + {t}) == Tagged(k, seen);
      }
      rest := rest - {t};
      seen := seen + {t};
    }
    assert seen == tuples;
  }

  /** The statistics loop over the correspondence, visiting the ids in whatever order
      the dictionary yields them. */
  method Nid2MidStats(
    m: map<int, MidTuples>
  ) returns (total: nat, multipleTuples: nat, multipleMids: nat)
    ensures total == |m|
    ensures multipleTuples == |SharedLabelIds(m)| <= total
    ensures multipleMids == |MultiMidTuples(m)|
    ensures multipleTuples == 0 <==> forall k :: k in m ==> |m[k]| <= 1
    ensures multipleMids == 0 <==> forall k, t :: k in m && t in m[k] ==> |t| <= 1
  {
    multipleTuples := 0;
    multipleMids := 0;
    var remaining := m.Keys;
    ghost var done: set<int> := {};
    while remaining != {}
      invariant done <= m.Keys && remaining == m.Keys - done
      invariant multipleTuples == |SharedLabelIdsOf(m, done)|
      invariant multipleMids == |MultiMidTuplesOf(m, done)|
      decreases |remaining|
    {
      // Naming a member of the non-empty `remaining` lets the verifier see that
      // the choice below exists.
      ghost var member := Pick(remaining);
      var k :| k in remaining;
      SharedLabelIdsStep(m, done, k);
      MultiMidTuplesStep(m, done, k);
      if |m[k]| > 1 {
        multipleTuples := multipleTuples + 1;
      }
      var c := CountMultiMid(k, m[k]);
      multipleMids := multipleMids + c;
      remaining := remaining - {k};
      done := done + {k};
    }
    assert done == m.Keys;
    assert SharedLabelIdsOf(m, done) == SharedLabelIds(m);
    assert MultiMidTuplesOf(m, done) == MultiMidTuples(m);
    total := |m|;
    SubsetCard(SharedLabelIds(m), m.Keys);
    SharedLabelIdsEmpty(m);
    MultiMidTuplesEmpty(m);
  }
}
