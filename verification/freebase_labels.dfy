/** `get_fblbls_to_mids` from iter1/nell2freebase.py: from decoded Wikidata records,
    every normalized English label, alias and Wikipedia page title is mapped to the
    set of Freebase identifier tuples of the records that carry it. */
module FreebaseLabels {
  import opened Wrappers
  import opened Seqs
  import opened Dicts
  import opened Normalization

  /** The Freebase identifiers of Wikidata entities, one `tuple(freebase_ids)` per entity. */
  type MidTuples = set<seq<string>>

  datatype WikipediaPage = WikipediaPage(title: Option<string>)

  /** One decoded JSON line; a field the line lacks is `None`. */
  datatype WikidataRecord = WikidataRecord(
    enLabel: Option<string>,
    enAliases: Option<seq<string>>,
    enWikipediaPage: Option<WikipediaPage>,
    freebaseIds: Option<seq<string>>)

  /** The texts the record is known by, in the order the loop visits them: the
      label, each alias, the page title. */
  function LabelFields(r: WikidataRecord): seq<string>
  {
    (if r.enLabel.Some? then [r.enLabel.value] else [])
    + (if r.enAliases.Some? then r.enAliases.value else [])
    + (if r.enWikipediaPage.Some? && r.enWikipediaPage.value.title.Some?
       then [r.enWikipediaPage.value.title.value]
       else [])
  }

  /** The `(normalized text, tuple(freebase_ids))` entries one record adds. The
      identifiers are read only when the record has some text to file them under,
      so only then does a missing `freebase_ids` raise. */
  function RecordEntries(r: WikidataRecord): (res: Result<seq<(string, seq<string>)>, FaultKind>)
    ensures res.Err? <==> |LabelFields(r)| > 0 && r.freebaseIds.None?
  {
    var texts := LabelFields(r);
    if |texts| == 0 then Ok([])
    else
      match r.freebaseIds
      case None => Err(MissingKey("freebase_ids"))
      case Some(ids) => Ok(seq(|texts|, i requires 0 <= i < |texts| => (Normalize(texts[i]), ids)))
  }

  /** Every record that has a text to file also has its identifiers. */
  predicate AllRecordsRead(records: seq<WikidataRecord>) {
    forall i :: 0 <= i < |records| && |LabelFields(records[i])| > 0 ==> records[i].freebaseIds.Some?
  }

  /** The whole function over the decoded lines. */
  function GetFbLabelsToMids(
    records: seq<WikidataRecord>
  ): (res: Result<map<string, MidTuples>, Located<FaultKind>>)
    ensures res.Ok? <==> AllRecordsRead(records)
    ensures res.Ok? ==> forall k :: k in res.value ==> res.value[k] != {} && IsNormalized(k)
  {
    match Traverse(records, RecordEntries)
    case Err(e) => Err(e)
    case Ok(per) =>
      var m := Group(Flatten(per));
      assert forall k :: k in m ==> IsNormalized(k) by {
        forall k | k in m
          ensures IsNormalized(k)
        {
          var flat := Flatten(per);
          var j :| 0 <= j < |flat| && flat[j].0 == k;
          FlattenMembership(per, flat[j]);
          var i :| 0 <= i < |per| && flat[j] in per[i];
          assert RecordEntries(records[i]) == Ok(per[i]);
        }
      }
      Ok(m)
  }

  /** Record `r` files the tuple `t` under key `k`: one of its texts normalizes
      to `k` and its identifier tuple is `t`. */
  predicate Files(r: WikidataRecord, k: string, t: seq<string>) {
    && r.freebaseIds == Some(t)
    && exists j :: 0 <= j < |LabelFields(r)| && Normalize(LabelFields(r)[j]) == k
  }

  lemma RecordEntriesFiles(r: WikidataRecord, k: string, t: seq<string>)
    requires RecordEntries(r).Ok?
    ensures (k, t) in RecordEntries(r).value <==> Files(r, k, t)
  {
    var texts := LabelFields(r);
    if (k, t) in RecordEntries(r).value {
      var j :| 0 <= j < |RecordEntries(r).value| && RecordEntries(r).value[j] == (k, t);
      assert Normalize(texts[j]) == k;
    }
    if Files(r, k, t) {
      var j :| 0 <= j < |texts| && Normalize(texts[j]) == k;
      assert RecordEntries(r).value[j] == (k, t);
    }
  }

  /** The table holds `t` under `k` exactly when some record files it there: every
      label, alias and title contributes, and nothing else does. */
  lemma FbLabelsMembership(records: seq<WikidataRecord>, k: string, t: seq<string>)
    requires AllRecordsRead(records)
    ensures var m := GetFbLabelsToMids(records).value;
            (k in m && t in m[k]) <==> exists i :: 0 <= i < |records| && Files(records[i], k, t)
  {
    var per := Traverse(records, RecordEntries).value;
    var flat := Flatten(per);
    var m := GetFbLabelsToMids(records).value;
    assert m == Group(flat);
    GroupPairs(flat);
    assert (k in m && t in m[k]) <==> (k, t) in Pairs(m);
    FlattenMembership(per, (k, t));
    if (k, t) in flat {
      var i :| 0 <= i < |per| && (k, t) in per[i];
      RecordEntriesFiles(records[i], k, t);
    }
    if exists i :: 0 <= i < |records| && Files(records[i], k, t) {
      var i :| 0 <= i < |records| && Files(records[i], k, t);
      RecordEntriesFiles(records[i], k, t);
      assert (k, t) in per[i];
    }
  }
}
