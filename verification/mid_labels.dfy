/** `mid2wdlbl` from iter1/nell2freebase.py: every Freebase identifier listed by a
    Wikidata record is mapped to that record's English label, taken as it is (not
    normalized). The pickle it is saved to is left to the caller. */
module MidLabels {
  import opened Wrappers
  import opened Seqs
  import opened Dicts
  import opened FreebaseLabels

  /** The Freebase identifiers a record lists, or none when the field is absent. */
  function Mids(r: WikidataRecord): seq<string> {
    if r.freebaseIds.Some? then r.freebaseIds.value else []
  }

  /** A record the loop gets through: `d['freebase_ids']` is always read, and
      `d['en_label']` only inside the loop over the identifiers. */
  predicate Readable(r: WikidataRecord) {
    r.freebaseIds.Some? && (|r.freebaseIds.value| > 0 ==> r.enLabel.Some?)
  }

  /** The writes one record makes: each of its Freebase identifiers gets the
      record's English label, as `(fbid, label)` pairs. */
  function MidEntries(r: WikidataRecord): (res: Result<seq<(string, string)>, FaultKind>)
    ensures res.Ok? <==> Readable(r)
    ensures r.freebaseIds.None? ==> res == Err(MissingKey("freebase_ids"))
    ensures res.Ok? ==> KeysOf(res.value) == Elements(Mids(r))
    ensures res.Ok? ==> forall i :: 0 <= i < |res.value| ==> r.enLabel == Some(res.value[i].1)
  {
    match r.freebaseIds
    case None => Err(MissingKey("freebase_ids"))
    case Some(ids) =>
      if |ids| == 0 then Ok([])
      else
        match r.enLabel
        case None => Err(MissingKey("en_label"))
        case Some(l) =>
          var entries := seq(|ids|, i requires 0 <= i < |ids| => (ids[i], l));
          assert KeysOf(entries) == Elements(ids) by {
            forall x | x in Elements(ids)
              ensures x in KeysOf(entries)
            {
              var i :| 0 <= i < |ids| && ids[i] == x;
              assert entries[i].0 == x;
            }
          }
          Ok(entries)
  }

  /** The whole function over the decoded lines; the first unreadable record aborts it. */
  function MidToLabel(
    records: seq<WikidataRecord>
  ): (res: Result<map<string, string>, Located<FaultKind>>)
    ensures res.Ok? <==> forall i :: 0 <= i < |records| ==> Readable(records[i])
    ensures res.Err? ==> res.error.index < |records| && !Readable(records[res.error.index])
  {
    match Traverse(records, MidEntries)
    case Err(e) => Err(e)
    case Ok(per) => Ok(Assign(Flatten(per)))
  }

  /** The dictionary has an entry for exactly the identifiers some record lists. */
  lemma MidToLabelKeys(records: seq<WikidataRecord>, mid: string)
    requires MidToLabel(records).Ok?
    ensures mid in MidToLabel(records).value <==> exists i :: 0 <= i < |records| && mid in Mids(records[i])
  {
    var per := Traverse(records, MidEntries).value;
    KeysOfFlatten(per, mid);
    if exists j :: 0 <= j < |per| && mid in KeysOf(per[j]) {
      var j :| 0 <= j < |per| && mid in KeysOf(per[j]);
      assert MidEntries(records[j]) == Ok(per[j]);
      assert mid in Elements(Mids(records[j]));
    }
    if exists i :: 0 <= i < |records| && mid in Mids(records[i]) {
      var i :| 0 <= i < |records| && mid in Mids(records[i]);
      assert MidEntries(records[i]) == Ok(per[i]);
      assert mid in Elements(Mids(records[i]));
    }
  }

  /** An identifier listed by several records keeps the label of the last of them. */
  lemma MidToLabelLastRecord(records: seq<WikidataRecord>, i: nat, mid: string)
    requires MidToLabel(records).Ok?
    requires i < |records| && mid in Mids(records[i])
    requires forall j :: i < j < |records| ==> mid !in Mids(records[j])
    ensures records[i].enLabel.Some? && mid in MidToLabel(records).value
    ensures MidToLabel(records).value[mid] == records[i].enLabel.value
  {
    var per := Traverse(records, MidEntries).value;
    assert MidEntries(records[i]) == Ok(per[i]);
    assert mid in Elements(Mids(records[i]));
    forall j | i < j < |per|
      ensures mid !in KeysOf(per[j])
    {
      assert MidEntries(records[j]) == Ok(per[j]);
      assert mid !in Elements(Mids(records[j]));
    }
    AssignFlattenLast(per, i, mid);
    AssignConstant(per[i], records[i].enLabel.value, mid);
  }
}
