/** `get_nell_labels_to_ids` from iter1/nell2freebase.py: reads `id<TAB>label` lines
    and builds the label -> id dictionary, counting lines whose label was already
    present (the "strange activity" counter). */
module NellLabels {
  import opened Wrappers
  import opened Text
  import opened PyInt
  import opened Dicts

  /** One line: strip its newlines, split it on tabs into the id text and the label,
      and read the id as an integer. The label and the id, or the reason the
      unpacking or `int` raises: the unpacking fails exactly when the line does not
      hold one tab, and a label never holds a tab. */
  function ParseIdLabel(line: string): (r: Result<(string, int), FaultKind>)
    ensures (r.Err? && r.error.FieldCount?) <==> Count(StripNewlines(line), '\t') != 1
    ensures r.Ok? ==> '\t' !in r.value.0
  {
    ParseIdLabelFields(Split(StripNewlines(line), '\t'))
  }

  /** The same step on the tab-separated fields of the stripped line. */
  function ParseIdLabelFields(fields: seq<string>): Result<(string, int), FaultKind>
  {
    if |fields| != 2 then Err(FieldCount(2, |fields|))
    else
      match ParseInt(fields[0])
      case None => Err(NotAnInteger(fields[0]))
      case Some(id) => Ok((fields[1], id))
  }

  /** A line as the label file writes it reads back as its id and label. */
  lemma ParseIdLabelRoundTrip(id: int, entityLabel: string)
    requires '\t' !in entityLabel
    requires entityLabel == [] || entityLabel[|entityLabel| - 1] != '\n'
    ensures ParseIdLabel(FormatInt(id) + "\t" + entityLabel + "\n") == Ok((entityLabel, id))
  {
    IdLabelFields(id, entityLabel);
    ParseFormatInt(id);
  }

  lemma IdLabelFields(id: int, entityLabel: string)
    requires '\t' !in entityLabel
    requires entityLabel == [] || entityLabel[|entityLabel| - 1] != '\n'
    ensures Split(StripNewlines(FormatInt(id) + "\t" + entityLabel + "\n"), '\t') == [FormatInt(id), entityLabel]
  {
    var fields := [FormatInt(id), entityLabel];
    var body := FormatInt(id) + "\t" + entityLabel;
    assert '\t' !in FormatInt(id);
    assert Join(fields, '\t') == body by {
      assert fields[1..] == [entityLabel];
    }
    assert body[0] == FormatInt(id)[0];
    SplitLine(fields, '\t', body + "\n");
  }

  /** The dictionary in iteration order, and the number of lines that rewrote an
      existing label. */
  datatype LabelIndex = LabelIndex(labelToId: seq<(string, int)>, repeats: nat)

  /** The loop body: a label already in the dictionary bumps the counter, then the
      label is (re)written with the line's id. Every line either adds a label or
      counts as a repeat. */
  function IndexLabels(pairs: seq<(string, int)>): (r: LabelIndex)
    ensures r.repeats + |r.labelToId| == |pairs|
    decreases |pairs|
  {
    if |pairs| == 0 then LabelIndex([], 0)
    else
      var prev := IndexLabels(pairs[..|pairs| - 1]);
      var (entityLabel, id) := pairs[|pairs| - 1];
      var seen := Get(prev.labelToId, entityLabel).Some?;
      PutLength(prev.labelToId, entityLabel, id);
      LabelIndex(Put(prev.labelToId, entityLabel, id), prev.repeats + if seen then 1 else 0)
  }

  /** Every line has two fields and an integer id. */
  predicate AllLinesParse(lines: seq<string>) {
    forall i :: 0 <= i < |lines| ==> ParseIdLabel(lines[i]).Ok?
  }

  /** The whole function: every line parsed in order, the first bad line aborts. */
  function GetNellLabelsToIds(lines: seq<string>): (r: Result<LabelIndex, Located<FaultKind>>)
    ensures r.Ok? <==> AllLinesParse(lines)
  {
    match Traverse(lines, ParseIdLabel)
    case Err(e) => Err(e)
    case Ok(pairs) => Ok(IndexLabels(pairs))
  }

  /** The dictionary the loop builds is the ordered `d[k] = v` loop over the lines:
      so its labels are distinct and are exactly the labels of the lines. */
  lemma {:induction false} IndexLabelsIsPutAll(pairs: seq<(string, int)>)
    ensures IndexLabels(pairs).labelToId == PutAll(pairs)
    ensures DistinctKeys(IndexLabels(pairs).labelToId)
    ensures KeysOf(IndexLabels(pairs).labelToId) == KeysOf(pairs)
    decreases |pairs|
  {
    if |pairs| > 0 {
      IndexLabelsIsPutAll(pairs[..|pairs| - 1]);
    }
  }

  /** One pass of the loop body: look the label up, then write it. */
  lemma IndexLabelsStep(pairs: seq<(string, int)>, n: nat)
    requires n + 1 == |pairs|
    ensures IndexLabels(pairs).labelToId == Put(IndexLabels(pairs[..n]).labelToId, pairs[n].0, pairs[n].1)
    ensures IndexLabels(pairs).repeats
            == IndexLabels(pairs[..n]).repeats
               + if Get(IndexLabels(pairs[..n]).labelToId, pairs[n].0).Some? then 1 else 0
  {
  }

  /** Last writer wins: a label maps to the id on the last line carrying it, and
      only labels that occur on some line are keys. */
  lemma LabelIndexLastWriter(pairs: seq<(string, int)>, i: nat)
    requires i < |pairs| && IsLastWrite(pairs, i)
    ensures Get(IndexLabels(pairs).labelToId, pairs[i].0) == Some(pairs[i].1)
  {
    IndexLabelsIsPutAll(pairs);
    PutAllAgreesWithAssign(pairs, pairs[i].0);
    AssignLastWrite(pairs, i);
  }

  /** The line at `i` carries a label an earlier line already carried. */
  predicate RepeatsEarlier(pairs: seq<(string, int)>, i: int)
    requires 0 <= i < |pairs|
  {
    exists j :: 0 <= j < i && pairs[j].0 == pairs[i].0
  }

  function RepeatedLines(pairs: seq<(string, int)>): set<int> {
    set i | 0 <= i < |pairs| && RepeatsEarlier(pairs, i)
  }

  lemma RepeatedLinesSnoc(pairs: seq<(string, int)>, n: nat)
    requires n + 1 == |pairs|
    ensures RepeatedLines(pairs) == RepeatedLines(pairs[..n]) + if RepeatsEarlier(pairs, n) then {n} else {}
  {
    var prefix := pairs[..n];
    forall i | 0 <= i < n
      ensures RepeatsEarlier(pairs, i) <==> RepeatsEarlier(prefix, i)
    {
      if RepeatsEarlier(pairs, i) {
        var j :| 0 <= j < i && pairs[j].0 == pairs[i].0;
        assert prefix[j].0 == prefix[i].0;
      }
      if RepeatsEarlier(prefix, i) {
        var j :| 0 <= j < i && prefix[j].0 == prefix[i].0;
        assert pairs[j].0 == pairs[i].0;
      }
    }
  }

  /** `label in label2id` holds exactly when an earlier line carried the label. */
  lemma SeenIffRepeats(pairs: seq<(string, int)>, n: nat)
    requires n + 1 == |pairs|
    ensures Get(IndexLabels(pairs[..n]).labelToId, pairs[n].0).Some? <==> RepeatsEarlier(pairs, n)
  {
    var prefix := pairs[..n];
    IndexLabelsIsPutAll(prefix);
    if RepeatsEarlier(pairs, n) {
      var j :| 0 <= j < n && pairs[j].0 == pairs[n].0;
      assert prefix[j].0 == pairs[n].0;
    }
    if pairs[n].0 in KeysOf(prefix) {
      var j :| 0 <= j < |prefix| && prefix[j].0 == pairs[n].0;
      assert pairs[j].0 == pairs[n].0;
    }
  }

  /** One step of the loop adds one to the counter exactly for a repeated label. */
  lemma RepeatsStep(pairs: seq<(string, int)>, n: nat)
    requires n + 1 == |pairs|
    ensures IndexLabels(pairs).repeats == IndexLabels(pairs[..n]).repeats + if RepeatsEarlier(pairs, n) then 1 else 0
  {
    IndexLabelsStep(pairs, n);
    SeenIffRepeats(pairs, n);
  }

  /** One more line adds one repeated line exactly when its label repeats. */
  lemma RepeatedLinesCardSnoc(pairs: seq<(string, int)>, n: nat)
    requires n + 1 == |pairs|
    ensures |RepeatedLines(pairs)| == |RepeatedLines(pairs[..n])| + if RepeatsEarlier(pairs, n) then 1 else 0
  {
    RepeatedLinesSnoc(pairs, n);
    var before := RepeatedLines(pairs[..n]);
    assert n !in before;
  }

  /** The counter is the number of lines whose label already appeared on an
      earlier line. */
  lemma {:induction false} RepeatsCountRepeatedLines(pairs: seq<(string, int)>)
    ensures IndexLabels(pairs).repeats == |RepeatedLines(pairs)|
    decreases |pairs|
  {
    if |pairs| > 0 {
      var n := |pairs| - 1;
      RepeatsCountRepeatedLines(pairs[..n]);
      RepeatsStep(pairs, n);
      RepeatedLinesCardSnoc(pairs, n);
    }
  }
}
