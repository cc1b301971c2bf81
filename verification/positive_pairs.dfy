/** `preproc_for_avg_rel_vec` from iter2/gen_predicate_file.py: reads the
    `e1<TAB>e2<TAB>rel<TAB>truth` lines of the labelled files and groups, per
    relation id, the entity pairs of the true lines whose two entities both have a
    vector, counting those lines. */
module PositivePairs {
  import opened Wrappers
  import opened Seqs
  import opened Text
  import opened PyInt
  import opened Dicts
  import opened FreebaseLabels
  import opened AmbiguityFilter

  /** `do_both_entities_have_vectors(e1, e2)`: both ids kept by the filter, and both
      identifiers in the vector vocabulary. */
  predicate BothHaveVectors(n2m: map<int, string>, vocab: set<string>, e1: int, e2: int) {
    e1 in n2m && e2 in n2m && n2m[e1] in vocab && n2m[e2] in vocab
  }

  /** One line: unpack four fields, `int` the two entity ids, and only for a true
      line whose entities have vectors `int` the relation id. `Some((rel, (e1, e2)))`
      when the line is counted, `None` when it is passed over. The unpacking fails
      exactly when the line does not hold three tabs, and a counted pair has vectors. */
  function ParseEerLine(
    line: string,
    n2m: map<int, string>,
    vocab: set<string>
  ): (r: Result<Option<(int, (int, int))>, FaultKind>)
    ensures (r.Err? && r.error.FieldCount?) <==> Count(StripNewlines(line), '\t') != 3
    ensures r.Ok? && r.value.Some? ==> BothHaveVectors(n2m, vocab, r.value.value.1.0, r.value.value.1.1)
  {
    ParseEerFields(Split(StripNewlines(line), '\t'), n2m, vocab)
  }

  /** The same step on the tab-separated fields of the stripped line. */
  function ParseEerFields(
    fields: seq<string>,
    n2m: map<int, string>,
    vocab: set<string>
  ): (r: Result<Option<(int, (int, int))>, FaultKind>)
    ensures (r.Err? && r.error.FieldCount?) <==> |fields| != 4
    ensures r.Ok? && r.value.Some? ==> BothHaveVectors(n2m, vocab, r.value.value.1.0, r.value.value.1.1)
  {
    if |fields| != 4 then Err(FieldCount(4, |fields|))
    else
      match ParseInt(fields[0])
      case None => Err(NotAnInteger(fields[0]))
      case Some(e1) =>
        match ParseInt(fields[1])
        case None => Err(NotAnInteger(fields[1]))
        case Some(e2) =>
          if fields[3] == "1" && BothHaveVectors(n2m, vocab, e1, e2) then
            match ParseInt(fields[2])
            case None => Err(NotAnInteger(fields[2]))
            case Some(rel) => Ok(Some((rel, (e1, e2))))
          else Ok(None)
  }

  /** The fields of a counted line, stated one by one: four fields, integer entity
      ids with vectors, truth `1`, and an integer relation id. */
  predicate FieldsContribute(
    fields: seq<string>,
    n2m: map<int, string>,
    vocab: set<string>,
    rel: int,
    e1: int,
    e2: int
  ) {
    && |fields| == 4
    && ParseInt(fields[0]) == Some(e1)
    && ParseInt(fields[1]) == Some(e2)
    && ParseInt(fields[2]) == Some(rel)
    && fields[3] == "1"
    && BothHaveVectors(n2m, vocab, e1, e2)
  }

  /** A line that is counted. */
  predicate Contributes(
    line: string,
    n2m: map<int, string>,
    vocab: set<string>,
    rel: int,
    e1: int,
    e2: int
  ) {
    FieldsContribute(Split(StripNewlines(line), '\t'), n2m, vocab, rel, e1, e2)
  }

  /** A line is counted iff it has four fields, integer entity ids, truth `1` and
      entities with vectors; the relation id is then read too. */
  predicate Qualifies(line: string, n2m: map<int, string>, vocab: set<string>) {
    ParseEerLine(line, n2m, vocab).Ok? && ParseEerLine(line, n2m, vocab).value.Some?
  }

  /** The counted lines are the contributing ones, with the pair and relation read
      from their fields. */
  lemma ParseEerLineContributes(
    line: string,
    n2m: map<int, string>,
    vocab: set<string>,
    rel: int,
    e1: int,
    e2: int
  )
    ensures ParseEerLine(line, n2m, vocab) == Ok(Some((rel, (e1, e2)))) <==> Contributes(line, n2m, vocab, rel, e1, e2)
  {
    ParseEerFieldsContribute(Split(StripNewlines(line), '\t'), n2m, vocab, rel, e1, e2);
  }

  lemma ParseEerFieldsContribute(
    fields: seq<string>,
    n2m: map<int, string>,
    vocab: set<string>,
    rel: int,
    e1: int,
    e2: int
  )
    ensures ParseEerFields(fields, n2m, vocab) == Ok(Some((rel, (e1, e2))))
            <==> FieldsContribute(fields, n2m, vocab, rel, e1, e2)
  {
  }

  /** Every line of every file reads without raising. */
  predicate AllLinesParse(files: seq<seq<string>>, n2m: map<int, string>, vocab: set<string>) {
    forall i, j :: 0 <= i < |files| && 0 <= j < |files[i]| ==> ParseEerLine(files[i][j], n2m, vocab).Ok?
  }

  /** The table of true pairs per relation, and `num_both_entities_present`. */
  datatype PairTable = PairTable(pairs: map<int, set<(int, int)>>, bothPresent: nat)

  /** The loops over all files and lines, with the entity filter already applied. */
  function CollectPairs(
    files: seq<seq<string>>,
    n2m: map<int, string>,
    vocab: set<string>
  ): (r: Result<PairTable, Located<FaultKind>>)
    ensures r.Ok? <==> AllLinesParse(files, n2m, vocab)
    ensures r.Ok? ==> forall rel :: rel in r.value.pairs ==> r.value.pairs[rel] != {}
  {
    var lines := Flatten(files);
    var f := line => ParseEerLine(line, n2m, vocab);
    FlattenAll(files, line => f(line).Ok?);
    match Traverse(lines, f)
    case Err(e) => Err(e)
    case Ok(outs) =>
      var hits := Somes(outs);
      Ok(PairTable(Group(hits), |hits|))
  }

  /** The whole function: `filter_n2m` on the NELL-to-Freebase table, then the loops. */
  function PreprocForAvgRelVec(
    files: seq<seq<string>>,
    nid2mid: map<int, MidTuples>,
    vocab: set<string>
  ): (r: Result<PairTable, Located<FaultKind>>)
    ensures r.Ok? <==> AllLinesParse(files, FilterN2M(nid2mid), vocab)
  {
    CollectPairs(files, FilterN2M(nid2mid), vocab)
  }

  /** A relation holds a pair iff some line of some file contributes it. */
  lemma CollectPairsMembership(
    files: seq<seq<string>>,
    n2m: map<int, string>,
    vocab: set<string>,
    rel: int,
    e1: int,
    e2: int
  )
    requires AllLinesParse(files, n2m, vocab)
    ensures var pairs := CollectPairs(files, n2m, vocab).value.pairs;
            (rel in pairs && (e1, e2) in pairs[rel])
            <==> exists fi, li ::
                   0 <= fi < |files| && 0 <= li < |files[fi]| && Contributes(files[fi][li], n2m, vocab, rel, e1, e2)
  {
    assert CollectPairs(files, n2m, vocab).Ok?;
    var lines := Flatten(files);
    var f := line => ParseEerLine(line, n2m, vocab);
    var hits := Somes(Traverse(lines, f).value);
    var x := (rel, (e1, e2));
    GroupPairs(hits);
    assert (rel in Group(hits) && (e1, e2) in Group(hits)[rel]) <==> x in hits by {
      assert (rel in Group(hits) && (e1, e2) in Group(hits)[rel]) <==> x in Pairs(Group(hits));
    }
    TraverseSomes(lines, f, x);
    if x in hits {
      var j :| 0 <= j < |lines| && f(lines[j]) == Ok(Some(x));
      ParseEerLineContributes(lines[j], n2m, vocab, rel, e1, e2);
      FlattenIndex(files, lines[j]);
    }
    if exists fi, li ::
         0 <= fi < |files| && 0 <= li < |files[fi]| && Contributes(files[fi][li], n2m, vocab, rel, e1, e2)
    {
      var fi, li :|
        0 <= fi < |files| && 0 <= li < |files[fi]| && Contributes(files[fi][li], n2m, vocab, rel, e1, e2);
      var line := files[fi][li];
      FlattenIndex(files, line);
      var j :| 0 <= j < |lines| && lines[j] == line;
      ParseEerLineContributes(line, n2m, vocab, rel, e1, e2);
    }
  }

  /** Every counted pair names two entities the filter kept, whose identifiers are
      in the vocabulary: the vector lookups made for the pair later cannot fail. */
  lemma PairsHaveVectors(
    files: seq<seq<string>>,
    nid2mid: map<int, MidTuples>,
    vocab: set<string>,
    rel: int,
    e1: int,
    e2: int
  )
    requires AllLinesParse(files, FilterN2M(nid2mid), vocab)
    requires var pairs := PreprocForAvgRelVec(files, nid2mid, vocab).value.pairs;
             rel in pairs && (e1, e2) in pairs[rel]
    ensures var n2m := FilterN2M(nid2mid);
            && BothHaveVectors(n2m, vocab, e1, e2)
            && nid2mid[e1] == {[n2m[e1]]} && nid2mid[e2] == {[n2m[e2]]}
  {
    CollectPairsMembership(files, FilterN2M(nid2mid), vocab, rel, e1, e2);
  }

  /** `num_both_entities_present` counts the lines that qualify, one per line,
      repeated lines included. */
  lemma BothPresentCountsLines(files: seq<seq<string>>, n2m: map<int, string>, vocab: set<string>)
    requires AllLinesParse(files, n2m, vocab)
    ensures CollectPairs(files, n2m, vocab).value.bothPresent
            == CountWhere(Flatten(files), line => Qualifies(line, n2m, vocab))
  {
    assert CollectPairs(files, n2m, vocab).Ok?;
    var lines := Flatten(files);
    var f := line => ParseEerLine(line, n2m, vocab);
    TraverseCount(lines, f, line => Qualifies(line, n2m, vocab));
  }

  /** Duplicate lines collapse in the sets, so the table never holds more pairs
      than lines were counted. */
  lemma PairsBoundedByCount(files: seq<seq<string>>, n2m: map<int, string>, vocab: set<string>)
    requires AllLinesParse(files, n2m, vocab)
    ensures var t := CollectPairs(files, n2m, vocab).value;
            |Pairs(t.pairs)| <= t.bothPresent
  {
    assert CollectPairs(files, n2m, vocab).Ok?;
    var hits := Somes(Traverse(Flatten(files), line => ParseEerLine(line, n2m, vocab)).value);
    GroupPairs(hits);
    ElementsBound(hits);
  }

  /** Three integers and a last field, separated by tabs and ended by a newline: the
      shape of the lines both scripts read and write. */
  function TabLine(a: int, b: int, c: int, last: string): string {
    FormatInt(a) + "\t" + FormatInt(b) + "\t" + FormatInt(c) + "\t" + last + "\n"
  }

  /** Such a line splits back into exactly its four fields. */
  lemma TabLineFields(a: int, b: int, c: int, last: string)
    requires '\t' !in last
    requires last == [] || last[|last| - 1] != '\n'
    ensures Split(StripNewlines(TabLine(a, b, c, last)), '\t') == [FormatInt(a), FormatInt(b), FormatInt(c), last]
  {
    var fields := [FormatInt(a), FormatInt(b), FormatInt(c), last];
    var body := FormatInt(a) + "\t" + FormatInt(b) + "\t" + FormatInt(c) + "\t" + last;
    assert '\t' !in FormatInt(a) && '\t' !in FormatInt(b) && '\t' !in FormatInt(c);
    assert Join(fields, '\t') == body by {
      assert fields[1..] == [FormatInt(b), FormatInt(c), last];
      assert fields[1..][1..] == [FormatInt(c), last];
      assert fields[1..][1..][1..] == [last];
      assert Join([last], '\t') == last;
      assert Join([FormatInt(c), last], '\t') == FormatInt(c) + "\t" + last;
      assert Join(fields[1..], '\t') == FormatInt(b) + "\t" + (FormatInt(c) + "\t" + last);
    }
    assert body[0] == FormatInt(a)[0] && body[|body| - 1] == if last == [] then '\t' else last[|last| - 1];
    SplitLine(fields, '\t', body + "\n");
  }

  /** A line written as the two entity ids, the relation id and a truth field
      reads back as its fields: counted iff truth is `1` and both entities have vectors. */
  lemma ParseEerLineRoundTrip(
    e1: int,
    e2: int,
    rel: int,
    truth: string,
    n2m: map<int, string>,
    vocab: set<string>
  )
    requires '\t' !in truth
    requires truth == [] || truth[|truth| - 1] != '\n'
    ensures ParseEerLine(TabLine(e1, e2, rel, truth), n2m, vocab)
            == Ok(if truth == "1" && BothHaveVectors(n2m, vocab, e1, e2) then Some((rel, (e1, e2))) else None)
  {
    TabLineFields(e1, e2, rel, truth);
    ParseEerFieldsFormatted(e1, e2, rel, truth, n2m, vocab);
  }

  lemma ParseEerFieldsFormatted(
    e1: int,
    e2: int,
    rel: int,
    truth: string,
    n2m: map<int, string>,
    vocab: set<string>
  )
    ensures ParseEerFields([FormatInt(e1), FormatInt(e2), FormatInt(rel), truth], n2m, vocab)
            == Ok(if truth == "1" && BothHaveVectors(n2m, vocab, e1, e2) then Some((rel, (e1, e2))) else None)
  {
    ParseFormatInt(e1);
    ParseFormatInt(e2);
    ParseFormatInt(rel);
  }
}
