/** `create_w2v_predicate_file` from iter2/gen_predicate_file.py: for every relation
    and every entity pair of it, one line `e1<TAB>e2<TAB>rel<TAB>score` where the score
    is the cosine between the pair's vector difference and the relation's average
    difference, raised to zero when negative. The word vectors and the cosine are
    not modelled: the cosine for `(rel, e1, e2)` is a parameter. */
module PredicateFile {
  import opened Wrappers
  import opened Seqs
  import opened Text
  import opened PyInt
  import opened Dicts
  import opened FreebaseLabels
  import opened AmbiguityFilter
  import opened PositivePairs

  /** The value written in the last column: the integer `0` when the cosine was
      negative, the cosine itself otherwise. */
  datatype Score = ClampedToZero | Cosine(value: real)
  {
    function Value(): real {
      match this
      case ClampedToZero => 0.0
      case Cosine(v) => v
    }
  }

  /** A negative cosine is replaced by the integer zero. */
  function Clamp(cosine: real): (s: Score)
    ensures s.Value() >= 0.0
    ensures s.Value() >= cosine
    ensures cosine >= 0.0 ==> s.Value() == cosine
    ensures s.ClampedToZero? <==> cosine < 0.0
  {
    if cosine < 0.0 then ClampedToZero else Cosine(cosine)
  }

  /** One line of the predicate file. */
  datatype PredicateLine = PredicateLine(e1: int, e2: int, rel: int, score: Score)

  /** The `(relation, (e1, e2))` a line is about, in the shape of the table's pairs. */
  function Key(l: PredicateLine): (int, (int, int)) {
    (l.rel, (l.e1, l.e2))
  }

  function LineKeys(lines: seq<PredicateLine>): set<(int, (int, int))> {
    set i | 0 <= i < |lines| :: Key(lines[i])
  }

  /** No two lines are about the same relation and pair. */
  predicate DistinctLines(lines: seq<PredicateLine>) {
    forall i, j :: 0 <= i < j < |lines| ==> Key(lines[i]) != Key(lines[j])
  }

  /** Every line carries the clamped cosine of its own relation and pair. */
  predicate ScoredBy(lines: seq<PredicateLine>, cosine: (int, int, int) -> real) {
    forall i :: 0 <= i < |lines| ==> lines[i].score == Clamp(cosine(lines[i].rel, lines[i].e1, lines[i].e2))
  }

  /** Every relation has a pair to average over; otherwise `vector_sum / n` divides
      by zero. */
  predicate AveragesDefined(table: map<int, set<(int, int)>>) {
    forall rel :: rel in table ==> table[rel] != {}
  }

  /** Adding a line about a new key grows the key set by that key. */
  lemma LineKeysSnoc(lines: seq<PredicateLine>, l: PredicateLine)
    ensures LineKeys(lines + [l]) == LineKeys(lines) + {Key(l)}
  {
    var ls := lines + [l];
    forall k | k in LineKeys(ls)
      ensures k in LineKeys(lines) + {Key(l)}
    {
      var i :| 0 <= i < |ls| && Key(ls[i]) == k;
      if i < |lines| {
        assert Key(lines[i]) == k;
      }
    }
    forall k | k in LineKeys(lines)
      ensures k in LineKeys(ls)
    {
      var i :| 0 <= i < |lines| && Key(lines[i]) == k;
      assert Key(ls[i]) == k;
    }
    assert Key(ls[|lines|]) == Key(l);
  }

  /** The pairs of the relations in `rels`. */
  function PairsOf(table: map<int, set<(int, int)>>, rels: set<int>): set<(int, (int, int))> {
    set rel, p | rel in rels && rel in table && p in table[rel] :: (rel, p)
  }

  /** The first loop: every relation's summed vector is divided by its number of
      pairs, in the dictionary's order; a relation without pairs raises. */
  method CheckAverages(table: map<int, set<(int, int)>>) returns (r: Option<int>)
    ensures r.None? <==> AveragesDefined(table)
    ensures r.Some? ==> r.value in table && table[r.value] == {}
  {
    var remaining := table.Keys;
    while remaining != {}
      invariant remaining <= table.Keys
      invariant forall rel :: rel in table && rel !in remaining ==> table[rel] != {}
      decreases |remaining|
    {
      // Naming a member of the non-empty `remaining` lets the verifier see that
      // the choice below exists.
      ghost var member := Pick(remaining);
      var rel :| rel in remaining;
      if table[rel] == {} {
        return Some(rel);
      }
      remaining := remaining - {rel};
    }
    return None;
  }

  /** Writing a line about a key not written yet keeps the lines distinct and
      scored, and adds its key. */
  lemma AppendLine(lines: seq<PredicateLine>, l: PredicateLine, cosine: (int, int, int) -> real)
    requires DistinctLines(lines) && ScoredBy(lines, cosine)
    requires Key(l) !in LineKeys(lines)
    requires l.score == Clamp(cosine(l.rel, l.e1, l.e2))
    ensures DistinctLines(lines + [l]) && ScoredBy(lines + [l], cosine)
    ensures LineKeys(lines + [l]) == LineKeys(lines) + {Key(l)}
  {
    forall i | 0 <= i < |lines|
      ensures Key(lines[i]) != Key(l)
    {
      assert Key(lines[i]) in LineKeys(lines);
    }
    LineKeysSnoc(lines, l);
  }

  /** Appending keeps a prefix in place. */
  lemma PrefixSnoc<T>(s: seq<T>, prefix: seq<T>, x: T)
    requires |prefix| <= |s| && s[..|prefix|] == prefix
    ensures (s + [x])[..|prefix|] == prefix
  {
    assert (s + [x])[..|prefix|] == s[..|prefix|];
  }

  /** The keys of the lines about relation `rel` and the pairs in `pairs`. */
  function Tags(rel: int, pairs: set<(int, int)>): set<(int, (int, int))> {
    set q | q in pairs :: (rel, q)
  }

  /** Tagging one more pair adds its key, not seen before. */
  lemma TagStep(rel: int, done: set<(int, int)>, p: (int, int))
    requires p !in done
    ensures Tags(rel, done + {p}) == Tags(rel, done) + {(rel, p)}
    ensures (rel, p) !in Tags(rel, done)
    ensures |done + {p}| == |done| + 1
  {
  }

  /** The inner writing loop for one relation: one line per pair, each line
      counted as it is written. */
  method WriteRelation(
    rel: int,
    elist: set<(int, int)>,
    cosine: (int, int, int) -> real,
    lines: seq<PredicateLine>,
    counter: nat
  ) returns (out: seq<PredicateLine>, counterOut: nat)
    requires DistinctLines(lines) && ScoredBy(lines, cosine)
    requires forall p :: p in elist ==> (rel, p) !in LineKeys(lines)
    ensures |out| == |lines| + |elist|
    ensures counterOut == counter + |elist|
    ensures out[..|lines|] == lines
    ensures DistinctLines(out)
    ensures LineKeys(out) == LineKeys(lines) + Tags(rel, elist)
    ensures ScoredBy(out, cosine)
  {
    out := lines;
    counterOut := counter;
    var rest := elist;
    ghost var done: set<(int, int)> := {};
    while rest != {}
      invariant done <= elist && rest == elist - done
      invariant |out| == |lines| + |done|
      invariant counterOut == counter + |done|
      invariant out[..|lines|] == lines
      invariant DistinctLines(out)
      invariant LineKeys(out) == LineKeys(lines) + Tags(rel, done)
      invariant ScoredBy(out, cosine)
      decreases |rest|
    {
      // Naming a member of the non-empty `rest` lets the verifier see that
      // the choice below exists.
      ghost var member := Pick(rest);
      var p :| p in rest;
      var l := PredicateLine(p.0, p.1, rel, Clamp(cosine(rel, p.0, p.1)));
      AppendLine(out, l, cosine);
      TagStep(rel, done, p);
      PrefixSnoc(out, lines, l);
      out := out + [l];
      counterOut := counterOut + 1;
      rest := rest - {p};
      done := done + {p};
    }
    assert done == elist;
  }

  /** The second loop, over the relations and then over each relation's pairs,
      writing one line per relation and pair and counting them. */
  method WriteLines(table: map<int, set<(int, int)>>, cosine: (int, int, int) -> real)
    returns (lines: seq<PredicateLine>, counter: nat)
    ensures counter == |lines| == |Pairs(table)|
    ensures LineKeys(lines) == Pairs(table)
    ensures DistinctLines(lines)
    ensures ScoredBy(lines, cosine)
  {
    lines := [];
    counter := 0;
    var remaining := table.Keys;
    ghost var done: set<int> := {};
    while remaining != {}
      invariant done <= table.Keys && remaining == table.Keys - done
      invariant counter == |lines| == |PairsOf(table, done)|
      invariant LineKeys(lines) == PairsOf(table, done)
      invariant DistinctLines(lines) && ScoredBy(lines, cosine)
      decreases |remaining|
    {
      // Naming a member of the non-empty `remaining` lets the verifier see that
      // the choice below exists.
      ghost var member := Pick(remaining);
      var rel :| rel in remaining;
      PairsOfStep(table, done, rel);
      lines, counter := WriteRelation(rel, table[rel], cosine, lines, counter);
      remaining := remaining - {rel};
      done := done + {rel};
    }
    assert done == table.Keys;
    PairsOfAll(table);
  }

  /** The whole function over a table of pairs: the averages, then the lines, with
      `counter` lines written. A relation without pairs raises before anything is
      written, reported as that relation. */
  method WritePredicateFile(table: map<int, set<(int, int)>>, cosine: (int, int, int) -> real)
    returns (r: Result<(seq<PredicateLine>, nat), int>)
    ensures r.Err? <==> !AveragesDefined(table)
    ensures r.Err? ==> r.error in table && table[r.error] == {}
    ensures r.Ok? ==>
              && r.value.1 == |r.value.0| == |Pairs(table)|
              && LineKeys(r.value.0) == Pairs(table)
              && DistinctLines(r.value.0)
              && ScoredBy(r.value.0, cosine)
  {
    var empty := CheckAverages(table);
    if empty.Some? {
      return Err(empty.value);
    }
    var lines, counter := WriteLines(table, cosine);
    return Ok((lines, counter));
  }

  /** Visiting one more relation adds its pairs, none of them seen before. */
  lemma PairsOfStep(table: map<int, set<(int, int)>>, done: set<int>, rel: int)
    requires rel in table && rel !in done
    ensures PairsOf(table, done + {rel}) == PairsOf(table, done) + Tags(rel, table[rel])
    ensures |PairsOf(table, done + {rel})| == |PairsOf(table, done)| + |table[rel]|
  {
    var added := Tags(rel, table[rel]);
    assert PairsOf(table, done + {rel}) == PairsOf(table, done) + added;
    assert PairsOf(table, done) !! added;
    PairCount(rel, table[rel]);
  }

  /** Once every relation is visited, the lines cover the whole table. */
  lemma PairsOfAll(table: map<int, set<(int, int)>>)
    ensures PairsOf(table, table.Keys) == Pairs(table)
  {
    forall x | x in Pairs(table)
      ensures x in PairsOf(table, table.Keys)
    {
      var (rel, p) := x;
      assert rel in table && p in table[rel];
      assert (rel, p) in PairsOf(table, table.Keys);
    }
  }

  /** Tagging every pair with the relation loses none of them. */
  lemma {:induction false} PairCount(rel: int, elist: set<(int, int)>)
    ensures |Tags(rel, elist)| == |elist|
    decreases |elist|
  {
    if elist != {} {
      var p := Pick(elist);
      PairCount(rel, elist - {p});
      TagStep(rel, elist - {p}, p);
      assert elist - {p} + {p} == elist;
    }
  }

  /** The score as text: `0` for the clamped integer, the float formatter's text
      otherwise (NumPy's text for its float scalar is a parameter). */
  function ScoreText(s: Score, formatFloat: real -> string): string {
    match s
    case ClampedToZero => FormatInt(0)
    case Cosine(v) => formatFloat(v)
  }

  /** One output line: the two entity ids, the relation id and the score text,
      separated by tabs. It ends in a newline, and it is the only one whenever the
      score text holds none. */
  function Render(l: PredicateLine, formatFloat: real -> string): (r: string)
    ensures |r| > 0 && r[|r| - 1] == '\n'
    ensures '\n' !in ScoreText(l.score, formatFloat) ==> '\n' !in r[..|r| - 1]
  {
    var t := ScoreText(l.score, formatFloat);
    NoNewlineInNumber(l.e1);
    NoNewlineInNumber(l.e2);
    NoNewlineInNumber(l.rel);
    var r := TabLine(l.e1, l.e2, l.rel, t);
    assert r[..|r| - 1] == FormatInt(l.e1) + "\t" + FormatInt(l.e2) + "\t" + FormatInt(l.rel) + "\t" + t;
    r
  }

  /** A written line reads back, split on tabs, as its two entity ids, its relation
      id and its score text; a clamped score reads back as the integer 0. */
  lemma RenderReadBack(l: PredicateLine, formatFloat: real -> string)
    requires '\t' !in ScoreText(l.score, formatFloat)
    requires var t := ScoreText(l.score, formatFloat); t == [] || t[|t| - 1] != '\n'
    ensures var fields := Split(StripNewlines(Render(l, formatFloat)), '\t');
            && |fields| == 4
            && ParseInt(fields[0]) == Some(l.e1)
            && ParseInt(fields[1]) == Some(l.e2)
            && ParseInt(fields[2]) == Some(l.rel)
            && fields[3] == ScoreText(l.score, formatFloat)
            && (l.score.ClampedToZero? ==> ParseInt(fields[3]) == Some(0))
  {
    var t := ScoreText(l.score, formatFloat);
    var fields := Split(StripNewlines(Render(l, formatFloat)), '\t');
    TabLineFields(l.e1, l.e2, l.rel, t);
    FieldsReadBack(fields, l.e1, l.e2, l.rel, t);
    if l.score.ClampedToZero? {
      ClampedReadsAsZero(formatFloat);
    }
  }

  /** The three integer fields read back as the numbers written into them. */
  lemma FieldsReadBack(fields: seq<string>, a: int, b: int, c: int, t: string)
    requires fields == [FormatInt(a), FormatInt(b), FormatInt(c), t]
    ensures ParseInt(fields[0]) == Some(a) && ParseInt(fields[1]) == Some(b) && ParseInt(fields[2]) == Some(c)
  {
    ParseFormatInt(a);
    ParseFormatInt(b);
    ParseFormatInt(c);
  }

  /** A clamped score is written as the integer `0` and reads back as it. */
  lemma ClampedReadsAsZero(formatFloat: real -> string)
    ensures ParseInt(ScoreText(ClampedToZero, formatFloat)) == Some(0)
  {
    ParseFormatInt(0);
  }

  /** The script's two top-level calls: collect the true pairs, then write the
      predicate file from them. Only a bad input line can abort: the collected table
      never has a relation without pairs, so the averages are always defined. */
  method GeneratePredicateFile(
    files: seq<seq<string>>,
    nid2mid: map<int, MidTuples>,
    vocab: set<string>,
    cosine: (int, int, int) -> real
  ) returns (r: Result<(seq<PredicateLine>, nat), Located<FaultKind>>)
    ensures r.Ok? <==> AllLinesParse(files, FilterN2M(nid2mid), vocab)
    ensures r.Ok? ==>
              var table := PreprocForAvgRelVec(files, nid2mid, vocab).value;
              && LineKeys(r.value.0) == Pairs(table.pairs)
              && r.value.1 == |r.value.0| <= table.bothPresent
              && DistinctLines(r.value.0)
              && ScoredBy(r.value.0, cosine)
  {
    var collected := PreprocForAvgRelVec(files, nid2mid, vocab);
    if collected.Err? {
      return Err(collected.error);
    }
    var table := collected.value;
    PairsBoundedByCount(files, FilterN2M(nid2mid), vocab);
    var written := WritePredicateFile(table.pairs, cosine);
    assert written.Ok?;
    return Ok(written.value);
  }
}
