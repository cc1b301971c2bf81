# NELL to Freebase entity resolution: label matching and record filtering

This project is a Dafny model of the two scripts that connect NELL entities to
Freebase identifiers and build a word2vec predicate file from them.

`iter1/nell2freebase.py` does the following:
- reads the NELL `id<TAB>label` file into a label → id dictionary, counting repeated labels;
- reads the decoded Wikidata records into a table from normalized label to the set
  of Freebase identifier tuples;
- joins the two tables on equal labels, optionally restricted to a set of NELL ids;
- counts ambiguous correspondences;
- inverts the records into a Freebase identifier → English label dictionary.

`iter2/gen_predicate_file.py` does the following:
- keeps only the unambiguous correspondences (`filter_n2m`);
- collects, per relation, the entity pairs of the true lines whose two entities have
  word vectors;
- writes one scored line per relation and pair, with the score clamped at zero.

The model works on already-decoded input: text lines as strings and Wikidata
records as a datatype. It gives the scripts' own semantics in Dafny terms:
- Python's `strip('\n')`, `split('\t')`, `int()` and `str()` on integers;
- dictionaries filled by `d[k] = v` loops (last writer wins), including the
  insertion order CPython keeps;
- `defaultdict(set)` grouping;
- abort on the first input line that raises.

A run that raises on an input line is a `Result.Err` carrying the position of the
offending line and the reason: wrong field count, a non-integer field, or a missing
record key. The division by zero of a relation without pairs, when the predicate
file is written, is a `Result.Err` carrying that relation's id.

Modules, in dependency order:
- `Wrappers`: `Option`, `Result`, and `Traverse`, a per-line step that stops at the first fault.
- `Seqs`: flattening of nested loops, and counting.
- `Text`: Python string methods.
- `PyInt`: `int()` and `str()`.
- `Dicts`: the dictionary loops.
- `Normalization`: the `normalize` function.
- `NellLabels`: `get_nell_labels_to_ids`.
- `FreebaseLabels`: `get_fblbls_to_mids`.
- `Correspondence`: `nell_ids_to_freebase_mids`.
- `CorrespondenceStats`: the counting loop of `print_nid2mid_stats`.
- `MidLabels`: `mid2wdlbl`.
- `AmbiguityFilter`: `filter_n2m`.
- `PositivePairs`: `preproc_for_avg_rel_vec`.
- `PredicateFile`: `create_w2v_predicate_file` and the script's two top-level calls.

Where the documentation and the code disagree, the model follows the code:
- The docstring of `get_nell_labels_to_ids` says labels are lower case, but
  `normalize` never changes letter case. `Normalize` keeps case, and no label is
  normalized on the NELL side.
- The docstring of `nell_ids_to_freebase_mids` promises `{nell_id: freebase_mid}`.
  The code stores the whole set of identifier tuples for each id, and so does
  `NellIdsToFreebaseMids`.
- `preproc_for_avg_rel_vec` calls `int(relid)` only for a line that is true and
  whose entities both have vectors. A non-integer relation field on any other line
  is never read and does not abort. `ParseEerFields` reads it only in that branch.
- `get_fblbls_to_mids` reads `d['freebase_ids']` only while filing a label, alias or
  title. A record without any of these never raises, even when it has no
  identifiers. `RecordEntries` follows that.
- `mid2wdlbl` reads `d['freebase_ids']` for every record. It reads `d['en_label']`
  only inside the loop over the identifiers, so a record with an empty identifier
  list and no label passes. `MidEntries` follows that.

## Model

| member | source | states |
|---|---|---|
| Wrappers.Traverse | iter1/nell2freebase.py:31-35 | the per-line loop succeeds iff every line's step succeeds; on success there is one result per line; on failure it reports the first failing line, every earlier line having succeeded |
| Seqs.FlattenMembership | iter2/gen_predicate_file.py:46-50 | an item is visited by the nested `for file … for line` loop iff it is in one of the files |
| Seqs.FlattenIndex | iter2/gen_predicate_file.py:46-50 | an item of the flattened stream sits at some position of some file, and conversely |
| Seqs.FlattenAll | iter2/gen_predicate_file.py:46-50 | a property holds of every line of the stream iff it holds of every line of every file |
| Seqs.TraverseSomes | iter2/gen_predicate_file.py:50-59 | after a successful pass, a value is among the kept results iff some line produced it |
| Seqs.TraverseCount | iter2/gen_predicate_file.py:57-58 | a successful pass keeps exactly one value per line on which the step produced one |
| Seqs.SubsetCard | iter1/nell2freebase.py:84-87 | a subset has no more elements than its superset; this gives the statistics' bound that the ids with several tuples are no more than all ids |
| Text.StripNewlines | iter1/nell2freebase.py:32 | `strip('\n')` leaves no newline at either end, and the input is the result padded by newlines only |
| Text.StripNewlinesIdempotent | iter1/nell2freebase.py:32 | stripping twice is stripping once |
| Text.StripNewlinesPadded | iter2/gen_predicate_file.py:52 | any newline padding around a newline-free-ended string is removed exactly |
| Text.ReplaceChar | iter1/nell2freebase.py:43 | `replace` keeps the length, turns every `from` into `to` and leaves every other character alone, so no `from` is left when `from != to` |
| Text.Split | iter2/gen_predicate_file.py:52 | `split(sep)` gives one more field than separators, no field holds the separator, and joining the fields gives the input back |
| Text.SplitJoin | iter2/gen_predicate_file.py:52 | splitting the join of separator-free fields gives those fields back |
| Text.SplitLine | iter2/gen_predicate_file.py:52 | a line written as its fields joined by tabs plus a newline reads back, after `strip('\n').split('\t')`, as those fields |
| PyInt.ParseInt | iter2/gen_predicate_file.py:54-55 | `int()` raises on a blank text, and a negative result needs a minus sign in the text |
| PyInt.ParseIntShape | iter1/nell2freebase.py:35 | a text `int()` accepts holds a digit and nothing but whitespace, digits and signs |
| PyInt.FormatInt | iter2/gen_predicate_file.py:90 | `str(n)` starts with a minus sign exactly when `n` is negative, and the rest is digits with no leading zero (only `0` itself starts with `0`) |
| PyInt.ParseFormatInt | iter2/gen_predicate_file.py:54-55 | `int(str(n)) == n` for every integer |
| PyInt.FormatIntInjective | iter2/gen_predicate_file.py:90 | different integers are written as different texts |
| Dicts.Assign | iter1/nell2freebase.py:120-121 | the `d[k] = v` loop's keys are exactly the keys written |
| Dicts.AssignLastWrite | iter1/nell2freebase.py:120-121 | a key holds the value of the last entry that wrote it |
| Dicts.AssignAppend | iter1/nell2freebase.py:118-121 | running the loop over two runs of entries is the first dictionary updated by the second |
| Dicts.KeysOfFlatten | iter1/nell2freebase.py:118-121 | the nested loop writes a key iff one of its inner runs does |
| Dicts.AssignConstant | iter1/nell2freebase.py:120-121 | when every entry carries the same value, every key holds it |
| Dicts.AssignFlattenLast | iter1/nell2freebase.py:118-121 | in nested loops, a key holds the value the last inner run that wrote it gave it |
| Dicts.Group | iter2/gen_predicate_file.py:37-59 | the `defaultdict(set)` keys are exactly the keys added to, and each holds a non-empty set |
| Dicts.GroupPairs | iter2/gen_predicate_file.py:59 | a value sits under a key iff some entry added it there: duplicates collapse, nothing is lost |
| Dicts.Get | iter1/nell2freebase.py:33 | lookup in the ordered dictionary finds a key iff it was written, and the found value is stored with that key |
| Dicts.GetItem | iter1/nell2freebase.py:105 | in a dictionary with distinct keys every item is found by its own key |
| Dicts.Put | iter1/nell2freebase.py:35 | `d[k] = v` adds `k` to the keys; a new key goes last, and an existing key keeps its place; keys stay distinct |
| Dicts.GetPut | iter1/nell2freebase.py:33-35 | after `d[k] = v`, `k` reads `v` and every other key reads as before |
| Dicts.PutAll | iter1/nell2freebase.py:31-35 | the ordered dictionary built by the loop has distinct keys, exactly the keys written |
| Dicts.PutAllAgreesWithAssign | iter1/nell2freebase.py:31-35 | the ordered dictionary holds the same key-value pairs as the plain last-writer-wins map |
| Normalization.Normalize | iter1/nell2freebase.py:42-43 | the result is as long as the newline-stripped label, each character is substituted one for one (`'`, `.`, `-`, space → `_`), and the result has no separator and no newline at either end |
| Normalization.ReplaceChainCharwise | iter1/nell2freebase.py:43 | the chain of four `replace` calls is a single per-character substitution |
| Normalization.NormalizeFixpoint | iter1/nell2freebase.py:43 | `normalize` leaves a label unchanged iff it is already normalized |
| Normalization.NormalizeIdempotent | iter1/nell2freebase.py:43 | `normalize(normalize(x)) == normalize(x)` |
| NellLabels.ParseIdLabel | iter1/nell2freebase.py:32-35 | unpacking into id and label fails exactly when the stripped line does not hold exactly one tab; a parsed label holds no tab |
| NellLabels.ParseIdLabelRoundTrip | iter1/nell2freebase.py:32-35 | a line `str(id) + '\t' + label + '\n'` reads back as the label and the id |
| NellLabels.IdLabelFields | iter1/nell2freebase.py:32 | such a line splits into exactly its two fields |
| NellLabels.GetNellLabelsToIds | iter1/nell2freebase.py:19-39 | the function returns iff every line has two fields and an integer id |
| NellLabels.IndexLabelsIsPutAll | iter1/nell2freebase.py:31-35 | the dictionary is the ordered `d[k] = v` loop over the lines: distinct labels, exactly the labels of the lines |
| NellLabels.LabelIndexLastWriter | iter1/nell2freebase.py:35 | a label maps to the id on the last line carrying it |
| NellLabels.IndexLabels | iter1/nell2freebase.py:31-35 | every line either adds a new label or bumps the repeat counter: the counter plus the number of labels equals the number of lines |
| NellLabels.SeenIffRepeats | iter1/nell2freebase.py:33 | `label in label2id` holds iff an earlier line carried the label |
| NellLabels.RepeatsCountRepeatedLines | iter1/nell2freebase.py:33-34 | the repeat counter equals the number of lines whose label appeared on an earlier line |
| FreebaseLabels.RecordEntries | iter1/nell2freebase.py:65-75 | a record raises iff it has a label, alias or title but no `freebase_ids` |
| FreebaseLabels.RecordEntriesFiles | iter1/nell2freebase.py:65-75 | a record adds `(k, t)` iff its identifiers are `t` and one of its texts normalizes to `k` |
| FreebaseLabels.GetFbLabelsToMids | iter1/nell2freebase.py:46-77 | the function returns iff every record with some text has identifiers; every key is normalized and every value set is non-empty |
| FreebaseLabels.FbLabelsMembership | iter1/nell2freebase.py:61-75 | the table holds tuple `t` under `k` iff some record files `t` under `k` through its label, an alias or its title |
| Correspondence.JoinLabels | iter1/nell2freebase.py:104-107 | an id is a key of the join iff some item carries the id with a label the Freebase table has |
| Correspondence.JoinLabelsLastMatch | iter1/nell2freebase.py:105-107 | an id takes the set of the last matching label that carries it |
| Correspondence.JoinLabelsInjective | iter1/nell2freebase.py:105-107 | when no two labels share an id, every matching label hands its set to its id, whatever the order |
| Correspondence.RestrictIds | iter1/nell2freebase.py:109-112 | a non-empty `nellids` keeps exactly the listed ids; `None` or an empty set keeps all; values are unchanged |
| Correspondence.JoinRestrictKeys | iter1/nell2freebase.py:105-112 | over a dictionary, an id is a key of the restricted join iff it passes the `nellids` filter and one of its labels is a Freebase label |
| Correspondence.JoinRestrictValues | iter1/nell2freebase.py:105-112 | when no two labels share an id, a kept id holds the Freebase set of its label |
| Correspondence.NellIdsToFreebaseMids | iter1/nell2freebase.py:97-112 | the function returns iff both inputs read without raising |
| Correspondence.CorrespondenceMembership | iter1/nell2freebase.py:102-112 | an id is a key iff it passes the `nellids` filter and one of its labels is a Freebase label; with distinct ids its value is that label's set |
| CorrespondenceStats.SharedLabelIdsStep | iter1/nell2freebase.py:84-87 | visiting one id adds one to `multiple_tuples` exactly when its set has several tuples |
| CorrespondenceStats.MultiMidTuplesStep | iter1/nell2freebase.py:88-91 | visiting one id adds its own multi-identifier tuples, none counted before |
| CorrespondenceStats.SharedLabelIdsEmpty | iter1/nell2freebase.py:84-87 | no id is counted iff every id has at most one tuple |
| CorrespondenceStats.MultiMidTuplesEmpty | iter1/nell2freebase.py:88-91 | no tuple is counted iff every tuple holds at most one identifier |
| CorrespondenceStats.CountMultiMid | iter1/nell2freebase.py:88-91 | the inner loop counts the tuples of one id that hold more than one identifier |
| CorrespondenceStats.Nid2MidStats | iter1/nell2freebase.py:82-92 | the total is the number of ids; `multiple_tuples` is the number of ids with several tuples and at most the total; `multiple_mids` is the number of multi-identifier tuples over all ids; each is zero iff no entry qualifies |
| MidLabels.MidEntries | iter1/nell2freebase.py:119-121 | a record goes through iff it has `freebase_ids` and, when they are non-empty, a label; it writes exactly its identifiers, each with its label |
| MidLabels.MidToLabel | iter1/nell2freebase.py:115-124 | the function returns iff every record goes through; otherwise it reports a record that does not |
| MidLabels.MidToLabelKeys | iter1/nell2freebase.py:116-121 | an identifier is a key iff some record lists it |
| MidLabels.MidToLabelLastRecord | iter1/nell2freebase.py:120-121 | an identifier maps to the label of the last record that lists it |
| AmbiguityFilter.SoleMid | iter2/gen_predicate_file.py:25 | `v.pop()[0]` on a kept set is its only identifier: the set is `{(mid,)}` |
| AmbiguityFilter.UnambiguousIffSingleMid | iter2/gen_predicate_file.py:25 | a set passes the filter iff it is a single one-identifier tuple |
| AmbiguityFilter.FilterN2M | iter2/gen_predicate_file.py:24-25 | no new keys; a key is kept iff its set passes the filter; the kept value is the sole identifier of its set |
| AmbiguityFilter.FilterN2MExactly | iter2/gen_predicate_file.py:25 | the filter maps `k` to `mid` iff `k`'s set is exactly `{(mid,)}` |
| AmbiguityFilter.FilterN2MStable | iter2/gen_predicate_file.py:25 | filtering the filter's own output, read back as sets, changes nothing |
| PositivePairs.ParseEerLine | iter2/gen_predicate_file.py:52-59 | unpacking into four fields fails exactly when the stripped line does not hold exactly three tabs; a counted pair has vectors for both entities |
| PositivePairs.ParseEerLineContributes | iter2/gen_predicate_file.py:52-59 | a line is counted with `(rel, (e1, e2))` iff it has four fields, integer entity and relation ids, truth `1`, and both entities have vectors |
| PositivePairs.TabLineFields | iter2/gen_predicate_file.py:52 | a written four-field line splits back into its four fields |
| PositivePairs.ParseEerLineRoundTrip | iter2/gen_predicate_file.py:52-59 | a written line reads back as its ids; it is counted iff truth is `1` and both entities have vectors |
| PositivePairs.CollectPairs | iter2/gen_predicate_file.py:46-59 | the loops finish iff every line parses; every relation in the table has a non-empty pair set |
| PositivePairs.PreprocForAvgRelVec | iter2/gen_predicate_file.py:28-63 | the function returns iff every line parses under the filtered correspondence |
| PositivePairs.CollectPairsMembership | iter2/gen_predicate_file.py:43-59 | a pair is under a relation iff some line of some file contributes it |
| PositivePairs.PairsHaveVectors | iter2/gen_predicate_file.py:40-59 | every collected pair names two kept entities whose identifiers are in the vocabulary |
| PositivePairs.BothPresentCountsLines | iter2/gen_predicate_file.py:57-58 | `num_both_entities_present` is the number of qualifying lines, repeats included |
| PositivePairs.PairsBoundedByCount | iter2/gen_predicate_file.py:57-59 | the table holds no more pairs than lines were counted |
| PredicateFile.Clamp | iter2/gen_predicate_file.py:88-89 | the written score is non-negative and at least the cosine; a non-negative cosine is kept; it is clamped to 0 iff the cosine is negative |
| PredicateFile.CheckAverages | iter2/gen_predicate_file.py:74-79 | the averaging loop raises iff some relation has no pairs, and then names such a relation |
| PredicateFile.AppendLine | iter2/gen_predicate_file.py:90-92 | writing a line about a new relation and pair keeps the lines distinct and scored, and adds its key |
| PredicateFile.WriteRelation | iter2/gen_predicate_file.py:85-92 | the inner loop writes one line per pair of the relation, after the earlier lines, each with its own clamped score, no line twice, and adds one to the counter per line written |
| PredicateFile.PairsOfStep | iter2/gen_predicate_file.py:84-85 | one more relation adds its pairs to the written keys, none seen before |
| PredicateFile.PairCount | iter2/gen_predicate_file.py:85-92 | tagging a relation's pairs with the relation loses none of them |
| PredicateFile.WriteLines | iter2/gen_predicate_file.py:81-92 | exactly one line per relation and pair of the table; `counter` equals the number of lines and of pairs; every score is the clamped cosine |
| PredicateFile.WritePredicateFile | iter2/gen_predicate_file.py:68-94 | the function raises iff some relation has no pairs, naming it; otherwise it writes one scored line per pair, counted |
| PredicateFile.Render | iter2/gen_predicate_file.py:90 | a written line ends in a newline, and that is its only newline whenever the score text holds none |
| PredicateFile.RenderReadBack | iter2/gen_predicate_file.py:90 | a written line splits back into its entity ids, relation id and score text; a clamped score reads as the integer 0 |
| PredicateFile.GeneratePredicateFile | iter2/gen_predicate_file.py:97-98 | the two calls succeed iff every input line parses (the averages never divide by zero); the lines are one per collected pair, distinct, scored, and no more than the counted lines |

## Left out

- gzip and pickle persistence (`save_zipped_pickle`, `load_zipped_pickle`) and opening files are I/O. Inputs arrive as sequences of lines or records, and results are returned.
- JSON decoding of the Wikidata lines is a foreign library. Records arrive decoded as `WikidataRecord`, and a field the line lacks is `None`. A wrongly typed JSON field is not modelled.
- The word2vec model, the vector subtraction and averaging, and `cosine_similarity` are external floating-point numerics. The cosine for a `(relation, e1, e2)` is a parameter returning a real. The averages are checked only for the division by zero of an empty pair set.
- The score is a NumPy float32 scalar, the `[0][0]` item of `cosine_similarity`'s result. Its `str()` is NumPy's scalar formatting, and that formatting is a parameter of `PredicateFile.Render`.
- `print` diagnostics are left out. The counters they print are returned instead.
- Script top-level statements and path constants are left out; the two calls of `gen_predicate_file.py` are modelled as `GeneratePredicateFile`.
- `int()` on non-ASCII decimal digits, and with `_` digit separators, is not modelled. Only whitespace, an optional sign and ASCII digits are accepted. The whitespace is CPython's: `\t`, `\n`, `\v`, `\f`, `\r` and space below 128, and the Unicode whitespace characters above 127. The separators 0x1C-0x1F are rejected.
- PyInt.ParseFormatInt: CPython 3.11 and later refuse `int()` and `str()` on numbers of more than 4300 digits. That limit is configurable and depends on the version, and it is not modelled, so the round trip is stated for every integer.
- `.decode()` of the gzip lines is not modelled. Lines are already strings.
- `filter_n2m` empties each kept input set through `pop()`. That side effect is not modelled, since the input dictionary is never read again. `FilterN2M` is pure.
- The iteration order of sets and of plain dictionaries in outputs is not promised. The methods visit elements in an arbitrary order, so their contracts hold for every order. Only the NELL label dictionary, whose insertion order decides which label wins in the join, is kept in order.
- Wrappers.Traverse: over several files, the reported position counts lines in the concatenation of the files, not within one file.
- PredicateFile.CheckAverages: the lookups `n2m[e1]` and `n2m[e2]` inside the averaging loop (iter2/gen_predicate_file.py:78) are not modelled, and neither is their `KeyError`. Only the division by zero of an empty pair set is. The line below explains why those lookups succeed inside `GeneratePredicateFile`.
- PredicateFile.WritePredicateFile: the lookups `n2m[e1]` and `n2m[e2]` that fetch the entities' vectors (iter2/gen_predicate_file.py:78 and :86) are not modelled, and neither is the `KeyError` they would raise. Within `GeneratePredicateFile`, `PositivePairs.PairsHaveVectors` shows that every collected pair's entities are keys of the filtered map, so those lookups succeed.
- PredicateFile.GeneratePredicateFile: the output lines are the written values (`PredicateLine`), not the written text. `Render` and `RenderReadBack` relate the two one line at a time.
