/** `normalize` from iter1/nell2freebase.py: the join key both knowledge bases are
    matched on. It strips newlines at both ends, then maps apostrophe, full stop,
    hyphen and space to underscore. It does not change letter case. */
module Normalization {
  import opened Text

  /** The four characters `normalize` turns into `_`. */
  predicate IsSeparator(c: char) {
    c == '\'' || c == '.' || c == '-' || c == ' '
  }

  /** What `normalize` does to one character, all four replacements at once. */
  function Substitute(c: char): char {
    if IsSeparator(c) then '_' else c
  }

  /** A label `normalize` has nothing left to do on. */
  predicate IsNormalized(s: string) {
    && (s == [] || (s[0] != '\n' && s[|s| - 1] != '\n'))
    && forall i :: 0 <= i < |s| ==> !IsSeparator(s[i])
  }

  /** `normalize`: strip the newlines, then replace apostrophes, full stops, hyphens
      and spaces by underscores, one after the other. The chain of four replacements
      is one character-for-character substitution on the newline-stripped label,
      and its result is normalized. */
  function Normalize(entityLabel: string): (r: string)
    ensures |r| == |StripNewlines(entityLabel)|
    ensures forall i :: 0 <= i < |r| ==> r[i] == Substitute(StripNewlines(entityLabel)[i])
    ensures IsNormalized(r)
  {
    var stripped := StripNewlines(entityLabel);
    var r := ReplaceChar(ReplaceChar(ReplaceChar(ReplaceChar(stripped, '\'', '_'), '.', '_'), '-', '_'), ' ', '_');
    ReplaceChainCharwise(stripped);
    r
  }

  lemma ReplaceChainCharwise(s: string)
    ensures var r := ReplaceChar(ReplaceChar(ReplaceChar(ReplaceChar(s, '\'', '_'), '.', '_'), '-', '_'), ' ', '_');
            |r| == |s| && forall i :: 0 <= i < |s| ==> r[i] == Substitute(s[i])
  {
    var s1 := ReplaceChar(s, '\'', '_');
    var s2 := ReplaceChar(s1, '.', '_');
    var s3 := ReplaceChar(s2, '-', '_');
    var s4 := ReplaceChar(s3, ' ', '_');
    forall i | 0 <= i < |s|
      ensures s4[i] == Substitute(s[i])
    {
      assert s1[i] == if s[i] == '\'' then '_' else s[i];
      assert s2[i] == if s1[i] == '.' then '_' else s1[i];
      assert s3[i] == if s2[i] == '-' then '_' else s2[i];
    }
  }

  /** `normalize` changes exactly the labels that are not yet normalized. */
  lemma NormalizeFixpoint(s: string)
    ensures Normalize(s) == s <==> IsNormalized(s)
  {
    if IsNormalized(s) {
      StripNewlinesFixpoint(s);
    }
  }

  /** `normalize(normalize(x)) == normalize(x)`. */
  lemma NormalizeIdempotent(entityLabel: string)
    ensures Normalize(Normalize(entityLabel)) == Normalize(entityLabel)
  {
    NormalizeFixpoint(Normalize(entityLabel));
  }
}
