/** The handful of Python `str` methods the scripts use: `strip('\n')`,
    single-character `replace`, and `split('\t')`. */
module Text {

  /** A run of `n` newline characters. */
  function Newlines(n: nat): (r: string)
    ensures |r| == n
    ensures forall i :: 0 <= i < n ==> r[i] == '\n'
  {
    if n == 0 then "" else "\n" + Newlines(n - 1)
  }

  /** `s.lstrip('\n')`. */
  function DropLeadingNewlines(s: string): (r: string)
    ensures r == [] || r[0] != '\n'
    ensures exists a: nat :: s == Newlines(a) + r
    decreases |s|
  {
    if |s| > 0 && s[0] == '\n' then
      var r := DropLeadingNewlines(s[1..]);
      var a: nat :| s[1..] == Newlines(a) + r;
      assert s == Newlines(a + 1) + r;
      r
    else
      assert s == Newlines(0) + s;
      s
  }

  /** `s.rstrip('\n')`. */
  function DropTrailingNewlines(s: string): (r: string)
    ensures r == [] || r[|r| - 1] != '\n'
    ensures exists b: nat :: s == r + Newlines(b)
    decreases |s|
  {
    if |s| > 0 && s[|s| - 1] == '\n' then
      var r := DropTrailingNewlines(s[..|s| - 1]);
      var b: nat :| s[..|s| - 1] == r + Newlines(b);
      assert Newlines(b + 1) == Newlines(b) + "\n" by {
        NewlinesSnoc(b);
      }
      assert s == r + Newlines(b + 1);
      r
    else
      assert s == s + Newlines(0);
      s
  }

  lemma {:induction false} NewlinesSnoc(n: nat)
    ensures Newlines(n + 1) == Newlines(n) + "\n"
  {
  }

  /** Python's `s.strip('\n')`: every newline at either end is removed, nothing else. */
  function StripNewlines(s: string): (r: string)
    ensures r == [] || (r[0] != '\n' && r[|r| - 1] != '\n')
    ensures exists a: nat, b: nat :: s == Newlines(a) + r + Newlines(b)
  {
    var l := DropLeadingNewlines(s);
    var r := DropTrailingNewlines(l);
    var a: nat :| s == Newlines(a) + l;
    var b: nat :| l == r + Newlines(b);
    assert r == [] || r[0] == l[0];
    assert s == Newlines(a) + r + Newlines(b);
    r
  }

  /** A string without a newline at either end is left alone by `strip('\n')`. */
  lemma {:induction false} StripNewlinesFixpoint(s: string)
    requires s == [] || (s[0] != '\n' && s[|s| - 1] != '\n')
    ensures StripNewlines(s) == s
  {
    assert DropLeadingNewlines(s) == s;
    assert DropTrailingNewlines(s) == s;
  }

  /** `strip('\n')` is idempotent. */
  lemma StripNewlinesIdempotent(s: string)
    ensures StripNewlines(StripNewlines(s)) == StripNewlines(s)
  {
    StripNewlinesFixpoint(StripNewlines(s));
  }

  lemma {:induction false} DropLeadingPadded(a: nat, y: string)
    ensures DropLeadingNewlines(Newlines(a) + y) == DropLeadingNewlines(y)
    decreases a
  {
    if a > 0 {
      assert (Newlines(a) + y)[1..] == Newlines(a - 1) + y;
      DropLeadingPadded(a - 1, y);
    } else {
      assert Newlines(a) + y == y;
    }
  }

  lemma {:induction false} DropTrailingPadded(y: string, b: nat)
    ensures DropTrailingNewlines(y + Newlines(b)) == DropTrailingNewlines(y)
    decreases b
  {
    if b > 0 {
      NewlinesSnoc(b - 1);
      assert (y + Newlines(b))[..|y + Newlines(b)| - 1] == y + Newlines(b - 1);
      DropTrailingPadded(y, b - 1);
    } else {
      assert y + Newlines(b) == y;
    }
  }

  /** `strip('\n')` recovers a string from any newline padding around it. */
  lemma {:induction false} StripNewlinesPadded(a: nat, x: string, b: nat)
    requires x == [] || (x[0] != '\n' && x[|x| - 1] != '\n')
    ensures StripNewlines(Newlines(a) + x + Newlines(b)) == x
  {
    assert Newlines(a) + x + Newlines(b) == Newlines(a) + (x + Newlines(b));
    DropLeadingPadded(a, x + Newlines(b));
    if x == [] {
      assert x + Newlines(b) == Newlines(b) + [];
      DropLeadingPadded(b, []);
    } else {
      assert DropLeadingNewlines(x + Newlines(b)) == x + Newlines(b);
      DropTrailingPadded(x, b);
      assert DropTrailingNewlines(x) == x;
    }
  }

  /** A line's terminating newline is what `strip('\n')` takes off. */
  lemma StripLineEnd(body: string)
    requires body == [] || (body[0] != '\n' && body[|body| - 1] != '\n')
    ensures StripNewlines(body + "\n") == body
  {
    assert body + "\n" == Newlines(0) + body + Newlines(1);
    StripNewlinesPadded(0, body, 1);
  }

  /** Python's `s.replace(old, new)` for single characters: every occurrence of
      `from` becomes `to`, position by position. */
  function ReplaceChar(s: string, from: char, to: char): (r: string)
    ensures |r| == |s|
    ensures from != to ==> from !in r
    ensures forall i :: 0 <= i < |s| && s[i] != from ==> r[i] == s[i]
    ensures forall i :: 0 <= i < |s| && s[i] == from ==> r[i] == to
  {
    seq(|s|, i requires 0 <= i < |s| => if s[i] == from then to else s[i])
  }

  /** Number of occurrences of `c` in `s`. */
  function Count(s: string, c: char): nat
    decreases |s|
  {
    if |s| == 0 then 0 else (if s[0] == c then 1 else 0) + Count(s[1..], c)
  }

  /** Python's `sep.join(fields)`. */
  function Join(fields: seq<string>, sep: char): string
    decreases |fields|
  {
    if |fields| == 0 then ""
    else if |fields| == 1 then fields[0]
    else fields[0] + [sep] + Join(fields[1..], sep)
  }

  /** Python's `s.split(sep)` for a one-character separator: always at least one
      field, one more field than separators, no field holds the separator, and
      joining the fields back gives `s`. */
  function Split(s: string, sep: char): (r: seq<string>)
    ensures |r| == Count(s, sep) + 1
    ensures forall i :: 0 <= i < |r| ==> sep !in r[i]
    ensures Join(r, sep) == s
    decreases |s|
  {
    if |s| == 0 then [""]
    else
      var rest := Split(s[1..], sep);
      if s[0] == sep then
        assert Join([""] + rest, sep) == "" + [sep] + Join(rest, sep) by {
          assert ([""] + rest)[1..] == rest;
        }
        [""] + rest
      else
        var r := [[s[0]] + rest[0]] + rest[1..];
        assert Join(r, sep) == [s[0]] + Join(rest, sep) by {
          if |rest| > 1 {
            assert r[1..] == rest[1..];
          }
        }
        assert forall i :: 1 <= i < |r| ==> r[i] == rest[i];
        r
  }

  /** Splitting on a prefix without separators extends the first field. */
  lemma {:induction false} SplitPrefix(p: string, x: string, sep: char)
    requires sep !in p
    ensures Split(p + x, sep) == [p + Split(x, sep)[0]] + Split(x, sep)[1..]
    decreases |p|
  {
    if |p| > 0 {
      assert (p + x)[1..] == p[1..] + x;
      SplitPrefix(p[1..], x, sep);
      assert [p[0]] + (p[1..] + Split(x, sep)[0]) == p + Split(x, sep)[0];
    } else {
      var parts := Split(x, sep);
      assert p + x == x;
      assert p + parts[0] == parts[0];
      assert parts == [parts[0]] + parts[1..];
    }
  }

  /** `split` undoes `join` when no field holds the separator. */
  lemma {:induction false} SplitJoin(fields: seq<string>, sep: char)
    requires |fields| > 0
    requires forall i :: 0 <= i < |fields| ==> sep !in fields[i]
    ensures Split(Join(fields, sep), sep) == fields
    decreases |fields|
  {
    if |fields| == 1 {
      SplitPrefix(fields[0], "", sep);
      assert fields[0] + "" == fields[0];
    } else {
      var tail := Join(fields[1..], sep);
      SplitJoin(fields[1..], sep);
      assert fields[0] + [sep] + tail == fields[0] + ([sep] + tail);
      SplitPrefix(fields[0], [sep] + tail, sep);
      assert ([sep] + tail)[1..] == tail;
      assert Split([sep] + tail, sep) == [""] + fields[1..];
      assert fields[0] + "" == fields[0];
    }
  }

  /** A line written as its fields joined by `sep` plus a newline reads back,
      `line.strip('\n').split(sep)`, as those fields. */
  lemma SplitLine(fields: seq<string>, sep: char, line: string)
    requires |fields| > 0
    requires forall i :: 0 <= i < |fields| ==> sep !in fields[i]
    requires line == Join(fields, sep) + "\n"
    requires var body := Join(fields, sep); body == [] || (body[0] != '\n' && body[|body| - 1] != '\n')
    ensures Split(StripNewlines(line), sep) == fields
  {
    StripLineEnd(Join(fields, sep));
    SplitJoin(fields, sep);
  }
}
