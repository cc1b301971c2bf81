/** Sequence helpers shared by the folds: nested loops flattened into one stream,
    filtering out skipped lines, and the cardinality facts the counters rest on. */
module Seqs {
  import opened Wrappers

  /** The items of `xss` in order, as a nested `for` loop visits them. */
  function Flatten<T>(xss: seq<seq<T>>): (r: seq<T>)
    ensures |r| == 0 <==> forall i :: 0 <= i < |xss| ==> |xss[i]| == 0
    decreases |xss|
  {
    if |xss| == 0 then [] else xss[0] + Flatten(xss[1..])
  }

  /** Something is in the flattened stream exactly when it is in one of the parts. */
  lemma {:induction false} FlattenMembership<T>(xss: seq<seq<T>>, x: T)
    ensures x in Flatten(xss) <==> exists i :: 0 <= i < |xss| && x in xss[i]
    decreases |xss|
  {
    if |xss| > 0 {
      FlattenMembership(xss[1..], x);
      assert forall i :: 1 <= i < |xss| ==> xss[1..][i - 1] == xss[i];
      if x in Flatten(xss[1..]) {
        var i :| 0 <= i < |xss[1..]| && x in xss[1..][i];
        assert x in xss[i + 1];
      }
    }
  }

  /** The values carried by the `Some` items, in order. */
  function Somes<T>(xs: seq<Option<T>>): (r: seq<T>)
    ensures |r| <= |xs|
    ensures forall i :: 0 <= i < |xs| && xs[i].Some? ==> xs[i].value in r
    ensures forall y :: y in r ==> Some(y) in xs
    decreases |xs|
  {
    if |xs| == 0 then []
    else
      var rest := Somes(xs[1..]);
      assert forall i :: 1 <= i < |xs| ==> xs[1..][i - 1] == xs[i];
      match xs[0]
      case None => rest
      case Some(y) => [y] + rest
  }

  /** After a successful traversal, a value is among the kept results iff some
      item produced it. */
  lemma TraverseSomes<T, U, E>(xs: seq<T>, f: T -> Result<Option<U>, E>, y: U)
    requires Traverse(xs, f).Ok?
    ensures y in Somes(Traverse(xs, f).value) <==> exists j :: 0 <= j < |xs| && f(xs[j]) == Ok(Some(y))
  {
    var outs := Traverse(xs, f).value;
    if y in Somes(outs) {
      var j :| 0 <= j < |outs| && outs[j] == Some(y);
      assert f(xs[j]) == Ok(Some(y));
    }
    if exists j :: 0 <= j < |xs| && f(xs[j]) == Ok(Some(y)) {
      var j :| 0 <= j < |xs| && f(xs[j]) == Ok(Some(y));
      assert outs[j] == Some(y);
    }
  }

  /** An item of the flattened stream sits at some position of some part. */
  lemma FlattenIndex<T>(xss: seq<seq<T>>, x: T)
    ensures x in Flatten(xss) <==> exists i, j :: 0 <= i < |xss| && 0 <= j < |xss[i]| && xss[i][j] == x
  {
    FlattenMembership(xss, x);
    if x in Flatten(xss) {
      var i :| 0 <= i < |xss| && x in xss[i];
      var j :| 0 <= j < |xss[i]| && xss[i][j] == x;
    }
  }

  /** A property holds all along the flattened stream iff it holds in every part. */
  lemma FlattenAll<T>(xss: seq<seq<T>>, p: T -> bool)
    ensures (forall i :: 0 <= i < |Flatten(xss)| ==> p(Flatten(xss)[i]))
            <==> (forall i, j :: 0 <= i < |xss| && 0 <= j < |xss[i]| ==> p(xss[i][j]))
  {
    var flat := Flatten(xss);
    if forall k :: 0 <= k < |flat| ==> p(flat[k]) {
      forall i, j | 0 <= i < |xss| && 0 <= j < |xss[i]|
        ensures p(xss[i][j])
      {
        FlattenIndex(xss, xss[i][j]);
        var k :| 0 <= k < |flat| && flat[k] == xss[i][j];
      }
    }
    if forall i, j :: 0 <= i < |xss| && 0 <= j < |xss[i]| ==> p(xss[i][j]) {
      forall k | 0 <= k < |flat|
        ensures p(flat[k])
      {
        FlattenIndex(xss, flat[k]);
      }
    }
  }

  /** Number of items satisfying `p`. */
  function CountWhere<T>(xs: seq<T>, p: T -> bool): (n: nat)
    ensures n <= |xs|
    decreases |xs|
  {
    if |xs| == 0 then 0 else (if p(xs[0]) then 1 else 0) + CountWhere(xs[1..], p)
  }

  /** A successful traversal keeps one value for each item on which the step
      produced `Some`. */
  lemma {:induction false} TraverseCount<T, U, E>(
    xs: seq<T>,
    f: T -> Result<Option<U>,
    E>, p: T -> bool
  )
    requires Traverse(xs, f).Ok?
    requires forall x :: p(x) <==> f(x).Ok? && f(x).value.Some?
    ensures |Somes(Traverse(xs, f).value)| == CountWhere(xs, p)
    decreases |xs|
  {
    if |xs| > 0 {
      var outs := Traverse(xs, f).value;
      TraverseCount(xs[1..], f, p);
      assert outs[1..] == Traverse(xs[1..], f).value;
    }
  }

  /** The set of elements of a sequence. */
  function Elements<T>(s: seq<T>): set<T>
  {
    set x | x in s
  }

  /** Collapsing duplicates never adds elements. */
  lemma {:induction false} ElementsBound<T>(s: seq<T>)
    ensures |Elements(s)| <= |s|
    decreases |s|
  {
    if |s| > 0 {
      ElementsBound(s[1..]);
      assert Elements(s) == Elements(s[1..]) + {s[0]};
    }
  }

  /** A non-empty set has an element to pick: some member of `s`, for ghost code
      that has to show a later `:|` choice can succeed. */
  ghost function Pick<T>(s: set<T>): (x: T)
    requires s != {}
    ensures x in s
  {
    assert exists y :: y in s by {
      if forall y :: y !in s {
        assert false;
      }
    }
    var y :| y in s; y
  }

  /** A set of one element is the display of that element. */
  lemma SingletonIsDisplay<T>(s: set<T>)
    requires |s| == 1
    ensures s == {Pick(s)}
  {
    var x := Pick(s);
    assert |s - {x}| == 0;
  }

  /** A subset is no larger than its superset. */
  lemma {:induction false} SubsetCard<T>(a: set<T>, b: set<T>)
    requires a <= b
    ensures |a| <= |b|
    decreases |a|
  {
    if a != {} {
      var x := Pick(a);
      SubsetCard(a - {x}, b - {x});
    }
  }
}
