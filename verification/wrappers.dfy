/** Failure-carrying values for the batch scripts.

    The scripts never recover from a bad input line: the first line that does not
    parse raises, and the whole run ends without a result. `Result` models that
    outcome, and `Traverse` models "apply this per-line step to every line, in
    order, stopping at the first fault".
 */
module Wrappers {

  datatype Option<+T> = None | Some(value: T)

  datatype Result<+T, +E> = Ok(value: T) | Err(error: E)

  /** A fault together with the position (0-based) of the input item that raised it. */
  datatype Located<+E> = At(index: nat, fault: E)

  /** What makes a script abort on its input. */
  datatype FaultKind =
    | FieldCount(expected: nat, found: nat)   // tuple unpacking of `line.split('\t')` fails
    | NotAnInteger(text: string)             // `int(text)` raises
    | MissingKey(key: string)                // `d[key]` raises on a decoded record

  /** Applies `f` to each item in order; the first item on which `f` fails aborts the
      whole traversal and is reported with its position. */
  function Traverse<T, U, E>(xs: seq<T>, f: T -> Result<U, E>): (r: Result<seq<U>, Located<E>>)
    ensures r.Ok? <==> forall i :: 0 <= i < |xs| ==> f(xs[i]).Ok?
    ensures r.Ok? ==> |r.value| == |xs| && forall i :: 0 <= i < |xs| ==> f(xs[i]) == Ok(r.value[i])
    ensures r.Err? ==>
              && r.error.index < |xs|
              && f(xs[r.error.index]) == Err(r.error.fault)
              && forall i :: 0 <= i < r.error.index ==> f(xs[i]).Ok?
    decreases |xs|
  {
    if |xs| == 0 then Ok([])
    else
      match f(xs[0])
      case Err(e) => Err(At(0, e))
      case Ok(y) =>
        var rest := Traverse(xs[1..], f);
        assert forall i :: 1 <= i < |xs| ==> xs[1..][i - 1] == xs[i];
        match rest
        case Ok(ys) => Ok([y] + ys)
        case Err(At(i, e)) => Err(At(i + 1, e))
  }
}
