/** The array operations the handlers use, on immutable sequences:
    `find` / `findIndex`, `filter`, and the no-duplicates property that
    `includes`-guarded `push` maintains. */
module Seqs {

  datatype Option<+T> = None | Some(value: T)

  /** `xs.findIndex(p)`: the index of the FIRST element satisfying `p`, or
      `None` when no element does. `xs.find(p)` is `xs[i]` for that index. */
  function FindIndex<T>(xs: seq<T>, p: T -> bool): (r: Option<nat>)
    ensures r.Some? ==> r.value < |xs| && p(xs[r.value])
    ensures r.Some? ==> forall j :: 0 <= j < r.value ==> !p(xs[j])
    ensures r.None? <==> forall j :: 0 <= j < |xs| ==> !p(xs[j])
    decreases |xs|
  {
    if |xs| == 0 then None
    else if p(xs[0]) then Some(0)
    else
      match FindIndex(xs[1..], p)
      case None => None
      case Some(k) => Some(k + 1)
  }

  /** `xs.filter(p)`: the elements satisfying `p`, in their original order. */
  function Filter<T(==)>(xs: seq<T>, p: T -> bool): (r: seq<T>)
    ensures |r| <= |xs|
    ensures forall i :: 0 <= i < |r| ==> r[i] in xs && p(r[i])
    ensures forall i :: 0 <= i < |xs| && p(xs[i]) ==> xs[i] in r
    decreases |xs|
  {
    if |xs| == 0 then [] else (if p(xs[0]) then [xs[0]] else []) + Filter(xs[1..], p)
  }

  /** Filtering distributes over concatenation, so it keeps relative order. */
  lemma {:induction false} FilterConcat<T>(a: seq<T>, b: seq<T>, p: T -> bool)
    ensures Filter(a + b, p) == Filter(a, p) + Filter(b, p)
    decreases |a|
  {
    if |a| > 0 {
      assert (a + b)[1..] == a[1..] + b;
      FilterConcat(a[1..], b, p);
    } else {
      assert a + b == b;
    }
  }

  /** The head of a filtered sequence is the first element that passes. */
  lemma {:induction false} FilterHead<T>(xs: seq<T>, p: T -> bool)
    ensures |Filter(xs, p)| > 0 ==>
      exists i :: 0 <= i < |xs| && p(xs[i]) && Filter(xs, p)[0] == xs[i]
        && forall j :: 0 <= j < i ==> !p(xs[j])
    decreases |xs|
  {
    if |xs| > 0 && !p(xs[0]) {
      FilterHead(xs[1..], p);
      if |Filter(xs, p)| > 0 {
        var k :| 0 <= k < |xs[1..]| && p(xs[1..][k]) && Filter(xs[1..], p)[0] == xs[1..][k]
          && forall j :: 0 <= j < k ==> !p(xs[1..][j]);
        assert p(xs[k + 1]) && Filter(xs, p)[0] == xs[k + 1];
        assert forall j :: 0 <= j < k + 1 ==> !p(xs[j]) by {
          forall j | 0 <= j < k + 1 ensures !p(xs[j]) {
            if j > 0 { assert xs[j] == xs[1..][j - 1]; }
          }
        }
      }
    }
  }

  /** Replacing an element that fails `p` by one that satisfies it adds
      exactly that element to the filtered sequence. */
  lemma FilterUpdate<T>(xs: seq<T>, i: nat, y: T, p: T -> bool)
    requires i < |xs| && !p(xs[i]) && p(y)
    ensures |Filter(xs[i := y], p)| == |Filter(xs, p)| + 1
    ensures y in Filter(xs[i := y], p)
  {
    var pre, post := xs[..i], xs[i + 1..];
    assert xs == pre + [xs[i]] + post;
    assert xs[i := y] == pre + [y] + post;
    FilterConcat(pre + [xs[i]], post, p);
    FilterConcat(pre, [xs[i]], p);
    FilterConcat(pre + [y], post, p);
    FilterConcat(pre, [y], p);
    assert Filter([xs[i]], p) == [];
    assert Filter([y], p) == [y];
  }

  predicate NoDuplicates<T(==)>(xs: seq<T>) {
    forall i, j :: 0 <= i < j < |xs| ==> xs[i] != xs[j]
  }

  /** Appending an element that is not yet present keeps the sequence duplicate-free. */
  lemma AppendFresh<T>(xs: seq<T>, x: T)
    requires NoDuplicates(xs) && x !in xs
    ensures NoDuplicates(xs + [x])
  {
  }
}
