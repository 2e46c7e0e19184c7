/** Errors and results of the diff pipeline, and the way its loops that can
    fail combine per-item results: concatenate them in order and stop at the
    first error (the `if err != nil { return nil, err }` pattern of
    `findChangesByHunkHeader` and of the two loops of `findChanges`). */
module Results {

  /** The failures the pipeline can meet. */
  datatype Error =
    | CommandFailed(reason: string)  // an external command produced no usable output
    | OutOfRange(digits: string)     // strconv.ParseInt: the value does not fit in 64 bits

  datatype Result<T> = Ok(value: T) | Err(error: Error)

  /** Appends the result of one more item to what was accumulated so far;
      the first error wins. */
  function Extend<Y>(acc: Result<seq<Y>>, next: Result<seq<Y>>): Result<seq<Y>>
  {
    if acc.Err? then acc
    else if next.Err? then Err(next.error)
    else Ok(acc.value + next.value)
  }

  /** The results of `f` on every item of `xs`, concatenated in order, or the
      error of the first item that fails. */
  function Collect<X, Y>(xs: seq<X>, f: X -> Result<seq<Y>>): Result<seq<Y>>
    decreases |xs|
  {
    if xs == [] then Ok([])
    else Extend(Collect(xs[..|xs| - 1], f), f(xs[|xs| - 1]))
  }

  /** One more item: the step a loop over `xs` takes. */
  lemma CollectStep<X, Y>(xs: seq<X>, k: nat, f: X -> Result<seq<Y>>)
    requires k < |xs|
    ensures Collect(xs[..k + 1], f) == Extend(Collect(xs[..k], f), f(xs[k]))
  {
    assert xs[..k + 1][..k] == xs[..k];
  }

  /** Once a prefix has failed, the whole list fails with the same error: no
      partial result escapes. */
  lemma {:induction false} CollectSticky<X, Y>(xs: seq<X>, k: nat, f: X -> Result<seq<Y>>)
    requires k <= |xs| && Collect(xs[..k], f).Err?
    ensures Collect(xs, f) == Collect(xs[..k], f)
    decreases |xs| - k
  {
    if k == |xs| {
      assert xs[..k] == xs;
    } else {
      CollectStep(xs, k, f);
      CollectSticky(xs, k + 1, f);
    }
  }

  /** The combination succeeds exactly when every item succeeds. */
  lemma {:induction false} CollectOkIff<X, Y>(xs: seq<X>, f: X -> Result<seq<Y>>)
    ensures Collect(xs, f).Ok? <==> forall k :: 0 <= k < |xs| ==> f(xs[k]).Ok?
    decreases |xs|
  {
    if xs != [] {
      var n := |xs| - 1;
      CollectOkIff(xs[..n], f);
      assert forall k :: 0 <= k < n ==> xs[..n][k] == xs[k];
    }
  }

  /** A failure is the error of the first failing item, and every item before
      it succeeded. */
  lemma {:induction false} CollectFirstError<X, Y>(xs: seq<X>, f: X -> Result<seq<Y>>)
    requires Collect(xs, f).Err?
    ensures exists k :: 0 <= k < |xs| && f(xs[k]) == Err(Collect(xs, f).error) &&
                        forall j :: 0 <= j < k ==> f(xs[j]).Ok?
    decreases |xs|
  {
    var n := |xs| - 1;
    assert forall j :: 0 <= j < n ==> xs[..n][j] == xs[j];
    if Collect(xs[..n], f).Err? {
      CollectFirstError(xs[..n], f);
      var k :| 0 <= k < n && f(xs[..n][k]) == Err(Collect(xs[..n], f).error) &&
               forall j :: 0 <= j < k ==> f(xs[..n][j]).Ok?;
      assert f(xs[k]) == Err(Collect(xs, f).error);
    } else {
      CollectOkIff(xs[..n], f);
      assert f(xs[n]) == Err(Collect(xs, f).error);
    }
  }

  /** When every item contributes exactly one element, the combination is the
      list of those elements, position by position. */
  lemma {:induction false} CollectSingletons<X, Y>(xs: seq<X>, f: X -> Result<seq<Y>>)
    requires forall k :: 0 <= k < |xs| ==> f(xs[k]).Ok? && |f(xs[k]).value| == 1
    ensures Collect(xs, f).Ok? && |Collect(xs, f).value| == |xs|
    ensures forall k :: 0 <= k < |xs| ==> Collect(xs, f).value[k] == f(xs[k]).value[0]
    decreases |xs|
  {
    if xs != [] {
      var n := |xs| - 1;
      assert forall k :: 0 <= k < n ==> xs[..n][k] == xs[k];
      CollectSingletons(xs[..n], f);
    }
  }

  /** When every item contributes at most one element, the combination is
      the elements of the items that contributed one, in item order: `idx`
      lists those items, and every other item contributed nothing. */
  lemma {:induction false} CollectSelect<X, Y>(xs: seq<X>, f: X -> Result<seq<Y>>) returns (idx: seq<nat>)
    requires Collect(xs, f).Ok?
    requires forall k :: 0 <= k < |xs| && f(xs[k]).Ok? ==> |f(xs[k]).value| <= 1
    ensures forall k :: 0 <= k < |xs| ==> f(xs[k]).Ok?
    ensures |idx| == |Collect(xs, f).value|
    ensures forall j :: 0 <= j < |idx| ==>
              idx[j] < |xs| && |f(xs[idx[j]]).value| == 1 && Collect(xs, f).value[j] == f(xs[idx[j]]).value[0]
    ensures forall i, j :: 0 <= i < j < |idx| ==> idx[i] < idx[j]
    ensures forall k :: 0 <= k < |xs| && k !in idx ==> f(xs[k]).value == []
    decreases |xs|
  {
    CollectOkIff(xs, f);
    if xs == [] {
      idx := [];
    } else {
      var n := |xs| - 1;
      var prefix := xs[..n];
      assert forall k :: 0 <= k < n ==> prefix[k] == xs[k];
      var idx0 := CollectSelect(prefix, f);
      var v0 := Collect(prefix, f).value;
      var last := f(xs[n]).value;
      assert Collect(xs, f).value == v0 + last;
      if last == [] {
        idx := idx0;
      } else {
        idx := idx0 + [n];
        assert forall j :: 0 <= j < |idx0| ==> idx[j] == idx0[j];
      }
    }
  }
}
