/** Results of fallible operations, and the all-or-nothing collection of a
    sequence of them that Rust's `collect::<Result<Vec<_>, _>>()` and a loop
    with `?` both perform. */
module Results {

  datatype Option<+T> = None | Some(value: T)

  datatype Result<+T, +E> = Ok(value: T) | Err(error: E) {

    predicate IsFailure() {
      Err?
    }

    function PropagateFailure<U>(): Result<U, E>
      requires Err?
    {
      Err(error)
    }

    function Extract(): T
      requires Ok?
    {
      value
    }
  }

  /** Gathers the values of `rs` in order, stopping at the first error:
      no partial list is ever returned. */
  function Collect<T, E>(rs: seq<Result<T, E>>): (r: Result<seq<T>, E>)
    ensures r.Ok? ==> |r.value| == |rs| && forall k :: 0 <= k < |rs| ==> rs[k] == Ok(r.value[k])
  {
    if rs == [] then Ok([])
    else match rs[0]
      case Err(e) => Err(e)
      case Ok(x) =>
        match Collect(rs[1..])
        case Err(e) => Err(e)
        case Ok(xs) => Ok([x] + xs)
  }

  /** The index of the first error of `rs`, if `rs` holds one. */
  predicate FirstErrorAt<T, E>(rs: seq<Result<T, E>>, i: nat)
  {
    i < |rs| && rs[i].Err? && forall j :: 0 <= j < i ==> rs[j].Ok?
  }

  /** Collect succeeds exactly when every element does, and then yields
      every value, in order. */
  lemma {:induction false} CollectOk<T, E>(rs: seq<Result<T, E>>, xs: seq<T>)
    ensures Collect(rs) == Ok(xs) <==>
            (|xs| == |rs| && forall k :: 0 <= k < |rs| ==> rs[k] == Ok(xs[k]))
  {
    if rs != [] {
      if xs != [] {
        CollectOk(rs[1..], xs[1..]);
        if |xs| == |rs| && forall k :: 0 <= k < |rs| ==> rs[k] == Ok(xs[k]) {
          assert forall k :: 0 <= k < |rs| - 1 ==> rs[1..][k] == Ok(xs[1..][k]) by {
            forall k | 0 <= k < |rs| - 1 ensures rs[1..][k] == Ok(xs[1..][k]) {
              assert rs[1..][k] == rs[k + 1];
            }
          }
          assert [xs[0]] + xs[1..] == xs;
        }
        if Collect(rs) == Ok(xs) {
          var tail := Collect(rs[1..]);
          assert tail == Ok(xs[1..]);
          forall k | 0 <= k < |rs| ensures rs[k] == Ok(xs[k]) {
            if k > 0 { assert rs[k] == rs[1..][k - 1]; }
          }
        }
      } else {
        match rs[0]
        case Err(_) =>
        case Ok(_) =>
      }
    }
  }

  /** The error Collect reports is that of the first failing element. */
  /** The step a collecting loop takes when every element gave a value. */
  lemma CollectAllOk<T, E>(rs: seq<Result<T, E>>, xs: seq<T>)
    requires |xs| == |rs| && forall k :: 0 <= k < |rs| ==> rs[k] == Ok(xs[k])
    ensures Collect(rs) == Ok(xs)
  {
    CollectOk(rs, xs);
  }

  /** The step a collecting loop takes when element i is its first error. */
  lemma CollectStopsAt<T, E>(rs: seq<Result<T, E>>, i: nat)
    requires i < |rs| && rs[i].Err?
    requires forall k :: 0 <= k < i ==> rs[k].Ok?
    ensures Collect(rs) == Err(rs[i].error)
  {
    assert FirstErrorAt(rs, i);
    CollectFirstError(rs, i);
  }

  lemma {:induction false} CollectFirstError<T, E>(rs: seq<Result<T, E>>, i: nat)
    requires FirstErrorAt(rs, i)
    ensures Collect(rs) == Err(rs[i].error)
  {
    if i > 0 {
      assert FirstErrorAt(rs[1..], i - 1) by {
        assert rs[1..][i - 1] == rs[i];
        forall j | 0 <= j < i - 1 ensures rs[1..][j].Ok? {
          assert rs[1..][j] == rs[j + 1];
        }
      }
      CollectFirstError(rs[1..], i - 1);
    }
  }

  /** One failing element is enough to make the whole collection fail. */
  lemma {:induction false} CollectErrIfAnyErr<T, E>(rs: seq<Result<T, E>>, k: nat)
    requires k < |rs| && rs[k].Err?
    ensures Collect(rs).Err?
  {
    if k > 0 && rs[0].Ok? {
      assert rs[1..][k - 1] == rs[k];
      CollectErrIfAnyErr(rs[1..], k - 1);
    }
  }

  /** A failing Collect always has a first failing element to blame. */
  lemma {:induction false} CollectErrHasFirstError<T, E>(rs: seq<Result<T, E>>)
    requires Collect(rs).Err?
    ensures exists i: nat :: FirstErrorAt(rs, i) && Collect(rs) == Err(rs[i].error)
  {
    if rs[0].Err? {
      assert FirstErrorAt(rs, 0);
    } else {
      CollectErrHasFirstError(rs[1..]);
      var i: nat :| FirstErrorAt(rs[1..], i) && Collect(rs[1..]) == Err(rs[1..][i].error);
      assert rs[1..][i] == rs[i + 1];
      forall j | 0 <= j < i + 1 ensures rs[j].Ok? {
        if j > 0 { assert rs[j] == rs[1..][j - 1]; }
      }
      assert FirstErrorAt(rs, i + 1);
    }
  }
}
