/** Failure-carrying values shared by every module of the model: Go's
    `(value, error)` pairs and nil values become `Result` and `Option`. */
module Wrappers {

  /** A value that may be absent (a Go nil, a missing map key). */
  datatype Option<+T> = None | Some(value: T) {
    function GetOr(default: T): T {
      match this
      case Some(v) => v
      case None => default
    }
  }

  /** Either a value or the error the source would return instead. */
  datatype Result<+T, +E> = Ok(value: T) | Err(error: E) {
    predicate IsFailure() {
      Err?
    }

    function PropagateFailure<U>(): Result<U, E>
      requires Err?
    {
      Err(error)
    }

    function Extract(): T
      requires Ok?
    {
      value
    }
  }

  /** The first present value of a sequence of optional values: the loop
      that stops at the first answer. */
  function FirstSome<T>(xs: seq<Option<T>>): (r: Option<T>)
    ensures r.None? <==> forall i :: 0 <= i < |xs| ==> xs[i].None?
    ensures r.Some? ==> exists i :: (0 <= i < |xs| && xs[i] == r
      && forall j :: 0 <= j < i ==> xs[j].None?)
  {
    if |xs| == 0 then None
    else if xs[0].Some? then xs[0]
    else
      var r := FirstSome(xs[1..]);
      assert forall k :: 1 <= k < |xs| ==> xs[k] == xs[1..][k - 1];
      assert r.Some? ==> exists i :: (0 <= i < |xs| && xs[i] == r
        && forall j :: 0 <= j < i ==> xs[j].None?) by {
        if r.Some? {
          var i :| 0 <= i < |xs[1..]| && xs[1..][i] == r
            && forall j :: 0 <= j < i ==> xs[1..][j].None?;
          assert xs[i + 1] == r;
          assert forall j :: 0 <= j < i + 1 ==> xs[j].None? by {
            forall j | 0 <= j < i + 1 ensures xs[j].None? {
              if j > 0 { assert xs[j] == xs[1..][j - 1]; }
            }
          }
        }
      }
      r
  }

  /** The present values of a sequence of optional values, in order: a loop
      that skips the failures. */
  function Somes<T>(xs: seq<Option<T>>): (r: seq<T>)
    ensures |r| <= |xs|
    ensures forall k :: 0 <= k < |r| ==> Some(r[k]) in xs
    ensures forall i :: 0 <= i < |xs| && xs[i].Some? ==> xs[i].value in r
  {
    if |xs| == 0 then []
    else
      var rest := Somes(xs[1..]);
      assert forall k :: 0 <= k < |rest| ==> Some(rest[k]) in xs by {
        forall k | 0 <= k < |rest| ensures Some(rest[k]) in xs {
          var i :| 0 <= i < |xs[1..]| && xs[1..][i] == Some(rest[k]);
          assert xs[i + 1] == Some(rest[k]);
        }
      }
      if xs[0].None? then rest
      else
        var r := [xs[0].value] + rest;
        assert forall k :: 1 <= k < |r| ==> r[k] == rest[k - 1];
        r
  }

  /** Skipping failures keeps the order: the present values of two
      segments are those of the first followed by those of the second. */
  lemma {:induction false} SomesAppend<T>(a: seq<Option<T>>, b: seq<Option<T>>)
    ensures Somes(a + b) == Somes(a) + Somes(b)
  {
    if |a| == 0 {
      assert a + b == b;
    } else {
      assert (a + b)[1..] == a[1..] + b;
      SomesAppend(a[1..], b);
    }
  }
}
