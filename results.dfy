/** Failure-carrying values shared by the model, and the "stop at the first
    failure" traversal performed by the page-range parser's loop over tokens
    and by the merge loop over sources: a Python exception raised inside a
    `for` loop abandons the loop and discards whatever the loop had
    gathered. */
module Results {

  datatype Option<+T> = None | Some(value: T)

  datatype Result<+T, +E> = Success(value: T) | Failure(error: E)

  /** Applies `f` to each element in order and collects the successes; the
      first failure wins and stops the traversal. Defined from the back, as a
      loop that has processed a prefix sees it. */
  function Traverse<T, U, E>(xs: seq<T>, f: T -> Result<U, E>): (r: Result<seq<U>, E>)
    decreases |xs|
  {
    if xs == [] then Success([])
    else
      match Traverse(xs[..|xs| - 1], f)
      case Failure(e) => Failure(e)
      case Success(us) =>
        match f(xs[|xs| - 1])
        case Failure(e) => Failure(e)
        case Success(u) => Success(us + [u])
  }

  /** One step of a loop: extending a successful prefix by one element. */
  lemma TraverseSnoc<T, U, E>(xs: seq<T>, x: T, f: T -> Result<U, E>)
    ensures Traverse(xs + [x], f) ==
              match Traverse(xs, f)
              case Failure(e) => Failure(e)
              case Success(us) =>
                match f(x)
                case Failure(e) => Failure(e)
                case Success(u) => Success(us + [u])
  {
    assert (xs + [x])[..|xs + [x]| - 1] == xs;
  }

  /** One turn of a loop over `xs`: at a failing element the whole traversal
      fails with that element's error; otherwise the prefix grows by one. */
  lemma TraverseStep<T, U, E>(xs: seq<T>, i: nat, f: T -> Result<U, E>)
    requires i < |xs|
    requires Traverse(xs[..i], f).Success?
    ensures f(xs[i]).Failure? ==> Traverse(xs, f) == Failure(f(xs[i]).error)
    ensures f(xs[i]).Success? ==>
              Traverse(xs[..i + 1], f) == Success(Traverse(xs[..i], f).value + [f(xs[i]).value])
  {
    assert xs[..i + 1] == xs[..i] + [xs[i]];
    TraverseSnoc(xs[..i], xs[i], f);
    if f(xs[i]).Failure? {
      TraverseFailureSticks(xs[..i + 1], xs[i + 1..], f);
      assert xs[..i + 1] + xs[i + 1..] == xs;
    }
  }

  /** Once a prefix has failed, nothing that follows changes the outcome. */
  lemma {:induction false} TraverseFailureSticks<T, U, E>(xs: seq<T>, ys: seq<T>, f: T -> Result<U, E>)
    requires Traverse(xs, f).Failure?
    ensures Traverse(xs + ys, f) == Traverse(xs, f)
    decreases |ys|
  {
    if ys != [] {
      var init := ys[..|ys| - 1];
      assert xs + ys == (xs + init) + [ys[|ys| - 1]];
      TraverseFailureSticks(xs, init, f);
      TraverseSnoc(xs + init, ys[|ys| - 1], f);
    } else {
      assert xs + ys == xs;
    }
  }

  /** On success there is one result per element, each the element's own. */
  lemma {:induction false} TraverseSuccess<T, U, E>(xs: seq<T>, f: T -> Result<U, E>)
    requires Traverse(xs, f).Success?
    ensures |Traverse(xs, f).value| == |xs|
    ensures forall i :: 0 <= i < |xs| ==> f(xs[i]) == Success(Traverse(xs, f).value[i])
    decreases |xs|
  {
    if xs != [] {
      TraverseSuccess(xs[..|xs| - 1], f);
    }
  }

  /** After a successful traversal, some result has property `P` exactly when
      some element converts to a result with property `P`. */
  lemma TraverseExists<T, U, E>(xs: seq<T>, f: T -> Result<U, E>, P: U -> bool)
    requires Traverse(xs, f).Success?
    ensures (exists i :: 0 <= i < |Traverse(xs, f).value| && P(Traverse(xs, f).value[i])) <==>
            (exists x :: x in xs && f(x).Success? && P(f(x).value))
  {
    var us := Traverse(xs, f).value;
    TraverseSuccess(xs, f);
    if exists i :: 0 <= i < |us| && P(us[i]) {
      var i :| 0 <= i < |us| && P(us[i]);
      assert xs[i] in xs && f(xs[i]).Success? && P(f(xs[i]).value);
    }
    if exists x :: x in xs && f(x).Success? && P(f(x).value) {
      var x :| x in xs && f(x).Success? && P(f(x).value);
      var i :| 0 <= i < |xs| && xs[i] == x;
      assert P(us[i]);
    }
  }

  /** The traversal succeeds exactly when every element succeeds. */
  lemma {:induction false} TraverseSucceedsIff<T, U, E>(xs: seq<T>, f: T -> Result<U, E>)
    ensures Traverse(xs, f).Success? <==> forall i :: 0 <= i < |xs| ==> f(xs[i]).Success?
    decreases |xs|
  {
    if xs != [] {
      var init := xs[..|xs| - 1];
      TraverseSucceedsIff(init, f);
      assert forall i :: 0 <= i < |init| ==> init[i] == xs[i];
    }
  }

  /** On failure the error is that of the first element that fails. */
  lemma {:induction false} TraverseFirstFailure<T, U, E>(xs: seq<T>, f: T -> Result<U, E>)
    requires Traverse(xs, f).Failure?
    ensures exists k :: 0 <= k < |xs| && f(xs[k]) == Failure(Traverse(xs, f).error)
                        && forall j :: 0 <= j < k ==> f(xs[j]).Success?
    decreases |xs|
  {
    var init := xs[..|xs| - 1];
    if Traverse(init, f).Failure? {
      TraverseFirstFailure(init, f);
      var k :| 0 <= k < |init| && f(init[k]) == Failure(Traverse(init, f).error)
               && forall j :: 0 <= j < k ==> f(init[j]).Success?;
      assert f(xs[k]) == Failure(Traverse(xs, f).error);
      assert forall j :: 0 <= j < k ==> f(xs[j]).Success? by {
        forall j | 0 <= j < k ensures f(xs[j]).Success? {
          assert xs[j] == init[j];
        }
      }
    } else {
      TraverseSucceedsIff(init, f);
      var k := |xs| - 1;
      assert forall j :: 0 <= j < k ==> f(xs[j]).Success? by {
        forall j | 0 <= j < k ensures f(xs[j]).Success? {
          assert xs[j] == init[j];
        }
      }
    }
  }
}
