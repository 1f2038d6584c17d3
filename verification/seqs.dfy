/** Sequence combinators with exceptions: the collection pipelines and early-exit loops
    of the matcher, stated once for any element type and any per-element verdict. */
module Seqs {
  import opened Wrappers

  /** `xs.map(f)` collected into a list, where `f` may throw: the first failing element's
      exception escapes, otherwise every result is kept in order. */
  function MapOrFail<T, U, E>(xs: seq<T>, f: T -> Result<U, E>): (r: Result<seq<U>, E>)
    ensures r.Failure? <==> exists k :: 0 <= k < |xs| && f(xs[k]).Failure?
    ensures r.Failure? ==> exists k :: 0 <= k < |xs| && f(xs[k]) == Failure(r.error)
    ensures r.Success? ==> |r.value| == |xs| && forall k :: 0 <= k < |xs| ==> f(xs[k]) == Success(r.value[k])
  {
    if |xs| == 0 then Success([])
    else
      match f(xs[0])
      case Failure(e) => Failure(e)
      case Success(first) =>
        var rest := MapOrFail(xs[1..], f);
        assert forall k :: 1 <= k < |xs| ==> xs[k] == xs[1..][k - 1];
        match rest
        case Failure(e) => Failure(e)
        case Success(tail) => Success([first] + tail)
  }

  /** Mapping a single element that succeeds gives the one-element list of its value. */
  lemma MapOrFailSingleton<T, U, E>(x: T, f: T -> Result<U, E>)
    requires f(x).Success?
    ensures MapOrFail([x], f) == Success([f(x).value])
  {
    var r := MapOrFail([x], f);
    assert [x][0] == x;
    assert r.Success? && |r.value| == 1 && f(x) == Success(r.value[0]);
    assert r.value == [r.value[0]];
  }

  /** Mapping two elements that both succeed gives the list of their two values. */
  lemma MapOrFailPair<T, U, E>(x: T, y: T, f: T -> Result<U, E>)
    requires f(x).Success? && f(y).Success?
    ensures MapOrFail([x, y], f) == Success([f(x).value, f(y).value])
  {
    var r := MapOrFail([x, y], f);
    assert [x, y][0] == x && [x, y][1] == y;
    assert r.Success? && |r.value| == 2 && f(x) == Success(r.value[0]) && f(y) == Success(r.value[1]);
    assert r.value == [r.value[0], r.value[1]];
  }

  /** Mapping a concatenation maps each part: it throws iff either part throws, and
      otherwise yields the two results concatenated. */
  lemma MapOrFailAppend<T, U, E>(a: seq<T>, b: seq<T>, f: T -> Result<U, E>)
    ensures MapOrFail(a + b, f).Success? <==> MapOrFail(a, f).Success? && MapOrFail(b, f).Success?
    ensures MapOrFail(a + b, f).Success? ==> MapOrFail(a + b, f).value == MapOrFail(a, f).value + MapOrFail(b, f).value
  {
    var ab := a + b;
    if MapOrFail(a, f).Failure? {
      var k :| 0 <= k < |a| && f(a[k]).Failure?;
      assert ab[k] == a[k];
    } else if MapOrFail(b, f).Failure? {
      var k :| 0 <= k < |b| && f(b[k]).Failure?;
      assert ab[|a| + k] == b[k];
    } else {
      assert forall k :: 0 <= k < |ab| ==> f(ab[k]).Success? by {
        forall k | 0 <= k < |ab| ensures f(ab[k]).Success? {
          if k < |a| { assert ab[k] == a[k]; } else { assert ab[k] == b[k - |a|]; }
        }
      }
      var r := MapOrFail(ab, f).value;
      var p := MapOrFail(a, f).value + MapOrFail(b, f).value;
      assert |r| == |p|;
      forall k | 0 <= k < |r| ensures r[k] == p[k] {
        if k < |a| { assert ab[k] == a[k]; } else { assert ab[k] == b[k - |a|]; }
      }
    }
  }

  /** A loop that returns true at the first element judged true, lets the first
      exception escape, and returns false after the last element. */
  function FindAny<T, E>(xs: seq<T>, verdict: T -> Result<bool, E>): (r: Result<bool, E>)
    ensures r == Success(true) <==>
      exists k :: 0 <= k < |xs| && verdict(xs[k]) == Success(true) && forall j :: 0 <= j < k ==> verdict(xs[j]).Success?
    ensures r.Failure? <==>
      exists k :: 0 <= k < |xs| && verdict(xs[k]).Failure? && forall j :: 0 <= j < k ==> verdict(xs[j]) == Success(false)
  {
    if |xs| == 0 then Success(false)
    else
      match verdict(xs[0])
      case Failure(e) => Failure(e)
      case Success(found) =>
        if found then Success(true)
        else
          var r := FindAny(xs[1..], verdict);
          assert forall k :: 1 <= k < |xs| ==> xs[k] == xs[1..][k - 1];
          r
  }

  /** When every verdict is decided, `FindAny` says whether some verdict is true. */
  lemma FindAnyAllDecided<T, E>(xs: seq<T>, verdict: T -> Result<bool, E>)
    requires forall k :: 0 <= k < |xs| ==> verdict(xs[k]).Success?
    ensures FindAny(xs, verdict) == Success(exists k :: 0 <= k < |xs| && verdict(xs[k]) == Success(true))
  {
    var r := FindAny(xs, verdict);
    if exists k :: 0 <= k < |xs| && verdict(xs[k]) == Success(true) {
      var k :| 0 <= k < |xs| && verdict(xs[k]) == Success(true);
      assert forall j :: 0 <= j < k ==> verdict(xs[j]).Success?;
    }
  }

  /** A loop that appends every element judged true to an accumulator and lets the first
      exception escape. */
  function Select<T(!new), E>(xs: seq<T>, verdict: T -> Result<bool, E>): (r: Result<seq<T>, E>)
    ensures r.Failure? <==> exists k :: 0 <= k < |xs| && verdict(xs[k]).Failure?
    ensures r.Success? ==> |r.value| <= |xs|
    ensures r.Success? ==> forall x :: x in r.value <==> x in xs && verdict(x) == Success(true)
  {
    if |xs| == 0 then Success([])
    else
      match verdict(xs[0])
      case Failure(e) => Failure(e)
      case Success(keep) =>
        var rest := Select(xs[1..], verdict);
        assert forall k :: 1 <= k < |xs| ==> xs[k] == xs[1..][k - 1];
        assert forall x :: x in xs <==> x == xs[0] || x in xs[1..];
        match rest
        case Failure(e) => Failure(e)
        case Success(tail) => if keep then Success([xs[0]] + tail) else Success(tail)
  }

  /** Selecting from one element keeps it iff its verdict is true. */
  lemma SelectSingleton<T(!new), E>(x: T, verdict: T -> Result<bool, E>)
    requires verdict(x).Success?
    ensures Select([x], verdict) == Success(if verdict(x).value then [x] else [])
  {
    assert [x][0] == x && [x][1..] == [];
    assert Select([x][1..], verdict) == Success([]);
    assert [x] + [] == [x];
  }

  /** One step of the selection loop: the head is judged first, then the tail. */
  lemma SelectCons<T(!new), E>(x: T, xs: seq<T>, verdict: T -> Result<bool, E>)
    ensures verdict(x).Failure? ==> Select([x] + xs, verdict) == Failure(verdict(x).error)
    ensures verdict(x).Success? && Select(xs, verdict).Failure? ==> Select([x] + xs, verdict) == Select(xs, verdict)
    ensures verdict(x).Success? && Select(xs, verdict).Success? ==>
      Select([x] + xs, verdict) == Success((if verdict(x).value then [x] else []) + Select(xs, verdict).value)
  {
    assert ([x] + xs)[0] == x && ([x] + xs)[1..] == xs;
    if Select(xs, verdict).Success? {
      assert [] + Select(xs, verdict).value == Select(xs, verdict).value;
    }
  }

  /** Selection keeps the original order: selecting from `a + b` selects from `a`, then
      from `b`. */
  lemma {:induction false} SelectAppend<T(!new), E>(a: seq<T>, b: seq<T>, verdict: T -> Result<bool, E>)
    requires Select(a + b, verdict).Success?
    ensures Select(a, verdict).Success? && Select(b, verdict).Success?
    ensures Select(a + b, verdict).value == Select(a, verdict).value + Select(b, verdict).value
    decreases |a|
  {
    if |a| == 0 {
      assert a + b == b;
    } else {
      var t := a[1..];
      assert a == [a[0]] + t;
      assert a + b == [a[0]] + (t + b);
      SelectCons(a[0], t + b, verdict);
      SelectAppend(t, b, verdict);
      SelectCons(a[0], t, verdict);
      var head := if verdict(a[0]).value then [a[0]] else [];
      assert head + (Select(t, verdict).value + Select(b, verdict).value)
          == (head + Select(t, verdict).value) + Select(b, verdict).value;
    }
  }

  /** Scanning for a true verdict and selecting the true elements agree whenever they
      judge two sequences alike position by position: the scan finds one exactly when the
      selection is non-empty, and it cannot answer false where selection throws. */
  lemma {:induction false} FindAnyAgreesWithSelect<S, T(!new), E>(ys: seq<S>, vy: S -> Result<bool, E>,
                                                                   xs: seq<T>, vx: T -> Result<bool, E>)
    requires |ys| == |xs|
    requires forall k :: 0 <= k < |xs| ==> vy(ys[k]) == vx(xs[k])
    ensures Select(xs, vx).Success? ==> FindAny(ys, vy) == Success(|Select(xs, vx).value| > 0)
    ensures Select(xs, vx).Failure? ==> FindAny(ys, vy) != Success(false)
    decreases |xs|
  {
    if |xs| > 0 {
      assert forall k :: 0 <= k < |xs| - 1 ==> vy(ys[1..][k]) == vx(xs[1..][k]) by {
        forall k | 0 <= k < |xs| - 1 ensures vy(ys[1..][k]) == vx(xs[1..][k]) {
          assert ys[1..][k] == ys[k + 1] && xs[1..][k] == xs[k + 1];
        }
      }
      FindAnyAgreesWithSelect(ys[1..], vy, xs[1..], vx);
    }
  }
}
