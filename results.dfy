/** The `ValueError` that `float()` raises, and the two loop shapes of
    `read_mgf`: appending one value per element, and extending with a list
    per element, both stopped by the first exception. */
module Results {
  /** The exception `float()` raises, carrying the text it could not convert. */
  datatype ValueError = ValueError(text: string)

  /** A value, or the `ValueError` raised while computing it. */
  datatype Result<T> = Ok(value: T) | Err(error: ValueError)

  /** A loop that applies `f` to each element in order and appends the
      value, stopping at the first `ValueError`. */
  function MapResult<T, U>(xs: seq<T>, f: T -> Result<U>): Result<seq<U>>
  {
    if xs == [] then Ok([])
    else
      match MapResult(xs[..|xs| - 1], f)
      case Err(e) => Err(e)
      case Ok(done) =>
        match f(xs[|xs| - 1])
        case Err(e) => Err(e)
        case Ok(y) => Ok(done + [y])
  }

  /** One more iteration of the loop. */
  lemma MapResultStep<T, U>(xs: seq<T>, f: T -> Result<U>, j: nat, done: seq<U>)
    requires j < |xs| && MapResult(xs[..j], f) == Ok(done)
    ensures MapResult(xs[..j + 1], f)
         == match f(xs[j]) case Err(e) => Err(e) case Ok(y) => Ok(done + [y])
  {
    assert xs[..j + 1][..j] == xs[..j];
  }

  /** Once an error is raised, the later elements are not looked at. */
  lemma {:induction false} MapResultPrefixErr<T, U>(xs: seq<T>, f: T -> Result<U>, n: nat)
    requires n <= |xs| && MapResult(xs[..n], f).Err?
    ensures MapResult(xs, f) == MapResult(xs[..n], f)
    decreases |xs| - n
  {
    if n < |xs| {
      assert xs[..n + 1][..n] == xs[..n];
      MapResultPrefixErr(xs, f, n + 1);
    } else {
      assert xs[..n] == xs;
    }
  }

  /** The loop succeeds exactly when every element converts; then it yields
      one value per element, in order. */
  lemma {:induction false} MapResultOk<T, U>(xs: seq<T>, f: T -> Result<U>)
    ensures MapResult(xs, f).Ok? <==> forall k :: 0 <= k < |xs| ==> f(xs[k]).Ok?
    ensures MapResult(xs, f).Ok? ==>
              |MapResult(xs, f).value| == |xs| &&
              forall k :: 0 <= k < |xs| ==> f(xs[k]) == Ok(MapResult(xs, f).value[k])
  {
    if xs != [] {
      var n := |xs| - 1;
      var init := xs[..n];
      MapResultOk(init, f);
      assert forall k :: 0 <= k < n ==> init[k] == xs[k];
      match MapResult(init, f)
      case Err(e) =>
        var k :| 0 <= k < n && !f(init[k]).Ok?;
        assert !f(xs[k]).Ok?;
      case Ok(done) =>
        match f(xs[n])
        case Err(e) =>
        case Ok(last) =>
          assert forall k :: 0 <= k < n ==> (done + [last])[k] == done[k];
    }
  }

  /** When the loop fails, the error is that of the first element that does
      not convert. */
  lemma {:induction false} MapResultFirstError<T, U>(xs: seq<T>, f: T -> Result<U>)
    requires MapResult(xs, f).Err?
    ensures exists k :: 0 <= k < |xs| && f(xs[k]) == Err(MapResult(xs, f).error) &&
                        forall j :: 0 <= j < k ==> f(xs[j]).Ok?
  {
    var n := |xs| - 1;
    var init := xs[..n];
    assert forall k :: 0 <= k < n ==> init[k] == xs[k];
    match MapResult(init, f)
    case Err(e) =>
      MapResultFirstError(init, f);
      var k :| 0 <= k < |init| && f(init[k]) == Err(e) &&
               forall j :: 0 <= j < k ==> f(init[j]).Ok?;
      assert f(xs[k]) == Err(MapResult(xs, f).error);
    case Ok(done) =>
      MapResultOk(init, f);
      assert f(xs[n]) == Err(MapResult(xs, f).error);
  }

  /** A loop that applies `f` to each element in order and extends the
      result with the values it returns, stopping at the first `ValueError`. */
  function FlatMapResult<T, U>(xs: seq<T>, f: T -> Result<seq<U>>): Result<seq<U>>
  {
    if xs == [] then Ok([])
    else
      match FlatMapResult(xs[..|xs| - 1], f)
      case Err(e) => Err(e)
      case Ok(done) =>
        match f(xs[|xs| - 1])
        case Err(e) => Err(e)
        case Ok(more) => Ok(done + more)
  }

  /** One more iteration of the loop. */
  lemma FlatMapResultStep<T, U>(xs: seq<T>, f: T -> Result<seq<U>>, i: nat, done: seq<U>)
    requires i < |xs| && FlatMapResult(xs[..i], f) == Ok(done)
    ensures FlatMapResult(xs[..i + 1], f)
         == match f(xs[i]) case Err(e) => Err(e) case Ok(more) => Ok(done + more)
  {
    assert xs[..i + 1][..i] == xs[..i];
  }

  /** Once an error is raised, the later elements are not looked at. */
  lemma {:induction false} FlatMapResultPrefixErr<T, U>(xs: seq<T>, f: T -> Result<seq<U>>, n: nat)
    requires n <= |xs| && FlatMapResult(xs[..n], f).Err?
    ensures FlatMapResult(xs, f) == FlatMapResult(xs[..n], f)
    decreases |xs| - n
  {
    if n < |xs| {
      assert xs[..n + 1][..n] == xs[..n];
      FlatMapResultPrefixErr(xs, f, n + 1);
    } else {
      assert xs[..n] == xs;
    }
  }

  /** Running the loop over `a + b` is running it over `a`, then over `b`. */
  lemma {:induction false} FlatMapResultConcat<T, U>(a: seq<T>, b: seq<T>, f: T -> Result<seq<U>>)
    ensures FlatMapResult(a + b, f)
         == match FlatMapResult(a, f)
            case Err(e) => Err(e)
            case Ok(x) => (match FlatMapResult(b, f) case Err(e) => Err(e) case Ok(y) => Ok(x + y))
  {
    if b == [] {
      assert a + b == a;
      match FlatMapResult(a, f)
      case Err(_) =>
      case Ok(x) => assert x + [] == x;
    } else {
      var n := |b| - 1;
      assert (a + b)[..|a + b| - 1] == a + b[..n];
      assert (a + b)[|a + b| - 1] == b[n];
      FlatMapResultConcat(a, b[..n], f);
      match FlatMapResult(a, f)
      case Err(_) =>
      case Ok(x) =>
        match FlatMapResult(b[..n], f)
        case Err(_) =>
        case Ok(y) =>
          match f(b[n])
          case Err(_) =>
          case Ok(z) =>
            assert (x + y) + z == x + (y + z);
    }
  }
}
