/** Option and Result values shared by the other modules. */
module Wrappers {

  datatype Option<+T> = None | Some(value: T)

  /** The outcome of an operation that may throw: a value, or the error it throws. */
  datatype Result<+T, +E> = Ok(value: T) | Err(error: E)

  /** `f` applied to the elements from left to right; the first failure is the outcome. */
  function MapAll<A, B, E>(f: A -> Result<B, E>, xs: seq<A>): Result<seq<B>, E>
  {
    if xs == [] then Ok([])
    else
      match f(xs[0])
      case Err(e) => Err(e)
      case Ok(y) =>
        match MapAll(f, xs[1..])
        case Err(e) => Err(e)
        case Ok(ys) => Ok([y] + ys)
  }

  /** The whole succeeds with `ys` exactly when every element succeeds with its entry of `ys`. */
  lemma {:induction false} MapAllOk<A, B, E>(f: A -> Result<B, E>, xs: seq<A>, ys: seq<B>)
    ensures MapAll(f, xs) == Ok(ys) <==> |ys| == |xs| && forall i :: 0 <= i < |xs| ==> f(xs[i]) == Ok(ys[i])
  {
    if xs != [] {
      if ys != [] {
        MapAllOk(f, xs[1..], ys[1..]);
        if |ys| == |xs| && forall i :: 0 <= i < |xs| ==> f(xs[i]) == Ok(ys[i]) {
          assert f(xs[0]) == Ok(ys[0]);
          forall i | 0 <= i < |xs| - 1
            ensures f(xs[1..][i]) == Ok(ys[1..][i])
          {
            assert f(xs[i + 1]) == Ok(ys[i + 1]);
          }
          assert [ys[0]] + ys[1..] == ys;
        }
        if MapAll(f, xs) == Ok(ys) {
          assert f(xs[0]) == Ok(ys[0]);
          assert MapAll(f, xs[1..]) == Ok(ys[1..]);
          forall i | 0 <= i < |xs|
            ensures f(xs[i]) == Ok(ys[i])
          {
            if i > 0 {
              assert xs[i] == xs[1..][i - 1] && ys[i] == ys[1..][i - 1];
            }
          }
        }
      } else {
        assert MapAll(f, xs).Ok? ==> |MapAll(f, xs).value| > 0;
      }
    } else {
      assert MapAll(f, xs) == Ok(ys) ==> ys == [];
    }
  }

  /** The whole fails with `e` exactly when some element fails with `e` and every element before it succeeds. */
  lemma {:induction false} MapAllError<A, B, E>(f: A -> Result<B, E>, xs: seq<A>, e: E)
    ensures MapAll(f, xs) == Err(e) <==>
            exists i :: 0 <= i < |xs| && f(xs[i]) == Err(e) && forall j :: 0 <= j < i ==> f(xs[j]).Ok?
  {
    if xs != [] {
      var rest := xs[1..];
      MapAllError(f, rest, e);
      if f(xs[0]).Ok? {
        if exists i :: 0 <= i < |rest| && f(rest[i]) == Err(e) && forall j :: 0 <= j < i ==> f(rest[j]).Ok? {
          var i :| 0 <= i < |rest| && f(rest[i]) == Err(e) && forall j :: 0 <= j < i ==> f(rest[j]).Ok?;
          forall j | 0 <= j < i + 1
            ensures f(xs[j]).Ok?
          {
            if j > 0 {
              assert xs[j] == rest[j - 1];
            }
          }
          assert xs[i + 1] == rest[i];
        }
        if exists i :: 0 <= i < |xs| && f(xs[i]) == Err(e) && forall j :: 0 <= j < i ==> f(xs[j]).Ok? {
          var i :| 0 <= i < |xs| && f(xs[i]) == Err(e) && forall j :: 0 <= j < i ==> f(xs[j]).Ok?;
          assert i != 0;
          forall j | 0 <= j < i - 1
            ensures f(rest[j]).Ok?
          {
            assert rest[j] == xs[j + 1];
          }
          assert rest[i - 1] == xs[i];
        }
      } else {
        if exists i :: 0 <= i < |xs| && f(xs[i]) == Err(e) && forall j :: 0 <= j < i ==> f(xs[j]).Ok? {
          var i :| 0 <= i < |xs| && f(xs[i]) == Err(e) && forall j :: 0 <= j < i ==> f(xs[j]).Ok?;
          assert i == 0;
        }
      }
    }
  }

  /** The whole fails exactly when some element fails. */
  lemma {:induction false} MapAllFails<A, B, E>(f: A -> Result<B, E>, xs: seq<A>)
    ensures MapAll(f, xs).Err? <==> exists i :: 0 <= i < |xs| && f(xs[i]).Err?
  {
    if xs != [] {
      var rest := xs[1..];
      MapAllFails(f, rest);
      if exists i :: 0 <= i < |rest| && f(rest[i]).Err? {
        var i :| 0 <= i < |rest| && f(rest[i]).Err?;
        assert xs[i + 1] == rest[i];
      }
      if exists i :: 0 <= i < |xs| && f(xs[i]).Err? {
        var i :| 0 <= i < |xs| && f(xs[i]).Err?;
        if i > 0 {
          assert rest[i - 1] == xs[i];
        }
      }
    }
  }

  /** One more element that succeeds extends the outcome by its value. */
  lemma MapAllSnoc<A, B, E>(f: A -> Result<B, E>, xs: seq<A>, i: int)
    requires 0 <= i < |xs| && MapAll(f, xs[..i]).Ok? && f(xs[i]).Ok?
    ensures MapAll(f, xs[..i + 1]) == Ok(MapAll(f, xs[..i]).value + [f(xs[i]).value])
  {
    var ys := MapAll(f, xs[..i]).value;
    MapAllOk(f, xs[..i], ys);
    MapAllOk(f, xs[..i + 1], ys + [f(xs[i]).value]);
  }

  /** After elements that all succeed, the first failure decides the outcome, whatever follows. */
  lemma MapAllStops<A, B, E>(f: A -> Result<B, E>, xs: seq<A>, i: int)
    requires 0 <= i < |xs| && MapAll(f, xs[..i]).Ok? && f(xs[i]).Err?
    ensures MapAll(f, xs) == Err(f(xs[i]).error)
  {
    MapAllOk(f, xs[..i], MapAll(f, xs[..i]).value);
    MapAllError(f, xs, f(xs[i]).error);
  }
}
