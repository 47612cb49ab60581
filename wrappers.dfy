/** Failure-carrying result types shared by every module of the model. */
module Wrappers {

  /** A value that may be absent; stands for a C# reference that may be null. */
  datatype Option<+T> = None | Some(value: T)

  /** The .NET exceptions that the modelled code can raise. */
  datatype Exception =
    | FormatException
    | OverflowException
    | ArgumentException
    | ArgumentNullException
    | IndexOutOfRangeException
    | NullReferenceException

  /** The outcome of a computation that may throw. */
  datatype Result<+T> = Success(value: T) | Failure(error: Exception)

  /** A value read from an input together with the cursor position after it. */
  datatype Scan<T> = Scan(value: T, next: nat)

  /** Puts `prefix` in front of the list a successful computation produced. */
  function Prepend<T>(prefix: seq<T>, r: Result<seq<T>>): (out: Result<seq<T>>)
    ensures out.Success? <==> r.Success?
    ensures out.Success? ==> out.value == prefix + r.value
    ensures out.Failure? ==> out.error == r.error
  {
    match r
    case Success(v) => Success(prefix + v)
    case Failure(e) => Failure(e)
  }

  lemma PrependEmpty<T>(r: Result<seq<T>>)
    ensures Prepend([], r) == r
  {
    if r.Success? {
      assert [] + r.value == r.value;
    }
  }

  lemma PrependAssociative<T>(a: seq<T>, b: seq<T>, r: Result<seq<T>>)
    ensures Prepend(a, Prepend(b, r)) == Prepend(a + b, r)
  {
    if r.Success? {
      assert a + (b + r.value) == (a + b) + r.value;
    }
  }
}
