/** The usual failure and absence types, and rows read up to one of them. */
module Wrappers {
  datatype Option<+T> = None | Some(value: T)

  datatype Result<+T, +E> = Success(value: T) | Failure(error: E)

  /** What was read of a row, put before what its rest is read as. */
  function Before<T, E>(front: seq<T>, rest: Result<seq<T>, E>): Result<seq<T>, E> {
    match rest
    case Success(more) => Success(front + more)
    case Failure(error) => Failure(error)
  }

  lemma BeforeTogether<T, E>(a: seq<T>, b: seq<T>, rest: Result<seq<T>, E>)
    ensures Before(a, Before(b, rest)) == Before(a + b, rest)
  {
    if rest.Success? {
      assert a + (b + rest.value) == a + b + rest.value;
    }
  }

  lemma BeforeNothing<T, E>(rest: Result<seq<T>, E>)
    ensures Before([], rest) == rest
  {
    if rest.Success? {
      assert [] + rest.value == rest.value;
    }
  }

  /** Of a row whose rest is nothing, and of one whose rest cannot be read. */
  lemma BeforeEnds<T, E>(front: seq<T>, error: E)
    ensures Before<T, E>(front, Success([])) == Success(front)
    ensures Before<T, E>(front, Failure(error)) == Failure(error)
  {
    assert front + [] == front;
  }

  /** So many of one thing. */
  function Repeated<T>(x: T, count: nat): (r: seq<T>)
    ensures |r| == count
    ensures forall k :: 0 <= k < count ==> r[k] == x
  {
    seq(count, _ => x)
  }
}
