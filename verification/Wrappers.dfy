/** Optional values and results. */
module Wrappers {
  datatype Option<+T> = None | Some(value: T)

  /** A returned value, or the exception the modelled code raises. */
  datatype Result<+T, +E> = Ok(value: T) | Err(error: E)

  /** A list comprehension over a function that may raise: all results in order, or the first refusal. */
  function Each<T, U, E>(f: T -> Result<U, E>, s: seq<T>): (r: Result<seq<U>, E>)
    ensures r.Ok? <==> forall i | 0 <= i < |s| :: f(s[i]).Ok?
    ensures r.Ok? ==> |r.value| == |s| && forall i | 0 <= i < |s| :: f(s[i]) == Ok(r.value[i])
  {
    if s == [] then Ok([])
    else
      match (f(s[0]), Each(f, s[1..]))
      case (Err(e), _) => Err(e)
      case (_, Err(e)) =>
        assert exists i | 0 <= i < |s| - 1 :: f(s[1..][i]).Err?;
        Err(e)
      case (Ok(first), Ok(rest)) => Ok([first] + rest)
  }

  lemma {:induction false} FirstOfEach<T, U, E>(f: T -> Result<U, E>, s: seq<T>, k: nat)
    requires k < |s| && f(s[k]).Err? && forall i | 0 <= i < k :: f(s[i]).Ok?
    ensures Each(f, s) == Err(f(s[k]).error)
  {
    if k > 0 {
      assert forall i | 0 <= i < k - 1 :: s[1..][i] == s[i + 1];
      FirstOfEach(f, s[1..], k - 1);
    }
  }
}
