/** The `run_once` decorator of pytesseract/pytesseract.py, which caches the
    engine version and the language list. The wrapped function is not
    modelled: each call is given what it would return or raise if it ran. */
module RunOnce {
  import opened Wrappers

  /** The wrapper's `_result`: the wrapper itself until a call has stored a value. */
  datatype Memo<T> = Unset | Stored(value: T)

  /** One call of the wrapper: the new cache, what the caller gets, and
      whether the wrapped function ran. */
  datatype Call<T, E> = Call(memo: Memo<T>, result: Result<T, E>, invoked: bool)

  /** `wrapper(..., cached=cached)`. The function runs unless the call asks for
      the cached value and one is stored; a value it returns is stored, an
      exception it raises leaves the cache as it was. */
  function Invoke<T, E>(memo: Memo<T>, cached: bool, compute: Result<T, E>): (c: Call<T, E>)
    ensures c.invoked <==> !cached || memo.Unset?
    ensures !c.invoked ==> c.memo == memo && c.result == Success(memo.value)
    ensures c.invoked ==> c.result == compute
    ensures c.invoked && compute.Success? ==> c.memo == Stored(compute.value)
    ensures c.invoked && compute.Failure? ==> c.memo == memo
  {
    if !cached || memo.Unset? then
      match compute
      case Success(v) => Call(Stored(v), compute, true)
      case Failure(_) => Call(memo, compute, true)
    else Call(memo, Success(memo.value), false)
  }

  /** After any call that returned a value, a cached call returns the same
      value without running the function, whatever it would have done. */
  lemma {:induction false} CachedAfterSuccess<T, E>(memo: Memo<T>, cached: bool, compute: Result<T, E>, later: Result<T, E>)
    requires Invoke(memo, cached, compute).result.Success?
    ensures var first := Invoke(memo, cached, compute);
      var second := Invoke(first.memo, true, later);
      !second.invoked && second.result == first.result && second.memo == first.memo
  {
  }

  /** One request: whether it asks for the cached value, and what the function
      would give if it ran. */
  datatype Request<T, E> = Request(cached: bool, compute: Result<T, E>)

  /** A sequence of calls: the final cache, the results in order and how many
      times the function ran. */
  datatype Trace<T, E> = Trace(memo: Memo<T>, results: seq<Result<T, E>>, runs: nat)

  function Calls<T, E>(memo: Memo<T>, rs: seq<Request<T, E>>): (t: Trace<T, E>)
    ensures |t.results| == |rs| && t.runs <= |rs|
    decreases |rs|
  {
    if |rs| == 0 then Trace(memo, [], 0)
    else
      var c := Invoke(memo, rs[0].cached, rs[0].compute);
      var rest := Calls(c.memo, rs[1..]);
      Trace(rest.memo, [c.result] + rest.results, rest.runs + (if c.invoked then 1 else 0))
  }

  /** Once a value is stored, cached calls never run the function again and
      all return that value. */
  lemma {:induction false} StoredStaysCached<T, E>(v: T, rs: seq<Request<T, E>>)
    requires forall i :: 0 <= i < |rs| ==> rs[i].cached
    ensures Calls(Stored(v), rs).memo == Stored(v) && Calls(Stored(v), rs).runs == 0
    ensures forall i :: 0 <= i < |rs| ==> Calls(Stored(v), rs).results[i] == Success(v)
    decreases |rs|
  {
    if |rs| > 0 {
      StoredStaysCached(v, rs[1..]);
    }
  }

  /** Cached queries from an empty cache whose function would succeed run it
      at most once, and every caller sees the value of that one run. */
  lemma {:induction false} AtMostOnce<T, E>(empty: Memo<T>, rs: seq<Request<T, E>>)
    requires empty.Unset? && |rs| > 0 && rs[0].compute.Success?
    requires forall i :: 0 <= i < |rs| ==> rs[i].cached
    ensures Calls(empty, rs).runs == 1
    ensures forall i :: 0 <= i < |rs| ==> Calls(empty, rs).results[i] == rs[0].compute
  {
    StoredStaysCached(rs[0].compute.value, rs[1..]);
  }
}
