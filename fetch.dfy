/**
 * The attempt loop of `safe_get_html`. The network is an oracle: `get(i)`
 * is the outcome of the `i`-th request, the page text when it succeeded and
 * `None` when it raised a request error. Sleeping is returned as the list of
 * pauses the loop asks for, in order.
 */
module Fetch {
  import opened Wrappers

  /** The default `backoff` of `safe_get_html`, the only one the run uses. */
  const DefaultBackoff: real := 2.0

  /** The number of requests `range(retries + 1)` allows. */
  function AttemptLimit(retries: int): nat {
    if retries < 0 then 0 else retries + 1
  }

  /** The first of the attempts `from` .. `limit - 1` that succeeds. */
  function FirstSuccess(get: nat -> Option<string>, from: nat, limit: nat): (r: Option<nat>)
    ensures r.Some? ==> from <= r.value < limit && get(r.value).Some?
    ensures forall j :: from <= j < limit && (r.None? || j < r.value) ==> get(j).None?
    decreases limit - from
  {
    if from >= limit then None
    else if get(from).Some? then Some(from)
    else FirstSuccess(get, from + 1, limit)
  }

  /** What `safe_get_html` returns: the text of the first successful attempt, if any. */
  function Fetched(get: nat -> Option<string>, retries: int): Option<string> {
    match FirstSuccess(get, 0, AttemptLimit(retries))
    case Some(i) => get(i)
    case None => None
  }

  /**
   * `safe_get_html`: up to `retries + 1` requests; the first success is
   * returned at once, each failure is followed by a pause of `backoff` times
   * the attempt's number, and `None` comes back when every attempt failed.
   * `attempts` is the number of requests made.
   */
  method SafeGetHtml(get: nat -> Option<string>, retries: int, backoff: real)
    returns (html: Option<string>, attempts: nat, pauses: seq<real>)
    ensures html == Fetched(get, retries)
    ensures attempts <= AttemptLimit(retries)
    ensures html.Some? ==> attempts >= 1 && get(attempts - 1) == html && forall j :: 0 <= j < attempts - 1 ==> get(j).None?
    ensures html.None? ==> attempts == AttemptLimit(retries) && forall j :: 0 <= j < attempts ==> get(j).None?
    ensures |pauses| == if html.Some? then attempts - 1 else attempts
    ensures forall j :: 0 <= j < |pauses| ==> pauses[j] == backoff * (j + 1) as real
  {
    pauses := [];
    attempts := 0;
    while attempts < AttemptLimit(retries)
      invariant attempts <= AttemptLimit(retries)
      invariant FirstSuccess(get, 0, AttemptLimit(retries)) == FirstSuccess(get, attempts, AttemptLimit(retries))
      invariant forall j :: 0 <= j < attempts ==> get(j).None?
      invariant |pauses| == attempts
      invariant forall j :: 0 <= j < |pauses| ==> pauses[j] == backoff * (j + 1) as real
    {
      var response := get(attempts);
      attempts := attempts + 1;
      if response.Some? {
        return response, attempts, pauses;
      }
      pauses := pauses + [backoff * attempts as real];
    }
    html := None;
  }
}
