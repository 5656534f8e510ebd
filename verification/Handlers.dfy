/** `Server::get_handler` of lib/Cserve.cpp: the handler registered for the longest route that the
    URI starts with. */
module Handlers {
  import opened Wrappers

  predicate Serves(route: string, uri: string) { route != "" && route <= uri }

  predicate Distinct(routes: seq<string>)
  {
    forall i, j :: 0 <= i < j < |routes| ==> routes[i] != routes[j]
  }

  /** Two routes that serve the same URI have different lengths, so the longest is unique and the
      order in which the map is walked does not matter. */
  lemma ServedByOneLength(a: string, b: string, uri: string)
    requires Serves(a, uri) && Serves(b, uri) && |a| == |b|
    ensures a == b
  {
    assert a == uri[..|a|] == b;
  }

  /** The loop over the routes of one request method; None is the default handler. */
  method GetHandler(routes: seq<string>, uri: string) returns (best: Option<nat>)
    requires Distinct(routes)
    ensures best == None <==> forall i :: 0 <= i < |routes| ==> !Serves(routes[i], uri)
    ensures best.Some? ==> best.value < |routes| && Serves(routes[best.value], uri)
    ensures best.Some? ==> forall i :: 0 <= i < |routes| && i != best.value && Serves(routes[i], uri) ==>
              |routes[i]| < |routes[best.value]|
  {
    var maxMatchLen := 0;
    best := None;
    for k := 0 to |routes|
      invariant best == None <==> forall i :: 0 <= i < k ==> !Serves(routes[i], uri)
      invariant best == None ==> maxMatchLen == 0
      invariant best.Some? ==>
                  best.value < k && Serves(routes[best.value], uri) && maxMatchLen == |routes[best.value]|
      invariant best.Some? ==> forall i :: 0 <= i < k && i != best.value && Serves(routes[i], uri) ==>
                  |routes[i]| < maxMatchLen
    {
      var route := routes[k];
      var len := if |uri| < |route| then |uri| else |route|;
      if route == uri[..len] && len > maxMatchLen {
        maxMatchLen, best := len, Some(k);
      } else if best.Some? && Serves(route, uri) && |route| == maxMatchLen {
        ServedByOneLength(route, routes[best.value], uri);
      }
    }
  }
}
