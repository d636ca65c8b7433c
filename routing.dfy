/** Request routing of the `EndpointsHandler`: the URL path names an
    endpoint class and a route, and the first class and the first method
    that fit are chosen. Reflection over the assembly is replaced by an
    explicit list of types with their methods and HTTP attributes. */
module Routing {
  import opened Text

  /** An attribute on a method: its type name (`HttpGet`, `HttpPost`, ...)
      and the value of its `Route` property, null when it has none. */
  datatype HttpAttribute = HttpAttribute(typeName: string, route: Option<string>)

  datatype EndpointMethod = EndpointMethod(name: string, attributes: seq<HttpAttribute>)

  /** A type of the assembly: its name, whether it carries `[Endpoint]`,
      and its methods in `GetMethods()` order. */
  datatype EndpointType = EndpointType(name: string, isEndpoint: bool, methods: seq<EndpointMethod>)

  /** What `HandleRequest` does with a request. */
  datatype Outcome = PassToSuccessor | NotFound | Invoke(endpoint: EndpointType, action: EndpointMethod)

  /** `AbsolutePath.Split('/', StringSplitOptions.RemoveEmptyEntries)`. */
  function PathSegments(path: string): (r: seq<string>)
    ensures forall s | s in r :: s != [] && '/' !in s
  {
    SplitNonEmpty(path, '/')
  }

  /** The route segment: the second segment, or null. */
  function RouteOf(segments: seq<string>): Option<string> {
    if |segments| > 1 then Some(segments[1]) else None
  }

  /** `IsCheckedNameEndpoint`: the class name is the endpoint name, or the
      endpoint name followed by `Endpoint`, ignoring case. */
  predicate IsCheckedNameEndpoint(className: string, endpointName: string) {
    EqualsCi(true, className, endpointName) || EqualsCi(true, className, endpointName + "Endpoint")
  }

  /** The types the `Where(...).FirstOrDefault(...)` chain accepts. */
  predicate IsTarget(t: EndpointType, endpointName: string) {
    t.isEndpoint && IsCheckedNameEndpoint(t.name, endpointName)
  }

  /** The index of the first accepted type at or after `from`. */
  function FindEndpoint(types: seq<EndpointType>, endpointName: string, from: nat): (r: Option<nat>)
    requires from <= |types|
    ensures r.Some? ==> from <= r.value < |types| && IsTarget(types[r.value], endpointName)
    ensures r.Some? ==> forall k :: from <= k < r.value ==> !IsTarget(types[k], endpointName)
    ensures r.None? ==> forall k :: from <= k < |types| ==> !IsTarget(types[k], endpointName)
    decreases |types| - from
  {
    if from == |types| then None
    else if IsTarget(types[from], endpointName) then Some(from)
    else FindEndpoint(types, endpointName, from + 1)
  }

  /** An attribute of the type `Http<method>`, ignoring case. */
  predicate IsHttpAttribute(a: HttpAttribute, httpMethod: string) {
    EqualsCi(true, a.typeName, "Http" + httpMethod)
  }

  /** The first attribute of the method's HTTP kind at or after `from`. */
  function FindHttpAttribute(attrs: seq<HttpAttribute>, httpMethod: string, from: nat): (r: Option<nat>)
    requires from <= |attrs|
    ensures r.Some? ==> from <= r.value < |attrs| && IsHttpAttribute(attrs[r.value], httpMethod)
    ensures r.Some? ==> forall k :: from <= k < r.value ==> !IsHttpAttribute(attrs[k], httpMethod)
    ensures r.None? ==> forall k :: from <= k < |attrs| ==> !IsHttpAttribute(attrs[k], httpMethod)
    decreases |attrs| - from
  {
    if from == |attrs| then None
    else if IsHttpAttribute(attrs[from], httpMethod) then Some(from)
    else FindHttpAttribute(attrs, httpMethod, from + 1)
  }

  /** The route rule: no request route fits an attribute without a route or
      with an empty one; a request route fits an equal attribute route,
      ignoring case. */
  predicate RouteFits(route: Option<string>, attrRoute: Option<string>) {
    (route.None? && (attrRoute.None? || attrRoute.value == ""))
    || (route.Some? && attrRoute.Some? && EqualsCi(true, route.value, attrRoute.value))
  }

  /** `MatchesRoute`: the method has an attribute of the request's HTTP
      method, and the first such attribute's route fits. */
  predicate MatchesRoute(m: EndpointMethod, httpMethod: string, route: Option<string>) {
    match FindHttpAttribute(m.attributes, httpMethod, 0)
    case None => false
    case Some(i) => RouteFits(route, m.attributes[i].route)
  }

  /** The index of the first matching method at or after `from`. */
  function FindMethod(methods: seq<EndpointMethod>, httpMethod: string, route: Option<string>, from: nat): (r: Option<nat>)
    requires from <= |methods|
    ensures r.Some? ==> from <= r.value < |methods| && MatchesRoute(methods[r.value], httpMethod, route)
    ensures r.Some? ==> forall k :: from <= k < r.value ==> !MatchesRoute(methods[k], httpMethod, route)
    ensures r.None? ==> forall k :: from <= k < |methods| ==> !MatchesRoute(methods[k], httpMethod, route)
    decreases |methods| - from
  {
    if from == |methods| then None
    else if MatchesRoute(methods[from], httpMethod, route) then Some(from)
    else FindMethod(methods, httpMethod, route, from + 1)
  }

  /** `HandleRequest`, up to the choice of what to do; `path` is null when
      the request has no URL. */
  function HandleRequest(path: Option<string>, httpMethod: string, types: seq<EndpointType>, hasSuccessor: bool): Outcome {
    if path.None? then PassToSuccessor
    else
      var segments := PathSegments(path.value);
      if |segments| == 0 then PassToSuccessor
      else
        var endpointName := segments[0];
        var route := RouteOf(segments);
        match FindEndpoint(types, endpointName, 0)
        case None => if hasSuccessor then PassToSuccessor else NotFound
        case Some(i) =>
          match FindMethod(types[i].methods, httpMethod, route, 0)
          case None => NotFound
          case Some(j) => Invoke(types[i], types[i].methods[j])
  }

  /** What the handler does, stated through the path's segments: a path
      without segments, or an unknown endpoint with a successor, goes on;
      an unknown endpoint without one, or a known endpoint without a fitting
      method, is 404; otherwise the first fitting class and its first
      fitting method are invoked. Segments after the second play no part. */
  lemma HandleRequestOutcome(path: string, httpMethod: string, types: seq<EndpointType>, hasSuccessor: bool)
    ensures var segments := PathSegments(path);
      var r := HandleRequest(Some(path), httpMethod, types, hasSuccessor);
      && (r == PassToSuccessor <==>
            |segments| == 0 || (hasSuccessor && forall k :: 0 <= k < |types| ==> !IsTarget(types[k], segments[0])))
      && (r.Invoke? ==>
            exists i, j :: 0 <= i < |types| && 0 <= j < |types[i].methods|
              && r.endpoint == types[i] && r.action == types[i].methods[j]
              && IsTarget(types[i], segments[0])
              && (forall k :: 0 <= k < i ==> !IsTarget(types[k], segments[0]))
              && MatchesRoute(r.action, httpMethod, RouteOf(segments))
              && (forall k :: 0 <= k < j ==> !MatchesRoute(types[i].methods[k], httpMethod, RouteOf(segments))))
      && (r == NotFound <==>
            |segments| > 0 && match FindEndpoint(types, segments[0], 0)
              case None => !hasSuccessor
              case Some(i) => forall k :: 0 <= k < |types[i].methods| ==> !MatchesRoute(types[i].methods[k], httpMethod, RouteOf(segments)))
  {
    var segments := PathSegments(path);
    if |segments| > 0 {
      match FindEndpoint(types, segments[0], 0)
      case None =>
      case Some(i) =>
        match FindMethod(types[i].methods, httpMethod, RouteOf(segments), 0)
        case None =>
        case Some(j) =>
    }
  }

  /** The HTTP method is matched ignoring its case: two spellings that differ
      only in case select the same attribute and the same methods. */
  lemma HttpMethodCaseIgnored(m: EndpointMethod, method1: string, method2: string, route: Option<string>)
    requires EqualsCi(true, method1, method2)
    ensures MatchesRoute(m, method1, route) == MatchesRoute(m, method2, route)
  {
    var h1 := "Http" + method1;
    var h2 := "Http" + method2;
    assert EqualsCi(true, h1, h2) by {
      forall k | 0 <= k < |h2| ensures CharEq(true, h1[k], h2[k]) {
        if k >= 4 {
          assert h1[k] == method1[k - 4] && h2[k] == method2[k - 4];
        }
      }
    }
    EqualsCiSymmetric(true, h1, h2);
    forall a: HttpAttribute ensures IsHttpAttribute(a, method1) == IsHttpAttribute(a, method2) {
      if IsHttpAttribute(a, method1) {
        EqualsCiTransitive(true, a.typeName, h1, h2);
      }
      if IsHttpAttribute(a, method2) {
        EqualsCiTransitive(true, a.typeName, h2, h1);
      }
    }
    SameAttribute(m.attributes, method1, method2, 0);
  }

  /** Two HTTP methods accepted by the same attributes find the same one. */
  lemma {:induction false} SameAttribute(attrs: seq<HttpAttribute>, method1: string, method2: string, from: nat)
    requires from <= |attrs|
    requires forall a: HttpAttribute :: IsHttpAttribute(a, method1) == IsHttpAttribute(a, method2)
    ensures FindHttpAttribute(attrs, method1, from) == FindHttpAttribute(attrs, method2, from)
    decreases |attrs| - from
  {
    if from < |attrs| {
      SameAttribute(attrs, method1, method2, from + 1);
    }
  }
}
