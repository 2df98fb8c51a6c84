/** The ingress controller: choice of a rule for a request, and the round-robin cursor that
    picks an endpoint of the rule's service. */
module IngressRouting {
  import opened Strings
  import opened Types
  import Registry

  predicate MatchesPath(requestPath: string, ingressPath: string, pathType: Option<PathType>) {
    if ingressPath == "" then true
    else
      match pathType
      case None => HasPrefix(requestPath, ingressPath)
      case Some(Exact) => requestPath == ingressPath
      case Some(Prefix) => HasPrefix(requestPath, ingressPath)
      case Some(ImplementationSpecific) => HasPrefix(requestPath, ingressPath)
      case Some(OtherPathType) => false
  }

  /** An empty ingress path matches every request, an exact one only itself, and the others by
      plain string prefix, not by path element. */
  lemma MatchesPathIff(requestPath: string, ingressPath: string, pathType: Option<PathType>)
    ensures MatchesPath(requestPath, ingressPath, pathType) <==>
            || ingressPath == ""
            || (pathType == Some(Exact) && requestPath == ingressPath)
            || (pathType != Some(Exact) && pathType != Some(OtherPathType) && exists rest :: requestPath == ingressPath + rest)
  {
    if HasPrefix(requestPath, ingressPath) {
      assert requestPath == ingressPath + requestPath[|ingressPath|..];
    }
    if rest :| requestPath == ingressPath + rest {
      assert requestPath[..|ingressPath|] == ingressPath;
    }
  }

  /** Path c of rule b of the a-th ingress in iteration order answers the request. */
  predicate Hit(ingresses: seq<Ingress>, host: string, path: string, a: nat, b: nat, c: nat) {
    && a < |ingresses| && b < |ingresses[a].rules| && c < |ingresses[a].rules[b].paths|
    && var rule := ingresses[a].rules[b];
       && (rule.host == host || rule.host == "")
       && MatchesPath(path, rule.paths[c].path, rule.paths[c].pathType)
  }

  /** A path answers a request when its rule is for that host or for all hosts, and the path
      matches: empty, the very same when exact, and otherwise a prefix. */
  lemma HitIff(ingresses: seq<Ingress>, host: string, path: string, a: nat, b: nat, c: nat)
    requires a < |ingresses| && b < |ingresses[a].rules| && c < |ingresses[a].rules[b].paths|
    ensures var rule := ingresses[a].rules[b];
            var p := rule.paths[c];
            Hit(ingresses, host, path, a, b, c) <==>
            && (rule.host == "" || rule.host == host)
            && (|| p.path == ""
                || (p.pathType == Some(Exact) && path == p.path)
                || (p.pathType in {None, Some(Prefix), Some(ImplementationSpecific)} && exists rest :: path == p.path + rest))
  {
    MatchesPathIff(path, ingresses[a].rules[b].paths[c].path, ingresses[a].rules[b].paths[c].pathType);
  }

  predicate Earlier(a: nat, b: nat, c: nat, a': nat, b': nat, c': nat) {
    a < a' || (a == a' && (b < b' || (b == b' && c < c')))
  }

  ghost predicate FirstHit(ingresses: seq<Ingress>, host: string, path: string, a: nat, b: nat, c: nat) {
    && Hit(ingresses, host, path, a, b, c)
    && forall a': nat, b': nat, c': nat :: Hit(ingresses, host, path, a', b', c') ==> !Earlier(a', b', c', a, b, c)
  }

  lemma FirstHitIsUnique(ingresses: seq<Ingress>, host: string, path: string, a: nat, b: nat, c: nat)
    requires FirstHit(ingresses, host, path, a, b, c)
    ensures forall a': nat, b': nat, c': nat :: FirstHit(ingresses, host, path, a', b', c') ==> a' == a && b' == b && c' == c
  {
    forall a': nat, b': nat, c': nat | FirstHit(ingresses, host, path, a', b', c')
      ensures a' == a && b' == b && c' == c
    {
      assert !Earlier(a', b', c', a, b, c) && !Earlier(a, b, c, a', b', c');
    }
  }

  datatype Response = NotFound | Unavailable | Routed(endpoint: Registry.Endpoint)

  function ProxyKey(namespace: string, service: string): string {
    namespace + "/" + service
  }

  function Cursor(idx: map<string, nat>, key: string): nat {
    if key in idx then idx[key] else 0
  }

  /** The answer once a path is matched: the endpoint under the service's cursor, which then
      moves on by one, or none when the service has no live endpoint. */
  function Route(ingress: Ingress, path: IngressPath, discover: (string, string) -> Option<seq<Registry.Endpoint>>,
                 idx: map<string, nat>): (Response, map<string, nat>)
  {
    var endpoints := discover(path.serviceName, ingress.namespace);
    if endpoints.None? || endpoints.value == [] then (Unavailable, idx)
    else
      var key, n := ProxyKey(ingress.namespace, path.serviceName), |endpoints.value|;
      (Routed(endpoints.value[Cursor(idx, key) % n]), AfterPick(idx, Request(key, n)))
  }

  /** One request: the rules in the order in which the map happens to be iterated, the host and
      path asked for, and what GetServiceEndpoints answers at that time. */
  datatype Visit = Visit(
    ingresses: seq<Ingress>,
    host: string,
    path: string,
    discover: (string, string) -> Option<seq<Registry.Endpoint>>)

  /** The response to a request, and the cursors before and after it. */
  ghost predicate Handled(v: Visit, idx: map<string, nat>, response: Response, idx': map<string, nat>) {
    && ((forall a: nat, b: nat, c: nat :: !Hit(v.ingresses, v.host, v.path, a, b, c)) ==> response == NotFound && idx' == idx)
    && forall a: nat, b: nat, c: nat :: FirstHit(v.ingresses, v.host, v.path, a, b, c) ==>
         (response, idx') == Route(v.ingresses[a], v.ingresses[a].rules[b].paths[c], v.discover, idx)
  }

  lemma HandledByFirst(v: Visit, idx: map<string, nat>, response: Response, idx': map<string, nat>, a: nat, b: nat, c: nat)
    requires FirstHit(v.ingresses, v.host, v.path, a, b, c)
    requires (response, idx') == Route(v.ingresses[a], v.ingresses[a].rules[b].paths[c], v.discover, idx)
    ensures Handled(v, idx, response, idx')
  {
    FirstHitIsUnique(v.ingresses, v.host, v.path, a, b, c);
  }

  class IngressController {
    var rules: map<string, Ingress>
    var roundRobinIdx: map<string, nat>

    constructor ()
      ensures rules == map[] && roundRobinIdx == map[]
    {
      rules, roundRobinIdx := map[], map[];
    }

    method AddIngress(ingress: Ingress)
      modifies this`rules
      ensures rules == old(rules)[ResourceKey(ingress.namespace, ingress.name) := ingress]
    {
      rules := rules[ResourceKey(ingress.namespace, ingress.name) := ingress];
    }

    method RemoveIngress(namespace: string, name: string)
      modifies this`rules
      ensures rules == old(rules) - {ResourceKey(namespace, name)}
    {
      rules := rules - {ResourceKey(namespace, name)};
    }

    /** The nested search of handleRequest over the rules in iteration order. */
    static method FindRule(ingresses: seq<Ingress>, host: string, path: string) returns (found: Option<(nat, nat, nat)>)
      ensures match found
              case None => forall a: nat, b: nat, c: nat :: !Hit(ingresses, host, path, a, b, c)
              case Some((a, b, c)) => FirstHit(ingresses, host, path, a, b, c)
    {
      for a := 0 to |ingresses|
        invariant forall a': nat, b': nat, c': nat :: Hit(ingresses, host, path, a', b', c') ==> a' >= a
      {
        var rules := ingresses[a].rules;
        for b := 0 to |rules|
          invariant forall a': nat, b': nat, c': nat :: Hit(ingresses, host, path, a', b', c') ==> a' > a || (a' == a && b' >= b)
        {
          if rules[b].host == host || rules[b].host == "" {
            var paths := rules[b].paths;
            for c := 0 to |paths|
              invariant forall a': nat, b': nat, c': nat :: Hit(ingresses, host, path, a', b', c') ==>
                          a' > a || (a' == a && (b' > b || (b' == b && c' >= c)))
            {
              if MatchesPath(path, paths[c].path, paths[c].pathType) {
                return Some((a, b, c));
              }
            }
          }
        }
      }
      return None;
    }

    method HandleRequest(ingresses: seq<Ingress>, host: string, path: string,
                         discover: (string, string) -> Option<seq<Registry.Endpoint>>) returns (response: Response)
      modifies this`roundRobinIdx
      ensures Handled(Visit(ingresses, host, path, discover), old(roundRobinIdx), response, roundRobinIdx)
    {
      var found := FindRule(ingresses, host, path);
      if found.None? {
        return NotFound;
      }
      var (a, b, c) := found.value;
      var namespace, service := ingresses[a].namespace, ingresses[a].rules[b].paths[c].serviceName;
      var answer := discover(service, namespace);
      ghost var before := roundRobinIdx;
      if answer.None? || |answer.value| == 0 {
        response := Unavailable;
      } else {
        var endpoints := answer.value;
        var proxyKey := ProxyKey(namespace, service);
        var idx := if proxyKey in roundRobinIdx then roundRobinIdx[proxyKey] else 0;
        response := Routed(endpoints[idx % |endpoints|]);
        roundRobinIdx := roundRobinIdx[proxyKey := (idx + 1) % |endpoints|];
      }
      HandledByFirst(Visit(ingresses, host, path, discover), before, response, roundRobinIdx, a, b, c);
    }
  }

  /** Adding or removing an ingress leaves the rules of all others alone. */
  lemma IngressesApart(rules: map<string, Ingress>, ingress: Ingress, namespace: string, name: string)
    requires SlashFree(ingress.namespace) && SlashFree(namespace)
    ensures var added := rules[ResourceKey(ingress.namespace, ingress.name) := ingress];
            var removed := rules - {ResourceKey(ingress.namespace, ingress.name)};
            var key := ResourceKey(namespace, name);
            && (namespace == ingress.namespace && name == ingress.name ==> key in added && added[key] == ingress && key !in removed)
            && (namespace != ingress.namespace || name != ingress.name ==>
                  && (key in added <==> key in rules) && (key in removed <==> key in rules)
                  && (key in rules ==> added[key] == removed[key] == rules[key]))
  {
    ResourceKeyIff(ingress.namespace, ingress.name, namespace, name);
  }

  // ---------------------------------------------------------------- fairness

  /** A request that reached the cursor of a service with n live endpoints. */
  datatype Request = Request(key: string, n: nat)

  function AfterPick(idx: map<string, nat>, r: Request): map<string, nat> {
    if r.n == 0 then idx else idx[r.key := (Cursor(idx, r.key) + 1) % r.n]
  }

  /** The indices picked for one service in a stream of requests to all services. */
  function PicksFor(idx: map<string, nat>, requests: seq<Request>, key: string): seq<nat>
    decreases requests
  {
    if requests == [] then []
    else
      var r := requests[0];
      var rest := PicksFor(AfterPick(idx, r), requests[1..], key);
      if r.key == key && r.n > 0 then [Cursor(idx, key) % r.n] + rest else rest
  }

  /** The lengths that the endpoint list of one service had at its requests. */
  function LengthsFor(requests: seq<Request>, key: string): seq<nat>
    decreases requests
  {
    if requests == [] then []
    else
      var rest := LengthsFor(requests[1..], key);
      if requests[0].key == key && requests[0].n > 0 then [requests[0].n] + rest else rest
  }

  lemma {:induction false} PicksAreInBounds(idx: map<string, nat>, requests: seq<Request>, key: string)
    ensures var picks, lengths := PicksFor(idx, requests, key), LengthsFor(requests, key);
            |picks| == |lengths| && forall i :: 0 <= i < |picks| ==> picks[i] < lengths[i]
    decreases requests
  {
    if requests != [] {
      PicksAreInBounds(AfterPick(idx, requests[0]), requests[1..], key);
    }
  }

  function Count(picks: seq<nat>, j: nat): nat {
    if picks == [] then 0 else (if picks[0] == j then 1 else 0) + Count(picks[1..], j)
  }

  /** Steps from cursor c round a list of n endpoints to endpoint j. */
  function Distance(c: nat, j: nat, n: nat): nat
    requires c < n && j < n
  {
    if j >= c then j - c else j + n - c
  }

  /** Full rounds, and requests into the next one, after k requests to n endpoints. */
  function Rounds(k: nat, n: nat): (r: (nat, nat))
    requires n > 0
    ensures r.1 < n
  {
    if k == 0 then (0, 0)
    else
      var (q, r) := Rounds(k - 1, n);
      if r + 1 == n then (q + 1, 0) else (q, r + 1)
  }

  lemma {:induction false} RoundsAreDivMod(k: nat, n: nat)
    requires n > 0
    ensures Rounds(k, n) == (k / n, k % n)
  {
    if k > 0 {
      RoundsAreDivMod(k - 1, n);
      DivModNext(k - 1, n);
    }
  }

  lemma DivModNext(k: nat, n: nat)
    requires n > 0
    ensures k % n + 1 == n ==> (k + 1) / n == k / n + 1 && (k + 1) % n == 0
    ensures k % n + 1 < n ==> (k + 1) / n == k / n && (k + 1) % n == k % n + 1
  {
    var q, r := k / n, k % n;
    assert k == q * n + r;
    if r + 1 == n {
      assert k + 1 == (q + 1) * n;
      DivModOf(k + 1, n, q + 1, 0);
    } else {
      DivModOf(k + 1, n, q, r + 1);
    }
  }

  lemma DivModOf(x: nat, n: nat, q: nat, r: nat)
    requires r < n && x == q * n + r
    ensures x / n == q && x % n == r
  {
    var d := x / n;
    assert x == d * n + x % n;
    if d != q {
      MulGap(d, q, n);
      assert false;
    }
  }

  lemma MulGap(d: nat, q: nat, n: nat)
    ensures d > q ==> d * n >= q * n + n
    ensures d < q ==> d * n + n <= q * n
  {
    if d > q {
      assert (d - q - 1) * n >= 0;
      assert d * n == (d - q - 1) * n + q * n + n;
    } else if d < q {
      assert (q - d - 1) * n >= 0;
      assert q * n == (q - d - 1) * n + d * n + n;
    }
  }

  /** The exact share of every endpoint: of k requests to a service with n endpoints each gets
      the full rounds, and one more if it lies fewer steps ahead of the starting cursor than
      the begun round is long. This holds however requests to other services are interleaved,
      and wherever a list of another length has left the cursor. */
  lemma {:induction false} RoundRobinShare(idx: map<string, nat>, requests: seq<Request>, key: string, n: nat, j: nat)
    requires j < n
    requires forall request :: request in requests && request.key == key ==> request.n == n
    ensures var (q, r) := Rounds(|LengthsFor(requests, key)|, n);
            Count(PicksFor(idx, requests, key), j) == q + if Distance(Cursor(idx, key) % n, j, n) < r then 1 else 0
    decreases requests
  {
    if requests != [] {
      var first, rest := requests[0], requests[1..];
      var next := AfterPick(idx, first);
      RoundRobinShare(next, rest, key, n, j);
      assert first in requests;
      if first.key == key {
        var c := Cursor(idx, key);
        NextCursor(c, n, j);
        assert Cursor(next, key) == (c + 1) % n;
        CountFirst(c % n, PicksFor(next, rest, key), j);
        assert |LengthsFor(requests, key)| == |LengthsFor(rest, key)| + 1;
      } else {
        assert Cursor(next, key) == Cursor(idx, key);
      }
    }
  }

  lemma CountFirst(x: nat, picks: seq<nat>, j: nat)
    ensures Count([x] + picks, j) == (if x == j then 1 else 0) + Count(picks, j)
  {
    assert ([x] + picks)[1..] == picks;
  }

  lemma NextCursor(c: nat, n: nat, j: nat)
    requires j < n
    ensures var next := (c + 1) % n;
            && next % n == next
            && Distance(next, j, n) == if j == c % n then n - 1 else Distance(c % n, j, n) - 1
  {
    DivModNext(c, n);
    DivModOf((c + 1) % n, n, 0, (c + 1) % n);
  }

  /** Any n consecutive requests to a service with n endpoints pick every endpoint once, and k
      of them pick it floor(k/n) or ceil(k/n) times. */
  lemma RoundRobinIsFair(idx: map<string, nat>, requests: seq<Request>, key: string, n: nat, j: nat)
    requires j < n
    requires forall request :: request in requests && request.key == key ==> request.n == n
    ensures var k, count := |LengthsFor(requests, key)|, Count(PicksFor(idx, requests, key), j);
            && (k == n ==> count == 1)
            && k / n <= count <= k / n + if k % n == 0 then 0 else 1
  {
    var k := |LengthsFor(requests, key)|;
    RoundRobinShare(idx, requests, key, n, j);
    RoundsAreDivMod(k, n);
    DivModOf(n, n, 1, 0);
  }

  // ---------------------------------------------------- fairness of the answers

  /** The request is for this service: the first path that answers it names the service. */
  ghost predicate GoesTo(v: Visit, namespace: string, service: string) {
    exists a: nat, b: nat, c: nat ::
      && FirstHit(v.ingresses, v.host, v.path, a, b, c)
      && v.ingresses[a].namespace == namespace
      && v.ingresses[a].rules[b].paths[c].serviceName == service
  }

  ghost predicate SlashFreeRules(v: Visit) {
    forall a :: 0 <= a < |v.ingresses| ==> SlashFree(v.ingresses[a].namespace)
  }

  /** With namespaces without a slash, no two services share a cursor. */
  lemma CursorsApart(namespace: string, service: string, namespace': string, service': string)
    requires SlashFree(namespace) && SlashFree(namespace')
    ensures ProxyKey(namespace, service) == ProxyKey(namespace', service') <==> namespace == namespace' && service == service'
  {
    assert ProxyKey(namespace, service) == ResourceKey(namespace, service);
    assert ProxyKey(namespace', service') == ResourceKey(namespace', service');
    ResourceKeyIff(namespace, service, namespace', service');
  }

  /** Requests handled one after the other, each with the cursors that the one before left. */
  ghost predicate IsRun(visits: seq<Visit>, idxs: seq<map<string, nat>>, responses: seq<Response>) {
    && |responses| == |visits| && |idxs| == |visits| + 1
    && forall k :: 0 <= k < |visits| ==> Handled(visits[k], idxs[k], responses[k], idxs[k + 1])
  }

  /** The responses to the requests for one service, in order. */
  ghost function AnswersFor(visits: seq<Visit>, responses: seq<Response>, namespace: string, service: string): seq<Response>
    requires |visits| == |responses|
    decreases |visits|
  {
    if visits == [] then []
    else
      var rest := AnswersFor(visits[1..], responses[1..], namespace, service);
      if GoesTo(visits[0], namespace, service) then [responses[0]] + rest else rest
  }

  /** What a request does to the cursors. */
  ghost function RequestOf(v: Visit): Request {
    if exists a: nat, b: nat, c: nat :: FirstHit(v.ingresses, v.host, v.path, a, b, c) then
      var a: nat, b: nat, c: nat :| FirstHit(v.ingresses, v.host, v.path, a, b, c);
      var namespace, service := v.ingresses[a].namespace, v.ingresses[a].rules[b].paths[c].serviceName;
      var endpoints := v.discover(service, namespace);
      Request(ProxyKey(namespace, service), if endpoints.None? then 0 else |endpoints.value|)
    else Request("", 0)
  }

  ghost function Requests(visits: seq<Visit>): seq<Request>
    decreases |visits|
  {
    if visits == [] then [] else [RequestOf(visits[0])] + Requests(visits[1..])
  }

  lemma SomeHitIsFirst(ingresses: seq<Ingress>, host: string, path: string, a: nat, b: nat, c: nat)
    requires Hit(ingresses, host, path, a, b, c)
    ensures exists a': nat, b': nat, c': nat :: FirstHit(ingresses, host, path, a', b', c')
    decreases a, b, c
  {
    if a': nat, b': nat, c': nat :| Hit(ingresses, host, path, a', b', c') && Earlier(a', b', c', a, b, c) {
      SomeHitIsFirst(ingresses, host, path, a', b', c');
    } else {
      assert FirstHit(ingresses, host, path, a, b, c);
    }
  }

  lemma HandledMovesCursor(v: Visit, idx: map<string, nat>, response: Response, idx': map<string, nat>)
    requires Handled(v, idx, response, idx')
    ensures idx' == AfterPick(idx, RequestOf(v))
  {
    if a: nat, b: nat, c: nat :| FirstHit(v.ingresses, v.host, v.path, a, b, c) {
      FirstHitIsUnique(v.ingresses, v.host, v.path, a, b, c);
    } else {
      forall a: nat, b: nat, c: nat
        ensures !Hit(v.ingresses, v.host, v.path, a, b, c)
      {
        if Hit(v.ingresses, v.host, v.path, a, b, c) {
          SomeHitIsFirst(v.ingresses, v.host, v.path, a, b, c);
        }
      }
    }
  }

  lemma AnswerIsPick(v: Visit, idx: map<string, nat>, response: Response, idx': map<string, nat>,
                     namespace: string, service: string, endpoints: seq<Registry.Endpoint>)
    requires Handled(v, idx, response, idx') && GoesTo(v, namespace, service)
    requires v.discover(service, namespace) == Some(endpoints) && endpoints != []
    ensures RequestOf(v) == Request(ProxyKey(namespace, service), |endpoints|)
    ensures response == Routed(endpoints[Cursor(idx, ProxyKey(namespace, service)) % |endpoints|])
  {
    var a: nat, b: nat, c: nat :|
      && FirstHit(v.ingresses, v.host, v.path, a, b, c)
      && v.ingresses[a].namespace == namespace
      && v.ingresses[a].rules[b].paths[c].serviceName == service;
    FirstHitIsUnique(v.ingresses, v.host, v.path, a, b, c);
  }

  lemma OtherCursor(v: Visit, namespace: string, service: string)
    requires SlashFreeRules(v) && SlashFree(namespace) && !GoesTo(v, namespace, service)
    ensures RequestOf(v).key != ProxyKey(namespace, service)
  {
    if a: nat, b: nat, c: nat :| FirstHit(v.ingresses, v.host, v.path, a, b, c) {
      FirstHitIsUnique(v.ingresses, v.host, v.path, a, b, c);
      CursorsApart(v.ingresses[a].namespace, v.ingresses[a].rules[b].paths[c].serviceName, namespace, service);
    } else {
      assert |ProxyKey(namespace, service)| > 0;
    }
  }

  /** All requests for the service find this list of endpoints, in this order. */
  ghost predicate StableList(visits: seq<Visit>, namespace: string, service: string, endpoints: seq<Registry.Endpoint>) {
    forall k :: 0 <= k < |visits| ==>
      SlashFreeRules(visits[k]) && (GoesTo(visits[k], namespace, service) ==> visits[k].discover(service, namespace) == Some(endpoints))
  }

  ghost predicate ArePicks(answers: seq<Response>, picks: seq<nat>, endpoints: seq<Registry.Endpoint>) {
    && |answers| == |picks|
    && forall i :: 0 <= i < |picks| ==> picks[i] < |endpoints| && answers[i] == Routed(endpoints[picks[i]])
  }

  lemma OneMorePick(answers: seq<Response>, picks: seq<nat>, endpoints: seq<Registry.Endpoint>, pick: nat)
    requires ArePicks(answers, picks, endpoints) && pick < |endpoints|
    ensures ArePicks([Routed(endpoints[pick])] + answers, [pick] + picks, endpoints)
  {
  }

  /** In a run the answers for a service are the picks of its cursor. */
  lemma {:induction false} AnswersArePicks(visits: seq<Visit>, idxs: seq<map<string, nat>>, responses: seq<Response>,
                                           namespace: string, service: string, endpoints: seq<Registry.Endpoint>)
    requires IsRun(visits, idxs, responses) && SlashFree(namespace)
    requires StableList(visits, namespace, service, endpoints) && endpoints != []
    ensures ArePicks(AnswersFor(visits, responses, namespace, service),
                     PicksFor(idxs[0], Requests(visits), ProxyKey(namespace, service)), endpoints)
    decreases |visits|
  {
    if visits != [] {
      var v, rest := visits[0], visits[1..];
      var key := ProxyKey(namespace, service);
      RunTail(visits, idxs, responses);
      assert forall k :: 0 <= k < |rest| ==> rest[k] == visits[k + 1];
      AnswersArePicks(rest, idxs[1..], responses[1..], namespace, service, endpoints);
      var answers, picks := AnswersFor(rest, responses[1..], namespace, service), PicksFor(idxs[1], Requests(rest), key);
      HandledMovesCursor(v, idxs[0], responses[0], idxs[1]);
      PicksFromFirst(idxs[0], RequestOf(v), Requests(rest), key);
      if GoesTo(v, namespace, service) {
        AnswerIsPick(v, idxs[0], responses[0], idxs[1], namespace, service, endpoints);
        OneMorePick(answers, picks, endpoints, Cursor(idxs[0], key) % |endpoints|);
      } else {
        OtherCursor(v, namespace, service);
      }
    }
  }

  lemma PicksFromFirst(idx: map<string, nat>, first: Request, rest: seq<Request>, key: string)
    ensures var picks := PicksFor(AfterPick(idx, first), rest, key);
            PicksFor(idx, [first] + rest, key) == if first.key == key && first.n > 0 then [Cursor(idx, key) % first.n] + picks else picks
  {
    assert ([first] + rest)[1..] == rest;
  }

  lemma {:induction false} RequestsOfService(visits: seq<Visit>, namespace: string, service: string, endpoints: seq<Registry.Endpoint>)
    requires StableList(visits, namespace, service, endpoints) && SlashFree(namespace)
    ensures forall r :: r in Requests(visits) && r.key == ProxyKey(namespace, service) ==> r.n == |endpoints|
    decreases |visits|
  {
    if visits != [] {
      var v, rest := visits[0], visits[1..];
      assert forall k :: 0 <= k < |rest| ==> rest[k] == visits[k + 1];
      RequestsOfService(rest, namespace, service, endpoints);
      if GoesTo(v, namespace, service) {
        RequestForService(v, namespace, service, endpoints);
      } else {
        OtherCursor(v, namespace, service);
      }
    }
  }

  lemma RequestForService(v: Visit, namespace: string, service: string, endpoints: seq<Registry.Endpoint>)
    requires GoesTo(v, namespace, service) && v.discover(service, namespace) == Some(endpoints)
    ensures RequestOf(v) == Request(ProxyKey(namespace, service), |endpoints|)
  {
    var a: nat, b: nat, c: nat :|
      && FirstHit(v.ingresses, v.host, v.path, a, b, c)
      && v.ingresses[a].namespace == namespace
      && v.ingresses[a].rules[b].paths[c].serviceName == service;
    FirstHitIsUnique(v.ingresses, v.host, v.path, a, b, c);
  }

  lemma RunTail(visits: seq<Visit>, idxs: seq<map<string, nat>>, responses: seq<Response>)
    requires IsRun(visits, idxs, responses) && visits != []
    ensures IsRun(visits[1..], idxs[1..], responses[1..])
  {
    forall k | 0 <= k < |visits[1..]|
      ensures Handled(visits[1..][k], idxs[1..][k], responses[1..][k], idxs[1..][k + 1])
    {
      assert Handled(visits[k + 1], idxs[k + 1], responses[k + 1], idxs[k + 2]);
    }
  }

  function CountAnswers(answers: seq<Response>, r: Response): nat {
    if answers == [] then 0 else (if answers[0] == r then 1 else 0) + CountAnswers(answers[1..], r)
  }

  lemma {:induction false} AnswersCountPicks(answers: seq<Response>, picks: seq<nat>, endpoints: seq<Registry.Endpoint>, j: nat)
    requires |answers| == |picks| && j < |endpoints|
    requires ArePicks(answers, picks, endpoints)
    requires forall x, y :: 0 <= x < y < |endpoints| ==> endpoints[x] != endpoints[y]
    ensures CountAnswers(answers, Routed(endpoints[j])) == Count(picks, j)
    decreases |answers|
  {
    if answers != [] {
      assert forall i :: 0 <= i < |picks[1..]| ==> picks[1..][i] == picks[i + 1] && answers[1..][i] == answers[i + 1];
      AnswersCountPicks(answers[1..], picks[1..], endpoints, j);
    }
  }

  /** Fairness of the answers. Over any run of requests, to this service and to any others in
      between, from any cursors, while the service has the same list of n distinct endpoints:
      each n consecutive requests for it are answered by every endpoint once, and k of them by
      each floor(k/n) or ceil(k/n) times. */
  lemma AnswersAreFair(visits: seq<Visit>, idxs: seq<map<string, nat>>, responses: seq<Response>,
                       namespace: string, service: string, endpoints: seq<Registry.Endpoint>, j: nat)
    requires IsRun(visits, idxs, responses) && SlashFree(namespace)
    requires StableList(visits, namespace, service, endpoints) && j < |endpoints|
    requires forall x, y :: 0 <= x < y < |endpoints| ==> endpoints[x] != endpoints[y]
    ensures var answers := AnswersFor(visits, responses, namespace, service);
            var k, n, count := |answers|, |endpoints|, CountAnswers(answers, Routed(endpoints[j]));
            && (k == n ==> count == 1)
            && k / n <= count <= k / n + if k % n == 0 then 0 else 1
  {
    var key := ProxyKey(namespace, service);
    AnswersArePicks(visits, idxs, responses, namespace, service, endpoints);
    RequestsOfService(visits, namespace, service, endpoints);
    var requests := Requests(visits);
    PicksAreInBounds(idxs[0], requests, key);
    AnswersCountPicks(AnswersFor(visits, responses, namespace, service), PicksFor(idxs[0], requests, key), endpoints, j);
    RoundRobinIsFair(idxs[0], requests, key, |endpoints|, j);
  }

  lemma PickAfterNext(c: nat, i: nat, n: nat)
    requires n > 0
    ensures ((c + 1) % n + i) % n == (c + 1 + i) % n
  {
    var q, r := (c + 1) / n, (c + 1) % n;
    var p, x := (r + i) / n, (r + i) % n;
    assert c + 1 == q * n + r && r + i == p * n + x;
    assert c + 1 + i == (q + p) * n + x;
    DivModOf(c + 1 + i, n, q + p, x);
  }

  lemma {:induction false} PicksGoRound(idx: map<string, nat>, requests: seq<Request>, key: string, n: nat, i: nat)
    requires n > 0 && i < |PicksFor(idx, requests, key)|
    requires forall request :: request in requests && request.key == key ==> request.n == n
    ensures PicksFor(idx, requests, key)[i] == (Cursor(idx, key) + i) % n
    decreases requests
  {
    var first, rest := requests[0], requests[1..];
    var next := AfterPick(idx, first);
    assert first in requests;
    if first.key != key {
      assert Cursor(next, key) == Cursor(idx, key);
      PicksGoRound(next, rest, key, n, i);
    } else if i > 0 {
      assert Cursor(next, key) == (Cursor(idx, key) + 1) % n;
      PicksGoRound(next, rest, key, n, i - 1);
      PickAfterNext(Cursor(idx, key), i - 1, n);
    }
  }

  /** The answers go round the list: for a service that was never asked for before they start
      with its first endpoint. */
  lemma AnswersGoRound(visits: seq<Visit>, idxs: seq<map<string, nat>>, responses: seq<Response>,
                       namespace: string, service: string, endpoints: seq<Registry.Endpoint>, i: nat)
    requires IsRun(visits, idxs, responses) && SlashFree(namespace)
    requires StableList(visits, namespace, service, endpoints) && endpoints != []
    requires ProxyKey(namespace, service) !in idxs[0]
    requires i < |AnswersFor(visits, responses, namespace, service)|
    ensures AnswersFor(visits, responses, namespace, service)[i] == Routed(endpoints[i % |endpoints|])
  {
    AnswersArePicks(visits, idxs, responses, namespace, service, endpoints);
    RequestsOfService(visits, namespace, service, endpoints);
    PicksGoRound(idxs[0], Requests(visits), ProxyKey(namespace, service), |endpoints|, i);
  }

  /** A request that no path answers is not found, one whose service has no live endpoint is
      unavailable, and neither moves a cursor; any other is answered by one of the endpoints
      and moves no cursor but that of its service. */
  lemma ResponseMeaning(v: Visit, idx: map<string, nat>, response: Response, idx': map<string, nat>)
    requires Handled(v, idx, response, idx')
    ensures response == NotFound <==> forall a: nat, b: nat, c: nat :: !Hit(v.ingresses, v.host, v.path, a, b, c)
    ensures !response.Routed? ==> idx' == idx
    ensures forall namespace, service :: GoesTo(v, namespace, service) ==>
              var endpoints := v.discover(service, namespace);
              && (response == Unavailable <==> endpoints.None? || endpoints.value == [])
              && (response.Routed? ==> response.endpoint in endpoints.value)
              && forall key :: key != ProxyKey(namespace, service) ==> Cursor(idx', key) == Cursor(idx, key)
  {
    if a: nat, b: nat, c: nat :| Hit(v.ingresses, v.host, v.path, a, b, c) {
      SomeHitIsFirst(v.ingresses, v.host, v.path, a, b, c);
    }
    if a: nat, b: nat, c: nat :| FirstHit(v.ingresses, v.host, v.path, a, b, c) {
      FirstHitIsUnique(v.ingresses, v.host, v.path, a, b, c);
      assert (response, idx') == Route(v.ingresses[a], v.ingresses[a].rules[b].paths[c], v.discover, idx);
    }
  }
}
