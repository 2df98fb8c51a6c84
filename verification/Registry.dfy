/** The service-discovery registry of one node: a map of maps of endpoints, changed by local
    registrations, by updates from peers and by the health sweep. */
module Registry {
  import opened Types
  import opened Naming

  datatype Endpoint = Endpoint(
    serviceName: string,
    namespace: string,
    podID: string,
    podName: string,
    nodeName: string,
    address: string,
    port: int,
    healthy: bool,
    lastSeen: int)

  /** serviceKey -> endpointID -> endpoint. */
  type Table = map<string, map<string, Endpoint>>

  // Thirty seconds in nanoseconds.
  const FRESH_WINDOW := 30_000_000_000

  function EndpointID(namespace: string, serviceName: string, podID: string): string {
    namespace + "-" + serviceName + "-" + podID
  }

  function KeyOf(e: Endpoint): string {
    ServiceKey(e.serviceName, e.namespace)
  }

  function IdOf(e: Endpoint): string {
    EndpointID(e.namespace, e.serviceName, e.podID)
  }

  predicate Has(t: Table, key: string, id: string) {
    key in t && id in t[key]
  }

  function At(t: Table, key: string, id: string): Option<Endpoint> {
    if Has(t, key, id) then Some(t[key][id]) else None
  }

  /** Files an endpoint under its two keys, creating the inner map when there is none. */
  function Put(t: Table, e: Endpoint): Table {
    t[KeyOf(e) := (if KeyOf(e) in t then t[KeyOf(e)] else map[])[IdOf(e) := e]]
  }

  /** Deletes an endpoint, and the inner map when that is then empty. */
  function Drop(t: Table, key: string, id: string): Table {
    if key !in t then t
    else if t[key] - {id} == map[] then t - {key}
    else t[key := t[key] - {id}]
  }

  /** Deregistering locally looks for the endpoint first. */
  function DropExisting(t: Table, key: string, id: string): Table {
    if Has(t, key, id) then Drop(t, key, id) else t
  }

  predicate Stale(e: Endpoint, now: int) {
    now - e.lastSeen > FRESH_WINDOW
  }

  function Sweep(t: Table, now: int): Table {
    map key | key in t :: map id | id in t[key] ::
      if Stale(t[key][id], now) then t[key][id].(healthy := false) else t[key][id]
  }

  predicate Live(e: Endpoint, now: int) {
    e.healthy && now - e.lastSeen < FRESH_WINDOW
  }

  /** The endpoints that a reader at time `now` may return, in the iteration order `order`. */
  function LiveInOrder(m: map<string, Endpoint>, order: seq<string>, now: int): seq<Endpoint> {
    if order == [] then []
    else
      var rest := LiveInOrder(m, order[..|order| - 1], now);
      var id := order[|order| - 1];
      if id in m && Live(m[id], now) then rest + [m[id]] else rest
  }

  /** A `service_update` message. */
  datatype Update = Update(action: string, endpoint: Endpoint)

  /** A message from the cluster with its type. */
  datatype ServiceMessage = ServiceMessage(kind: string, update: Update)

  function Receive(t: Table, u: Update, now: int): Table {
    var e := u.endpoint.(lastSeen := now);
    if u.action == "register" then Put(t, e)
    else if u.action == "deregister" then Drop(t, KeyOf(e), IdOf(e))
    else t
  }

  /** The endpoint that RegisterService builds. */
  function NewEndpoint(service: Service, pod: Pod, nodes: map<string, string>, now: int): Endpoint {
    Endpoint(
      service.name, service.namespace, pod.id, pod.name, pod.nodeName,
      if pod.nodeName in nodes then nodes[pod.nodeName] else pod.nodeName,
      if |service.ports| > 0 then service.ports[0] else 0,
      true, now)
  }

  class Discovery {
    var services: Table
    /** Node addresses known to the cluster, and the updates broadcast to it so far. */
    var nodes: map<string, string>
    var outbox: seq<Update>

    constructor (nodes: map<string, string>)
      ensures services == map[] && this.nodes == nodes && outbox == []
    {
      services, this.nodes, outbox := map[], nodes, [];
    }

    method RegisterService(service: Service, pod: Pod, now: int)
      modifies this
      ensures nodes == old(nodes)
      ensures var e := NewEndpoint(service, pod, nodes, now);
              services == Put(old(services), e) && outbox == old(outbox) + [Update("register", e)]
    {
      var port := 0;
      if |service.ports| > 0 {
        port := service.ports[0];
      }
      var address := pod.nodeName;
      if pod.nodeName in nodes {
        address := nodes[pod.nodeName];
      }
      var endpoint := Endpoint(service.name, service.namespace, pod.id, pod.name, pod.nodeName, address, port, true, now);
      services := FileEndpoint(services, endpoint);
      outbox := outbox + [Update("register", endpoint)];
    }

    method DeregisterService(service: Service, pod: Pod)
      modifies this
      ensures nodes == old(nodes)
      ensures var key, id := ServiceKey(service.name, service.namespace), EndpointID(service.namespace, service.name, pod.id);
              && services == DropExisting(old(services), key, id)
              && outbox == old(outbox) +
                   if Has(old(services), key, id) then [Update("deregister", old(services)[key][id])] else []
    {
      var key := ServiceKey(service.name, service.namespace);
      var id := EndpointID(service.namespace, service.name, pod.id);
      if key in services {
        var endpoints := services[key];
        if id in endpoints {
          outbox := outbox + [Update("deregister", endpoints[id])];
          services := DeleteEndpoint(services, key, id);
        }
      }
    }

    /** None is a message that does not decode; one of another type is passed over. */
    method HandleServiceUpdate(message: Option<ServiceMessage>, now: int) returns (err: bool)
      modifies this
      ensures nodes == old(nodes) && outbox == old(outbox)
      ensures err <==> message.None?
      ensures services == if message.Some? && message.value.kind == "service_update"
                          then Receive(old(services), message.value.update, now) else old(services)
    {
      if message.None? {
        return true;
      }
      if message.value.kind != "service_update" {
        return false;
      }
      var u := message.value.update;
      var endpoint := u.endpoint.(lastSeen := now);
      var key, id := KeyOf(endpoint), IdOf(endpoint);
      if u.action == "register" {
        services := FileEndpoint(services, endpoint);
      } else if u.action == "deregister" {
        if key in services {
          services := DeleteEndpoint(services, key, id);
        }
      }
      return false;
    }

    /** services[key][id] = endpoint, making the inner map first if need be. */
    static method FileEndpoint(services: Table, endpoint: Endpoint) returns (table: Table)
      ensures table == Put(services, endpoint)
    {
      var key, id := KeyOf(endpoint), IdOf(endpoint);
      table := services;
      if key !in table {
        table := table[key := map[]];
      }
      table := table[key := table[key][id := endpoint]];
    }

    /** delete(services[key], id), and the key with its last endpoint. */
    static method DeleteEndpoint(services: Table, key: string, id: string) returns (table: Table)
      requires key in services
      ensures table == Drop(services, key, id)
    {
      table := services[key := services[key] - {id}];
      if |table[key]| == 0 {
        table := table - {key};
      }
    }

    /** One tick of the background routine, in any iteration order of both maps. */
    method HealthCheck(now: int)
      modifies this
      ensures nodes == old(nodes) && outbox == old(outbox)
      ensures services == Sweep(old(services), now)
    {
      var keys := services.Keys;
      ghost var before := services;
      while keys != {}
        invariant nodes == old(nodes) && outbox == old(outbox)
        invariant keys <= before.Keys && services.Keys == before.Keys
        invariant forall k :: k in before ==>
                    services[k] == if k in keys then before[k] else Sweep(before, now)[k]
        decreases keys
      {
        var key :| key in keys;
        keys := keys - {key};
        var swept := SweepInner(services[key], now);
        services := services[key := swept];
      }
    }

    static method SweepInner(endpoints: map<string, Endpoint>, now: int) returns (swept: map<string, Endpoint>)
      ensures swept == map id | id in endpoints ::
                         if Stale(endpoints[id], now) then endpoints[id].(healthy := false) else endpoints[id]
    {
      swept := endpoints;
      var ids := endpoints.Keys;
      while ids != {}
        invariant ids <= endpoints.Keys && swept.Keys == endpoints.Keys
        invariant forall id :: id in endpoints ==>
                    swept[id] == if id !in ids && Stale(endpoints[id], now) then endpoints[id].(healthy := false) else endpoints[id]
        decreases ids
      {
        var id :| id in ids;
        ids := ids - {id};
        if now - swept[id].lastSeen > FRESH_WINDOW {
          swept := swept[id := swept[id].(healthy := false)];
        }
      }
    }

    /** `order` is the order in which the inner map happens to be iterated. None is the error
        for an unknown service. */
    method GetServiceEndpoints(serviceName: string, namespace: string, order: seq<string>, now: int)
        returns (result: Option<seq<Endpoint>>)
      ensures var key := ServiceKey(serviceName, namespace);
              result == if key in services then Some(LiveInOrder(services[key], order, now)) else None
    {
      var key := ServiceKey(serviceName, namespace);
      if key !in services {
        return None;
      }
      var endpoints := services[key];
      var found := [];
      for i := 0 to |order|
        invariant found == LiveInOrder(endpoints, order[..i], now)
      {
        assert order[..i + 1][..i] == order[..i];
        if order[i] in endpoints {
          var endpoint := endpoints[order[i]];
          if endpoint.healthy && now - endpoint.lastSeen < FRESH_WINDOW {
            found := found + [endpoint];
          }
        }
      }
      assert order[..|order|] == order;
      return Some(found);
    }

    /** The addresses of live endpoints; None when the service is unknown or has none. */
    method GetServiceAddresses(serviceName: string, namespace: string, order: seq<string>, now: int)
        returns (result: Option<seq<(string, int)>>)
      ensures var key := ServiceKey(serviceName, namespace);
              result == AddressAnswer(services, key, order, now)
    {
      var key := ServiceKey(serviceName, namespace);
      if key !in services {
        return None;
      }
      var endpoints := services[key];
      var addresses := [];
      for i := 0 to |order|
        invariant addresses == Addresses(LiveInOrder(endpoints, order[..i], now))
      {
        assert order[..i + 1][..i] == order[..i];
        if order[i] in endpoints && endpoints[order[i]].healthy {
          var endpoint := endpoints[order[i]];
          if now - endpoint.lastSeen < FRESH_WINDOW {
            AddressesSnoc(LiveInOrder(endpoints, order[..i], now), endpoint);
            addresses := addresses + [(endpoint.address, endpoint.port)];
          }
        }
      }
      assert order[..|order|] == order;
      if |addresses| == 0 {
        return None;
      }
      return Some(addresses);
    }

    /** All services that have a live endpoint, each with its live endpoints. */
    method ListServices(order: map<string, seq<string>>, now: int) returns (result: map<string, seq<Endpoint>>)
      requires services.Keys <= order.Keys
      ensures result == ListAnswer(services, order, now)
    {
      result := map[];
      var keys := services.Keys;
      while keys != {}
        invariant keys <= services.Keys
        invariant result == map k | k in ListAnswer(services, order, now) && k !in keys :: ListAnswer(services, order, now)[k]
        decreases keys
      {
        var key :| key in keys;
        keys := keys - {key};
        var endpoints, ids := services[key], order[key];
        var live := [];
        for i := 0 to |ids|
          invariant live == LiveInOrder(endpoints, ids[..i], now)
        {
          assert ids[..i + 1][..i] == ids[..i];
          if ids[i] in endpoints {
            var endpoint := endpoints[ids[i]];
            if endpoint.healthy && now - endpoint.lastSeen < FRESH_WINDOW {
              live := live + [endpoint];
            }
          }
        }
        assert ids[..|ids|] == ids;
        if |live| > 0 {
          result := result[key := live];
        }
      }
    }
  }

  function Addresses(es: seq<Endpoint>): seq<(string, int)> {
    if es == [] then [] else Addresses(es[..|es| - 1]) + [(es[|es| - 1].address, es[|es| - 1].port)]
  }

  lemma AddressesSnoc(es: seq<Endpoint>, e: Endpoint)
    ensures Addresses(es + [e]) == Addresses(es) + [(e.address, e.port)]
  {
    assert (es + [e])[..|es|] == es;
  }

  function AddressAnswer(t: Table, key: string, order: seq<string>, now: int): Option<seq<(string, int)>> {
    if key !in t || LiveInOrder(t[key], order, now) == [] then None
    else Some(Addresses(LiveInOrder(t[key], order, now)))
  }

  function ListAnswer(t: Table, order: map<string, seq<string>>, now: int): map<string, seq<Endpoint>>
    requires t.Keys <= order.Keys
  {
    map key | key in t && LiveInOrder(t[key], order[key], now) != [] :: LiveInOrder(t[key], order[key], now)
  }

  // ------------------------------------------ the operations, entry by entry

  ghost predicate NoEmptyInner(t: Table) {
    forall key :: key in t ==> t[key] != map[]
  }

  lemma PutAt(t: Table, e: Endpoint)
    ensures forall key, id ::
              At(Put(t, e), key, id) == if key == KeyOf(e) && id == IdOf(e) then Some(e) else At(t, key, id)
    ensures NoEmptyInner(t) ==> NoEmptyInner(Put(t, e))
  {
    assert IdOf(e) in Put(t, e)[KeyOf(e)];
  }

  lemma DropAt(t: Table, key: string, id: string)
    ensures forall k, i :: At(Drop(t, key, id), k, i) == if k == key && i == id then None else At(t, k, i)
    ensures NoEmptyInner(t) ==> NoEmptyInner(Drop(t, key, id))
    ensures NoEmptyInner(t) && !Has(t, key, id) ==> Drop(t, key, id) == t
  {
    if key in t {
      var rest := t[key] - {id};
      assert id !in t[key] ==> rest == t[key];
      assert forall i :: i in t[key] && i != id ==> i in rest;
    }
  }

  lemma SweepAt(t: Table, now: int)
    ensures forall key, id ::
              At(Sweep(t, now), key, id) ==
              match At(t, key, id)
              case None => None
              case Some(e) => Some(if Stale(e, now) then e.(healthy := false) else e)
    ensures NoEmptyInner(t) ==> NoEmptyInner(Sweep(t, now))
  {
    if NoEmptyInner(t) {
      forall key | key in t
        ensures Sweep(t, now)[key] != map[]
      {
        var id :| id in t[key];
        assert id in Sweep(t, now)[key];
      }
    }
  }

  lemma KeysByEntries(t: Table, key: string)
    requires NoEmptyInner(t)
    ensures key in t <==> exists id :: At(t, key, id).Some?
  {
    if key in t {
      var id :| id in t[key];
      assert At(t, key, id).Some?;
    }
  }
}
