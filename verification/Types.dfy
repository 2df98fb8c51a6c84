/** The values the agent passes around: the resources of internal/types, reduced to
    the fields that some modelled operation reads or writes. */
module Types {

  datatype Option<+T> = None | Some(value: T)

  datatype Pod = Pod(
    id: string,
    name: string,
    namespace: string,
    nodeName: string,
    labels: map<string, string>,
    createdAt: int)

  datatype Deployment = Deployment(
    name: string,
    namespace: string,
    desiredReplicas: int,
    template: string,
    pods: seq<Pod>)

  datatype Service = Service(
    name: string,
    namespace: string,
    selector: map<string, string>,
    ports: seq<int>)

  datatype PathType = Exact | Prefix | ImplementationSpecific | OtherPathType

  datatype IngressPath = IngressPath(
    path: string,
    pathType: Option<PathType>,
    serviceName: string,
    servicePort: int)

  datatype IngressRule = IngressRule(host: string, paths: seq<IngressPath>)

  datatype Ingress = Ingress(name: string, namespace: string, rules: seq<IngressRule>)

  function Elements<T>(s: seq<T>): set<T> {
    set x | x in s
  }

  lemma ElementsOfOneMore<T>(s: seq<T>, x: T)
    ensures Elements(s + [x]) == Elements(s) + {x}
  {
  }

  /** The "namespace/name" key under which every resource map files its entries. */
  function ResourceKey(namespace: string, name: string): string {
    namespace + "/" + name
  }

  predicate SlashFree(s: string) {
    '/' !in s
  }

  /** With namespaces without a slash two resources never share a key. */
  lemma ResourceKeyIff(namespace: string, name: string, namespace': string, name': string)
    requires SlashFree(namespace) && SlashFree(namespace')
    ensures ResourceKey(namespace, name) == ResourceKey(namespace', name') <==> namespace == namespace' && name == name'
  {
    var key, key' := ResourceKey(namespace, name), ResourceKey(namespace', name');
    if key == key' {
      assert key[|namespace|] == '/' && key'[|namespace'|] == '/';
      assert forall i :: 0 <= i < |namespace| ==> key[i] == namespace[i] != '/';
      assert forall i :: 0 <= i < |namespace'| ==> key'[i] == namespace'[i] != '/';
      assert key[..|namespace|] == namespace && key'[..|namespace'|] == namespace';
      assert key[|namespace| + 1..] == name && key'[|namespace'| + 1..] == name';
    }
  }

  /** A namespace with a slash shares each of its keys with one resource whose namespace has
      none: the part in front of the first slash. */
  lemma SlashedNamespaceCollides(namespace: string, name: string)
    requires !SlashFree(namespace)
    ensures exists n, m :: SlashFree(n) && (n, m) != (namespace, name) && ResourceKey(n, m) == ResourceKey(namespace, name)
  {
    var i := FirstSlash(namespace);
    var n, m := namespace[..i], namespace[i + 1..] + "/" + name;
    assert namespace == n + "/" + namespace[i + 1..];
    assert ResourceKey(n, m) == ResourceKey(namespace, name);
  }

  lemma FirstSlash(s: string) returns (i: nat)
    requires !SlashFree(s)
    ensures i < |s| && s[i] == '/' && SlashFree(s[..i])
  {
    i := 0;
    while s[i] != '/'
      invariant i < |s| && SlashFree(s[..i])
      invariant exists j :: i <= j < |s| && s[j] == '/'
      decreases |s| - i
    {
      i := i + 1;
    }
  }
}
