/** Entries of the four resource maps of a state, named uniformly. */
module Entries {
  import opened Types
  import opened Storage

  /** An entry of any of the four maps. */
  datatype Item =
    | DeploymentItem(deployment: Deployment)
    | ServiceItem(service: Service)
    | IngressItem(ingress: Ingress)
    | PodItem(pod: Pod)

  ghost predicate Holds(s: ClusterState, key: string, item: Item) {
    match item
    case DeploymentItem(d) => key in s.deployments && s.deployments[key] == d
    case ServiceItem(v) => key in s.services && s.services[key] == v
    case IngressItem(g) => key in s.ingresses && s.ingresses[key] == g
    case PodItem(p) => key in s.pods && s.pods[key] == p
  }

  datatype Kind = Deployments | Services | Ingresses | Pods

  predicate HasKey(s: ClusterState, kind: Kind, key: string) {
    match kind
    case Deployments => key in s.deployments
    case Services => key in s.services
    case Ingresses => key in s.ingresses
    case Pods => key in s.pods
  }

  function KindOf(item: Item): Kind {
    match item
    case DeploymentItem(_) => Deployments
    case ServiceItem(_) => Services
    case IngressItem(_) => Ingresses
    case PodItem(_) => Pods
  }
}
