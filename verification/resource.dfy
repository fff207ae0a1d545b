/** The Kubernetes `networking.k8s.io/v1` Ingress value the generator builds,
    reduced to the fields it sets, and the options it reads. */
module Resource {

  const IngressApiVersion: string := "networking.k8s.io/v1"
  const IngressKind: string := "Ingress"

  datatype PathType = Exact | Prefix

  /** The target service: name and port number. */
  datatype ServiceOptions = ServiceOptions(name: string, port: int)

  datatype Backend = Backend(serviceName: string, portNumber: int)

  datatype HttpPath = HttpPath(pathType: PathType, path: string, backend: Backend)

  datatype Rule = Rule(host: string, paths: seq<HttpPath>)

  datatype Ingress = Ingress(
    apiVersion: string,
    kind: string,
    name: string,
    namespace: string,
    ingressClassName: string,
    rules: seq<Rule>)

  /** The options the generator reads after defaults are filled in. The
      per-path enable/disable overrides are consulted through a separate
      predicate, see `Generator`. */
  datatype Options = Options(
    namespace: string,
    service: ServiceOptions,
    base: string,
    split: bool,
    host: string,
    ingressClass: string)

  /** Why a generation call fails. */
  datatype GenError =
    | InvalidOptions(cause: string)
    | MarshalFailed(cause: string)
    | ResourceMarshalFailed(resource: Ingress, cause: string)

  /** An Ingress with exactly one rule holding exactly one path. */
  predicate SingleRoute(r: Ingress) {
    |r.rules| == 1 && |r.rules[0].paths| == 1
  }

  /** The single path entry of a single-route Ingress. */
  function Route(r: Ingress): HttpPath
    requires SingleRoute(r)
  {
    r.rules[0].paths[0]
  }

  /** `newIngressResource`: copies its arguments, without any check, into an
      Ingress with one rule and one path. */
  function NewIngressResource(
    name: string,
    namespace: string,
    path: string,
    pathType: PathType,
    service: ServiceOptions,
    host: string,
    ingressClass: string): (r: Ingress)
    ensures r.apiVersion == IngressApiVersion && r.kind == IngressKind
    ensures r.name == name && r.namespace == namespace
    ensures r.ingressClassName == ingressClass
    ensures SingleRoute(r)
    ensures r.rules[0].host == host
    ensures Route(r).pathType == pathType && Route(r).path == path
    ensures Route(r).backend == Backend(service.name, service.port)
  {
    Ingress(
      IngressApiVersion,
      IngressKind,
      name,
      namespace,
      ingressClass,
      [Rule(host, [HttpPath(pathType, path, Backend(service.name, service.port))])])
  }
}
