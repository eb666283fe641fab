/**
  The endpoints-controller registry of package `service`: a process-wide
  directory from a networking-strategy name to a ControllerFunc, the
  constructor that builds an EndpointsController for a given API client.

  The Go code keeps the directory in a package variable guarded by a mutex.
  Here it is an immutable value and both operations are pure functions over
  it; the mutex only serialises the calls, which the sequential model gives
  for free. The client and the controller are type parameters `C` and `K`:
  the registry never looks inside either.
*/
module EndpointsController {
  import opened Wrappers

  /** A ControllerFunc builds an EndpointsController that updates the given client. */
  type ControllerFunc<-C, K> = C -> K

  /** The `controllers` map: name to constructor. Created empty. */
  datatype Registry<!C, K> = Registry(controllers: map<string, ControllerFunc<C, K>>)

  /** What RegisterEndpointsController ends in: the registry with the new
      entry, or the fatal halt that a second registration of a name causes. */
  datatype RegisterOutcome<!C, K> =
    | Added(registry: Registry<C, K>)
    | DuplicateFatal(name: string)

  /** `b` holds every entry of `a`, each with the same constructor. */
  ghost predicate Submap<C, K>(a: map<string, ControllerFunc<C, K>>, b: map<string, ControllerFunc<C, K>>)
  {
    forall n :: n in a ==> n in b && b[n] == a[n]
  }

  /** The registry as the process starts: no name is registered. */
  function Empty<C, K>(): (r: Registry<C, K>)
    ensures forall n :: n !in r.controllers
  {
    Registry(map[])
  }

  /**
    RegisterEndpointsController(name, f). A name already present halts the
    process (glog.Fatalf), so the assignment after it is never reached and
    the existing constructor is never replaced. Otherwise the registry gains
    exactly the one entry `name -> f` and every other entry is left alone.
  */
  function Register<C, K>(reg: Registry<C, K>, name: string, f: ControllerFunc<C, K>): (r: RegisterOutcome<C, K>)
    ensures r.DuplicateFatal? <==> name in reg.controllers
    ensures r.DuplicateFatal? ==> r.name == name
    ensures r.Added? ==> r.registry.controllers.Keys == reg.controllers.Keys + {name}
    ensures r.Added? ==> r.registry.controllers[name] == f
    ensures r.Added? ==> Submap(reg.controllers, r.registry.controllers)
  {
    if name in reg.controllers then DuplicateFatal(name)
    else Added(Registry(reg.controllers[name := f]))
  }

  /**
    GetEndpointsController(name, client). An unregistered name gives None
    (Go's nil), which is a normal answer and not an error; no constructor is
    called then. A registered name gives exactly what its constructor builds
    for `client`, built afresh on every call. The registry is an input only,
    so a lookup cannot change it.
  */
  function Get<C, K>(reg: Registry<C, K>, name: string, client: C): (r: Option<K>)
    ensures r.None? <==> name !in reg.controllers
    ensures r.Some? ==> r.value == reg.controllers[name](client)
  {
    if name in reg.controllers then Some(reg.controllers[name](client)) else None
  }

  /** In a registry no call has touched, every name is absent. */
  lemma LookupOnEmptyIsAbsent<C, K>(name: string, client: C)
    ensures Get(Empty<C, K>(), name, client) == None
  {
  }

  /** Register-then-get: right after `name` is registered with `f`, a lookup
      of `name` with any client is present and is `f(client)`. */
  lemma GetAfterRegister<C, K>(reg: Registry<C, K>, name: string, f: ControllerFunc<C, K>, client: C)
    requires name !in reg.controllers
    ensures Register(reg, name, f).Added?
    ensures Get(Register(reg, name, f).registry, name, client) == Some(f(client))
  {
  }

  /** Registering one name does not change what a lookup of any other name gives. */
  lemma RegisterFramesOtherNames<C, K>(reg: Registry<C, K>, name: string, f: ControllerFunc<C, K>, other: string, client: C)
    requires name !in reg.controllers
    requires other != name
    ensures Get(Register(reg, name, f).registry, other, client) == Get(reg, other, client)
  {
  }
}
