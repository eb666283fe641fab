# Endpoints-controller registry

A Dafny model of the endpoints-controller registry of the Kubernetes
`service` package (`pkg/service/endpoints_controller.go`). The registry is a
process-wide map from a networking-strategy name to a `ControllerFunc`, a
constructor that builds an `EndpointsController` for a given API client. It
has two operations:

- `RegisterEndpointsController(name, f)` adds `name -> f`. A name that is
  already registered is a wiring defect: the process halts through
  `glog.Fatalf`, and the existing entry is never replaced.
- `GetEndpointsController(name, client)` returns `f(client)` for the
  constructor registered under `name`, or `nil` when there is none.

The model has three modules:

- `Wrappers` (`wrappers.dfy`): the `Option` datatype that stands for a
  possibly-nil result.
- `EndpointsController` (`endpoints_controller.dfy`): the registry as an
  immutable value `Registry(controllers: map<string, C -> K>)`, with pure
  `Register` and `Get`. The client `C` and the controller `K` are type
  parameters; the registry never inspects either. The fatal halt is the
  outcome `DuplicateFatal(name)`.
- `RegistryTrace` (`registry_trace.dfy`): runs a sequence of calls. Every Go
  call holds `controllersLock` for its whole duration, so any concurrent use
  behaves like some sequence of atomic calls. `Step` is one atomic call. `Run` executes a sequence
  of calls and stops at the first fatal duplicate. The lemmas state what holds across
  calls: entries only accumulate, lookups do not mutate, duplicates halt, and
  distinct registrations all land in any order.

## Model

| member | source | states |
|---|---|---|
| EndpointsController.Empty | pkg/service/endpoints_controller.go:38-41 | The registry starts with no name registered. |
| EndpointsController.Register | pkg/service/endpoints_controller.go:44-52 | Registration is fatal exactly when the name is already present, and the fatal outcome names that key. Otherwise the registry gains exactly the one key, the key maps to `f`, and every earlier entry keeps its constructor. |
| EndpointsController.Get | pkg/service/endpoints_controller.go:57-65 | The result is absent exactly when the name is unregistered. When present, it is the stored constructor applied to the given client, with nothing cached or transformed. |
| EndpointsController.LookupOnEmptyIsAbsent | pkg/service/endpoints_controller_test.go:51-56 | Looking up any name in a registry nobody has registered into gives nil. |
| EndpointsController.GetAfterRegister | pkg/service/endpoints_controller.go:44-64 | Right after a fresh registration of `name` with `f`, a lookup of `name` with any client is present and equals `f(client)`. |
| EndpointsController.RegisterFramesOtherNames | pkg/service/endpoints_controller.go:47-51 | A fresh registration does not change the result of looking up any other name. |
| RegistryTrace.Step | pkg/service/endpoints_controller.go:44-65 | One atomic call. A registration halts exactly when its name is present, leaving the registry unchanged and giving no reply. Otherwise it adds its entry and is acknowledged. A lookup leaves the registry unchanged and replies with what `Get` gives. Existing entries are always kept. |
| RegistryTrace.Run | pkg/service/endpoints_controller.go:44-65 | A run with no fatal halt answers every call. A fatal halt happens at a registration of a name that is already in the registry. Its reply count is the halting call's position, so no call after it is answered. Every entry present at the start keeps its constructor to the end, so registration is monotonic. |
| RegistryTrace.HaltEndsRun | pkg/service/endpoints_controller.go:47-51 | After a fatal halt, the calls before the halting registration all ran without a halt. The registry is the one they left, and it already holds the duplicate name. The run equals the run cut just after the halting call, so no later call changes the registry or the outcome. |
| RegistryTrace.RunAppend | pkg/service/endpoints_controller.go:45-46 | Running two call sequences back to back equals running the second from where the first stopped. If the first halted, nothing more happens. |
| RegistryTrace.LookupsLeaveRegistryUnchanged | pkg/service/endpoints_controller.go:57-65 | A run of lookups leaves the registry equal to what it was and never halts. Each lookup is answered from that unchanged registry, invoking the constructor afresh. |
| RegistryTrace.NeverRegisteredStaysAbsent | pkg/service/endpoints_controller.go:60-62 | A name absent at the start and never registered by any call is still absent at the end, so a lookup of it gives nil. |
| RegistryTrace.RegistrationsSucceedIff | pkg/service/endpoints_controller.go:47-51 | A run of registrations completes without a fatal halt if and only if its names are pairwise distinct and none was registered before. |
| RegistryTrace.DistinctRegistrationsAllLand | pkg/service/endpoints_controller.go:44-52 | After distinct fresh registrations, the keys are the old keys plus the registered names, and each name maps to its own call's constructor. No update is lost. |
| RegistryTrace.InterleavingIrrelevant | pkg/service/endpoints_controller.go:38-52 | For distinct fresh names, any permutation of the same registrations (any order in which the lock admits them) gives the same final registry, and none halts. |
| RegistryTrace.DuplicateRegistrationHalts | pkg/service/endpoints_controller.go:47-48 | Registering a name a second time, after any run that left it registered, halts fatally with that name. The registry keeps the first constructor. |
| RegistryTrace.OnceRegisteredAlwaysBuilt | pkg/service/endpoints_controller.go:44-64 | Once `name` is registered with `f`, every later lookup of `name` that runs returns `f` applied to that lookup's client, whatever calls come in between. |
| RegistryTrace.RegisterAndGetScenario | pkg/service/endpoints_controller_test.go:31-56 | On an empty registry, registering `"test"` is acknowledged, and looking it up gives `f(client)`. Looking up `"missing"` then gives nil. |

## Left out

- The mutex `controllersLock` (`pkg/service/endpoints_controller.go:39,45-46,58-59`) is not modelled. Each call is atomic, and concurrency is modelled as the set of possible serial orders (`InterleavingIrrelevant`).
- Logging is not modelled. The `glog.V(1).Infof` trace is dropped. `glog.Fatalf` becomes the `DuplicateFatal` outcome, which ends a run; the message text and the process exit are not modelled.
- `*client.Client` and `EndpointsController.SyncServiceEndpoints` (`pkg/service/endpoints_controller.go:22,29-31`) are foreign code. They become the opaque type parameters `C` and `K`. What a controller does after it is built is not modelled.
- The package-global variable is modelled as an explicit registry value that callers pass in and get back.
- Pointer identity in the package test (`tc != lastController`) is modelled as value equality with `f(client)`. A constructor that allocates a fresh object on each call is modelled as a pure function of the client.
- EndpointsController.Register: constructors are total functions, so a nil `ControllerFunc` is not modelled. The Go code accepts a nil constructor at `pkg/service/endpoints_controller.go:47-51`; a later lookup of that name then panics when it calls the constructor at `:64`.
- EndpointsController.Get: a constructor never returns nil in the model, so `Some(f(client))` is never absent. In Go, a constructor that returns nil makes `:64` return the same nil as the absent case at `:62`. The contract "absent exactly when unregistered" therefore distinguishes more than the Go result can show.
- A constructor that calls back into the registry is not modelled. In Go it would deadlock on `controllersLock`, which is held across the call at `:58-64`.
