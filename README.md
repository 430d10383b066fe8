# injector — a Dafny model of the name-keyed dependency registry

Package `injector` declares an `Injector` whose only field is a
`dependencies` map from names to values. It offers three operations:

- `New` returns an injector whose map is nil. Go reads a nil map as empty.
- `Inject(name, source)` only validates its arguments. An empty name fails
  first, with "injector: name cannot be empty". A nil source fails second,
  with "injector: source cannot be nil". Otherwise it returns nil. It never
  stores anything.
- `Get(name)` returns "dependency <name> not found" when the name is absent.
  When the name is present it returns a nil value and a nil error, never the
  stored value.

The model is the single module `Injector` in `injector.dfy`. No operation
writes to `dependencies`, so the injector is a datatype value and the
operations are functions of it. Go's `interface{}` values are the type
parameter `V`, and the nil interface is `None` of `Option<V>`. `Inject`
returns the injector afterwards together with its error, so that "nothing
changes the registry" can be stated. Error texts are modelled exactly by
`Message`.

A session is a sequence of `Inject` and `Get` calls on one injector (`Call`,
`Reply`, `Apply`, `Run`). Over sessions the model proves three things. The
registry never changes. Each call answers as if it were made alone. After
`New`, no `Get` ever succeeds, because `Inject` stores nothing.

## Model

| member | source | states |
|---|---|---|
| Injector.New | injector.go:14-16 | a fresh injector has no name in `dependencies` (the nil map reads as empty) |
| Injector.Inject | injector.go:18-27 | the injector is unchanged; an empty name gives the name-empty error whatever the source; a non-empty name with a nil source gives the source-nil error; a non-empty name with a non-nil source gives no error |
| Injector.Get | injector.go:29-36 | the value returned is always nil; the error is absent exactly when the name is in `dependencies`, and otherwise is not-found carrying that name |
| Injector.InjectSucceedsIff | injector.go:18-27 | `Inject` returns no error if and only if the name is non-empty and the source is non-nil, whatever the registry holds |
| Injector.GetIgnoresStoredValues | injector.go:29-36 | two injectors with the same set of names give the same `Get` result, so the stored values never reach the caller |
| Injector.GetOnNewFails | injector.go:14-36 | on a fresh injector `Get` returns a nil value and the not-found error for every name |
| Injector.MessageHead | injector.go:5-33 | the three error messages differ in their first or eleventh character |
| Injector.NotFoundMessageNamesKey | injector.go:32 | the not-found message contains the requested name and the words "not found" |
| Injector.MessageInjective | injector.go:5-33 | equal messages come from equal errors: the text identifies the error and, for not-found, the name |
| Injector.Run | injector.go:14-36 | a session of calls yields exactly one reply per call |
| Injector.RunPreservesRegistry | injector.go:18-36 | no sequence of `Inject` and `Get` calls changes `dependencies`, on success or failure paths |
| Injector.RunRepliesIndependent | injector.go:18-36 | the k-th reply of a session equals the reply of the k-th call made alone on the original injector |
| Injector.FreshSessionNeverFinds | injector.go:14-36 | after `New`, every `Get` in any session of calls returns a nil value and not-found for its name |
| Injector.SessionInjectVerdict | injector.go:18-27 | every `Inject` in any session returns the error fixed by its own arguments, checking the name before the source |

## Left out

- The richer engine that the package's test file exercises is not modelled. This covers `NewInjector`, a one-argument `Inject`, `InjectByName`, `Resolve` with singleton caching, `ResolveByType`, type-name fallback, `For[T]`, `Get[T]`/`Must[T]`, `ResolveInto` and `Invoke`. No source file implements any of it.
- `examples.go` (`Database`, `UserService`, `NewDB`, `NewUserService`) holds example types with no logic.
- Go reflection is not modelled. A typed nil pointer inside a non-nil interface is not `== nil` in Go. The model treats the source as either nil (`None`) or present (`Some`).
- Calling `Inject` or `Get` through a nil `*Injector` is not modelled. `New` never returns nil, and the model's injector is a value.
- Error identity is not modelled. Go compares the two sentinel errors by pointer and builds a fresh not-found error on each call. The model compares errors by kind and name.
- Concurrency is not modelled. The package has no locking, and no operation writes shared state.
