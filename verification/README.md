# SwiftDIKit registry, modelled in Dafny

SwiftDIKit is a service locator for Swift. A `DependencyInjector` holds two
dictionaries keyed by type identity (`ObjectIdentifier` of a metatype):

- The singleton store. `singleton` runs its closure and stores the instance,
  but only if the key is free, so the first writer wins.
- The factory store. `factory` stores the closure itself, replacing any
  earlier one, so the last writer wins.

`get` and `getOptional` look in the singleton store, then in the factory
store (running the closure), and on a miss `get` calls `fatalError` while
`getOptional` returns nil. An entry whose `as?` downcast fails is skipped.
`resetDependencies` empties both stores. `registerModules` loads modules in
array order. A `DIModule` wraps a registration closure and runs it only when
loaded.

The model is functional. The registry is an immutable record
(`DependencyInjector.Registry`) of two maps plus a counter `next`. The
counter is the first object identity not yet handed out, so "a closure
creates a new instance" becomes "it returns an identity at or above `next`
and advances `next`". Every operation is a pure function from the registry
before the call to the registry after it:

- `injector.dfy` models `DependencyInjector.swift`: the stores, the
  registrations, the two resolutions and reset.
- `modules.dfy` models `DIModule.swift` and `registerModules`. A module is
  the sequence of registration calls its closure makes. Loading is a left
  fold of those calls.
- `properties.dfy` holds the lemmas that relate several calls.
- `scenario.dfy` replays the set-up and the assertions of the test suite.
- `wrappers.dfy` defines `Option`.

Type identity is `TypeKey`. A request for type T looks under key T and wants
a value of type T. A registration carries its key (the `type:` argument) and
its tag (the closure's `T`) separately. They differ only when the `type:`
argument is the metatype of a subtype of `T`. In that case the model makes
the downcast fail (see "Subtype conformance" under "## Left out").
`get`'s `fatalError` is the `Fatal(missing)` result. It is distinct from
`getOptional`'s `None`, and it carries no registry afterwards, because the
process stops.

A singleton closure is modelled as a list of types it looks up with
`getOptional`, in order, followed by one new instance that holds what those
lookups returned. This is how the test module builds
`C(a: di.getOptional(), b: di.getOptional())`. A factory closure is
modelled as a new instance with no lookups.

The test at Tests/SwiftDIKitTests/SwiftDIKitTests.swift:56-83 resolves from
ten threads. The stores at
Sources/SwiftDIKit/Core/DependencyInjector.swift:13-15, however, are plain
dictionaries with no lock, and the global injector is `nonisolated(unsafe)`.
So every call is modelled as one sequential step, and no mutual-exclusion
property is claimed.

## Model

| member | source | states |
|---|---|---|
| DependencyInjector.Empty | Sources/SwiftDIKit/Core/DependencyInjector.swift:13-17 | a new injector has both stores empty, so no type resolves, and the identity invariant already holds |
| DependencyInjector.GetOptional | Sources/SwiftDIKit/Core/DependencyInjector.swift:56-65 | the maps are unchanged; nil exactly when no store has an entry of the right type; a matching singleton is returned as is and the registry stays identical; otherwise the matching factory's closure yields an instance whose identity was never handed out before; the counter invariant is kept |
| DependencyInjector.Get | Sources/SwiftDIKit/Core/DependencyInjector.swift:43-52 | fatal exactly when no store has an entry of the right type, naming the requested type; a matching singleton first, else a new instance from the matching factory |
| DependencyInjector.ResolveAll | Tests/SwiftDIKitTests/SwiftDIKitTests.swift:9 | a closure's in-order `getOptional` lookups return one value per requested type, nil exactly for the unresolvable ones, the stored instance for singleton types, and for a type served by a factory a new instance from that factory, with an identity never handed out before; the maps are unchanged and every value is an issued identity |
| DependencyInjector.ResolveAllFactoryIdsIncrease | Sources/SwiftDIKit/Core/DependencyInjector.swift:61-62 | the instances a closure's lookups get from factories have strictly increasing identities, so no two of them are the same object |
| DependencyInjector.RegisterSingleton | Sources/SwiftDIKit/Core/DependencyInjector.swift:23-28 | for a taken key the registry is unchanged, counter included, so the closure never ran; for a free key it stores a new instance built by that closure, with one field per lookup, nil exactly for unresolvable types, the stored instance for singleton types, and for a factory-served type a new instance from that factory, made before the stored one and distinct from the other new ones; other keys and the factory map are untouched |
| DependencyInjector.RegisterFactory | Sources/SwiftDIKit/Core/DependencyInjector.swift:34-37 | the key now maps to the new closure, whatever was there; every other key, the singleton map and the counter are untouched |
| DependencyInjector.ResetDependencies | Sources/SwiftDIKit/Core/DependencyInjector.swift:76-79 | both maps are empty and no type resolves; identities already handed out stay used |
| Modules.Step | Sources/SwiftDIKit/Core/DependencyInjector.swift:23-37 | one registration call adds at most one factory entry and claims at most one singleton key; it never replaces an existing singleton; a singleton call for a free key stores that call's type and closure |
| Modules.Run | Sources/SwiftDIKit/Core/DIModule.swift:21-23 | running a closure's calls gives factories equal to the old ones overridden by the last factory per key; the singleton keys are the old ones plus the claimed ones; existing singletons are kept; a key new to the run holds the type and closure of the first singleton call for it; the counter never goes back |
| Modules.Load | Sources/SwiftDIKit/Core/DIModule.swift:21-23 | loading changes the injector it is given by the module's calls: factories are the old ones overridden by the module's last factory per key; existing singletons are kept; a key new to this load holds the type and closure of the module's first singleton call for it; the counter never goes back |
| Modules.ModuleSingletonFirstWriterWins | Sources/SwiftDIKit/Core/DependencyInjector.swift:23-28 | when one module registers a free key as a singleton twice, the first registration's closure supplies the stored instance |
| Modules.RegisterModules | Sources/SwiftDIKit/Core/DependencyInjector.swift:69-73 | the result is each module loaded in array order; every singleton that existed before survives unchanged, and no factory key is lost |
| Modules.LoadAllRunsAllCommands | Sources/SwiftDIKit/Core/DependencyInjector.swift:69-73 | registering a module list equals running all of the modules' calls as one sequence |
| Modules.LoadAllAppend | Sources/SwiftDIKit/Core/DependencyInjector.swift:69-73 | registering `a` and then `b` equals registering `a + b` |
| Modules.RunAppend | Sources/SwiftDIKit/Core/DIModule.swift:21-23 | running calls `a` then `b` equals running `a + b` |
| Modules.RunOverTakenSingletons | Sources/SwiftDIKit/Core/DependencyInjector.swift:23-37 | calls whose singleton keys are all taken change only the factory map, and change it by their last factory per key |
| Modules.ReloadKeepsSingletonsReinstallsFactories | Sources/SwiftDIKit/Core/DIModule.swift:21-23 | re-loading a module keeps every singleton and the counter, and puts the module's factories back |
| Modules.LoadTwiceIsLoadOnce | Sources/SwiftDIKit/Core/DIModule.swift:21-23 | loading the same module twice in a row equals loading it once |
| Modules.LoadAllKeepsSingletons | Sources/SwiftDIKit/Core/DependencyInjector.swift:69-73 | loading more modules never removes or replaces a singleton, never loses a factory key, never moves the counter back, and keeps the identity invariant |
| Modules.ReloadAfterOthers | Sources/SwiftDIKit/Core/DIModule.swift:21-23 | a module loaded, then other modules, then the same module again: the first load's singleton instances remain and the module's factories win again |
| RegistryProperties.GetAgreesWithGetOptional | Sources/SwiftDIKit/Core/DependencyInjector.swift:43-65 | `get` is fatal exactly when `getOptional` is nil; otherwise both return the same instance and leave the same registry |
| RegistryProperties.SingletonFirstWriterWins | Sources/SwiftDIKit/Core/DependencyInjector.swift:23-28 | a second singleton registration for a key changes nothing; resolution returns the first closure's instance |
| RegistryProperties.FactoryLastWriterWins | Sources/SwiftDIKit/Core/DependencyInjector.swift:34-37 | two factory registrations for a key equal the second alone; resolution runs the second closure unless a singleton shadows it |
| RegistryProperties.RegisterFactoryFrame | Sources/SwiftDIKit/Core/DependencyInjector.swift:34-37 | registering a factory under one key changes no resolution of another type |
| RegistryProperties.RegisterSingletonFrame | Sources/SwiftDIKit/Core/DependencyInjector.swift:23-28 | registering a singleton under one key changes no singleton resolution of another type |
| RegistryProperties.SingletonShadowsFactory | Sources/SwiftDIKit/Core/DependencyInjector.swift:43-50 | with both a singleton and a factory for the type, both resolutions return the singleton and hand out no identity |
| RegistryProperties.RepeatedSingletonResolutionIsIdentical | Sources/SwiftDIKit/Core/DependencyInjector.swift:58-60 | two successive resolutions of a singleton type return the identical instance |
| RegistryProperties.RepeatedFactoryResolutionIsFresh | Sources/SwiftDIKit/Core/DependencyInjector.swift:61-63 | two successive resolutions through a factory return distinct instances, neither of them a stored singleton |
| RegistryProperties.MismatchFallsThrough | Sources/SwiftDIKit/Core/DependencyInjector.swift:45-51 | a singleton of the wrong type is skipped for the factory store; with no matching factory, the result is nil or fatal |
| RegistryProperties.ResetForgetsEverything | Sources/SwiftDIKit/Core/DependencyInjector.swift:76-79 | after a reset, `getOptional` is nil and `get` is fatal for every type, and neither hands out an identity |
| Scenario.RegisterDependencies | Tests/SwiftDIKitTests/SwiftDIKitTests.swift:19-24 | after the test set-up, `C` resolves with both fields present, and its `a` is the `A` singleton |
| Scenario.SingletonIdentity | Tests/SwiftDIKitTests/SwiftDIKitTests.swift:26-32 | after the test set-up, `A` resolves twice to one instance |
| Scenario.FactoryFreshness | Tests/SwiftDIKitTests/SwiftDIKitTests.swift:34-40 | after the test set-up, `PrintsSomething` resolves twice to two distinct instances, both made by `B`'s closure |
| Scenario.Resolve | Tests/SwiftDIKitTests/SwiftDIKitTests.swift:42-48 | after the test set-up, `get` resolves `PrintsSomething`, made by `B`'s closure, and then resolves `A` in the injector that call left |
| Scenario.Reset | Tests/SwiftDIKitTests/SwiftDIKitTests.swift:50-54 | after the test set-up and a reset, `A` no longer resolves |

## Left out

- Concurrency. The code has no locking, so no thread-safety contract is modelled. Each call is one atomic step. The multi-threaded test (Tests/SwiftDIKitTests/SwiftDIKitTests.swift:56-83) is not modelled.
- The facade in Sources/SwiftDIKit/SwiftDIKit.swift. It only forwards each call to one global injector.
- The protocol in Sources/SwiftDIKit/Core/Module.swift. It declares `load` and has no logic. `DIModule` is its only conformer.
- Subtype conformance in `as?`. A stored entry downcasts only to the exact type it was registered as. A value registered as one type is never recovered as a supertype or subtype. In particular, when the `type:` argument names a subclass and the singleton closure really returns that subclass, Swift's `as?` succeeds but the model reports a mismatch.
- General closures. A registration closure is modelled as a fixed list of calls. Factory closures do no lookups. Side effects such as `print` are dropped. The model has no closure that does any of the following, and several properties hold only because of that:
  - Registers from inside a closure. At Sources/SwiftDIKit/Core/DependencyInjector.swift:25-26 the key is checked before `factory()` runs, and the result is stored after it. So a singleton closure that registers a singleton under its own key has that entry overwritten by the outer store. First-writer-wins (`Modules.Step`, `Modules.Run`, `Modules.LoadAllKeepsSingletons`, `RegistryProperties.SingletonFirstWriterWins`) depends on this exclusion. So does the promise that resolution leaves both maps unchanged (`DependencyInjector.GetOptional`, `DependencyInjector.Get`, `DependencyInjector.ResolveAll`). A factory closure that registers, run at Sources/SwiftDIKit/Core/DependencyInjector.swift:61-62, changes a store on every resolution.
  - Branches on the registry. A module closure that registers one factory when some type is missing and another when it is present leaves different factories after one load and after two. `Modules.LoadTwiceIsLoadOnce`, `Modules.ReloadKeepsSingletonsReinstallsFactories` and `Modules.ReloadAfterOthers` depend on this exclusion.
  - Returns an instance that already exists. A factory closure may return a captured object. Factory freshness (the identity bound in `DependencyInjector.GetOptional` and `DependencyInjector.Get`, `DependencyInjector.ResolveAllFactoryIdsIncrease`, `RegistryProperties.RepeatedFactoryResolutionIsFresh`, `Scenario.FactoryFreshness`) depends on this exclusion.
  - Calls `get`. `get` halts the process on a miss (Sources/SwiftDIKit/Core/DependencyInjector.swift:51). So in Swift, `registerModules` and `load` can end in `fatalError`. `Modules.Load`, `Modules.Run` and `Modules.RegisterModules` are total only because closures use `getOptional` alone.
- Module construction and immutability hold by construction, and no member states them. `DIModule` is an immutable value built without any injector. `Load` takes the injector it changes as its argument and returns the new one, and it reads nothing else. Every load of a module issues the same calls.
- The `fatalError` message text. Only the fact of failure and the missing type are kept.
- Identities are unbounded naturals, and the identity counter is never reset, so an identity handed out before a reset is never handed out again.
- Package.swift and the XCTest machinery (expectations, dispatch groups, timeouts).
