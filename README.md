# di.js, synchronous container, in Dafny

This project models the synchronous dependency-injection container of
`di.js`: the binding store, its aliasing, and the recursive resolver.

- **Binding.** `bind(...names).to([deps..., factory])` checks the
  specification. It then creates one binding record shared by all the given
  names. Each name is unbound first and then mapped to the new record.
- **Scope.** `singleton()` and `transient()` set the record's scope.
- **Unbinding.** `unbind(name)` removes the name from three places: the
  binding map, the singleton cache and the record's alias set.
- **Resolution.** `get(name)` resolves a name through a request cache that
  is fresh for each top-level call. It also uses the singleton cache for
  singleton records.
- **Fresh containers.** Calling the container as a function gives a new,
  empty container.

Layout:

- `values.dfy` (module `Values`): the value domain, factories, the shape of
  the `to` argument and the binding record.
  - A JavaScript object is `Obj(id)`, identified by its allocation number,
    so `{}` twice gives two different values.
  - A factory is one of three kinds: a constant (the closure that
    `toConstant` builds), `function () { return {}; }`, or a deterministic
    function of its positional arguments.
- `store.dfy` (module `Store`): the store as values, with `to` (`ParseSpec`,
  `AddBindings`), `unbind`, `singleton()` and `transient()` as functions,
  together with the store invariants and the lemmas about them.
  - A binding record is a `Handle`, an index into a table of records. The
    handle stands for the one JavaScript object that all aliases of a
    binding share, so when `unbind` shrinks the alias set of one record,
    every alias sees it.
- `resolution.dfy` (module `Resolution`): `get`, `resolve`,
  `getDependencies` and `updateCache` as mutually recursive functions.
  - They thread the request cache, the singleton cache, the object
    allocator and a log of factory calls.
  - The log records one entry per call: the handle of the record whose
    factory ran.
  - The at-most-once and singleton properties are proved here.
- `container.dfy` (module `DI`): the container as a class
  `DI.Container`.
  - Its fields are the objects `di.js` mutates in place: `bindings`, the
    records, `singletons`, the allocator and the call log.
  - Its methods follow the source's loops: the `addBindings`,
    `getNameLookup`, `getDependencies` and `updateCache` loops, and the
    recursion of `get`/`resolve`.
  - Each method's postcondition equates the new state and the results with
    the functions of `Store` and `Resolution`. That way every property proved
    about the functions holds for the class.
- `properties.dfy` (module `Properties`): properties that span the store
  and the resolver, such as `get` after `toConstant` and after `unbind`.
  It also works through a three-level dependency graph by hand.
- `tests.dfy` (module `Tests`): the cases of `di.test.js` replayed on the
  class. Each method's postcondition is what the test asserts.

Acyclicity:

- `di.js` does not detect dependency cycles and recurses without end on
  one.
- The resolver therefore takes a ghost `rank`, one natural number per
  record, such that every bound dependency of a record has a smaller rank
  (`Resolution.Ranked`). The rank is the termination measure. It is a
  precondition of `get`, not a behaviour of the source. It ranks every
  record, including those the `get` never reaches, so it excludes more than
  the cycles the source would follow (see "Left out").

Two store invariants:

- `Store.WellFormed` holds after every operation: every alias of a record
  is bound to that record.
- `Store.Consistent` adds the converse: a bound name is in its record's
  alias set. It holds as long as no single `bind` call repeats a name.
  - With a repeated name the `addBindings` loop unbinds the name from the
    record the same loop just bound it to. The name stays bound, but the
    record no longer lists it (`Store.AddBindingsRepeatedName`).
  - At-most-once and singleton reuse are proved under `Consistent`.
  - For a singleton record, the repeated name never gets a singleton
    entry, because `updateCache` only writes the names its alias set still
    lists. Each `get` of that name runs the factory again, so two `get`s of
    it return two different objects (`Properties.RepeatedSingletonNotCached`).
  - The record's other aliases do get entries, and each `get` of the
    repeated name overwrites them. After `bind("a", "b", "a")` and
    `singleton()`, a `get("b")` before and a `get("b")` after a second
    `get("a")` return different objects (`Properties.RepeatedPairOverwritten`).

A third invariant, `Store.CacheClosed`, concerns `container.singletons`:

- Every key of the singleton cache is bound, and every alias of its record
  is in the cache with the same value.
- `bind`, `unbind`, `singleton()` and `transient()` each preserve it
  (`DI.Container.SingletonsClosed`).
- On a `Consistent` registry, `get` preserves it too and keeps every entry
  already in the singleton cache. So once a singleton has been resolved,
  every alias returns that identical value after any number of other
  `get`s (`Resolution.SingletonReusedAfterGets`).
- Without `Consistent` a `get` can overwrite an entry, as the repeated-name
  case above shows.

## Model

| member | source | states |
|---|---|---|
| Values.Invoke | di.js:112-117 | a factory call never lowers the allocator; `{}` yields the next object identity and bumps it; a constant factory yields its value and allocates nothing |
| Store.EmptyValid | di.js:9-14 | a fresh container (no bindings, no singletons) satisfies both store invariants, and its empty singleton cache is alias-closed |
| Store.ParseSpec | di.js:30-38 | specification is rejected as invalid iff it is not an array or is empty; rejected as "factory not last" iff it is a non-empty array whose last element is not a function; otherwise the factory is the last element and the dependencies are exactly the other elements, in order |
| Store.ConstantSpecParses | di.js:42-46 | `toConstant(v)` passes `to` a one-element specification that parses to no dependencies and a factory returning `v` |
| Store.Unbind | di.js:135-143 | an unbound name leaves the store unchanged; otherwise the name is removed from the binding map and the singleton cache, and exactly its own record loses it from its alias set; every record keeps its dependencies, factory and scope |
| Store.UnbindKeepsOthers | di.js:135-143 | unbind keeps both invariants; another bound name keeps its record, its singleton entry and (under `Consistent`) its place in the alias set |
| Store.UnbindRemovesAlias | di.js:142 | after unbind no record lists the name as an alias |
| Store.UnbindKeepsSingletonsClosed | di.js:135-143 | unbind on a valid store keeps the singleton cache alias-closed |
| Store.Lookup | di.js:66-73 | the lookup object holds exactly the given names |
| Store.BindName | di.js:59-61 | one loop iteration: the name is bound to the new record; its singleton entry and its old record's alias are dropped when it was bound; nothing else changes |
| Store.BindEachBindings | di.js:58-62 | after the loop every name is bound to the new record with no singleton entry, only those names are, and every other name keeps its binding and singleton entry |
| Store.BindEachAliases | di.js:58-62 | after the loop every older record has lost exactly the bound names from its alias set, and every alias of an older record is still bound to it |
| Store.BindEachOwnAliases | di.js:51-62 | the new record's alias set can only shrink during the loop, and with distinct names it stays the whole lookup set |
| Store.AddBindings | di.js:50-64 | appends exactly one record, holding the given dependencies and factory, with transient scope; the rest of its effect is stated by `Store.AddBindingsFacts` |
| Store.AddBindingsFacts | di.js:50-64 | `addBindings` on a valid store appends one transient record with the given dependencies and factory; every name is bound to it with its singleton entry cleared; other names are untouched; older records lose exactly those names; with distinct names the alias set is exactly the names and `Consistent` is preserved; `Valid` is always preserved |
| Store.AddBindingsKeepsSingletonsClosed | di.js:50-64 | `addBindings` on a valid store keeps the singleton cache alias-closed |
| Store.AddBindingsRepeatedName | di.js:58-62 | `bind("a", "a")` leaves `a` bound to the new record but absent from its alias set, so `Consistent` fails |
| Store.SetScope | di.js:75-86 | `singleton()`/`transient()` set the record's scope flag and change nothing else, keeping both invariants |
| Store.SetScopeKeepsClosed | di.js:75-86 | changing a record's scope keeps any alias-closed cache alias-closed |
| Resolution.CacheWith | di.js:129-133 | `updateCache` writes the value under every name and keeps every other entry |
| Resolution.Resolve | di.js:88-110 | `get` never lowers the allocator, only appends to the call log, and keeps singleton-cache keys among the bound names |
| Resolution.ResolveBinding | di.js:112-117 | `resolve` appends at least one call, the last being the record's own factory |
| Resolution.ResolveDeps | di.js:119-127 | `getDependencies` after `k` iterations yields exactly `k` values and only appends to the call log |
| Resolution.CacheWithClosed | di.js:129-133 | writing a value under all aliases of a record none of which was cached keeps the request cache alias-closed |
| Resolution.ResolveGrows | di.js:88-110 | on a consistent acyclic registry one `get` keeps every request-cache entry and adds only names of records below its level; the factories it calls are distinct, and each had no alias cached before and all aliases cached after; every alias of the requested record ends up cached with the returned value |
| Resolution.ResolveDepsGrows | di.js:119-127 | the same for the dependency loop, below the rank of the record |
| Resolution.ResolveSingletons | di.js:98-104 | on a consistent acyclic registry one `get` keeps every singleton-cache entry with its value, adds only names of records below its level, and keeps the singleton cache alias-closed |
| Resolution.ResolveDepsSingletons | di.js:119-127 | the same for the dependency loop, below the rank of the record |
| Resolution.GetKeepsSingletons | di.js:88-110 | on a consistent acyclic registry a top-level `get` keeps every entry of an alias-closed singleton cache and keeps it closed |
| Resolution.GetAll | di.js:18-20 | a sequence of `get`s never lowers the allocator and only appends to the call log |
| Resolution.GetAllKeepsSingletons | di.js:18-20 | on a consistent acyclic registry any sequence of `get`s keeps every entry of an alias-closed singleton cache and keeps it closed |
| Resolution.ResolveDepsValues | di.js:119-126 | after the loop each bound dependency is in the request cache with the value passed in its position, and each unbound one was passed as `undefined` |
| Resolution.CachedNameReused | di.js:89-91 | a name in the request cache is returned from it and nothing else changes |
| Resolution.Get | di.js:18-20 | a top-level `get` never lowers the allocator, only appends to the call log and keeps singleton-cache keys among the bound names; what it caches and how often factories run is stated by `Resolution.GetAtMostOnce` |
| Resolution.GetUnbound | di.js:92-95 | `get` of an unbound name returns `undefined` and changes nothing, so no factory runs |
| Resolution.GetAtMostOnce | di.js:88-133 | every factory runs at most once per top-level `get`, and afterwards all aliases of the requested record are cached with the returned value |
| Resolution.RepeatedDependencySameValue | di.js:119-126 | a dependency declared twice receives the same value in both positions |
| Resolution.ResolveCallsBelow | di.js:88-110 | on any acyclic registry, consistent or not, one `get` calls only factories of records below its level |
| Resolution.ResolveDepsCallsBelow | di.js:119-127 | the same for the dependency loop, below the rank of the record |
| Resolution.TransientRunsEachGet | di.js:105-107 | on any acyclic registry, a top-level `get` of a transient record runs its factory, exactly once and as its last call |
| Resolution.TransientFreshObjects | di.js:105-107 | a transient `{}` factory yields two different objects on two `get`s in a row |
| Resolution.SingletonReused | di.js:98-104 | the first resolution of a singleton stores its value under every alias in the singleton cache; a later `get` of any alias returns the identical value, runs no factory and leaves the singleton cache and allocator as they were |
| Resolution.SingletonEntryUsed | di.js:98-100 | a singleton name with a singleton-cache entry resolves to that entry and runs no factory |
| Resolution.SingletonReusedAfterGets | di.js:98-104 | once a name of a singleton record has been resolved, a `get` of any of its aliases after any sequence of other `get`s returns the identical value, runs no factory and leaves the singleton cache and allocator as they were |
| DI.NameLookup | di.js:66-73 | the loop builds exactly the lookup set of the names |
| DI.UpdateCache | di.js:129-133 | the loop over the alias set yields `updateCache`'s result |
| DI.Container.constructor | di.js:9-14 | a new container is empty and valid, with an alias-closed singleton cache |
| DI.Container.Call | di.js:10-12 | calling the container yields a fresh, empty, valid container with an alias-closed singleton cache |
| DI.Container.Unbind | di.js:135-143 | the new state is `Store.Unbind` of the old one; validity and the alias-closed singleton cache are kept |
| DI.Container.AddBindings | di.js:50-64 | the loop yields `Store.AddBindings` of the old state and returns the new record's handle; validity and the alias-closed singleton cache are kept |
| DI.Container.To | di.js:30-41 | an invalid specification returns its error and leaves the state unchanged; a valid one binds the names to a new record with the parsed dependencies and factory; the alias-closed singleton cache is kept |
| DI.Container.ToConstant | di.js:42-46 | binds the names to a new record with no dependencies and a constant factory; the alias-closed singleton cache is kept |
| DI.Container.Singleton | di.js:77-80 | the registry becomes `SetScope(_, h, true)` and nothing else changes; the alias-closed singleton cache is kept |
| DI.Container.Transient | di.js:81-84 | the registry becomes `SetScope(_, h, false)` and nothing else changes; the alias-closed singleton cache is kept |
| DI.Container.Get | di.js:18-20 | the result, singleton cache, allocator and call log are those of `Resolution.Get`; the registry is unchanged and validity is kept; on a consistent registry an alias-closed singleton cache stays closed and keeps every entry |
| DI.Container.Resolve | di.js:88-110 | the method equals `Resolution.Resolve` on the old state |
| DI.Container.ResolveBinding | di.js:112-117 | the method equals `Resolution.ResolveBinding` on the old state |
| DI.Container.GetDependencies | di.js:119-127 | the loop equals `Resolution.ResolveDeps` over all dependencies |
| Properties.UnbindRanked | di.js:135-143 | unbinding keeps a ranking of the dependency graph valid |
| Properties.ToConstantThenGet | di.js:42-46 | after `bind(names).toConstant(v)` on a valid store, `get` of any of the names returns `v` |
| Properties.UnbindOneAlias | di.js:135-143 | after unbinding one alias of a singleton record, that name resolves to `undefined`, while another alias still resolves to its singleton entry without running a factory |
| Properties.EmptyGet | di.js:9-14 | a fresh container resolves every name to `undefined` |
| Properties.BindFreshName | di.js:50-64 | binding one unbound name appends its record with alias set `{name}`, adds the name, and changes nothing else |
| Properties.RepeatedSingletonBound | di.js:58-62 | `bind("a", "a").to([{}])` followed by `singleton()` leaves `a` bound to a singleton record whose alias set is empty |
| Properties.RepeatedSingletonNotCached | di.js:98-108 | on that registry a `get` of `a` writes no singleton entry, and two `get`s return two different objects |
| Properties.RepeatedPairBound | di.js:58-62 | `bind("a", "b", "a").to([{}])` followed by `singleton()` leaves `a` and `b` bound to one singleton record whose alias set is `{b}` |
| Properties.RepeatedPairGetA | di.js:98-108 | on that registry, a `get("a")` with no entry for `a` runs the factory once and writes its new object under `b` only |
| Properties.RepeatedPairOverwritten | di.js:98-104 | on that registry the singleton entry of `b` goes from the first object to the second on the second `get("a")`, so `get("b")` gives different objects before and after it |
| Properties.ThreeLevelsBound | di.js:28-64 | three `bind` calls on a fresh store build the three-level graph |
| Properties.ThreeLevelsGet | di.js:88-127 | `get` of the top of the three-level graph is 123 + 100 + 27 = 250 and runs each factory exactly once, `grandchild`'s first |
| Tests.FirstBinding | di.js:50-64 | one `bind` of one name on a fresh store gives one record with alias set `{name}`, consistent and ranked |
| Tests.ShouldGetBoundConstant | di.test.js:7-14 | `get` after `toConstant(123)` returns 123 |
| Tests.ShouldRecreateValuesUnlessSingleton | di.test.js:56-67 | a transient `{}` binding gives two different objects |
| Tests.SingletonParentTwice | di.js:98-104 | a singleton `{}` binding runs its factory on the first `get` only and gives the same object on the second |
| Tests.ShouldOnlyCreateSingleValueWhenSingleton | di.test.js:69-81 | with `.singleton()` both `get`s return the same object and the factory runs once |
| Tests.LevelsGet | di.test.js:32-54 | in the graph of the test, `get("parent2")` calls `dependency`'s factory once although two bindings depend on it |
| Tests.ShouldReuseDependenciesAtDifferentLevels | di.test.js:32-54 | the shared dependency's factory is called exactly once |
| Tests.CallCreatesEmptyContainer | di.test.js:97-105 | a name bound in one container is `undefined` in the container its call returns |
| Tests.TwoAliasesScenario | di.js:98-108 | two aliases of one singleton constant both resolve to it; after one is unbound it is `undefined`, while the other still resolves |
| Tests.SingletonAliasesThenUnbind | di.js:135-143 | the same, replayed on the class |

## Left out

- The asynchronous container (`getAsyncContainer`, `getAsync`, `resolveAsync`, `getDependenciesAsync`, di.js:145-218) is not part of this model. Its meaning depends on when callbacks fire.
- Property lookups go through the JavaScript prototype chain: `name in cache`, `container.bindings[name]`, `name in binding.scope`. So a name such as `toString` would be found on `Object.prototype`. The model treats every name as an own key only.
- A dependency element that is not a string is used by JavaScript as a property key through its string conversion. `Store.KeyOf` maps a function in a dependency position to one fixed key.
- Factories with side effects are not modelled, and neither are factories that depend on `this` (`factory.apply(null, ...)`). Factories are pure, apart from allocating a new object for `{}`. Observing how often a factory runs is modelled by the call log instead of by a counter inside the factory.
- `forThis` and the test that uses it (di.test.js:83-95) are left out, because di.js has no such method.
- The `shouldReuseDependencies` test (di.test.js:16-30) binds the global `parent` rather than `parentName`, so as written it does not exercise repeated dependencies. The property it aims at is `Resolution.RepeatedDependencySameValue`.
- Dependency cycles are excluded by the `rank` precondition, and that precondition is global: it ranks every record, not only those a `get` reaches. So it also excludes `get`s that the source finishes on a cyclic graph, and those are not modelled either:
  - a cycle that the requested name does not reach, such as `x` and `y` depending on each other next to `c` bound by `toConstant(1)`, where `get("c")` returns 1;
  - a cycle cut by a cached value, such as a singleton entry found at di.js:99-100 or a request-cache hit at di.js:89-91, before the recursion comes back to the record.
  On a cycle that is actually followed, the source recurses until the stack overflows, and that failure is not modelled.
- Factories that throw are not modelled. When `factory.apply` (di.js:115) throws, the exception leaves `get`, because no caller catches it. Singleton entries written at di.js:103 for dependencies resolved earlier in the same request stay in `container.singletons`, and the allocator has already moved. The model has no exceptions: every factory returns a value.
- `to` throws `new Exception(...)`, which is itself a `ReferenceError` in JavaScript because `Exception` is not defined. The model returns one of two error values.
- The object allocator and the call log are fields of each container rather than global. Objects from two containers are therefore not distinguished from each other.
- Store.BindEach: its own contract only keeps the handles valid and the record shapes. What the loop does is stated by `Store.BindEachBindings`, `Store.BindEachAliases` and `Store.BindEachOwnAliases`.
- The module wrapper, the `isArray` polyfill (di.js:3-7), the container being a callable function object, and the build and test configuration (karma.config.js, gulpfile.js) are not part of this model.
