# TikoContainer in Dafny

A model of `TikoContainer`, a minimal inversion-of-control container. It has three parts:

- **Registry.** A table from a type key to a registration. Each registration holds a lazily created singleton.
- **Build-up.** This injects registered singletons into the `[Dependency]`-marked properties of an object.
- **Resolve.** A registered type yields its singleton. Any other type yields a new default-constructed instance, which is then built up.

The model is in two modules:

- `tiko.dfy`, module `Tiko`: the container itself.
- `tiko_tests.dfy`, module `TikoContainerTest`: scenarios written as client methods whose postconditions are what they check.
  - `BuildUpScenario`, `RegisterScenario`, `RegisterAsSingletonScenario`, `ResolveScenario` and `MissingDependencyScenario` restate the NUnit tests of `TikoContainerTest.cs`. Each test's assertions become that method's postconditions.
  - `ClearScenario` is built on the fixture's `SetUp`, which calls `Clear`. No test asserts what `Clear` does on its own.
  - `ReRegisterScenario` has no counterpart among the tests. It states what the indexer assignment in `Register` (TikoContainer.cs:51) implies.

## How the source maps to the model

- **Type keys.** A `Type` object becomes a `TypeKey`. Two keys denote the same type exactly when they are equal, which matches .NET's identity comparison of `Type` objects. Its `id` stands for that identity. It is not the type's name, which two types from different assemblies may share.
- **Property metadata.** Reflection is replaced by explicit metadata. `TypeInfo` is a type's key plus its public properties, in the order reflection returns them. Each `Property` has a name, a declared type and the types of the custom attributes declared on it. `IsResolveProperty` holds when `[Dependency]` is among them. `AttributesOfType` stands for `GetCustomAttributes(typeof(DependencyAttribute), false)`, and `DependencyAttributeLookup` shows that its non-empty result is the same test.
- **Objects.** An object is the class `Obj`. It has a constant runtime type and a mutable map from property name to object. A missing name means the property is null. Default construction (`new TTo()`, `Activator.CreateInstance<T>()`) yields an `Obj` with an empty map.
- **The lazy cell.** `RegisteredObject` is a class. Its `concrete` field is the type its factory constructs. Its `Lazy<object>` becomes a mutable `cache: Option<Obj>`. Two ghost fields exist only for the proofs: `factoryRuns` counts how often the factory has run, and `key` records the type key the entry was registered under.
- **The container.** The static class becomes one `TikoContainer` object. Its `registered` field is a `map` from type key to `RegisteredObject`. `Register` and `Clear` reassign that field.
  - `Cells()` is the abstract state: the lazy cell of every registered key.
  - `Valid()` says that every entry is well formed. It also says that no two keys share an entry.
- **Build-up.** `BuildUp` is a `while` loop over the properties. Its body, `WalkStep`, skips an unmarked property (the `continue`). For a marked property, `AssignDependency` performs the lookup and, when the lookup succeeds, the assignment. The loop stops with `Failure(DependencyMissing(t.key))` at the first marked property whose type is unregistered. Assignments already made stay.
- **Specification of build-up.** Two pure functions say what build-up does:
  - `FirstMissing` finds where the walk stops.
  - `Inject` is the sequence of assignments.
  - `Progress` ties them to the loop's state, and `BuildUp`'s postcondition is `Progress` for the whole walk.
  - The lemmas about `Inject` state the per-property effect.

Three consequences of the code (Source/Tiko/TikoContainer.cs) are worth stating:

- `Resolve` returns a registered type's cached singleton as it is, without build-up (lines 63-67).
- An unregistered type resolves exactly when every marked property's type is registered.
- Every singleton created during a build-up or a resolution is a new default-constructed object (lines 50, 122). So it is never the object being built up.

## Model

| member | source | states |
|---|---|---|
| `Tiko.TikoContainer.constructor` | Source/Tiko/TikoContainer.cs:9-10 | the registry starts empty |
| `Tiko.TikoContainer.Clear` | Source/Tiko/TikoContainer.cs:27-30 | afterwards no key is registered, so every earlier singleton is unreachable |
| `Tiko.TikoContainer.Register` | Source/Tiko/TikoContainer.cs:47-52 | `from` gets a fresh entry for concrete type `to` whose cell is empty and whose factory has not run; an earlier entry for `from` and its singleton are replaced; every other key keeps its entry and its cell (`Cells() == old(Cells())[from := None]`) |
| `Tiko.TikoContainer.RegisterSelf` | Source/Tiko/TikoContainer.cs:36-40 | the same as `Register(t, t)` |
| `Tiko.RegisteredObject.constructor` | Source/Tiko/TikoContainer.cs:115-118 | a new registration holds its factory unrun and its cell empty |
| `Tiko.RegisteredObject.Instance` | Source/Tiko/TikoContainer.cs:120-123 | the first read runs the factory once and caches a fresh object of the concrete type; every later read returns the cached object unchanged, without running the factory |
| `Tiko.TikoContainer.ResolveObject` | Source/Tiko/TikoContainer.cs:99-109 | the lookup is total. `found` holds exactly when the key is registered. A registered key's cell is filled if it was empty and its singleton is returned; a second lookup returns the same object. An unregistered key returns null and leaves every cell unchanged. No other key's cell changes |
| `Tiko.TikoContainer.AssignDependency` | Source/Tiko/TikoContainer.cs:81-88 | one marked property is looked up; if found, it is assigned its type's singleton, and a singleton the lookup creates is a fresh object with every property null; if not found, neither the object nor any cell changes |
| `Tiko.TikoContainer.BuildUp` | Source/Tiko/TikoContainer.cs:72-91 | returns the same object exactly when no marked property's type is missing, otherwise `DependencyMissing` naming the built-up type. The property values are those of injecting the properties before the first missing one. Exactly the marked types before it have their cells filled, and no existing singleton is replaced. Every cell it fills holds a fresh object with every property null, so never `existing`, and two cells it fills never hold the same object |
| `Tiko.TikoContainer.Resolve` | Source/Tiko/TikoContainer.cs:60-70 | for a registered key: success with the key's singleton, the same object as any earlier resolution, with no build-up. For an unregistered type: a fresh instance of that type built up over all its properties, or `DependencyMissing` naming the type exactly when some marked property's type is unregistered. On both paths, every cell that gets filled holds a fresh object with every property null, and no two filled cells share an object |
| `Tiko.Obj.constructor` | Source/Tiko/TikoContainer.cs:68 | default construction (`Activator.CreateInstance<T>()`, and `new TTo()` at line 50) yields an object of the requested type with every property null |
| `Tiko.AttributesOfType` | Source/Tiko/TikoContainer.cs:95 | the attributes of the requested type, and only those: every element has that type, and there are as many as the property declares |
| `Tiko.DependencyAttributeLookup` | Source/Tiko/TikoContainer.cs:93-97 | the container's marker test (at least one `[Dependency]` attribute found) holds exactly when `IsResolveProperty` holds |
| `Tiko.FirstMissing` | Source/Tiko/TikoContainer.cs:75-87 | the index of the first marked property whose type is unregistered: every earlier property is either unmarked or registered; `None` exactly when every marked property's type is registered |
| `Tiko.Processed` | Source/Tiko/TikoContainer.cs:75-89 | the number of properties the walk gets through: every one of them can be passed, and the next one, if any, is a missing dependency |
| `Tiko.InjectKeepsUnmarked` | Source/Tiko/TikoContainer.cs:77-80 | a property that is not marked (or any name no marked property carries) keeps its value or its null |
| `Tiko.InjectSetsMarked` | Source/Tiko/TikoContainer.cs:81-88 | every marked property ends up holding the singleton of its declared type |
| `Tiko.SharedNameOverwrites` | Source/Tiko/TikoContainer.cs:74-88 | the limit of the one-slot-per-name object model: two marked properties of one name are injected into one slot, and only the later one's singleton remains |
| `Tiko.BuildUpEffect` | Source/Tiko/TikoContainer.cs:83-88 | after a walk that stopped at `stop`, marked properties before `stop` hold their singletons; every other property, including the missing one and all later ones, keeps its prior value |
| `TikoContainerTest.TestClassInjected` | Source/UnitTests/TikoContainerTest.cs:68-74 | injecting into a fresh `TestClass` sets `TestProperty` to the `TestProperty` singleton and leaves `TestProperty1` null |
| `TikoContainerTest.BuildUpScenario` | Source/UnitTests/TikoContainerTest.cs:11-18 | after build-up, the marked property is set and the unmarked one of the same registered type stays null |
| `TikoContainerTest.RegisterScenario` | Source/UnitTests/TikoContainerTest.cs:21-26 | an interface registered to a class resolves to an instance of that class |
| `TikoContainerTest.RegisterAsSingletonScenario` | Source/UnitTests/TikoContainerTest.cs:29-37 | two resolutions of a registered interface are the same object |
| `TikoContainerTest.ResolveScenario` | Source/UnitTests/TikoContainerTest.cs:40-49 | two resolutions of an unregistered class are distinct objects sharing the injected singleton, with the unmarked property null in both |
| `TikoContainerTest.MissingDependencyScenario` | Source/UnitTests/TikoContainerTest.cs:51-55 | resolving a class whose marked dependency is unregistered fails with `DependencyMissing` naming that class |
| `TikoContainerTest.ClearScenario` | Source/UnitTests/TikoContainerTest.cs:57-61 | after a clear, a previously registered key is not found and a resolution that succeeded before fails |
| `TikoContainerTest.ReRegisterScenario` | Source/Tiko/TikoContainer.cs:47-52 | registering a key again discards its singleton: the next resolution returns a different object |

Helpers without their own row:

- `InjectStep`, `InjectAgree`, `MaterialisedUpdate`, `MarkedStep`, `UnmarkedStep` and `FilledStep` are the steps of the loop proof.
- `WalkStep` is one iteration of `BuildUp`'s loop, with the loop's proof state as ghost parameters.
- `Obj.Get` reads a property.
- `ResolveTestClass` is one resolution shared by the scenarios.

## Left out

- Reflection is not modelled. `GetProperties`, `GetCustomAttributes`, `PropertyInfo.SetValue` and `Activator.CreateInstance` are replaced by the `TypeInfo` metadata and `Obj`'s constructor. The order of `TypeInfo.properties` stands for whatever order the runtime reports.
- Default construction sets no property. The bodies of user constructors are not modelled, and neither are exceptions they throw. `Lazy<object>` caches and rethrows such an exception; the model does not capture that.
- `Activator.CreateInstance` throws for an unregistered interface or abstract type. The model lets every type key be default-constructed.
- `SetValue` can fail for a property without a setter or with an incompatible type. The model assumes every marked property is writable and assignment-compatible.
- A marked indexer (a property with parameters) makes `SetValue(instance, value, null)` (line 88) throw `TargetParameterCountException`. The model treats it as an ordinary slot.
- Passing null as `existing` to `BuildUp` is not modelled. In the model, `existing` is never null.
- `Tiko.TikoContainer.Register`: the generic constraint `TTo : TFrom, new()` is not modelled. The compiler enforces it, and type keys here carry no subtyping.
- `Tiko.TikoContainer.Resolve`: the cast `(T) resolvedObject` (line 66) is not modelled. It is checked at run time. It cannot fail only because `Register` keys the entry by `TFrom` and requires `TTo : TFrom`.
- Concurrency is not modelled: the `ConcurrentDictionary`, and `Lazy<object>`'s synchronised one-time initialisation. The registry and the lazy cell are modelled sequentially.
- `DependencyMissingException` becomes the `DependencyMissing` error value, carrying the built-up type's key. Its message formatting, its extra constructors and `[Serializable]` are not modelled.
- Objects keep one slot per property name. .NET keeps one per declared property. So properties that share a name share one slot in `BuildUp`, and the later assignment overwrites the earlier one; .NET sets each separately. An example is a base property hidden by `new` with another type.
- `Tiko.InjectSetsMarked` assumes the property names of one type are distinct. The reason is the one-slot-per-name model above: with two marked properties of one name, only the later one's singleton remains.
- `Tiko.BuildUpEffect` assumes the property names of one type are distinct, for the same reason.
- The container is one object rather than process-wide static state.
- Static properties are not modelled. `typeof(T).GetProperties()` (line 74) also returns public static properties. `SetValue` (line 88) on a marked static property writes shared state, not a slot of the object being built up. The model stores every property in the object's own `fields` map.
- Value types are not modelled. For a value type `T`, `DoBuildUp` boxes `instance` when it calls `SetValue` (line 88). The assignments land on a copy, so the value returned is not injected. The singletons are still created, and `DependencyMissingException` is still thrown. In the model, `Obj` is always a reference.
