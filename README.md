# ginject `boot`: the container's resolution and lifecycle engine in Dafny

This project models the core of the `boot` package of ginject, a Go runtime
component registry. Components are registered once at startup. The container
then resolves each exported type to one provider, injects dependency fields by
type or by name, and drives the components through Init, Start and Stop in
priority order.

The model has six modules.

- `Model` (model.dfy) holds the entities. `GoType` is a named type or a
  pointer. `Slot` is one struct field: its name, its declared type, whether
  reflection may set it, and its `autowire` tag if it has one. `Instance` is a
  component object whose `fields` injection sets in place. `ComponentInfo` is
  the descriptor the container keeps. `Error` has one constructor per message
  the container formats.
- `Directives` (directives.dfy) is the `autowire` tag grammar: `""`,
  `required`, `optional`, `?`, `<name>` and `<name>,optional`, with the
  precedence `resolveDependencyUnsafe` applies.
- `Resolution` (resolution.dfy) is the capability resolver as pure
  functions. It groups components by exported type and picks a single
  provider, or the single primary, or reports an ambiguity or a
  multiple-primary conflict.
- `Lifecycle` (lifecycle.dfy) holds the phase rules: who implements a phase,
  where an aborting phase stops, and where the last Stop failure is. It also
  holds the in-place priority sort that stands for `sort.Slice`.
- `Annotations` (annotations.dfy) is `ParseComponentTag`, with Go's
  `strings.Split`, `strings.TrimSpace` and `strconv.Atoi` written out.
- `Boot` (boot.dfy) holds the two classes whose fields the source updates in
  place. `Container` has the fields `componentsByName`, `componentsByType`,
  `components` and `started`. `ObjectBuilder` is the fluent builder. Each
  method is proved against the pure functions above.

Types are opaque. Go's `AssignableTo` is the parameter
`assignable: (GoType, GoType) -> bool`. The interface probes for
`Initializable`, `Startable` and `Stoppable` are three flags on each
`Instance`. A callback's outcome is a parameter `failures: map<Instance, string>`.
An instance in the map makes its callback return an error with that
message. The phase methods also return `invoked`, the components whose
callback ran, in order. This makes "later components are not invoked"
something a contract can state.

`getByNameUnsafe` and `getByTypeUnsafe` (boot/container.go:190-206) are the
functions `Boot.LookupName` and `Boot.LookupType`. Their behaviour is stated by
the contracts of `Boot.Container.GetByName`, `Boot.Container.GetByType` and
`Boot.ResolveRules`.

### Behaviour of the code worth knowing

- `getSortedComponents` uses `sort.Slice`, which is not stable. Only sortedness
  and the permutation are proved, and components of equal priority may come in
  any order. An aborting phase therefore stops at some highest-priority
  failing component (`Lifecycle.FirstFailureSorted`), and the Stop order is
  the ascending sort, which need not be the Start order reversed.
- `Stop` runs every Stop callback and returns only the last failing
  component's error.
- The `,optional` suffix is matched by length (`len(tag) > 9`), not by a split
  on the comma. `",optional"` alone names a component called `,optional`
  (`Directives.ShortSuffixIsAName`). `"required,optional"` resolves by type
  and is optional.
- `registerComponent` accepts components at any time, also after `Run`'s
  batch commit.
- The builder's default priority is 0. `ParseComponentTag` defaults to 100.
- The resolver appends a component to a type's group once per listing of
  that type. A component that exports the same type twice competes with
  itself (`Resolution.DuplicateExportSelfConflict`).

## Model

| member | source | states |
|---|---|---|
| `Boot.Container.constructor` | boot/container.go:30-37 | a new container has empty indexes, no components and is not started |
| `Boot.Container.Object` | boot/container.go:39-42 | starts a fresh builder for the instance with the builder defaults: default name, priority 0, exports only the instance's type, not primary, name and priority not yet set |
| `Boot.Container.RegisterComponent` | boot/container.go:44-60 | a taken name returns the duplicate-name error and changes nothing; otherwise the info is appended to `components` and indexed under its name; names stay unique |
| `Boot.IndexedPush` | boot/container.go:49-57 | registering under a fresh name keeps names distinct and the name index in agreement with the list |
| `Model.NamesDistinctPairwise` | boot/container.go:49-57 | the uniqueness invariant means that no two registered components share a name |
| `Boot.Container.GetByName` | boot/container.go:62-72 | succeeds exactly when some registered component has the name, and returns its instance; otherwise the not-found error |
| `Boot.Container.GetByType` | boot/container.go:74-84 | succeeds exactly when the type index has the type, and returns a registered component that exports it; otherwise the not-found error |
| `Boot.Container.InjectDependencies` | boot/container.go:86-97 | injects components in registration order and stops at the first failing one, wrapping its error with the component's name; the components after it are untouched |
| `Boot.FirstFailingPrefix` | boot/container.go:91-96 | every component before the first failing one injects without error |
| `Boot.Container.InjectComponent` | boot/container.go:99-139 | a non-pointer instance is left alone; otherwise fields are injected in order up to the first required failure, whose error is returned; the fields it leaves are `Boot.InjectedFields`, as `Boot.InjectedFieldsAny` states for every outcome |
| `Boot.SlotAction` | boot/container.go:113-136 | untagged and unsettable fields are skipped; a field fails exactly when its tag is not optional and resolution fails, with an error naming the field; a field is assigned only a dependency resolution found, and a tagged settable field is assigned every dependency resolution finds |
| `Boot.ErrorFromFirst` | boot/container.go:109-139 | the field loop returns an error exactly when some field from the start position fails, and the error is that of the first failing field |
| `Boot.InjectionErrorFirst` | boot/container.go:99-139 | injection returns an error exactly when the instance is a pointer and some field fails; the error names the first failing field and wraps its resolution error |
| `Boot.InjectionSuccess` | boot/container.go:109-138 | after an error-free injection, a field holds its resolved dependency if one was found and keeps its old value otherwise |
| `Boot.FieldsFromAny` | boot/container.go:109-138 | whatever the outcome, a field from the loop's start position holds its dependency when it is assigned before the first failing field, and keeps its value otherwise; the failing field and every later one are untouched |
| `Boot.InjectedFieldsAny` | boot/container.go:99-139 | the fields of an instance after injection, with or without an error: a non-pointer keeps every field; otherwise each field up to the first failing one holds the dependency it finds, and the rest keep their values |
| `Boot.InjectedFields` | boot/container.go:99-139 | the field values `injectComponentUnsafe` leaves behind; keeps the number of fields and leaves a non-pointer alone; what each field holds is stated by `Boot.InjectedFieldsAny` and `Boot.InjectionSuccess` |
| `Boot.InjectionError` | boot/container.go:99-139 | the error `injectComponentUnsafe` returns; stated by `Boot.InjectionErrorFirst`: an error exactly when the instance is a pointer and some field fails, naming the first failing field |
| `Boot.RequiredFieldBound` | boot/container.go:119-134 | after an error-free injection, every settable field with a required tag holds a dependency: the named component, assignable to the field, or the type index's provider |
| `Boot.InjectedFieldsTwice` | boot/container.go:91-96 | injecting an instance a second time (one instance registered under two names) gives the same fields |
| `Boot.ResolveRules` | boot/container.go:141-188 | the optional forms never fail; the by-type forms fail exactly when the type is not indexed; a dependency found by name is assignable to the field |
| `Boot.Resolve` | boot/container.go:141-188 | `resolveDependencyUnsafe`; stated by `Boot.ResolveRules`, `Boot.ResolveFound` and `Boot.ResolveByNameFailures`: what each lookup form finds and when it fails |
| `Boot.ResolveFound` | boot/container.go:141-188 | by type, an indexed type resolves to its provider and an unindexed type resolves optionally to nothing; by name, a registered name whose component is assignable resolves to that component, and an optional by-name lookup that misses resolves to nothing |
| `Boot.ResolveByNameFailures` | boot/container.go:166-184 | a required by-name lookup fails with not-found for a missing name and with not-assignable for a type that does not fit |
| `Directives.ParseQualifierCases` | boot/container.go:143-166 | `optional` and `?` resolve optionally by type; `""`, `required` and `required,optional` resolve by type; everything else resolves by name, optional exactly when the injector treats the tag as optional |
| `Directives.ParseQualifier` | boot/container.go:143-166 | the order in which `resolveDependencyUnsafe` reads a tag; stated by `Directives.ParseQualifierCases` and `Directives.ParseQualifierText` |
| `Directives.ParseQualifierText` | boot/container.go:156-165 | writing a lookup as tag text and parsing it back gives the lookup |
| `Directives.ShortSuffixIsAName` | boot/container.go:120-121 | the suffix counts only on a tag longer than nine characters, so `,optional` alone is a required name |
| `Boot.Container.ValidateTypeRegistrations` | boot/container.go:281-336 | the index is rebuilt from scratch; it succeeds exactly when every exported type resolves, and then the index is the resolved one; an error is the resolution error of some exported type |
| `Boot.GroupByExport` | boot/container.go:286-293 | builds, for every exported type, the list of its exporters in registration order |
| `Boot.AddExports` | boot/container.go:290-292 | adds a component to the group of each type it exports, once per listing |
| `Boot.ResolveGroups` | boot/container.go:295-335 | each recorded entry is the resolver's decision; it fails exactly when some exported type cannot be resolved |
| `Boot.FilterPrimaries` | boot/container.go:303-309 | collects the primary members of a group in order |
| `Boot.CollectNames` | boot/container.go:312-316 | collects the names of a group, position by position |
| `Resolution.SoleExporterSelected` | boot/container.go:297-300 | a type with one provider takes it, primary or not |
| `Resolution.Select` | boot/container.go:296-333 | the decision for one type's group: the sole member, else the sole primary, else the ambiguous or multiple-primary error; stated, through `Resolution.ResolveType`, by `Resolution.SelectedIsExporter`, `Resolution.NoPrimaryAmbiguous` and `Resolution.SeveralPrimariesConflict` |
| `Resolution.ResolveType` | boot/container.go:286-333 | the decision for one exported type over the registered components; stated by `Resolution.SelectedIsExporter`, `Resolution.SoleExporterSelected` and `Resolution.UniquePrimarySelected` |
| `Resolution.UniquePrimarySelected` | boot/container.go:303-332 | a type whose providers hold exactly one primary takes the primary |
| `Resolution.NoPrimaryAmbiguous` | boot/container.go:311-319 | two or more providers and no primary give the ambiguous error listing exactly the providers' names |
| `Resolution.SeveralPrimariesConflict` | boot/container.go:321-329 | two or more primaries give the multiple-primary error listing primary providers only |
| `Resolution.DuplicateExportSelfConflict` | boot/container.go:289-293 | a sole provider that lists the type twice is reported as ambiguous, or as two primaries |
| `Resolution.SelectedIsExporter` | boot/container.go:296-333 | the selected provider is a registered exporter of the type, and is primary whenever it had competitors |
| `Resolution.ResolvedIndexUnique` | boot/container.go:282-336 | an index that decides every exported type as the resolver does is the resolved index |
| `Resolution.UnresolvableAt` | boot/container.go:311-329 | one unresolvable exported type makes the whole resolution fail |
| `Resolution.GroupMember` | boot/container.go:289-293 | a component is in a type's group exactly when it is registered and exports the type |
| `Resolution.GroupEmpty` | boot/container.go:286-293 | a group is empty exactly when no component exports the type |
| `Boot.Container.GetSortedComponents` | boot/container.go:263-279 | returns a permutation of the components sorted by priority in the requested direction; the stored list is not changed |
| `Lifecycle.SortByPriority` | boot/container.go:271-276 | sorts the copy in place into priority order and keeps its elements |
| `Lifecycle.Insert` | boot/container.go:271-276 | one insertion step extends the sorted prefix by one and keeps the elements |
| `Boot.Container.Initialize` | boot/container.go:208-220 | invokes Init on implementers in descending priority up to and including the first failure, which is reported with the component's name |
| `Boot.InvokeUntilFailure` | boot/container.go:212-218 | the implementers visited are exactly those up to the first failing callback |
| `Lifecycle.FirstFailure` | boot/container.go:212-218 | the first failing callback's position: all before it succeed |
| `Lifecycle.FirstFailureNone` | boot/container.go:212-219 | a phase runs to the end exactly when no callback fails |
| `Lifecycle.NoneFailsPermutation` | boot/container.go:210-219 | whether a phase fails does not depend on how ties in priority are ordered |
| `Boot.Container.Start` | boot/container.go:222-240 | fails at once when already started; otherwise invokes Start in descending priority up to the first failure; `started` becomes true only when every Start succeeds |
| `Boot.Container.Stop` | boot/container.go:242-261 | a no-op when not started; otherwise invokes Stop on every implementer in ascending priority, reports only the last failure, and clears `started` |
| `Lifecycle.LastFailure` | boot/container.go:250-257 | the last failing Stop: every later one succeeds |
| `Lifecycle.ImplementersMember` | boot/container.go:252-256 | a component's callback is invoked exactly when it is listed and implements the phase |
| `Boot.Container.Run` | boot/container.go:338-363 | runs registration, validation, injection, Init and Start and stops at the first phase that fails; says which phase ends the run for which inputs and the cause each wraps: the first duplicate name, some exported type's resolution error, the first component that fails to inject, a highest-priority failing Init or Start, or `AlreadyStarted`; the type index is unchanged when registration fails; the fields of every instance are unchanged when the run stops before injection, and are as injection left them otherwise |
| `Boot.Container.RunPhases` | boot/container.go:345-363 | after registration: fails at validation exactly when resolution fails, with some exported type's error and no field changed; otherwise the index is the resolved one, the later phases decide the outcome and its cause, and the fields are as injection left them |
| `Boot.Container.InjectAndStart` | boot/container.go:350-362 | fails at injection exactly when some component fails to inject, wrapping the first such component's error; otherwise as Init and Start decide; the fields of the instances injection reached are injected and the others kept |
| `Boot.Container.InitAndStart` | boot/container.go:354-362 | fails at Init exactly when some Init fails, at Start when already started or some Start fails; the cause is a highest-priority failing callback's error, or `AlreadyStarted` |
| `Lifecycle.FirstFailureSorted` | boot/container.go:210-218 | in any priority-sorted order of the components, the component where the phase stops fails and no failing component has a strictly higher priority |
| `Boot.Container.RegisterPendingBuilders` | boot/container.go:365-375 | commits the builders in order up to the first duplicate name, whose error is returned; the components before it stay registered |
| `Boot.FirstDuplicate` | boot/container.go:367-371 | the first builder whose name is taken, by the container or by an earlier builder |
| `Boot.Container.RegisterRound` | boot/container.go:367-370 | one commit step registers the next builder exactly when its name is free |
| `Boot.ObjectBuilder.constructor` | boot/object_builder.go:20-38 | default name is the type's name with one pointer level stripped; priority 0; not primary; exports are the instance's own type |
| `Boot.DefaultName` | boot/object_builder.go:24-28 | the default name is the printed type without its leading `*` when the type is a pointer |
| `Boot.ObjectBuilder.Name` | boot/object_builder.go:40-45 | sets the name and `nameSet`, touches nothing else, returns the same builder |
| `Boot.ObjectBuilder.Priority` | boot/object_builder.go:47-52 | sets the priority and `prioritySet`, touches nothing else, returns the same builder |
| `Boot.ObjectBuilder.Export` | boot/object_builder.go:54-62 | appends exactly one type, a pointer replaced by its element; the list still starts with the instance's type |
| `Boot.ObjectBuilder.Primary` | boot/object_builder.go:64-68 | sets the primary flag, touches nothing else, returns the same builder |
| `Boot.ObjectBuilder.Register` | boot/object_builder.go:70-81 | registers a descriptor with the builder's fields; fails exactly when the name is already registered |
| `Annotations.ParseComponentTag` | boot/annotations.go:16-47 | the name is the last `name=` value (empty if none); the priority is the last integer `priority=` value (100 if none) |
| `Annotations.EmptyTagDefaults` | boot/annotations.go:18-24 | an empty tag gives the empty name and priority 100 |
| `Annotations.MalformedPartIgnored` | boot/annotations.go:28-31 | a part that does not split into exactly two pieces on `=` sets nothing |
| `Annotations.UnknownKeyIgnored` | boot/annotations.go:36-43 | a part with a key other than `name` and `priority` sets nothing |
| `Annotations.BadPriorityIgnored` | boot/annotations.go:39-42 | a `priority` value that is not an integer sets nothing |
| `Annotations.LastNameWins` | boot/annotations.go:27-38 | when `name` repeats, the last occurrence decides |
| `Annotations.LastPriorityWins` | boot/annotations.go:27-43 | when `priority` repeats, the last valid occurrence decides |
| `Annotations.NoPriorityDefault` | boot/annotations.go:19-42 | with no valid integer priority part the priority is 100 |
| `Annotations.TrimSpaceShape` | boot/annotations.go:28-34 | trimming cuts exactly the leading and trailing white space |
| `Annotations.TrimSpace` | boot/annotations.go:28-34 | `strings.TrimSpace`; stated by `Annotations.TrimSpaceShape` |
| `Annotations.JoinSplit` | boot/annotations.go:26-28 | splitting loses no character |
| `Annotations.Split` | boot/annotations.go:26-28 | `strings.Split`: at least one piece; stated further by `Annotations.JoinSplit` and `Annotations.SplitCount` |
| `Annotations.SplitCount` | boot/annotations.go:28-29 | a split has one piece more than there are separators, and no piece holds one |
| `Annotations.AtoiItoa` | boot/annotations.go:40 | every 64-bit `int` written in decimal parses back to itself |
| `Annotations.Atoi` | boot/annotations.go:40 | `strconv.Atoi` on a 64-bit `int`: a parsed value lies in the 64-bit range, and every such value written in decimal parses back (`Annotations.AtoiItoa`) |

## Left out

- The `sync.RWMutex` locking: the operations are modelled as single-threaded.
- Reflection: field discovery, `Tag.Lookup`, `CanSet` and `AssignableTo` are
  replaced by explicit slots and the `assignable` parameter. The interface
  probes are flags on `Instance`.
- The `Init`, `Start` and `Stop` callbacks themselves: their outcomes are the
  `failures` parameter. The `context.Context` they receive is not modelled.
- `AutoRegister` (boot/annotations.go:49-103). It is driven by reflection and by
  interface probes.
- boot/boot.go is not part of this model: the global default container, the
  package-level pending builders, signal handling and `RunApplication`.
  `GetAllByType` is called there and has no definition in boot/container.go.
- boot/logger.go is not part of this model. It is logging over the standard
  library.
- The formatted error text: each error is a constructor that carries the
  values the message prints.
- A registered instance that is a nil interface. A dependency that is found
  is never nil here; the nil that resolution returns on an optional miss is
  `Ok(None)`, and `if dependency != nil` is the test for `Some`.
- `Boot.ObjectBuilder.Export`: does not model the panic of `Export(nil)`,
  which calls `Kind()` on the nil `reflect.Type` (boot/object_builder.go:56-57).
  A `GoType` here is never nil.
- `Boot.Container.RegisterPendingBuilders` and `Boot.Container.Run`: require
  every pending builder to belong to the container being run. Go's
  `builder.register()` registers into the builder's own container, which may
  be another one. The only caller, `defaultContainer.Run` (boot/boot.go:64),
  runs the container that every pending builder belongs to, since the
  package-level `Object` builds them all on `defaultContainer` (boot/boot.go:18-21).
- `Boot.Container.RegisterPendingBuilders`: does not clear the pending list
  after success, because the list is a parameter here and not a package
  variable.
- `Boot.Container.ValidateTypeRegistrations`: states nothing about the partial
  index left behind after an error, because Go visits the map's types in no
  fixed order.
- `Boot.Container.InjectComponent`: writes field `i` only when the instance
  has a value for it. Go structs always do, and the `Instance` constructor
  gives every slot one.
- `Boot.Container.InjectComponent`: does not model the panic of `field.Set`
  (boot/container.go:133-134) when the provider the type index records for a
  by-type tag cannot be assigned to the field. Resolution by type never checks
  assignability, so the model assigns that provider. Two registrations that
  reach this panic are `Export((*Foo)(nil))` on an instance that does not
  implement `Foo`, and `Export(&S{})`, which records `S`, with a field of
  type `S`. A panic is not an outcome the model represents.
- `Boot.Container.InjectComponent`: does not model the panic for a typed nil
  pointer. `Object((*S)(nil))` passes the `Kind() != reflect.Ptr` test and then
  panics at `v.Elem()` and `v.Type()` (boot/container.go:106-107). An
  `Instance` here is never nil.
- `Boot.Container.InjectComponent`: does not model the panic for a pointer to
  something other than a struct. `Object(&n)` with `n` an `int` panics at
  `v.NumField()` (boot/container.go:109). A pointer `Instance` here always has
  a list of fields.
