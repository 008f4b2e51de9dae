# Guic++ in Dafny

A model of the Guic++ dependency-injection container and of the request parser in its
example HTTP server, with proofs of what they guarantee.

`dafny verify dfyconfig.toml` checks the whole project.

## What is modelled

**Types and erasure** (`cpp_types.dfy`). C++ types are trees of base types, pointers,
references and const. The container erases a type to a category, a constness and a type
specifier, and rebuilds it when an entry is read. The round trip and every outcome of a
reading are decided exactly.

**Bindings and the graph** (`bindings.dfy`, `resolution_graph.dfy`). `PlanOf` is the
compile-time dispatch to the four inject handlers together with the entry reader: it turns
one request into a plan. `Denote` is a resolver without a singleton cache, and `Den` its
value at a depth that always suffices. Success is characterised on paths of requests:
everything that is reached can be answered (`Clean`), and no binding is reached again while
it is being worked on (`Acyclic`).

**The resolver** (`resolver.dfy`, `resolver_correctness.dfy`, `resolver_theorems.dfy`,
`runs.dfy`, `sharing.dfy`, `typing.dfy`). `Eval` passes the heap, the singleton cache and the cleanup list
through the recursion, and evaluates argument lists in whatever permutation a `Schedule`
picks for the request and the heap at hand; C++ leaves that order unspecified (section 5.2.2
of ISO/IEC 14882:2003). `Inv` is the invariant of every run: each cached object unfolds to
what the cache-free resolver denotes, and the cleanup list is a topological order. `RunOf`
is a run of any number of `Injector::Get` and `Factory::Get` calls. Trees forget addresses;
`sharing.dfy` says which objects, as addresses, constructors and providers hold after a run.

**The objects** (`container.dfy`, `local_context.dfy`, `bind_table.dfy`, `lifecycle.dfy`).
Classes with the fields of the source: the singleton provider with its once flag and object,
the scope context with its init list, mutex flag and fixed cleanup array, the local context,
the bind table, the injector and the binder. Their methods refine the pure model: the injector
looks each request up in its local context and its bind table, and the outcome is that of the
pure resolver. Checks of the source (`GUICPP_DCHECK_`, the
mutex, array bounds) are preconditions, so none of them can fire where the methods are
called. `RunProgram` is a whole program: configure, call, tear down.

**Configuration** (`modules.dfy`, `typed_programs.dfy`, `promises.dfy`, `programs.dfy`).
Modules are trees of binder calls. What the table holds, how many errors are counted and when
set-up is fatal are told without running the binder. `promises.dfy` proves what the binder's
documentation promises of each kind of binding. `programs.dfy` puts configuration, calls and
teardown together: types and failures of whole programs, when a program crashes, and that the
order of bindings does not matter.

**The HTTP parser** (`query_string.dfy`, `http_server.dfy`). A pure parser on strings, the
in-place parser on a character array proved equal to it, and the accept loop that reuses one
buffer. The `key=value` pairs are a subset of section 17.13.4.1 of HTML 4.01.

## Where code and intent differ

- `AbstractProvider::InvokeGet` (include/guicpp/guicpp_provider.h:131-134) has no `return`.
  The model returns the provider's result, as testing/test/guicpp_provider_test.cc:63-67
  expects.
- A value requested from a const reference is a documented conversion
  (include/guicpp/internal/guicpp_table.h:211-215), but its overload names the entry's type
  without the const (include/guicpp/internal/guicpp_table.h:238-241). The model reads the entry
  at its own type. `CppTypes.WrittenCastExactly` shows that the overloads as written select the
  same conversions, and that this is the only case in which they downcast to a type that is not
  the entry's own; `CppTypes.ConstReferenceMisses` is the smallest instance. Such a downcast is
  fatal only where `GUICPP_HAS_RTTI` is defined
  (include/guicpp/internal/guicpp_port.h:480-483), and no file of the repository defines it;
  without it, the cast is unchecked.
- An empty piece of a query gives the pair ("", "1")
  (examples/notifier/http_server/implementation/server.cc:157-172); the model keeps it. The
  empty list of pairs is therefore the one list without separators in it that does not
  survive printing and parsing.

## Assumptions

- User providers are stateless; a provider call is a heap cell made from its arguments. That
  its result is a new object is not claimed.
- User constructors, providers, cleanup actions and destructors do not call back into the
  injector and do not delete singletons.
- The standard types are given as maps: `classes` says of each class how it was made
  injectable; types outside it are not classes.
- A fatal log ends the process, so failed requests leave no state behind. A stack overflow
  is the outcome `OutOfFuel`, for a stack depth that is a parameter.
- The binder and the table are filled before the Dafny object for the injector is made; in
  the source the injector's object exists first but is not used until then.
- `read` brings fewer bytes than the buffer holds; when it brings none, the buffer is
  unchanged.

## Model

| member | source | states |
|---|---|---|
| CppTypes.ErasureRoundTrip | include/guicpp/internal/guicpp_types.h:119-147 | rebuilding a type from category, constness and specifier gives the type back if and only if it is not const at the top, and always for an `ActualType`, which has the same category and specifier |
| CppTypes.ReadAsExact | include/guicpp/internal/guicpp_table.h:207-317 | reading an entry at a requested type succeeds exactly for identity, gained const, and a copy out of a reference, const or not; what is rebuilt from the erased parts always names the entry's own type, so neither the type-id check nor the downcast goes wrong |
| CppTypes.WrittenCastExactly | include/guicpp/internal/guicpp_table.h:207-256 | the overloads as written select the same conversions, and downcast to a type other than the entry's if and only if a value is copied out of a const reference |
| CppTypes.ConstReferenceMisses | include/guicpp/internal/guicpp_table.h:238-241 | the case exists: a class value bound to a const reference |
| LocalContexts.LocalContext.FindEntry | src/guicpp_local_context.cc:24-32 | the linear scan finds the first slot with the key, or none |
| ResolutionGraph.SuccessExactly | include/guicpp/internal/guicpp_inject_util.h:263-288 | cache-free resolution succeeds at some depth if and only if nothing unanswerable and no cycle is in reach; without a cycle the depth is at most the number of bindings plus one, and something unanswerable in reach always ends in a failure |
| ResolutionGraph.DenoteMonotone | include/guicpp/internal/guicpp_inject_util.h:263-288 | neither a result nor a failure changes with more depth |
| ResolutionGraph.CycleNeverEnds | include/guicpp/internal/guicpp_inject_util.h:263-288 | with a cycle but no fatal request in reach, no depth is enough |
| ResolutionGraph.CreationIsNotReentrant | include/guicpp/internal/guicpp_port.h:491-508 | a singleton whose object can be created is never requested from inside its own creation |
| ResolverCorrectness.FinishAgrees | include/guicpp/internal/guicpp_create_helpers.h:44-51 | a construction step builds in the heap the tree that the cache-free resolver builds |
| ResolverCorrectness.CreationKeepsInv | include/guicpp/guicpp_singleton.h:171-184 | when a provider's dependencies are complete its once flag is still unset, and appending it to the cleanup list keeps the order topological and the cache in agreement |
| ResolverCorrectness.EvalAgrees | include/guicpp/guicpp_singleton.h:153-184 | in every reachable state and for every argument order, a successful request returns an object that unfolds to the cache-free result with the factory arguments put in, creates exactly the singletons in reach, and keeps the invariant |
| ResolverCorrectness.EvalAllAgrees | include/guicpp/internal/guicpp_create_helpers.h:53-61 | the same for an argument list evaluated in any order |
| ResolverTheorems.SucceedsExactly | include/guicpp/internal/guicpp_inject_util.h:263-307 | with cache and argument orders too, a request succeeds at some depth if and only if nothing unanswerable and no cycle is in reach; without a cycle the number of bindings is depth enough, for success and for the fatal end of an unanswerable request alike |
| ResolverTheorems.AcyclicEnds | include/guicpp/internal/guicpp_inject_util.h:263-307 | without a cycle in reach, a stack as deep as there are bindings never overflows, in any state and for any argument order |
| ResolverTheorems.EvalMonotone | include/guicpp/internal/guicpp_inject_util.h:298-307 | no outcome, be it a result with its state or a fatal end, changes with more depth |
| ResolverTheorems.FatalIsReachable | include/guicpp/internal/guicpp_inject_util.h:129-142 | the process aborts only for the reason of a request in reach that cannot be answered |
| ResolverTheorems.CycleOverflows | include/guicpp/internal/guicpp_inject_util.h:263-307 | with a cycle but no fatal request in reach, every stack overflows, in every reachable state and for every argument order |
| ResolverTheorems.Confluence | include/guicpp/internal/guicpp_create_helpers.h:53-61 | two argument orders give equal objects up to addresses and the same set of created singletons |
| ResolverTheorems.FactoryScoping | include/guicpp/internal/guicpp_factory_helpers.h:329-345 | below a factory call, through any chain of bindings, the local context is that of the call, and below a singleton it is empty; an assisted request reads the first parameter with its label and specifier, and is fatal without one and below a singleton |
| ResolverTheorems.AssistedBrings | include/guicpp/internal/guicpp_inject_util.h:177-187 | an assisted request brings the value passed for its parameter, or a copy of it, and changes nothing; it is fatal without such a parameter or if the conversion is not allowed |
| ResolverTheorems.InternalExactly | include/guicpp/internal/guicpp_inject_util.h:216-234 | a request for the injector gives the injector itself and changes nothing; a request for a factory allocates one new factory that remembers its label |
| ResolverTheorems.MentionsExactly | include/guicpp/internal/guicpp_inject_util.h:177-187 | a result depends on a parameter if and only if an assisted request for it is in reach |
| ResolverTheorems.FactoryCallsAgree | include/guicpp/internal/guicpp_factory_helpers.h:335-345 | two calls of one factory, with any arguments and in any reachable states, give instances of one tree; singletons do not depend on the arguments |
| Runs.ReachableInv | include/guicpp/guicpp_injector.h:72-77 | the invariant holds after every run |
| Runs.RunPrefix | include/guicpp/guicpp_singleton.h:153-156 | later calls keep every object, every cached singleton and the order so far |
| Runs.OnePointerPerSingleton | include/guicpp/guicpp_singleton.h:196-210 | any two calls of a run that reach one singleton, directly or through pointer bindings, return one pointer, the cached one |
| Runs.ConstOrNot | testing/test/guicpp_singleton_test.cc:255-270 | requests for the pointer and for the pointer to const reach the same singleton |
| Runs.ConstructedIsNew | include/guicpp/internal/guicpp_create_helpers.h:37-51 | a call that ends in a constructor returns an object distinct from everything in the heap before it, from all results before it and from all singletons so far |
| Runs.SingletonsAreDistinct | include/guicpp/guicpp_singleton.h:174-184 | after every run, each singleton is an object made by the constructor of its own class, and two singleton bindings hold two different objects |
| Runs.DifferentSingletons | include/guicpp/guicpp_binder.h:401-419 | calls that reach two singletons, such as two labels of one type, return different pointers |
| Runs.LazyOverRuns | testing/test/guicpp_singleton_test.cc:194-204 | over a whole run, a singleton has been created if and only if some call needed it |
| Runs.CacheOverRuns | include/guicpp/guicpp_singleton.h:153-184 | after every run, every cached object unfolds to the cache-free result of its creation request |
| Runs.DependenciesFirst | include/guicpp/guicpp_singleton.h:171-184 | after every run, whatever a singleton's creation needed, at any depth, precedes it in the cleanup list and never follows it |
| Runs.HaltsExactly | include/guicpp/internal/guicpp_inject_util.h:263-307 | a call that cannot be answered ends the run; with a stack as deep as there are bindings, nothing else does |
| Runs.HaltingStep | include/guicpp/internal/guicpp_inject_util.h:129-142 | a run that ends early ends at one call, with the reason of that call: its fatal log, its overflow, or arguments that the caller does not have |
| Runs.OverflowMeansCycle | include/guicpp/internal/guicpp_inject_util.h:263-307 | with such a stack, a run overflows it only for a call with a cycle in reach |
| Sharing.SharedDependencies | include/guicpp/guicpp_singleton.h:196-210 | after every run, every argument of every constructor and provider, at any depth of any call, that was asked for by a request that reaches a singleton is the cached object itself |
| Sharing.FactoryParameters | testing/test/guicpp_factory_test.cc:37-63 | every argument of every object built during a call, however deep, that was asked for by a request that reaches a parameter is the very value passed for it; so is the result of such a call |
| Sharing.OwnObjects | include/guicpp/internal/guicpp_create_helpers.h:37-51 | after every run, no two arguments that were asked for by requests ending in constructors are one object, nor is one of them a singleton or the result of a call that ends in a constructor |
| Sharing.ArgumentsAreNew | include/guicpp/internal/guicpp_create_helpers.h:53-61 | such an argument did not exist before the call that built its holder |
| Typing.TypeSound | include/guicpp/internal/guicpp_table.h:281-317 | a result has the requested type up to the class hierarchy and never loses const, and every constructor and provider in the heap got arguments of its declared types in place |
| Typing.FailuresExactly | include/guicpp/internal/guicpp_table.h:281-317 | one typed request is fatal on its own if and only if its binding or its assisted argument is missing, or its conversion is not allowed; the type-id check and the downcast never go wrong |
| Typing.ResolutionFailsExactly | include/guicpp/internal/guicpp_inject_util.h:263-307 | a whole resolution of a typed request is fatal only for one of these causes at a request in reach, and without a cycle it is fatal if and only if there is one |
| TypedPrograms.BoundEntryTyped | include/guicpp/guicpp_binder.h:242-386 | every binding call creates an entry keyed by its own specifier at a type that survives erasure |
| TypedPrograms.ConfiguredIsTyped | include/guicpp/guicpp_binder.h:242-419 | modules that compile configure a well-typed table |
| TypedPrograms.RunIsTyped | include/guicpp/guicpp_injector.h:54-60 | every result of every run has the type that was asked for |
| TypedPrograms.RunFailsExactly | include/guicpp/internal/guicpp_table.h:281-317 | a run of typed calls ends with a fatal log only for one of the documented causes in reach of one of its calls; without cycles, with stack enough and callers that pass what they have, it ends early if and only if there is such a cause |
| Modules.TableExactly | src/guicpp_table.cc:50-63 | after any list of calls the map holds the first binding of each key, and the ownership list every entry handed over, rejected ones included, in order |
| Modules.CleanupsKept | include/guicpp/internal/guicpp_entries.h:63-183 | deleting the entry of a call runs exactly the cleanup action that the call passed, be the entry mapped or rejected |
| Modules.FlattenExactly | src/guicpp_binder.cc:54-56 | installing keeps the order of calls, and the calls of an installed module stand where it was installed |
| Modules.ErrorsExactly | src/guicpp_binder.cc:33-44 | the error count is bindings minus distinct keys, and zero if and only if no key is bound twice |
| Modules.FatalExactly | include/guicpp/guicpp_singleton.h:196-210 | configuration is fatal if and only if a scope is bound before a non-const context instance |
| Modules.DistinctIsPermutable | src/guicpp_binder.cc:33-44 | reordering calls does not change whether a key is bound twice |
| Modules.PermutedModules | src/guicpp_binder.cc:33-56 | without duplicates, every permutation of the bindings leads to the same map, up to the positions of providers in the init list |
| Modules.WrapperNeverFatal | src/guicpp_tools.cc:52-60 | with the wrapper module, set-up of a scope never fails |
| Modules.WrapperOwns | src/guicpp_tools.cc:52-60 | the wrapper leaves the context first and the cleanup last in the ownership list, and each provider in between exactly once |
| Modules.ProvidersMatchKeys | include/guicpp/guicpp_singleton.h:141-146 | without errors, positions in the init list and singleton keys correspond one to one |
| Container.RoomForOne | src/guicpp_singleton.cc:30-39 | when a new singleton is appended, the cleanup array sized by the init list still has room |
| Container.LazySingletonProvider.constructor | include/guicpp/guicpp_singleton.h:143-146 | a new provider is the last of the init list |
| Container.LazySingletonProvider.Get | include/guicpp/guicpp_singleton.h:153-156 | returns the cached object, or creates, records and returns it, exactly as the pure resolver |
| Container.LazySingletonProvider.Create | include/guicpp/guicpp_singleton.h:171-184 | resolves the unscoped request in an empty context, sets the object and appends to the cleanup list, with no check firing and no array bound exceeded |
| Container.LazySingletonProvider.Cleanup | include/guicpp/guicpp_singleton.h:164-167 | deletes the object once and forgets it |
| Container.ScopeSetupContext.AddToInitList | src/guicpp_singleton.cc:23-28 | appends a provider that is not in the list |
| Container.ScopeSetupContext.AddToCleanupList | src/guicpp_singleton.cc:30-39 | writes the next slot of the array and nothing else, releasing the lock |
| Container.ScopeSetupContext.Init | src/guicpp_singleton.cc:41-51 | allocates an array of the init list's length and tells every provider the injector |
| Container.ScopeSetupContext.Cleanup | src/guicpp_singleton.cc:53-59 | deletes the created objects in reverse order and leaves every listed provider without an object |
| Container.Injector.Select | include/guicpp/internal/guicpp_inject_util.h:129-288 | looking a request up in the local context, the bind table and the default entries gives the plan of the pure model |
| Container.Injector.Resolve | include/guicpp/internal/guicpp_inject_util.h:298-307 | the resolver on the mutable objects gives the pure resolver's outcome and state |
| Container.Injector.ResolveAll | include/guicpp/internal/guicpp_provider_helpers.h:73-80 | the same for argument lists |
| Container.Injector.Get | include/guicpp/guicpp_injector.h:72-77 | one request in a fresh empty local context |
| Container.Injector.FactoryGet | include/guicpp/internal/guicpp_factory_helpers.h:335-345 | the result type requested in a context of the arguments |
| BindTables.BindTable.FindEntry | src/guicpp_table.cc:38-47 | the first entry that was ever added under the key, whatever was added later, or none if nothing was |
| BindTables.BindTable.AddEntry | src/guicpp_table.cc:50-58 | succeeds if and only if nothing was added under the key before; the entry is owned in either case |
| BindTables.BindTable.Destroy | src/guicpp_table.cc:30-35 | for every table of user entries, each entry ever handed over is deleted exactly once, in reverse order, rejected ones included |
| BindTables.LiveAndDie | testing/test/guicpp_table_test.cc:122-193 | for every sequence of additions and cleanup entries: which additions succeed, and the deletions that follow |
| Lifecycle.Binder.AddBindEntry | src/guicpp_binder.cc:33-44 | the state after one binding, errors counted |
| Lifecycle.Binder.GetBoundInstance | include/guicpp/guicpp_binder.h:430-458 | finds the context if and only if its first binding is an instance that is not const |
| Lifecycle.Binder.ConfigureScope | include/guicpp/guicpp_singleton.h:196-210 | a new provider bound to the key, or a fatal log without a context |
| Lifecycle.Binder.Install | src/guicpp_binder.cc:54-56 | running a module tree equals applying its flattened calls |
| Lifecycle.CreateInjector | src/guicpp_tools.cc:72-81 | yields an injector if and only if no key, the context's included, is bound twice; it is wired and empty |
| Lifecycle.RunProgram | src/guicpp_tools.cc:72-81 | a whole program on the objects reports what the pure model says: rejection, crash, or results and teardown log |
| Lifecycle.DestroyTable | src/guicpp_table.cc:30-35 | the destructor of a table that `CreateInjector` filled: entries in reverse; singletons go before their providers, nothing freed is touched, every provider's check finds no object, and every provider and the context end up freed |
| Lifecycle.EntriesConserved | src/guicpp_table.cc:30-35 | whatever the layout of the ownership list, each entry is deleted once, in reverse order, among the deletions of singletons |
| Lifecycle.TeardownExactly | src/guicpp_singleton.cc:53-59 | the complete teardown log of a run: singletons youngest first, then entries in reverse order of binding |
| Lifecycle.TeardownSafety | src/guicpp_tools.cc:52-80 | nothing is deleted twice or left; singletons go before all instances, providers and actions; dependents before dependencies; the context last |
| Programs.ProgramIsTyped | include/guicpp/guicpp_injector.h:54-60 | a program that compiles returns values of the types asked for, and logs a fatal error only for one of the documented causes in reach of a call |
| Programs.CrashesExactly | src/guicpp_tools.cc:72-81 | a program is rejected if and only if a key is bound twice; with a stack as deep as there are bindings it crashes if and only if some call it makes cannot be answered |
| Programs.ProgramTearsDownSafely | src/guicpp_tools.cc:52-80 | a program that compiles and runs to its end deletes everything once, singletons before entries, dependents before dependencies, the context last |
| Programs.CallsAnswered | include/guicpp/guicpp_injector.h:72-77 | each result of a finished program is what its call asked for: a request in an empty context, or a factory's result type, under the factory's label, in a context of its arguments |
| Programs.ActionsRunBackwards | include/guicpp/internal/guicpp_entries.h:63-183 | a teardown runs every user action that the module passed, once for each time it was passed, in reverse order, and no other |
| Programs.ProgramShares | include/guicpp/guicpp_singleton.h:196-210 | in such a program, whoever asked for a singleton holds its one object, and every object constructed for another argument has one holder |
| Programs.OrderDoesNotMatter | src/guicpp_binder.cc:33-56 | two modules that make the same bindings in any two orders are both rejected or behave the same in every sequence of calls |
| Promises.BindIsTransparent | include/guicpp/guicpp_binder.h:242-259 | a request for a bound interface has the outcome of the request for its implementation |
| Promises.ValueTypeIsForwarded | include/guicpp/guicpp_binder.h:263-281 | a request for a value type bound to another has the outcome of the request for that one, label included, converted if the types differ |
| Promises.InstanceIsReturned | include/guicpp/guicpp_binder.h:286-303 | every request for a bound pointer, const or not, returns the instance |
| Promises.ReferenceIsReturned | include/guicpp/guicpp_binder.h:326-343 | requests for a bound reference return it, requests for the value a copy, be the reference const or not |
| Promises.ValueIsReturned | include/guicpp/guicpp_binder.h:307-322 | requests for a bound value return it |
| Promises.ScopeIsSingleton | include/guicpp/guicpp_binder.h:401-419 | requests for a type bound to the scope reach its singleton |
| Promises.ArgumentsInPlace | include/guicpp/internal/guicpp_create_helpers.h:53-61 | makers get the trees of their arguments in the declared positions, whatever the evaluation order |
| Promises.DefaultConstructor | include/guicpp/internal/guicpp_inject_util.h:284-287 | an unbound class is made by its constructor from its declared arguments |
| Promises.ProviderIsCalled | include/guicpp/internal/guicpp_provider_helpers.h:73-110 | a provider bound for a pointer or for a value is called with the arguments that its `Get` declares, each with its label and type, in the declared positions |
| Promises.FactoryOfBinding | testing/test/guicpp_factory_test.cc:64-84 | a factory asks for its result under its own label: for a bound interface it makes what the implementation request makes |
| Promises.FactoryOfScope | include/guicpp/internal/guicpp_factory_helpers.h:335-345 | a factory for a scoped type hands out the singleton of its label and type |
| Promises.FactoryOfClass | include/guicpp/internal/guicpp_factory_helpers.h:335-345 | a factory for a class that is not bound calls its constructor, with arguments resolved in the context of the call |
| QueryString.SplitOfJoin | examples/notifier/http_server/implementation/server.cc:157-177 | splitting undoes joining for pieces without the separator |
| QueryString.JoinOfSplit | examples/notifier/http_server/implementation/server.cc:157-177 | joining undoes splitting, and no piece holds the separator |
| QueryString.PairOfExactly | examples/notifier/http_server/implementation/server.cc:164-172 | a piece without `=` is a key with the value "1"; with one, key and value are what stands before and behind the first |
| QueryString.QueryRoundTrip | examples/notifier/http_server/implementation/server.cc:152-177 | printed keys and pairs, in any mix, parse back to what was meant if and only if there is one, keys avoid `=` and `&`, and values avoid `&` |
| QueryString.AssignExactly | examples/notifier/http_server/implementation/server.cc:174 | the last pair with a key wins, and no other key is in the map |
| QueryString.DistinctPairs | examples/notifier/http_server/implementation/server.cc:174 | with distinct keys the map is exactly the list of pairs |
| QueryString.GetQuery | examples/notifier/http_server/implementation/server.cc:128-137 | a GET line is parsed to the pairs of whatever query stands behind its first question mark |
| QueryString.GetRoundTrip | examples/notifier/http_server/implementation/server.cc:128-137 | a printed query in a GET line parses to the map of what was meant |
| QueryString.GetWithoutQuery | examples/notifier/http_server/implementation/server.cc:128-135 | without a question mark in its first line a GET request has no arguments, whatever its other lines hold |
| QueryString.PostBody | examples/notifier/http_server/implementation/server.cc:138-146 | a POST request is parsed to the pairs of what its body starts with, and has no arguments without a body |
| QueryString.PostRoundTrip | examples/notifier/http_server/implementation/server.cc:138-146 | a printed query in a POST body parses to the map of what was meant |
| QueryString.SubExactly | examples/notifier/http_server/implementation/server.cc:139 | the search for the end of the headers finds the first one, if there is one |
| QueryString.ErrorsExactly | examples/notifier/http_server/implementation/server.cc:117-150 | a request is a parse error if and only if it starts neither with GET nor with POST and an end of headers behind it |
| HttpServer.StrPbrk | examples/notifier/http_server/implementation/server.cc:119-153 | the first position of a character of a set in the C string, or none |
| HttpServer.StrStr | examples/notifier/http_server/implementation/server.cc:139 | the first position of a pattern in the C string, or none |
| HttpServer.ReadPiece | examples/notifier/http_server/implementation/server.cc:157-172 | one turn of the loop takes the first piece as a pair and cuts the buffer behind it |
| HttpServer.ReadArguments | examples/notifier/http_server/implementation/server.cc:152-179 | the destructive loop ends, stays in bounds and yields the map of the pure split |
| HttpServer.ReadHttpRequest | examples/notifier/http_server/implementation/server.cc:117-180 | on every buffer with a terminator, exactly the pure parser; only NULs are written, only inside the string |
| HttpServer.GetIsServed | examples/notifier/http_server/implementation/server.cc:74-86 | a GET request that a client prints is answered with the map of what was meant, whatever bytes follow the delimiter or NUL behind its query |
| HttpServer.PostIsServed | examples/notifier/http_server/implementation/server.cc:74-86 | the same for a POST request |
| HttpServer.NoArgumentsServed | examples/notifier/http_server/implementation/server.cc:74-86 | a GET line without a question mark and a POST without a body are answered with no arguments |
| HttpServer.RepliesApart | examples/notifier/http_server/implementation/server.cc:66-93 | in every sequence of requests, each one is answered as if it were alone, and empty ones not at all |
| HttpServer.SimpleHttpServer.StartServer | examples/notifier/http_server/implementation/server.cc:48-96 | at the head of the loop the buffer is zero, and each answer depends only on the bytes of its own request |

## Left out

- Sockets, response headers, HTML output and logging.
- Threads: the mutex and the once flag of the source are placeholders that its comments ask to port; the model keeps their sequential flags, the mutex's as a field of the context.
- Macro expansion, name lookup and errors at compile time; what the compiler rejects is not representable or excluded by `Compiles`.
- The ten copies of each helper for different numbers of arguments are one function over a sequence.
- Volatile types, RTTI, and addresses as type ids; keys are values instead.
- Implicit conversions from values to const references in `BindValueType`, which would dangle.
- Whole programs over `Injector::Create` without the wrapper: the configuration of such a table, runs over it and its destruction are covered one by one, but no single method puts them together.
- User bindings under the internal `UnScoped` label: excluded by `WellBound` where distinct singleton objects matter, allowed elsewhere.
- The contact list, notifiers, senders, example mains and string helpers of the repository.
