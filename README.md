# Druid module composition, modelled in Dafny

This project models how Druid's `Initialization.makeInjector` puts together
the Guice modules of a node. The model has three modules.

- `ExtensionFilter` (`extension_filter.dfy`) models the artifact exclusion
  filter. Resolving an extension coordinate gives a list of artifacts.
  Artifacts whose group id is one of the host's own groups (`io.druid`,
  `com.metamx.druid`) are dropped. The files of the rest make up the
  extension's class path, in the resolver's order.
- `Composer` (`module_list.dfy`) models `ModuleList`, the append-only list
  of accepted modules. `AddModule` dispatches on the shape of its input:
  - a DruidModule instance or class, or a plain Module instance or class,
    is accepted;
  - a class that implements neither, or an object of any other type, is
    rejected with an `ISE`.

  Accepting a DruidModule first registers each of its Jackson modules on
  both shared `ObjectMapper`s (JSON and Smile), in order. The class
  invariant `Valid` says that both mappers carry the same registrations
  after what they held before. `Tracked` says that those registrations are
  exactly the Jackson modules of the accepted DruidModules, in acceptance
  order.
- `Bootstrap` (`bootstrap.dfy`) models `makeInjector` and
  `addExtensionModules`. The order is:
  1. `DruidSecondaryModule`;
  2. the caller's modules, in order;
  3. for each configured coordinate in order, the DruidModules that service
     discovery finds through a class loader over that coordinate's filtered
     class path. That loader's parent is the host's class loader, so
     discovery may also return providers the host itself registers.

  The first failure aborts the whole run. This covers a rejected input, a
  coordinate that does not resolve (`ResolutionFailed`) and a provider that
  fails to load (`ExtensionLoadFailed`). The
  method `MakeInjector` is proved against the specification function
  `Composition`, and the lemmas state what `Composition` promises.

External collaborators become parameters:
- the base injector is represented by the instances it builds for a module
  class and by the configured coordinates (`Composer.Injector`);
- aether's resolution and the lazy `ServiceLoader` are functions
  (`Bootstrap.Extensions`). Discovery returns the modules found before a
  failure, together with that failure;
- the JSON and Smile mappers are two distinct objects that the base injector
  supplies under different binding annotations. The constructor and
  `MakeInjector` therefore require them to be different.

## Model

| member | source | states |
|---|---|---|
| ExtensionFilter.ExtensionClassPath | server/src/main/java/io/druid/server/initialization/Initialization.java:106-115 | the URL list holds the files of exactly the resolved artifacts whose group id is not excluded, in resolver order |
| ExtensionFilter.KeptMembers | server/src/main/java/io/druid/server/initialization/Initialization.java:58-61 | an artifact reaches the class path if and only if it was resolved and its group id is not in the exclusion list |
| ExtensionFilter.KeptConcat | server/src/main/java/io/druid/server/initialization/Initialization.java:108-115 | filtering handles each artifact on its own: filtering a concatenation concatenates the filtered parts, so the order is preserved |
| ExtensionFilter.KeptIdempotent | server/src/main/java/io/druid/server/initialization/Initialization.java:108-115 | filtering an already filtered artifact list changes nothing |
| ExtensionFilter.HostArtifactDropped | server/src/main/java/io/druid/server/initialization/Initialization.java:108-114 | of a host artifact followed by an extension artifact, only the extension's file reaches the class path |
| ExtensionFilter.SubGroupOfHostIsKept | server/src/main/java/io/druid/server/initialization/Initialization.java:58-61 | the exclusion check is exact list membership: group `io.druid.extensions` is not excluded |
| Composer.ObjectMapper.RegisterModule | server/src/main/java/io/druid/server/initialization/Initialization.java:214-215 | registering a Jackson module appends it to the mapper's registrations |
| Composer.ModuleList.constructor | server/src/main/java/io/druid/server/initialization/Initialization.java:172-177 | a new list is empty, keeps the base injector and the two distinct mappers, and satisfies both invariants |
| Composer.ModuleList.AddModule | server/src/main/java/io/druid/server/initialization/Initialization.java:184-209 | an accepted input appends its module and registers that module's Jackson modules on both mappers; a rejected input raises its error and changes nothing; both invariants are preserved |
| Composer.ModuleList.RegisterJacksonModules | server/src/main/java/io/druid/server/initialization/Initialization.java:211-218 | every Jackson module of the DruidModule is appended to both mappers in declaration order, and the same module is returned |
| Composer.Accept | server/src/main/java/io/druid/server/initialization/Initialization.java:186-208 | an accepted input yields a DruidModule exactly when it is a DruidModule instance or a class assignable to DruidModule; a rejected Class gets the error naming that class, and any other rejected object gets the unknown-type error |
| Composer.AcceptFailsExactly | server/src/main/java/io/druid/server/initialization/Initialization.java:186-208 | addModule throws exactly for an object of unknown type and for a class that implements neither module interface |
| Composer.DruidInputsRegister | server/src/main/java/io/druid/server/initialization/Initialization.java:186-189 | a DruidModule instance or class is accepted as a DruidModule, so its Jackson modules are what gets registered; an instance is kept as given |
| Composer.PlainInputsDoNotRegister | server/src/main/java/io/druid/server/initialization/Initialization.java:190-200 | a plain Module instance or class is accepted and registers nothing on either mapper |
| Composer.AsWrittenErrorHidesClass | server/src/main/java/io/druid/server/initialization/Initialization.java:203 | as written, the error for two different non-module classes is the same, because it names java.lang.Class |
| Composer.NotAModuleErrorNamesClass | server/src/main/java/io/druid/server/initialization/Initialization.java:203 | the corrected error for two non-module classes is the same if and only if the classes have the same name |
| Bootstrap.MakeInjector | server/src/main/java/io/druid/server/initialization/Initialization.java:88-96 | the final module list, or the aborting error, is the one `Composition` specifies, and both mappers gain exactly the registrations of that list |
| Bootstrap.AddStaticModules | server/src/main/java/io/druid/server/initialization/Initialization.java:88-92 | the list holds DruidSecondaryModule, then the caller's accepted modules in order, up to the first rejected input, whose error is returned |
| Bootstrap.AddExtensionModules | server/src/main/java/io/druid/server/initialization/Initialization.java:99-136 | coordinates are loaded in order, their modules are appended after the existing ones, and the first failing coordinate's error is returned |
| Bootstrap.LoadCoordinate | server/src/main/java/io/druid/server/initialization/Initialization.java:105-130 | one coordinate: a resolution error appends nothing; otherwise the filtered class path is built and the discovered modules are appended before any discovery error |
| Bootstrap.AddDiscoveredModules | server/src/main/java/io/druid/server/initialization/Initialization.java:127-130 | each discovered DruidModule is appended in discovery order |
| Bootstrap.LoadAllSucceedsIff | server/src/main/java/io/druid/server/initialization/Initialization.java:103-135 | extension loading succeeds if and only if every configured coordinate loads |
| Bootstrap.FirstFailureAborts | server/src/main/java/io/druid/server/initialization/Initialization.java:132-134 | the first failing coordinate's error is the run's error, and later coordinates change nothing |
| Bootstrap.LaterCoordinatesIgnored | server/src/main/java/io/druid/server/initialization/Initialization.java:127-134 | when coordinate i is the first to fail, the run keeps what earlier coordinates and coordinate i contributed, and aborts with its error |
| Bootstrap.LoadAllConcat | server/src/main/java/io/druid/server/initialization/Initialization.java:103-135 | extension modules are grouped by coordinate in configured order: a later block of coordinates appends its modules after those of an earlier block that loaded |
| Bootstrap.ExtensionFailureKinds | server/src/main/java/io/druid/server/initialization/Initialization.java:105-134 | extension loading fails only with the resolution failure of one of its own coordinates, or with a provider that failed to load |
| Bootstrap.AcceptAllSucceedsIff | server/src/main/java/io/druid/server/initialization/Initialization.java:89-92 | the static part succeeds if and only if every input has an accepted shape |
| Bootstrap.AcceptAllPointwise | server/src/main/java/io/druid/server/initialization/Initialization.java:89-92 | a successful static part has one module per input, and module k is the one input k is accepted as |
| Bootstrap.AcceptAllFailureSticks | server/src/main/java/io/druid/server/initialization/Initialization.java:90-92 | once an input is rejected, later inputs do not change the outcome |
| Bootstrap.ComposedOrder | server/src/main/java/io/druid/server/initialization/Initialization.java:88-96 | a successful run yields DruidSecondaryModule first, then one module per caller input in order, then exactly the extension modules |
| Bootstrap.NoExtensionsComposition | server/src/main/java/io/druid/server/initialization/Initialization.java:88-94 | with no coordinates and only accepted inputs, the result is DruidSecondaryModule followed by exactly the caller's modules |

## Left out

- The base injector's construction (Initialization.java:66-86) is left out. This covers its Guice modules, its anonymous binder module and its bindings of the caller's classes. The model sees only the instances the injector returns.
- The final `Guice.createInjector` is left out. The module list handed to it stands for the injector.
- `injectMembers` (lines 187 and 191) is left out. It injects fields into a module the caller built. It runs before `getJacksonModules()`, so the injected fields could change which Jackson modules get registered, and injection can itself throw. The model treats a DruidModule instance as already injected, with a fixed list of Jackson modules, and it has no injection failure.
- Failures of `baseInjector.getInstance` (lines 196 and 199) are left out. Guice can throw a `ConfigurationException` or a `ProvisionException` there. The model's `Injector` always returns an instance.
- `addModule(null)` is left out. In the source it fails with a `NullPointerException` at line 207 rather than with an `ISE`. `ModuleInput` has no null. So `Composer.AcceptFailsExactly` states exactly when addModule throws, but only for these non-null inputs and an injector that always supplies instances.
- Composer.ModuleList.AddModule returns the corrected error for a Class that implements no module interface. That error names the class. The source's message always names `java.lang.Class` (line 203). The code as written is modelled separately by `Composer.NotAModuleErrorAsWritten`; see Findings.
- `getModules` has no separate member. The `modules` field is an immutable sequence, which is what the unmodifiable view exposes.
- `getAetherClient` is left out, together with its swap of `System.out` (lines 138-163). It is I/O configuration.
- Logging is left out.
- Converting a file to a URL (`toURI().toURL()`) is left out. Its failure is not modelled, and a file's location stands for its URL.
- Class loading and `ServiceLoader` are parameters (`Extensions.discover`). The model covers their visible effect: modules in discovery order, then possibly an error. `ServiceConfigurationError` is a Java `Error` rather than an `Exception`, but it aborts the run the same way.
- Jackson's own handling of a registered module is left out. A mapper is represented by the list of modules registered on it.
- Rolling back is not part of the source, so it is not part of the model. When a step fails, the mappers keep the registrations of the modules accepted before it, and `MakeInjector` states exactly that.
- The accepted class kinds are given, not computed. `isAssignableFrom` is modelled as the `ClassKind` of a class reference. `DruidSecondaryModule`'s source is not part of this model; it is taken to be a plain Guice Module class.
- Prefix matching of group ids is not modelled, because the code does not do it. The exclusion check is exact membership of the group id in the list. Sub-groups such as `io.druid.extensions` are therefore kept, as the code does with `List.contains`.

## Findings

| source | as written | input that shows it | evidently intended | confidence | as-written member | corrected member |
|---|---|---|---|---|---|---|
| server/src/main/java/io/druid/server/initialization/Initialization.java:203 | the message formats `input.getClass()`, and `input` is itself a `Class`, so it always reports `java.lang.Class` | `addModule(org.example.A.class)` and `addModule(org.example.B.class)`, two classes that implement no module interface, raise the same message | the message names the offending class (`input`) | not executed | Composer.AsWrittenErrorHidesClass | Composer.NotAModuleErrorNamesClass |
