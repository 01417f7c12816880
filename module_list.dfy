/**
 * Druid's ModuleList: the append-only accumulator of the Guice modules the
 * final injector is built from. Every DruidModule it accepts also has its
 * Jackson modules registered on the two shared ObjectMappers (JSON and
 * Smile), so both codecs learn the same types in the same order.
 */
module Composer {

  datatype Option<T> = None | Some(value: T)

  /** The exceptions that abort composition. */
  datatype Error =
    | UnknownModuleType(typeName: string)         // ISE "Unknown module type[..]"
    | DoesNotImplementModule(reported: string)    // ISE "Class[..] does not implement Module"
    | ResolutionFailed(coordinate: string)        // aether could not resolve a coordinate
    | ExtensionLoadFailed(reason: string)         // class loading or service discovery failed

  datatype Result<T> = Ok(value: T) | Err(error: Error)

  /** What was done before a step aborted, and the error it aborted with, if any. */
  datatype Partial<T> = Partial(done: seq<T>, failure: Option<Error>)

  /** A Jackson module, known by its identity. */
  datatype JacksonModule = JacksonModule(name: string)

  /** A DruidModule: Guice bindings (not modelled) plus the Jackson modules it declares. */
  datatype DruidModule = DruidModule(name: string, jacksonModules: seq<JacksonModule>)

  /** An accepted Guice module: a DruidModule, or any other Guice Module. */
  datatype Module = Druid(druid: DruidModule) | Plain(name: string)

  /** Which of the two module interfaces a Class is assignable to (DruidModule extends Module). */
  datatype ClassKind = DruidModuleClass | ModuleClass | NonModuleClass

  datatype ClassRef = ClassRef(name: string, kind: ClassKind)

  /** The shapes of object that addModule tells apart. */
  datatype ModuleInput =
    | DruidInst(instance: DruidModule)
    | ModuleInst(moduleName: string)
    | ClassOf(cls: ClassRef)
    | Other(typeName: string)

  /**
   * The base injector, seen only through what it returns: the instance it
   * builds for a module class, and the configured extension coordinates.
   */
  datatype Injector = Injector(
    druidInstance: string -> DruidModule,
    moduleInstance: string -> string,
    coordinates: seq<string>)

  /** The error for a Class that implements neither module interface, naming that class. */
  function NotAModuleError(c: ClassRef): Error
  {
    DoesNotImplementModule(c.name)
  }

  /** The same error as the source builds it: it formats input.getClass(), the class of a Class object. */
  function NotAModuleErrorAsWritten(c: ClassRef): Error
  {
    DoesNotImplementModule("java.lang.Class")
  }

  /**
   * The module addModule appends for an input, or the error it throws. A
   * Class that is no Module gets the corrected error, which names that class.
   */
  function Accept(injector: Injector, input: ModuleInput): (r: Result<Module>)
    ensures r.Ok? ==>
      (r.value.Druid? <==> input.DruidInst? || (input.ClassOf? && input.cls.kind == DruidModuleClass))
    ensures r.Err? && input.ClassOf? ==> r.error == NotAModuleError(input.cls)
    ensures r.Err? && !input.ClassOf? ==> r.error.UnknownModuleType?
  {
    match input
    case DruidInst(d) => Ok(Druid(d))
    case ModuleInst(m) => Ok(Plain(m))
    case ClassOf(c) =>
      (match c.kind
       case DruidModuleClass => Ok(Druid(injector.druidInstance(c.name)))
       case ModuleClass => Ok(Plain(injector.moduleInstance(c.name)))
       case NonModuleClass => Err(NotAModuleError(c)))
    case Other(t) => Err(UnknownModuleType(t))
  }

  /** The Jackson modules registered on each mapper when a module is accepted. */
  function Registrations(m: Module): seq<JacksonModule>
  {
    match m
    case Druid(d) => d.jacksonModules
    case Plain(_) => []
  }

  /** The registrations of a sequence of accepted modules, in order. */
  function AllRegistrations(modules: seq<Module>): seq<JacksonModule>
  {
    if modules == [] then []
    else AllRegistrations(modules[..|modules| - 1]) + Registrations(modules[|modules| - 1])
  }

  lemma AllRegistrationsSnoc(modules: seq<Module>, m: Module)
    ensures AllRegistrations(modules + [m]) == AllRegistrations(modules) + Registrations(m)
  {
    assert (modules + [m])[..|modules|] == modules;
  }

  /** addModule fails exactly on an object of unknown type and on a Class that is no Module. */
  lemma AcceptFailsExactly(injector: Injector, input: ModuleInput)
    ensures Accept(injector, input).Err? <==>
      input.Other? || (input.ClassOf? && input.cls.kind == NonModuleClass)
  {
  }

  /** A DruidModule, instance or class, is accepted as a DruidModule, so its Jackson modules are registered. */
  lemma DruidInputsRegister(injector: Injector, input: ModuleInput)
    requires input.DruidInst? || (input.ClassOf? && input.cls.kind == DruidModuleClass)
    ensures Accept(injector, input).Ok? && Accept(injector, input).value.Druid?
    ensures Registrations(Accept(injector, input).value) == Accept(injector, input).value.druid.jacksonModules
    ensures input.DruidInst? ==> Accept(injector, input).value == Druid(input.instance)
  {
  }

  /** A plain Module, instance or class, is accepted without touching either mapper. */
  lemma PlainInputsDoNotRegister(injector: Injector, input: ModuleInput)
    requires input.ModuleInst? || (input.ClassOf? && input.cls.kind == ModuleClass)
    ensures Accept(injector, input).Ok? && Registrations(Accept(injector, input).value) == []
  {
  }

  /** As written, the error for a non-module class is the same whichever class it was. */
  lemma AsWrittenErrorHidesClass()
    ensures NotAModuleErrorAsWritten(ClassRef("org.example.A", NonModuleClass))
         == NotAModuleErrorAsWritten(ClassRef("org.example.B", NonModuleClass))
  {
  }

  /** The corrected error tells non-module classes apart by name. */
  lemma NotAModuleErrorNamesClass(c: ClassRef, d: ClassRef)
    ensures NotAModuleError(c) == NotAModuleError(d) <==> c.name == d.name
  {
  }

  /** One of the two shared Jackson ObjectMappers, seen through the modules registered on it. */
  class ObjectMapper {
    var registered: seq<JacksonModule>

    method RegisterModule(m: JacksonModule)
      modifies this
      ensures registered == old(registered) + [m]
    {
      registered := registered + [m];
    }
  }

  class ModuleList {
    const baseInjector: Injector
    const jsonMapper: ObjectMapper
    const smileMapper: ObjectMapper
    var modules: seq<Module>

    // what the mappers held before this list registered anything on them
    ghost const jsonBase: seq<JacksonModule>
    ghost const smileBase: seq<JacksonModule>
    // the Jackson modules this list has registered, on each of the two mappers
    ghost var registrations: seq<JacksonModule>

    /** Both mappers carry, after what they held, the same registrations, in the same order. */
    ghost predicate Valid()
      reads this, jsonMapper, smileMapper
    {
      && jsonMapper != smileMapper
      && jsonMapper.registered == jsonBase + registrations
      && smileMapper.registered == smileBase + registrations
    }

    /** The registrations are exactly those of the accepted DruidModules, in acceptance order. */
    ghost predicate Tracked()
      reads this
    {
      registrations == AllRegistrations(modules)
    }

    constructor (baseInjector: Injector, jsonMapper: ObjectMapper, smileMapper: ObjectMapper)
      requires jsonMapper != smileMapper
      ensures Valid() && Tracked() && modules == []
      ensures this.baseInjector == baseInjector
      ensures this.jsonMapper == jsonMapper && this.smileMapper == smileMapper
      ensures jsonBase == jsonMapper.registered && smileBase == smileMapper.registered
    {
      this.baseInjector := baseInjector;
      this.jsonMapper := jsonMapper;
      this.smileMapper := smileMapper;
      this.modules := [];
      this.jsonBase := jsonMapper.registered;
      this.smileBase := smileMapper.registered;
      this.registrations := [];
    }

    /**
     * Appends the module an input stands for, registering a DruidModule's
     * Jackson modules first; an input of any other shape changes nothing.
     */
    method AddModule(input: ModuleInput) returns (failure: Option<Error>)
      requires Valid()
      modifies this, jsonMapper, smileMapper
      ensures Valid()
      ensures old(Tracked()) ==> Tracked()
      ensures Accept(baseInjector, input).Ok? ==>
        && failure == None
        && modules == old(modules) + [Accept(baseInjector, input).value]
        && registrations == old(registrations) + Registrations(Accept(baseInjector, input).value)
        && jsonMapper.registered == old(jsonMapper.registered) + Registrations(Accept(baseInjector, input).value)
        && smileMapper.registered == old(smileMapper.registered) + Registrations(Accept(baseInjector, input).value)
      ensures Accept(baseInjector, input).Err? ==>
        && failure == Some(Accept(baseInjector, input).error)
        && modules == old(modules)
        && registrations == old(registrations)
        && jsonMapper.registered == old(jsonMapper.registered)
        && smileMapper.registered == old(smileMapper.registered)
    {
      match input {
        case DruidInst(d) =>
          var registered := RegisterJacksonModules(d);
          Append(Druid(registered));
        case ModuleInst(m) =>
          Append(Plain(m));
        case ClassOf(c) =>
          if c.kind == DruidModuleClass {
            var registered := RegisterJacksonModules(baseInjector.druidInstance(c.name));
            Append(Druid(registered));
          } else if c.kind == ModuleClass {
            Append(Plain(baseInjector.moduleInstance(c.name)));
          } else {
            return Some(NotAModuleError(c));
          }
        case Other(t) =>
          return Some(UnknownModuleType(t));
      }
      failure := None;
    }

    /** Appends a module whose Jackson modules, if any, are already on both mappers. */
    method Append(m: Module)
      requires jsonMapper != smileMapper
      requires jsonMapper.registered == jsonBase + (registrations + Registrations(m))
      requires smileMapper.registered == smileBase + (registrations + Registrations(m))
      modifies this
      ensures Valid() && (old(Tracked()) ==> Tracked())
      ensures modules == old(modules) + [m] && registrations == old(registrations) + Registrations(m)
    {
      AllRegistrationsSnoc(modules, m);
      modules := modules + [m];
      registrations := registrations + Registrations(m);
    }

    /** Registers each Jackson module of a DruidModule on both mappers, in order, and returns the module. */
    method RegisterJacksonModules(druidModule: DruidModule) returns (r: DruidModule)
      requires jsonMapper != smileMapper
      modifies jsonMapper, smileMapper
      ensures r == druidModule
      ensures jsonMapper.registered == old(jsonMapper.registered) + druidModule.jacksonModules
      ensures smileMapper.registered == old(smileMapper.registered) + druidModule.jacksonModules
    {
      var i := 0;
      while i < |druidModule.jacksonModules|
        invariant 0 <= i <= |druidModule.jacksonModules|
        invariant jsonMapper.registered == old(jsonMapper.registered) + druidModule.jacksonModules[..i]
        invariant smileMapper.registered == old(smileMapper.registered) + druidModule.jacksonModules[..i]
      {
        var jacksonModule := druidModule.jacksonModules[i];
        assert druidModule.jacksonModules[..i + 1] == druidModule.jacksonModules[..i] + [jacksonModule];
        jsonMapper.RegisterModule(jacksonModule);
        smileMapper.RegisterModule(jacksonModule);
        i := i + 1;
      }
      assert druidModule.jacksonModules[..i] == druidModule.jacksonModules;
      r := druidModule;
    }
  }
}
