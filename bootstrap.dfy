/**
 * Druid's makeInjector: the module list the final injector is built from is
 * DruidSecondaryModule, then the caller's modules in order, then, for each
 * configured extension coordinate in order, the DruidModules discovered in
 * that extension's artifacts. Any failure aborts the whole bootstrap.
 */
module Bootstrap {
  import opened ExtensionFilter
  import opened Composer

  /**
   * What service discovery yields: the DruidModules in discovery order and,
   * if a provider failed to load, the reason. Discovery is lazy, so the
   * modules found before the failure have already been handed out.
   */
  datatype Discovery = Discovery(found: seq<DruidModule>, failure: Option<string>)

  /**
   * The collaborators used per extension coordinate: the aether client's
   * resolution (None when the coordinate does not resolve), and service
   * discovery of DruidModules through a class loader over the given URLs.
   * That loader's parent is the host's class loader, so discovery may also
   * yield providers the host registers.
   */
  datatype Extensions = Extensions(
    resolve: string -> Option<seq<Artifact>>,
    discover: seq<Url> -> Discovery)

  const SecondaryModuleClass: ModuleInput :=
    ClassOf(ClassRef("io.druid.guice.DruidSecondaryModule", ModuleClass))

  function AsModules(ds: seq<DruidModule>): seq<Module>
  {
    seq(|ds|, i requires 0 <= i < |ds| => Druid(ds[i]))
  }

  /** The DruidModules one coordinate contributes, and why it failed, if it did. */
  function LoadExtension(ext: Extensions, coordinate: string): Partial<DruidModule>
  {
    match ext.resolve(coordinate)
    case None => Partial([], Some(ResolutionFailed(coordinate)))
    case Some(artifacts) =>
      var discovered := ext.discover(Files(Kept(artifacts)));
      Partial(discovered.found, LoadFailure(discovered.failure))
  }

  function LoadFailure(reason: Option<string>): Option<Error>
  {
    match reason
    case None => None
    case Some(why) => Some(ExtensionLoadFailed(why))
  }

  /** Coordinates are processed in order; the first failure stops the run. */
  function LoadAll(ext: Extensions, coordinates: seq<string>): Partial<DruidModule>
  {
    if coordinates == [] then Partial([], None)
    else
      var before := LoadAll(ext, coordinates[..|coordinates| - 1]);
      if before.failure.Some? then before
      else
        var last := LoadExtension(ext, coordinates[|coordinates| - 1]);
        Partial(before.done + last.done, last.failure)
  }

  /** The inputs are accepted in order; the first rejected input stops the run. */
  function AcceptAll(injector: Injector, inputs: seq<ModuleInput>): Partial<Module>
  {
    if inputs == [] then Partial([], None)
    else
      var before := AcceptAll(injector, inputs[..|inputs| - 1]);
      if before.failure.Some? then before
      else
        match Accept(injector, inputs[|inputs| - 1])
        case Ok(m) => Partial(before.done + [m], None)
        case Err(e) => Partial(before.done, Some(e))
  }

  /** The modules accepted by one bootstrap run, and the error that aborted it, if any. */
  function Composition(injector: Injector, ext: Extensions, inputs: seq<ModuleInput>): Partial<Module>
  {
    var statics := AcceptAll(injector, [SecondaryModuleClass] + inputs);
    if statics.failure.Some? then statics
    else
      var loaded := LoadAll(ext, injector.coordinates);
      Partial(statics.done + AsModules(loaded.done), loaded.failure)
  }

  /**
   * Builds the module list for the final injector (the injector itself is
   * Guice's and is represented by that list), or the error that aborted.
   */
  method MakeInjector(
    injector: Injector, ext: Extensions, jsonMapper: ObjectMapper, smileMapper: ObjectMapper,
    inputs: seq<ModuleInput>)
    returns (r: Result<seq<Module>>)
    requires jsonMapper != smileMapper
    modifies jsonMapper, smileMapper
    ensures var c := Composition(injector, ext, inputs);
      && r == (if c.failure.None? then Ok(c.done) else Err(c.failure.value))
      && jsonMapper.registered == old(jsonMapper.registered) + AllRegistrations(c.done)
      && smileMapper.registered == old(smileMapper.registered) + AllRegistrations(c.done)
  {
    var actualModules := new ModuleList(injector, jsonMapper, smileMapper);
    var failure := AddStaticModules(actualModules, inputs);
    if failure.None? {
      var statics := actualModules.modules;
      failure := AddExtensionModules(ext, injector.coordinates, actualModules);
      assert actualModules.modules == statics + AsModules(LoadAll(ext, injector.coordinates).done);
    }
    assert Composition(injector, ext, inputs) == Partial(actualModules.modules, failure);
    if failure.Some? {
      return Err(failure.value);
    }
    r := Ok(actualModules.modules);
  }

  /** Adds DruidSecondaryModule, then each of the caller's inputs in order, stopping at the first rejected one. */
  method AddStaticModules(actualModules: ModuleList, inputs: seq<ModuleInput>) returns (failure: Option<Error>)
    requires actualModules.Valid() && actualModules.Tracked() && actualModules.modules == []
    modifies actualModules, actualModules.jsonMapper, actualModules.smileMapper
    ensures actualModules.Valid() && actualModules.Tracked()
    ensures AcceptAll(actualModules.baseInjector, [SecondaryModuleClass] + inputs) == Partial(actualModules.modules, failure)
  {
    // DruidSecondaryModule is a Module class, so adding it cannot fail
    SecondaryModuleAccepted(actualModules.baseInjector);
    failure := actualModules.AddModule(SecondaryModuleClass);
    ghost var accepted := [SecondaryModuleClass];
    var i := 0;
    while i < |inputs|
      invariant 0 <= i <= |inputs|
      invariant accepted == [SecondaryModuleClass] + inputs[..i]
      invariant actualModules.Valid() && actualModules.Tracked()
      invariant AcceptAll(actualModules.baseInjector, accepted) == Partial(actualModules.modules, None)
    {
      var input := inputs[i];
      AcceptAllSnoc(actualModules.baseInjector, accepted, input);
      failure := actualModules.AddModule(input);
      accepted := accepted + [input];
      assert accepted == [SecondaryModuleClass] + inputs[..i + 1];
      assert AcceptAll(actualModules.baseInjector, accepted) == Partial(actualModules.modules, failure);
      if failure.Some? {
        LaterInputsIgnored(actualModules.baseInjector, inputs, i);
        return;
      }
      i := i + 1;
    }
    assert inputs[..i] == inputs;
    failure := None;
  }

  /** Resolves, filters and loads each coordinate in order, appending what it discovers. */
  method AddExtensionModules(ext: Extensions, coordinates: seq<string>, actualModules: ModuleList)
    returns (failure: Option<Error>)
    requires actualModules.Valid() && actualModules.Tracked()
    modifies actualModules, actualModules.jsonMapper, actualModules.smileMapper
    ensures actualModules.Valid() && actualModules.Tracked()
    ensures var run := LoadAll(ext, coordinates);
      && failure == run.failure
      && actualModules.modules == old(actualModules.modules) + AsModules(run.done)
  {
    ghost var before := actualModules.modules;
    for i := 0 to |coordinates|
      invariant actualModules.Valid() && actualModules.Tracked()
      invariant LoadAll(ext, coordinates[..i]).failure == None
      invariant actualModules.modules == before + AsModules(LoadAll(ext, coordinates[..i]).done)
    {
      ghost var run := LoadAll(ext, coordinates[..i]);
      ghost var last := LoadExtension(ext, coordinates[i]);
      LoadAllSnoc(ext, coordinates, i);
      AsModulesConcat(run.done, last.done);
      assert before + AsModules(run.done + last.done) == actualModules.modules + AsModules(last.done);
      failure := LoadCoordinate(ext, coordinates[i], actualModules);
      if failure.Some? {
        LaterCoordinatesIgnored(ext, coordinates, i);
        assert LoadAll(ext, coordinates) == Partial(run.done + last.done, failure);
        return;
      }
    }
    assert coordinates[..|coordinates|] == coordinates;
    failure := None;
  }

  /** One iteration of addExtensionModules: resolve, build the class path, add each discovered module. */
  method LoadCoordinate(ext: Extensions, coordinate: string, actualModules: ModuleList)
    returns (failure: Option<Error>)
    requires actualModules.Valid() && actualModules.Tracked()
    modifies actualModules, actualModules.jsonMapper, actualModules.smileMapper
    ensures actualModules.Valid() && actualModules.Tracked()
    ensures failure == LoadExtension(ext, coordinate).failure
    ensures actualModules.modules == old(actualModules.modules) + AsModules(LoadExtension(ext, coordinate).done)
  {
    var resolved := ext.resolve(coordinate);
    if resolved.None? {
      assert AsModules([]) == [];
      return Some(ResolutionFailed(coordinate));
    }
    var urls := ExtensionClassPath(resolved.value);
    var discovered := ext.discover(urls);
    AddDiscoveredModules(discovered.found, actualModules);
    if discovered.failure.Some? {
      return Some(ExtensionLoadFailed(discovered.failure.value));
    }
    failure := None;
  }

  /** Adds each discovered DruidModule in discovery order; adding an instance cannot fail. */
  method AddDiscoveredModules(discovered: seq<DruidModule>, actualModules: ModuleList)
    requires actualModules.Valid() && actualModules.Tracked()
    modifies actualModules, actualModules.jsonMapper, actualModules.smileMapper
    ensures actualModules.Valid() && actualModules.Tracked()
    ensures actualModules.modules == old(actualModules.modules) + AsModules(discovered)
  {
    ghost var before := actualModules.modules;
    for j := 0 to |discovered|
      invariant actualModules.Valid() && actualModules.Tracked()
      invariant actualModules.modules == before + AsModules(discovered[..j])
    {
      var _ := actualModules.AddModule(DruidInst(discovered[j]));
      assert AsModules(discovered[..j + 1]) == AsModules(discovered[..j]) + [Druid(discovered[j])];
    }
    assert discovered[..|discovered|] == discovered;
  }

  lemma LoadAllSnoc(ext: Extensions, coordinates: seq<string>, i: nat)
    requires i < |coordinates|
    requires LoadAll(ext, coordinates[..i]).failure == None
    ensures LoadAll(ext, coordinates[..i + 1]) ==
      Partial(LoadAll(ext, coordinates[..i]).done + LoadExtension(ext, coordinates[i]).done,
              LoadExtension(ext, coordinates[i]).failure)
  {
    assert coordinates[..i + 1][..i] == coordinates[..i];
  }

  lemma AsModulesConcat(a: seq<DruidModule>, b: seq<DruidModule>)
    ensures AsModules(a + b) == AsModules(a) + AsModules(b)
  {
  }

  /** A bootstrap run succeeds on its extensions exactly when every coordinate loads. */
  lemma {:induction false} LoadAllSucceedsIff(ext: Extensions, coordinates: seq<string>)
    ensures LoadAll(ext, coordinates).failure.None? <==>
      forall k :: 0 <= k < |coordinates| ==> LoadExtension(ext, coordinates[k]).failure.None?
  {
    if coordinates != [] {
      var init := coordinates[..|coordinates| - 1];
      LoadAllSucceedsIff(ext, init);
      assert forall k :: 0 <= k < |init| ==> init[k] == coordinates[k];
    }
  }

  /**
   * The first coordinate that fails aborts the run: its error is the run's,
   * and no later coordinate changes the outcome.
   */
  lemma {:induction false} FirstFailureAborts(ext: Extensions, coordinates: seq<string>, k: nat)
    requires k < |coordinates|
    requires forall j :: 0 <= j < k ==> LoadExtension(ext, coordinates[j]).failure.None?
    requires LoadExtension(ext, coordinates[k]).failure.Some?
    ensures LoadAll(ext, coordinates) == LoadAll(ext, coordinates[..k + 1])
    ensures LoadAll(ext, coordinates).failure == LoadExtension(ext, coordinates[k]).failure
  {
    var prefix := coordinates[..k + 1];
    assert prefix[..k] == coordinates[..k];
    LoadAllSucceedsIff(ext, coordinates[..k]);
    if |coordinates| > k + 1 {
      var init := coordinates[..|coordinates| - 1];
      assert init[..k + 1] == prefix;
      FirstFailureAborts(ext, init, k);
    }
  }

  lemma LaterCoordinatesIgnored(ext: Extensions, coordinates: seq<string>, i: nat)
    requires i < |coordinates|
    requires LoadAll(ext, coordinates[..i]).failure == None
    requires LoadExtension(ext, coordinates[i]).failure.Some?
    ensures LoadAll(ext, coordinates) ==
      Partial(LoadAll(ext, coordinates[..i]).done + LoadExtension(ext, coordinates[i]).done,
              LoadExtension(ext, coordinates[i]).failure)
  {
    LoadAllSucceedsIff(ext, coordinates[..i]);
    assert forall j :: 0 <= j < i ==> coordinates[..i][j] == coordinates[j];
    FirstFailureAborts(ext, coordinates, i);
    LoadAllSnoc(ext, coordinates, i);
  }

  /**
   * Extension modules are grouped by coordinate in configured order: when a
   * prefix of the coordinates loads, the rest adds its modules after it.
   */
  lemma {:induction false} LoadAllConcat(ext: Extensions, a: seq<string>, b: seq<string>)
    requires LoadAll(ext, a).failure.None?
    ensures LoadAll(ext, a + b) ==
      Partial(LoadAll(ext, a).done + LoadAll(ext, b).done, LoadAll(ext, b).failure)
  {
    if b == [] {
      assert a + b == a;
    } else {
      var init := b[..|b| - 1];
      assert (a + b)[..|a + b| - 1] == a + init;
      assert (a + b)[|a + b| - 1] == b[|b| - 1];
      LoadAllConcat(ext, a, init);
    }
  }

  /**
   * Extension loading fails only because one of its own coordinates did not
   * resolve, or because a provider failed to load.
   */
  lemma {:induction false} ExtensionFailureKinds(ext: Extensions, coordinates: seq<string>)
    ensures var f := LoadAll(ext, coordinates).failure;
      f.Some? ==> (f.value.ResolutionFailed? && f.value.coordinate in coordinates) || f.value.ExtensionLoadFailed?
  {
    if coordinates != [] {
      var init := coordinates[..|coordinates| - 1];
      ExtensionFailureKinds(ext, init);
      assert coordinates == init + [coordinates[|coordinates| - 1]];
    }
  }

  /** The static part succeeds exactly when every input is of an accepted shape. */
  lemma {:induction false} AcceptAllSucceedsIff(injector: Injector, inputs: seq<ModuleInput>)
    ensures AcceptAll(injector, inputs).failure.None? <==>
      forall k :: 0 <= k < |inputs| ==> Accept(injector, inputs[k]).Ok?
  {
    if inputs != [] {
      var init := inputs[..|inputs| - 1];
      AcceptAllSucceedsIff(injector, init);
      assert forall k :: 0 <= k < |init| ==> init[k] == inputs[k];
    }
  }

  /** When the static part succeeds, it holds one module per input, in input order. */
  lemma {:induction false} AcceptAllPointwise(injector: Injector, inputs: seq<ModuleInput>)
    requires AcceptAll(injector, inputs).failure.None?
    ensures |AcceptAll(injector, inputs).done| == |inputs|
    ensures forall k :: 0 <= k < |inputs| ==>
      Accept(injector, inputs[k]) == Ok(AcceptAll(injector, inputs).done[k])
  {
    if inputs != [] {
      var init := inputs[..|inputs| - 1];
      AcceptAllPointwise(injector, init);
      assert forall k :: 0 <= k < |init| ==> init[k] == inputs[k];
    }
  }

  lemma SecondaryModuleAccepted(injector: Injector)
    ensures Accept(injector, SecondaryModuleClass).Ok?
    ensures AcceptAll(injector, [SecondaryModuleClass]) ==
      Partial([Accept(injector, SecondaryModuleClass).value], None)
  {
    assert [SecondaryModuleClass][..0] == [];
  }

  lemma AcceptAllSnoc(injector: Injector, inputs: seq<ModuleInput>, input: ModuleInput)
    requires AcceptAll(injector, inputs).failure.None?
    ensures AcceptAll(injector, inputs + [input]) ==
      match Accept(injector, input)
      case Ok(m) => Partial(AcceptAll(injector, inputs).done + [m], None)
      case Err(e) => Partial(AcceptAll(injector, inputs).done, Some(e))
  {
    assert (inputs + [input])[..|inputs|] == inputs;
  }

  /** Once an input is rejected, later inputs change nothing: the run has aborted. */
  lemma {:induction false} AcceptAllFailureSticks(injector: Injector, inputs: seq<ModuleInput>, later: seq<ModuleInput>)
    requires AcceptAll(injector, inputs).failure.Some?
    ensures AcceptAll(injector, inputs + later) == AcceptAll(injector, inputs)
  {
    if later == [] {
      assert inputs + later == inputs;
    } else {
      var init := later[..|later| - 1];
      assert (inputs + later)[..|inputs + later| - 1] == inputs + init;
      AcceptAllFailureSticks(injector, inputs, init);
    }
  }

  lemma LaterInputsIgnored(injector: Injector, inputs: seq<ModuleInput>, i: nat)
    requires i < |inputs|
    requires AcceptAll(injector, [SecondaryModuleClass] + inputs[..i + 1]).failure.Some?
    ensures AcceptAll(injector, [SecondaryModuleClass] + inputs) ==
      AcceptAll(injector, [SecondaryModuleClass] + inputs[..i + 1])
  {
    AcceptAllFailureSticks(injector, [SecondaryModuleClass] + inputs[..i + 1], inputs[i + 1..]);
    assert [SecondaryModuleClass] + inputs[..i + 1] + inputs[i + 1..] == [SecondaryModuleClass] + inputs;
  }

  /**
   * A successful run yields DruidSecondaryModule, then one module per caller
   * input in the order supplied, then the extension modules.
   */
  lemma ComposedOrder(injector: Injector, ext: Extensions, inputs: seq<ModuleInput>)
    requires Composition(injector, ext, inputs).failure.None?
    ensures var ms := Composition(injector, ext, inputs).done;
      && |ms| == 1 + |inputs| + |LoadAll(ext, injector.coordinates).done|
      && ms[0] == Plain(injector.moduleInstance("io.druid.guice.DruidSecondaryModule"))
      && (forall k :: 0 <= k < |inputs| ==> Accept(injector, inputs[k]) == Ok(ms[1 + k]))
      && ms[1 + |inputs|..] == AsModules(LoadAll(ext, injector.coordinates).done)
  {
    var all := [SecondaryModuleClass] + inputs;
    AcceptAllPointwise(injector, all);
    assert forall k :: 0 <= k < |inputs| ==> all[1 + k] == inputs[k];
  }

  /**
   * With no extension coordinates and inputs of accepted shapes, the final
   * list is DruidSecondaryModule followed by exactly the caller's modules.
   */
  lemma NoExtensionsComposition(injector: Injector, ext: Extensions, inputs: seq<ModuleInput>)
    requires injector.coordinates == []
    requires forall k :: 0 <= k < |inputs| ==> Accept(injector, inputs[k]).Ok?
    ensures Composition(injector, ext, inputs) ==
      Partial([Plain(injector.moduleInstance("io.druid.guice.DruidSecondaryModule"))]
               + seq(|inputs|, k requires 0 <= k < |inputs| => Accept(injector, inputs[k]).value),
               None)
  {
    var all := [SecondaryModuleClass] + inputs;
    assert forall k :: 0 <= k < |inputs| ==> all[1 + k] == inputs[k];
    assert forall k :: 0 <= k < |all| ==> Accept(injector, all[k]).Ok?;
    AcceptAllSucceedsIff(injector, all);
    AcceptAllPointwise(injector, all);
    var done := AcceptAll(injector, all).done;
    var expected := [Plain(injector.moduleInstance("io.druid.guice.DruidSecondaryModule"))]
      + seq(|inputs|, k requires 0 <= k < |inputs| => Accept(injector, inputs[k]).value);
    assert done == expected by {
      assert |done| == |expected|;
      forall k | 0 <= k < |done| ensures done[k] == expected[k] {
        if k > 0 {
          assert all[k] == inputs[k - 1];
        }
      }
    }
    assert LoadAll(ext, injector.coordinates) == Partial([], None);
    assert done + AsModules([]) == done;
  }
}
