/**
 * Client scenarios whose postconditions are what they check. Most restate a
 * test of the container's unit-test fixture; `ClearScenario` rests on the
 * fixture's set-up, which clears the container, and `ReRegisterScenario`
 * states what registering a key twice implies. Each scenario starts from
 * an empty container.
 */
module TikoContainerTest {
  import opened Tiko

  const TestPropertyKey := TypeKey("UnitTests.TestProperty")
  const TestClassKey := TypeKey("UnitTests.TestClass")
  const ITestClassKey := TypeKey("UnitTests.ITestClass")

  /** `TestClass`: a marked `TestProperty` property followed by an unmarked one of the same type. */
  const TestClassInfo := TypeInfo(TestClassKey, [
    Property("TestProperty", TestPropertyKey, [DependencyAttributeKey]),
    Property("TestProperty1", TestPropertyKey, [])
  ])

  /** The interface `ITestClass` declares no properties. */
  const ITestClassInfo := TypeInfo(ITestClassKey, [])

  /** Injecting into a fresh `TestClass` sets exactly its marked property. */
  lemma TestClassInjected(singletons: map<TypeKey, Obj>)
    requires TestPropertyKey in singletons
    ensures Covers(TestClassInfo.properties, singletons)
    ensures Inject(map[], TestClassInfo.properties, singletons) == map["TestProperty" := singletons[TestPropertyKey]]
  {
    var ps := TestClassInfo.properties;
    var first := ps[..1];
    assert first[..0] == [];
    assert Inject(map[], first, singletons) == map["TestProperty" := singletons[TestPropertyKey]];
    assert ps[..|ps| - 1] == first;
  }

  /** Resolve `TestClass` with `TestProperty` registered. */
  method ResolveTestClass(c: TikoContainer) returns (o: Obj)
    requires c.Valid() && c.registered.Keys == {TestPropertyKey}
    modifies c.registered.Values
    ensures c.Valid() && c.registered == old(c.registered)
    ensures fresh(o) && c.registered[TestPropertyKey].cache.Some?
    ensures old(c.registered[TestPropertyKey].cache).Some? ==>
              c.registered[TestPropertyKey].cache == old(c.registered[TestPropertyKey].cache)
    ensures o.fields == map["TestProperty" := c.registered[TestPropertyKey].cache.value]
  {
    assert FirstMissing(TestClassInfo.properties, c.registered.Keys).None?;
    var r := c.Resolve(TestClassInfo);
    o := r.value;
    assert TestClassInfo.properties[..2] == TestClassInfo.properties;
    TestClassInjected(Materialised(c.Cells()));
  }

  /** Build-up fills the marked property and leaves the unmarked one of the same type null. */
  method BuildUpScenario() returns (marked: Option<Obj>, unmarked: Option<Obj>)
    ensures marked.Some? && unmarked.None?
  {
    var c := new TikoContainer();
    c.Clear();
    c.RegisterSelf(TestPropertyKey);
    var result := new Obj(TestClassKey);
    var ps := TestClassInfo.properties;
    assert FirstMissing(ps, c.registered.Keys).None?;
    var r := c.BuildUp(TestClassInfo, result);
    assert ps[..2] == ps;
    TestClassInjected(Materialised(c.Cells()));
    marked := result.Get("TestProperty");
    unmarked := result.Get("TestProperty1");
  }

  /** Registering an interface to a class makes it resolvable, to an instance of that class. */
  method RegisterScenario() returns (result: Result<Obj, Error>)
    ensures result.Success? && result.value.typeKey == TestClassKey
  {
    var c := new TikoContainer();
    c.Clear();
    c.Register(ITestClassKey, TestClassKey);
    result := c.Resolve(ITestClassInfo);
  }

  /** Two resolutions of a registered interface give the very same instance. */
  method RegisterAsSingletonScenario() returns (first: Result<Obj, Error>, second: Result<Obj, Error>)
    ensures first.Success? && second.Success? && first.value == second.value
  {
    var c := new TikoContainer();
    c.Clear();
    c.Register(ITestClassKey, TestClassKey);
    first := c.Resolve(ITestClassInfo);
    second := c.Resolve(ITestClassInfo);
  }

  /**
   * Resolving the unregistered `TestClass` twice gives two distinct built-up
   * instances whose marked property holds the same `TestProperty` singleton
   * and whose unmarked property stays null.
   */
  method ResolveScenario() returns (first: Obj, second: Obj)
    ensures first != second
    ensures first.Get("TestProperty").Some? && first.Get("TestProperty") == second.Get("TestProperty")
    ensures first.Get("TestProperty1").None? && second.Get("TestProperty1").None?
  {
    var c := new TikoContainer();
    c.Clear();
    c.RegisterSelf(TestPropertyKey);
    first := ResolveTestClass(c);
    second := ResolveTestClass(c);
  }

  /** Resolving `TestClass` with its dependency unregistered fails, naming `TestClass`. */
  method MissingDependencyScenario() returns (result: Result<Obj, Error>)
    ensures result == Failure(DependencyMissing(TestClassKey))
  {
    var c := new TikoContainer();
    c.Clear();
    assert FirstMissing(TestClassInfo.properties, c.registered.Keys) == Some(0);
    result := c.Resolve(TestClassInfo);
  }

  /** After a clear, a type that resolved before is unregistered again. */
  method ClearScenario() returns (before: Result<Obj, Error>, found: bool, after: Result<Obj, Error>)
    ensures before.Success? && !found && after == Failure(DependencyMissing(TestClassKey))
  {
    var c := new TikoContainer();
    c.RegisterSelf(TestPropertyKey);
    assert FirstMissing(TestClassInfo.properties, c.registered.Keys).None?;
    before := c.Resolve(TestClassInfo);
    c.Clear();
    var resolved;
    found, resolved := c.ResolveObject(TestPropertyKey);
    assert FirstMissing(TestClassInfo.properties, c.registered.Keys) == Some(0);
    after := c.Resolve(TestClassInfo);
  }

  /** Registering a key again discards the singleton created for the earlier registration. */
  method ReRegisterScenario() returns (first: Result<Obj, Error>, second: Result<Obj, Error>)
    ensures first.Success? && second.Success? && first.value != second.value
  {
    var c := new TikoContainer();
    c.Register(ITestClassKey, TestClassKey);
    first := c.Resolve(ITestClassInfo);
    c.Register(ITestClassKey, TestClassKey);
    second := c.Resolve(ITestClassInfo);
  }
}
