/**
 * A model of the Tiko inversion-of-control container: a registry from type
 * keys to lazily created singletons, property injection ("build-up") driven
 * by a per-property marker, and resolution of a requested type.
 *
 * Reflection is replaced by explicit metadata: a type is a `TypeKey`, and what
 * the runtime would report about its public properties is a `TypeInfo`.
 */
module Tiko {

  datatype Option<+T> = None | Some(value: T)

  datatype Result<+R, +E> = Success(value: R) | Failure(error: E)

  /**
   * Identity of a runtime type object: two keys are the same type exactly
   * when they are equal. `id` is an identifier unique to the type, not its
   * (possibly shared) name.
   */
  datatype TypeKey = TypeKey(id: string)

  /** The key of the `[Dependency]` attribute class. */
  const DependencyAttributeKey := TypeKey("Tiko.DependencyAttribute")

  /**
   * One public property of a type: its name, its declared type, and the
   * types of the custom attributes declared on it (not inherited ones).
   */
  datatype Property = Property(name: string, propertyType: TypeKey, attributes: seq<TypeKey>)

  /** What reflection reports about a type: its key and its public properties in the order reflection reports them. */
  datatype TypeInfo = TypeInfo(key: TypeKey, properties: seq<Property>)

  /** The container's single error outcome; it names the type being built up, not the missing dependency. */
  datatype Error = DependencyMissing(builtUp: TypeKey)

  /**
   * The property names of one type are distinct. This is assumed, not guaranteed:
   * reflection can report two properties of the same name, such as a base
   * property hidden by `new`, and an object here keeps one slot per name.
   */
  predicate DistinctNames(ps: seq<Property>)
  {
    forall i, j :: 0 <= i < j < |ps| ==> ps[i].name != ps[j].name
  }

  /** The attributes of `attrs` whose type is `kind`, in order. */
  function AttributesOfType(attrs: seq<TypeKey>, kind: TypeKey): (r: seq<TypeKey>)
    ensures forall a :: a in r ==> a == kind
    ensures |r| == multiset(attrs)[kind]
  {
    if attrs == [] then []
    else
      assert attrs == [attrs[0]] + attrs[1..];
      var rest := AttributesOfType(attrs[1..], kind);
      if attrs[0] == kind then [kind] + rest else rest
  }

  /** A property takes part in injection exactly when the `[Dependency]` attribute is declared on it. */
  predicate IsResolveProperty(p: Property)
  {
    DependencyAttributeKey in p.attributes
  }

  /**
   * The marker test as the container performs it, by asking for the
   * property's `[Dependency]` attributes and checking that there is at least
   * one, agrees with `IsResolveProperty`.
   */
  lemma DependencyAttributeLookup(p: Property)
    ensures |AttributesOfType(p.attributes, DependencyAttributeKey)| != 0 <==> IsResolveProperty(p)
  {
  }

  /** Build-up can get past `p`: either it is not injected, or its type has a registration. */
  predicate Satisfied(p: Property, registered: set<TypeKey>)
  {
    IsResolveProperty(p) ==> p.propertyType in registered
  }

  /**
   * The index of the first marked property whose type has no registration,
   * which is where build-up stops with a missing dependency.
   */
  function FirstMissing(ps: seq<Property>, registered: set<TypeKey>): (r: Option<nat>)
    ensures r.Some? ==> r.value < |ps| && IsResolveProperty(ps[r.value])
                        && ps[r.value].propertyType !in registered
    ensures r.Some? ==> forall j :: 0 <= j < r.value ==> Satisfied(ps[j], registered)
    ensures r.None? <==> forall j :: 0 <= j < |ps| ==> Satisfied(ps[j], registered)
  {
    if ps == [] then None
    else if !Satisfied(ps[0], registered) then Some(0)
    else
      match FirstMissing(ps[1..], registered)
      case None => None
      case Some(i) => Some(i + 1)
  }

  /** How many properties build-up walks through: all of them, or up to the first missing dependency. */
  function Processed(ps: seq<Property>, registered: set<TypeKey>): (n: nat)
    ensures n <= |ps|
    ensures forall j :: 0 <= j < n ==> Satisfied(ps[j], registered)
    ensures n < |ps| ==> !Satisfied(ps[n], registered)
  {
    match FirstMissing(ps, registered)
    case None => |ps|
    case Some(i) => i
  }

  /** The types of the marked properties in `ps`. */
  ghost function MarkedTypes(ps: seq<Property>): set<TypeKey>
  {
    set j | 0 <= j < |ps| && IsResolveProperty(ps[j]) :: ps[j].propertyType
  }

  /** Every marked property in `ps` has a value in `singletons`. */
  ghost predicate Covers(ps: seq<Property>, singletons: map<TypeKey, Obj>)
  {
    forall j :: 0 <= j < |ps| && IsResolveProperty(ps[j]) ==> ps[j].propertyType in singletons
  }

  /**
   * The property values after assigning, in order, each marked property of
   * `ps` the singleton of its type; unmarked properties are skipped.
   */
  ghost function Inject(fields: map<string, Obj>, ps: seq<Property>, singletons: map<TypeKey, Obj>): map<string, Obj>
    requires Covers(ps, singletons)
  {
    if ps == [] then fields
    else
      var last := ps[|ps| - 1];
      var before := Inject(fields, ps[..|ps| - 1], singletons);
      if IsResolveProperty(last) then before[last.name := singletons[last.propertyType]] else before
  }

  /** A name that no marked property of `ps` carries keeps its value (or its absence). */
  lemma {:induction false} InjectKeepsUnmarked(fields: map<string, Obj>, ps: seq<Property>,
                                               singletons: map<TypeKey, Obj>, n: string)
    requires Covers(ps, singletons)
    requires forall j :: 0 <= j < |ps| && IsResolveProperty(ps[j]) ==> ps[j].name != n
    ensures n in Inject(fields, ps, singletons) <==> n in fields
    ensures n in fields ==> Inject(fields, ps, singletons)[n] == fields[n]
  {
    if ps != [] {
      InjectKeepsUnmarked(fields, ps[..|ps| - 1], singletons, n);
    }
  }

  /** Each marked property ends up holding the singleton of its declared type. */
  lemma {:induction false} InjectSetsMarked(fields: map<string, Obj>, ps: seq<Property>,
                                            singletons: map<TypeKey, Obj>, j: nat)
    requires Covers(ps, singletons) && DistinctNames(ps)
    requires j < |ps| && IsResolveProperty(ps[j])
    ensures ps[j].name in Inject(fields, ps, singletons)
    ensures Inject(fields, ps, singletons)[ps[j].name] == singletons[ps[j].propertyType]
  {
    var init := ps[..|ps| - 1];
    if j < |ps| - 1 {
      InjectSetsMarked(fields, init, singletons, j);
    }
  }

  /** Injection depends only on the singletons of the marked property types. */
  lemma {:induction false} InjectAgree(fields: map<string, Obj>, ps: seq<Property>,
                                       s1: map<TypeKey, Obj>, s2: map<TypeKey, Obj>)
    requires Covers(ps, s1) && Covers(ps, s2)
    requires forall j :: 0 <= j < |ps| && IsResolveProperty(ps[j]) ==> s1[ps[j].propertyType] == s2[ps[j].propertyType]
    ensures Inject(fields, ps, s1) == Inject(fields, ps, s2)
  {
    if ps != [] {
      InjectAgree(fields, ps[..|ps| - 1], s1, s2);
    }
  }

  /**
   * The effect of a build-up that processed the first `stop` properties, on
   * each property: a marked property before `stop` holds its type's
   * singleton; every other property (unmarked, or at or after `stop`) keeps
   * the value it had.
   */
  lemma BuildUpEffect(fields: map<string, Obj>, ps: seq<Property>, stop: nat,
                      singletons: map<TypeKey, Obj>, j: nat)
    requires DistinctNames(ps) && stop <= |ps| && Covers(ps[..stop], singletons)
    requires j < |ps|
    ensures var after := Inject(fields, ps[..stop], singletons);
            if j < stop && IsResolveProperty(ps[j]) then
              ps[j].name in after && after[ps[j].name] == singletons[ps[j].propertyType]
            else
              (ps[j].name in after <==> ps[j].name in fields)
              && (ps[j].name in fields ==> after[ps[j].name] == fields[ps[j].name])
  {
    var done := ps[..stop];
    if j < stop && IsResolveProperty(ps[j]) {
      InjectSetsMarked(fields, done, singletons, j);
    } else {
      InjectKeepsUnmarked(fields, done, singletons, ps[j].name);
    }
  }

  /** The singletons held by a registry's lazy cells, by key. */
  ghost function Materialised(cells: map<TypeKey, Option<Obj>>): map<TypeKey, Obj>
  {
    map k | k in cells && cells[k].Some? :: cells[k].value
  }

  /**
   * The registry's cells went from `c0` to `c1` by lookups alone: the same
   * keys, no singleton replaced or dropped, and exactly the keys in `looked`
   * filled where they were empty.
   */
  ghost predicate Advanced(c0: map<TypeKey, Option<Obj>>, c1: map<TypeKey, Option<Obj>>, looked: set<TypeKey>)
  {
    && c1.Keys == c0.Keys
    && (forall k :: k in c0 && c0[k].Some? ==> c1[k] == c0[k])
    && (forall k :: k in c0 ==> (c1[k].Some? <==> c0[k].Some? || k in looked))
  }

  /** Injecting one more property extends the injection of the properties before it. */
  lemma InjectStep(fields: map<string, Obj>, ps: seq<Property>, i: nat, singletons: map<TypeKey, Obj>)
    requires i < |ps| && Covers(ps[..i + 1], singletons)
    ensures Covers(ps[..i], singletons)
    ensures Inject(fields, ps[..i + 1], singletons)
            == if IsResolveProperty(ps[i]) then Inject(fields, ps[..i], singletons)[ps[i].name := singletons[ps[i].propertyType]]
               else Inject(fields, ps[..i], singletons)
  {
    assert ps[..i + 1][..i] == ps[..i];
  }

  /**
   * Two marked properties of the same name share one slot: injecting both
   * leaves only the later one's singleton.
   */
  lemma {:induction false} SharedNameOverwrites(fields: map<string, Obj>, first: Property, second: Property,
                                                singletons: map<TypeKey, Obj>)
    requires first.name == second.name && IsResolveProperty(first) && IsResolveProperty(second)
    requires first.propertyType in singletons && second.propertyType in singletons
    ensures Covers([first, second], singletons)
    ensures Inject(fields, [first, second], singletons) == fields[second.name := singletons[second.propertyType]]
  {
    var ps := [first, second];
    var n, v := second.name, singletons[second.propertyType];
    assert ps[..1] == [first];
    assert [first][..0] == [];
    assert Inject(fields, [first], singletons) == fields[n := singletons[first.propertyType]];
    assert fields[n := singletons[first.propertyType]][n := v] == fields[n := v];
  }

  /** Filling one cell adds exactly that singleton. */
  lemma MaterialisedUpdate(cells: map<TypeKey, Option<Obj>>, k: TypeKey, o: Obj)
    ensures Materialised(cells[k := Some(o)]) == Materialised(cells)[k := o]
  {
  }

  /**
   * Build-up has walked the first `i` properties of `ps` without a missing
   * dependency: the registry's cells went from `initial` to `cells` by
   * looking up exactly the marked types seen so far, and the property values
   * went from `fields0` to `fields` by injecting those properties.
   */
  ghost predicate Progress(initial: map<TypeKey, Option<Obj>>, cells: map<TypeKey, Option<Obj>>,
                           fields0: map<string, Obj>, fields: map<string, Obj>, ps: seq<Property>, i: nat)
  {
    && i <= |ps|
    && (forall j :: 0 <= j < i ==> Satisfied(ps[j], cells.Keys))
    && Advanced(initial, cells, MarkedTypes(ps[..i]))
    && Covers(ps[..i], Materialised(cells))
    && fields == Inject(fields0, ps[..i], Materialised(cells))
  }

  /**
   * One marked property processed: its cell is filled with `o` (or already
   * held `o`), and `o` is assigned to the property.
   */
  lemma MarkedStep(initial: map<TypeKey, Option<Obj>>, cells: map<TypeKey, Option<Obj>>,
                   fields0: map<string, Obj>, fields: map<string, Obj>, ps: seq<Property>, i: nat, o: Obj)
    requires Progress(initial, cells, fields0, fields, ps, i)
    requires i < |ps| && IsResolveProperty(ps[i]) && ps[i].propertyType in cells
    requires cells[ps[i].propertyType].Some? ==> cells[ps[i].propertyType] == Some(o)
    ensures Progress(initial, cells[ps[i].propertyType := Some(o)], fields0, fields[ps[i].name := o], ps, i + 1)
  {
    var k := ps[i].propertyType;
    var next := cells[k := Some(o)];
    assert ps[..i + 1][..i] == ps[..i];
    assert MarkedTypes(ps[..i + 1]) == MarkedTypes(ps[..i]) + {k};
    MaterialisedUpdate(cells, k, o);
    InjectAgree(fields0, ps[..i], Materialised(cells), Materialised(next));
    InjectStep(fields0, ps, i, Materialised(next));
  }

  /** One unmarked property processed: nothing changes. */
  lemma UnmarkedStep(initial: map<TypeKey, Option<Obj>>, cells: map<TypeKey, Option<Obj>>,
                     fields0: map<string, Obj>, fields: map<string, Obj>, ps: seq<Property>, i: nat)
    requires Progress(initial, cells, fields0, fields, ps, i)
    requires i < |ps| && !IsResolveProperty(ps[i])
    ensures Progress(initial, cells, fields0, fields, ps, i + 1)
  {
    assert ps[..i + 1][..i] == ps[..i];
    assert MarkedTypes(ps[..i + 1]) == MarkedTypes(ps[..i]);
    InjectStep(fields0, ps, i, Materialised(cells));
  }

  /**
   * Every cell that was empty in `initial` and is filled in `cells` holds one
   * of the objects in `created`.
   */
  ghost predicate FilledFrom(initial: map<TypeKey, Option<Obj>>, cells: map<TypeKey, Option<Obj>>, created: set<Obj>)
  {
    forall k :: k in initial && initial[k].None? && k in cells && cells[k].Some? ==> cells[k].value in created
  }

  /** No two cells that were empty in `initial` and are filled in `cells` hold the same object. */
  ghost predicate FilledDistinct(initial: map<TypeKey, Option<Obj>>, cells: map<TypeKey, Option<Obj>>)
  {
    forall k1, k2 :: k1 in initial && k2 in initial && k1 != k2 && initial[k1].None? && initial[k2].None?
                     && k1 in cells && k2 in cells && cells[k1].Some? && cells[k2].Some?
                     ==> cells[k1].value != cells[k2].value
  }

  /** Filling an empty cell with `o` adds `o` to the created objects; a filled cell keeps its object. */
  lemma FilledStep(initial: map<TypeKey, Option<Obj>>, cells: map<TypeKey, Option<Obj>>, created: set<Obj>,
                   k: TypeKey, o: Obj)
    requires FilledFrom(initial, cells, created) && FilledDistinct(initial, cells)
    requires k in cells && (cells[k].Some? ==> cells[k] == Some(o)) && (cells[k].None? ==> o !in created)
    ensures FilledFrom(initial, cells[k := Some(o)], if cells[k].None? then created + {o} else created)
    ensures FilledDistinct(initial, cells[k := Some(o)])
  {
  }

  /** Every object of `objs` still has all its properties null. */
  ghost predicate Pristine(objs: set<Obj>)
    reads objs
  {
    forall o :: o in objs ==> o.fields == map[]
  }

  /** An object: its runtime type and its property values (a name that is absent holds null). */
  class Obj {
    const typeKey: TypeKey
    /** One slot per property name; properties that share a name share the slot. */
    var fields: map<string, Obj>

    /** Default construction: every property is null. */
    constructor (t: TypeKey)
      ensures typeKey == t && fields == map[]
    {
      typeKey := t;
      fields := map[];
    }

    /** The value of property `name`, `None` standing for null. */
    function Get(name: string): (v: Option<Obj>)
      reads this
      ensures v.Some? <==> name in fields
      ensures v.Some? ==> v.value == fields[name]
    {
      if name in fields then Some(fields[name]) else None
    }
  }

  /**
   * A registration: the concrete type its factory constructs and the lazy
   * cell holding the singleton once the factory has run. `key` is the type
   * key it was registered under and `factoryRuns` counts the factory's
   * executions; both exist for the proofs only.
   */
  class RegisteredObject {
    ghost const key: TypeKey
    const concrete: TypeKey
    var cache: Option<Obj>
    ghost var factoryRuns: nat

    ghost predicate Valid()
      reads this
    {
      && factoryRuns == (if cache.Some? then 1 else 0)
      && (cache.Some? ==> cache.value.typeKey == concrete)
    }

    /** A registration whose factory has not run. */
    constructor (ghost key: TypeKey, concrete: TypeKey)
      ensures Valid()
      ensures this.key == key && this.concrete == concrete && cache == None && factoryRuns == 0
    {
      this.key := key;
      this.concrete := concrete;
      cache := None;
      factoryRuns := 0;
    }

    /** The singleton: created by the factory on the first call, returned as it is on every later call. */
    method Instance() returns (o: Obj)
      requires Valid()
      modifies this
      ensures Valid() && cache == Some(o)
      ensures old(cache).Some? ==> o == old(cache).value && factoryRuns == old(factoryRuns)
      ensures old(cache).None? ==> fresh(o) && o.typeKey == concrete && o.fields == map[]
                                   && factoryRuns == old(factoryRuns) + 1
    {
      if cache.None? {
        var created := new Obj(concrete);
        cache := Some(created);
        factoryRuns := factoryRuns + 1;
      }
      o := cache.value;
    }
  }

  /** The container: one registration per registered type key. */
  class TikoContainer {
    var registered: map<TypeKey, RegisteredObject>

    /**
     * Every registration is well formed and knows its own key, so no two
     * keys share a registration.
     */
    ghost predicate Valid()
      reads this, registered.Values
    {
      forall k :: k in registered ==> registered[k].key == k && registered[k].Valid()
    }

    /** The lazy cell of every registration, by key. */
    ghost function Cells(): (c: map<TypeKey, Option<Obj>>)
      reads this, registered.Values
      ensures c.Keys == registered.Keys
    {
      map k | k in registered :: registered[k].cache
    }

    /** The registry starts empty. */
    constructor ()
      ensures Valid() && registered == map[]
    {
      registered := map[];
    }

    /** Forget every registration and every singleton. */
    method Clear()
      modifies this
      ensures Valid() && registered == map[]
    {
      registered := map[];
    }

    /**
     * Register `from` to be served by a new instance of `to`. The factory does
     * not run; an earlier registration of `from`, with its singleton, is
     * replaced; every other key keeps its registration.
     */
    method Register(from: TypeKey, to: TypeKey)
      requires Valid()
      modifies this
      ensures Valid()
      ensures registered.Keys == old(registered.Keys) + {from}
      ensures fresh(registered[from])
      ensures registered[from].concrete == to && registered[from].cache == None
      ensures registered[from].factoryRuns == 0
      ensures forall k :: k in old(registered) && k != from ==> registered[k] == old(registered[k])
      ensures Cells() == old(Cells())[from := None]
    {
      var entry := new RegisteredObject(from, to);
      registered := registered[from := entry];
    }

    /** Register a type to be served by a new instance of itself. */
    method RegisterSelf(t: TypeKey)
      requires Valid()
      modifies this
      ensures Valid()
      ensures registered.Keys == old(registered.Keys) + {t}
      ensures fresh(registered[t])
      ensures registered[t].concrete == t && registered[t].cache == None
      ensures registered[t].factoryRuns == 0
      ensures forall k :: k in old(registered) && k != t ==> registered[k] == old(registered[k])
      ensures Cells() == old(Cells())[t := None]
    {
      Register(t, t);
    }

    /**
     * Total lookup. A registered key is found and its singleton returned
     * (created on first access); an unregistered key is not found, the result
     * is null and nothing changes. No other registration changes.
     */
    method ResolveObject(k: TypeKey) returns (found: bool, resolved: Obj?)
      requires Valid()
      modifies registered.Values
      ensures Valid() && registered == old(registered)
      ensures found <==> k in registered
      ensures !found ==> resolved == null && Cells() == old(Cells())
      ensures found ==> resolved != null && Cells() == old(Cells())[k := Some(resolved)]
      ensures found && old(Cells())[k].Some? ==>
                resolved == old(Cells())[k].value
                && registered[k].factoryRuns == old(registered[k].factoryRuns)
      ensures found && old(Cells())[k].None? ==>
                fresh(resolved) && resolved.typeKey == registered[k].concrete && resolved.fields == map[]
      ensures forall k' :: k' in registered && k' != k ==> registered[k'].factoryRuns == old(registered[k'].factoryRuns)
    {
      if k !in registered {
        return false, null;
      }
      var entry := registered[k];
      resolved := entry.Instance();
      found := true;
    }

    /**
     * Build-up's handling of one marked property: look its type up and, when
     * found, assign the singleton to the property; when not found, nothing
     * changes. A singleton created by the lookup is a new default-constructed
     * object.
     */
    method AssignDependency(p: Property, existing: Obj) returns (found: bool, resolved: Obj?)
      requires Valid()
      modifies registered.Values, existing
      ensures Valid() && registered == old(registered)
      ensures found <==> p.propertyType in registered
      ensures !found ==> Cells() == old(Cells()) && existing.fields == old(existing.fields)
      ensures found ==> && resolved != null
                        && Cells() == old(Cells())[p.propertyType := Some(resolved)]
                        && (old(Cells())[p.propertyType].Some? ==> old(Cells())[p.propertyType] == Some(resolved))
                        && existing.fields == old(existing.fields)[p.name := resolved]
      ensures found && old(Cells())[p.propertyType].None? ==> fresh(resolved) && resolved.fields == map[]
    {
      found, resolved := ResolveObject(p.propertyType);
      if found {
        label BeforeAssign:
        existing.fields := existing.fields[p.name := resolved];
        assert unchanged@BeforeAssign(this, registered.Values);
      }
    }

    /**
     * One iteration of build-up's walk: the property at `i` is skipped when
     * unmarked and handed to `AssignDependency` when marked. The ghost
     * parameters carry the walk so far: the cells and property values it
     * started from, and the singletons it has created.
     */
    method WalkStep(ps: seq<Property>, i: nat, existing: Obj, ghost initial: map<TypeKey, Option<Obj>>,
                    ghost fields0: map<string, Obj>, ghost created: set<Obj>)
      returns (passed: bool, ghost created': set<Obj>)
      requires Valid() && i < |ps|
      requires Progress(initial, Cells(), fields0, existing.fields, ps, i)
      requires FilledFrom(initial, Cells(), created) && FilledDistinct(initial, Cells())
      requires existing !in created && Pristine(created)
      modifies registered.Values, existing
      ensures Valid() && registered == old(registered)
      ensures passed <==> Satisfied(ps[i], registered.Keys)
      ensures passed ==> Progress(initial, Cells(), fields0, existing.fields, ps, i + 1)
      ensures !passed ==> Cells() == old(Cells()) && existing.fields == old(existing.fields)
      ensures FilledFrom(initial, Cells(), created') && FilledDistinct(initial, Cells())
      ensures existing !in created' && Pristine(created')
      ensures forall o :: o in created' && o !in created ==> fresh(o)
    {
      var p := ps[i];
      if !IsResolveProperty(p) {
        UnmarkedStep(initial, Cells(), fields0, existing.fields, ps, i);
        return true, created;
      }
      ghost var cells, fieldsBefore := Cells(), existing.fields;
      var found, resolved := AssignDependency(p, existing);
      if !found {
        return false, created;
      }
      var singleton: Obj := resolved;
      assert Cells() == cells[p.propertyType := Some(singleton)];
      assert Pristine(created);
      MarkedStep(initial, cells, fields0, fieldsBefore, ps, i, singleton);
      FilledStep(initial, cells, created, p.propertyType, singleton);
      created' := if cells[p.propertyType].None? then created + {singleton} else created;
      passed := true;
    }

    /**
     * Inject the registered singletons into the marked properties of
     * `existing`, walking the properties of `t` in the order reflection reports them. The
     * walk stops at the first marked property whose type is unregistered and
     * fails with that error naming `t`; assignments made before it stay.
     * Every singleton the walk creates is a new default-constructed object.
     */
    method BuildUp(t: TypeInfo, existing: Obj) returns (r: Result<Obj, Error>)
      requires Valid()
      modifies registered.Values, existing
      ensures Valid() && registered == old(registered)
      ensures r == if FirstMissing(t.properties, registered.Keys).None? then Success(existing)
                   else Failure(DependencyMissing(t.key))
      ensures Progress(old(Cells()), Cells(), old(existing.fields), existing.fields,
                       t.properties, Processed(t.properties, registered.Keys))
      ensures forall k :: k in old(Cells()) && old(Cells())[k].None? && Cells()[k].Some? ==>
                fresh(Cells()[k].value) && Cells()[k].value.fields == map[]
      ensures FilledDistinct(old(Cells()), Cells())
    {
      var ps := t.properties;
      ghost var initial, fields0, keys := Cells(), existing.fields, registered.Keys;
      ghost var created: set<Obj> := {};
      var i := 0;
      while i < |ps|
        invariant Valid() && registered == old(registered) && keys == registered.Keys
        invariant Progress(initial, Cells(), fields0, existing.fields, ps, i)
        invariant FilledFrom(initial, Cells(), created) && FilledDistinct(initial, Cells())
        invariant existing !in created && Pristine(created)
        invariant forall o :: o in created ==> fresh(o)
      {
        var passed;
        passed, created := WalkStep(ps, i, existing, initial, fields0, created);
        if !passed {
          assert FirstMissing(ps, keys) == Some(i);
          return Failure(DependencyMissing(t.key));
        }
        i := i + 1;
      }
      assert ps[..i] == ps;
      return Success(existing);
    }

    /**
     * Resolve a type. A registered key yields its singleton as it is, with no
     * build-up; an unregistered type yields a new default-constructed
     * instance that is then built up.
     */
    method Resolve(t: TypeInfo) returns (r: Result<Obj, Error>)
      requires Valid()
      modifies registered.Values
      ensures Valid() && registered == old(registered)
      ensures t.key in registered ==>
                && r.Success?
                && Cells() == old(Cells())[t.key := Some(r.value)]
                && (old(Cells())[t.key].Some? ==> r.value == old(Cells())[t.key].value)
                && (old(Cells())[t.key].None? ==>
                      fresh(r.value) && r.value.typeKey == registered[t.key].concrete && r.value.fields == map[])
      ensures t.key !in registered ==>
                && (r.Failure? <==> FirstMissing(t.properties, registered.Keys).Some?)
                && (r.Failure? ==> r.error == DependencyMissing(t.key))
                && Advanced(old(Cells()), Cells(), MarkedTypes(t.properties[..Processed(t.properties, registered.Keys)]))
                && (r.Success? ==> && fresh(r.value) && r.value.typeKey == t.key
                                   && Progress(old(Cells()), Cells(), map[], r.value.fields,
                                               t.properties, |t.properties|))
      ensures forall k :: k in old(Cells()) && old(Cells())[k].None? && Cells()[k].Some? ==>
                fresh(Cells()[k].value) && Cells()[k].value.fields == map[]
      ensures FilledDistinct(old(Cells()), Cells())
    {
      var found, resolved := ResolveObject(t.key);
      if found {
        return Success(resolved);
      }
      var instance := new Obj(t.key);
      r := BuildUp(t, instance);
    }
  }
}
