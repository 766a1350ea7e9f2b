/** The cases of di.test.js, replayed on the Container class: each method
    builds its own container and states in its postcondition what the test
    asserts. */
module Tests {
  import opened Values
  import Store
  import Resolution
  import Properties
  import opened DI

  /** The record of a single-name, dependency-free `bind` on a fresh container. */
  lemma FirstBinding(names: seq<string>, factory: Factory)
    requires |names| == 1
    ensures var r := Store.AddBindings(Store.Empty, names, [], factory);
      Store.Consistent(r.reg) && Store.Valid(r) && Resolution.Ranked(r.reg, [0]) &&
      r.reg.bindings == map[names[0] := 0] && r.singletons == map[] &&
      r.reg.records == [Binding({names[0]}, [], factory, false)]
  {
    Store.EmptyValid();
    Store.AddBindingsFacts(Store.Empty, names, [], factory);
    assert Store.Lookup(names) == {names[0]};
  }

  /** An array of dependency names followed by a factory is a valid
      specification with exactly those dependencies. */
  lemma ParsesTo(spec: Spec, deps: seq<string>, factory: Factory)
    requires spec == Items(seq(|deps|, i requires 0 <= i < |deps| => Key(deps[i])) + [Function(factory)])
    ensures Store.ParseSpec(spec) == Ok(Parsed(deps, factory))
  {
    var p := Store.ParseSpec(spec);
    assert p.Ok?;
    assert p.value.dependencies == deps;
  }

  /** `shouldGetBoundConstant`. */
  method ShouldGetBoundConstant() returns (v: Value)
    ensures v == Int(123)
  {
    var di := new Container();
    var h := di.ToConstant(["constant"], Int(123));
    FirstBinding(["constant"], Constant(Int(123)));
    Properties.ToConstantThenGet(Store.Empty, ["constant"], Int(123), "constant", [0], 0, []);
    v := di.Get("constant", [0]);
  }

  /** `shouldRecreateValuesUnlessSingleton`: a transient binding whose
      factory returns `{}` gives two different objects. */
  method ShouldRecreateValuesUnlessSingleton() returns (first: Value, second: Value)
    ensures first != second
  {
    var di := new Container();
    assert Store.ParseSpec(Items([Function(NewObject)])) == Ok(Parsed([], NewObject));
    var r := di.To(["parent"], Items([Function(NewObject)]));
    FirstBinding(["parent"], NewObject);
    Resolution.TransientFreshObjects(di.Reg(), [0], "parent", di.singletons, di.objects, di.calls);
    first := di.Get("parent", [0]);
    second := di.Get("parent", [0]);
  }

  /** One name bound to a singleton record whose factory returns `{}`. */
  function SingletonParent(): (reg: Store.Registry) {
    Store.Registry(map["parent" := 0], [Binding({"parent"}, [], NewObject, true)])
  }

  /** The first `get` runs the factory and caches its object; the second
      returns that object from the singleton cache. */
  lemma SingletonParentTwice()
    ensures Resolution.Ranked(SingletonParent(), [0])
    ensures var first := Resolution.Get(SingletonParent(), [0], "parent", map[], 0, []);
      first.value == Obj(0) && first.session.calls == [0] && first.session.singletons == map["parent" := Obj(0)] &&
      var second := Resolution.Get(SingletonParent(), [0], "parent", first.session.singletons, first.session.objects, first.session.calls);
      second.value == Obj(0) && second.session.calls == [0]
  {
    var reg := SingletonParent();
    var s := Resolution.Session(map[], map[], 0, []);
    assert Resolution.ResolveDeps(reg, [0], 0, 0, s) == Resolution.ResolvedAll([], s);
    assert Resolution.CacheWith(map[], {"parent"}, Obj(0)) == map["parent" := Obj(0)];
  }

  /** `shouldOnlyCreateSingleValueWhenSingleton`: the same binding marked
      singleton gives the identical object twice, and its factory runs once. */
  method ShouldOnlyCreateSingleValueWhenSingleton() returns (first: Value, second: Value, count: nat)
    ensures first == second && count == 1
  {
    var di := new Container();
    assert Store.ParseSpec(Items([Function(NewObject)])) == Ok(Parsed([], NewObject));
    var r := di.To(["parent"], Items([Function(NewObject)]));
    FirstBinding(["parent"], NewObject);
    di.Singleton(0);
    assert di.Reg() == SingletonParent() && di.singletons == map[] && di.objects == 0 && di.calls == [];
    SingletonParentTwice();
    first := di.Get("parent", [0]);
    second := di.Get("parent", [0]);
    count := multiset(di.calls)[0];
  }

  /** The graph of `shouldReuseDependenciesAtDifferentLevels`: `parent2`
      depends on `dependency` and on `parent1`, which depends on
      `dependency`; every factory returns `{}`. */
  function Levels(): (reg: Store.Registry) {
    Store.Registry(map["dependency" := 0, "parent1" := 1, "parent2" := 2],
      [Binding({"dependency"}, [], NewObject, false),
       Binding({"parent1"}, ["dependency"], NewObject, false),
       Binding({"parent2"}, ["dependency", "parent1"], NewObject, false)])
  }

  lemma LevelsRanked()
    ensures Resolution.Ranked(Levels(), [0, 1, 2])
  {
  }

  /** The first dependency of `parent2`: `dependency` runs and is cached. */
  lemma LevelsDependency()
    ensures Resolution.Ranked(Levels(), [0, 1, 2]) &&
      Resolution.Resolve(Levels(), [0, 1, 2], "dependency", Resolution.Session(map[], map[], 0, []))
        == Resolution.Resolved(Obj(0), Resolution.Session(map["dependency" := Obj(0)], map[], 1, [0]))
  {
    LevelsRanked();
    var reg, rank := Levels(), [0, 1, 2];
    var s := Resolution.Session(map[], map[], 0, []);
    assert reg.bindings["dependency"] == 0 && !reg.records[0].singleton && reg.records[0].names == {"dependency"};
    assert Resolution.ResolveDeps(reg, rank, 0, 0, s) == Resolution.ResolvedAll([], s);
    assert Resolution.ResolveBinding(reg, rank, 0, s) == Resolution.Resolved(Obj(0), s.(objects := 1, calls := [0]));
    assert Resolution.CacheWith(map[], {"dependency"}, Obj(0)) == map["dependency" := Obj(0)];
  }

  /** The second: `parent1` finds `dependency` in the request cache. */
  lemma LevelsParent1(s: Resolution.Session)
    requires "dependency" in s.cache && s.cache.Keys == {"dependency"}
    ensures Resolution.Ranked(Levels(), [0, 1, 2]) &&
      Resolution.Resolve(Levels(), [0, 1, 2], "parent1", s).session.calls == s.calls + [1]
  {
    LevelsRanked();
    var reg, rank := Levels(), [0, 1, 2];
    assert Resolution.Resolve(reg, rank, "dependency", s) == Resolution.Resolved(s.cache["dependency"], s);
    assert Resolution.ResolveDeps(reg, rank, 1, 0, s) == Resolution.ResolvedAll([], s);
    assert Resolution.ResolveDeps(reg, rank, 1, 1, s).session == s;
    assert Resolution.ResolveBinding(reg, rank, 1, s).session.calls == s.calls + [1];
  }

  /** The dependency loop of `parent2`: `dependency`, then `parent1`. */
  lemma LevelsDependencies()
    ensures Resolution.Ranked(Levels(), [0, 1, 2]) &&
      Resolution.ResolveDeps(Levels(), [0, 1, 2], 2, 2, Resolution.Session(map[], map[], 0, [])).session.calls == [0, 1] &&
      Resolution.ResolveDeps(Levels(), [0, 1, 2], 2, 2, Resolution.Session(map[], map[], 0, [])).session.singletons == map[]
  {
    LevelsRanked();
    var reg, rank := Levels(), [0, 1, 2];
    var s0 := Resolution.Session(map[], map[], 0, []);
    LevelsDependency();
    var s1 := Resolution.Session(map["dependency" := Obj(0)], map[], 1, [0]);
    LevelsParent1(s1);
    assert Resolution.ResolveDeps(reg, rank, 2, 0, s0) == Resolution.ResolvedAll([], s0);
    assert Resolution.ResolveDeps(reg, rank, 2, 1, s0).session == s1;
  }

  /** `resolve` of the record of `parent2` calls the factories of
      `dependency`, `parent1` and `parent2`, in that order. */
  lemma LevelsBinding()
    ensures Resolution.Ranked(Levels(), [0, 1, 2]) &&
      Resolution.ResolveBinding(Levels(), [0, 1, 2], 2, Resolution.Session(map[], map[], 0, [])).session.calls == [0, 1, 2] &&
      Resolution.ResolveBinding(Levels(), [0, 1, 2], 2, Resolution.Session(map[], map[], 0, [])).session.singletons == map[]
  {
    LevelsRanked();
    LevelsDependencies();
  }

  /** `get("parent2")` runs each of the three factories once, `dependency`'s
      first. */
  lemma LevelsGet()
    ensures Resolution.Ranked(Levels(), [0, 1, 2])
    ensures var calls := Resolution.Get(Levels(), [0, 1, 2], "parent2", map[], 0, []).session.calls;
      calls == [0, 1, 2] && multiset(calls)[0] == 1
  {
    LevelsRanked();
    var reg := Levels();
    LevelsBinding();
    assert reg.bindings["parent2"] == 2 && !reg.records[2].singleton;
    assert multiset([0, 1, 2]) == multiset{0, 1, 2};
  }

  /** Binding `dependency`, `parent1` and `parent2` in that order to fresh
      names builds the registry `Levels()`. */
  lemma LevelsBound()
    ensures var s1 := Store.AddBindings(Store.Empty, ["dependency"], [], NewObject);
      var s2 := Store.AddBindings(s1, ["parent1"], ["dependency"], NewObject);
      var s3 := Store.AddBindings(s2, ["parent2"], ["dependency", "parent1"], NewObject);
      s3.reg == Levels() && s3.singletons == map[]
  {
    var s1 := Store.AddBindings(Store.Empty, ["dependency"], [], NewObject);
    Properties.BindFreshName(Store.Empty, "dependency", [], NewObject);
    var s2 := Store.AddBindings(s1, ["parent1"], ["dependency"], NewObject);
    Properties.BindFreshName(s1, "parent1", ["dependency"], NewObject);
    Properties.BindFreshName(s2, "parent2", ["dependency", "parent1"], NewObject);
  }

  /** The three `bind` calls of `shouldReuseDependenciesAtDifferentLevels`
      on a new container. */
  method BindLevels() returns (di: Container)
    ensures fresh(di) && di.Valid() && di.Reg() == Levels() && di.singletons == map[] && di.objects == 0 && di.calls == []
  {
    di := new Container();
    ParsesTo(Items([Function(NewObject)]), [], NewObject);
    var r0 := di.To(["dependency"], Items([Function(NewObject)]));
    ghost var s1 := Store.AddBindings(Store.Empty, ["dependency"], [], NewObject);
    assert di.Abs() == s1;
    ParsesTo(Items([Key("dependency"), Function(NewObject)]), ["dependency"], NewObject);
    var r1 := di.To(["parent1"], Items([Key("dependency"), Function(NewObject)]));
    ghost var s2 := Store.AddBindings(s1, ["parent1"], ["dependency"], NewObject);
    assert di.Abs() == s2;
    ParsesTo(Items([Key("dependency"), Key("parent1"), Function(NewObject)]), ["dependency", "parent1"], NewObject);
    var r2 := di.To(["parent2"], Items([Key("dependency"), Key("parent1"), Function(NewObject)]));
    assert di.Abs() == Store.AddBindings(s2, ["parent2"], ["dependency", "parent1"], NewObject);
    LevelsBound();
  }

  /** `shouldReuseDependenciesAtDifferentLevels`: the shared dependency's
      factory runs once although two bindings depend on it. */
  method ShouldReuseDependenciesAtDifferentLevels() returns (count: nat)
    ensures count == 1
  {
    var di := BindLevels();
    LevelsGet();
    var result := di.Get("parent2", [0, 1, 2]);
    count := multiset(di.calls)[0];
  }

  /** `callCreatesEmptyContainer`: the container called as a function gives
      an empty one, in which the name bound in the first is absent. */
  method CallCreatesEmptyContainer() returns (v: Value)
    ensures v == Undefined
  {
    var di := new Container();
    var h := di.ToConstant(["parent"], Int(123));
    var container := di.Call();
    Properties.EmptyGet("parent", 0, []);
    v := container.Get("parent", []);
  }

  /** Two names bound to one singleton record holding a constant. */
  function TwoAliases(value: Value): (reg: Store.Registry) {
    Store.Registry(map["name1" := 0, "name2" := 0], [Binding({"name1", "name2"}, [], Constant(value), true)])
  }

  lemma TwoAliasesBound(value: Value)
    ensures var r := Store.AddBindings(Store.Empty, ["name1", "name2"], [], Constant(value));
      Store.SetScope(r.reg, 0, true) == TwoAliases(value) && r.singletons == map[]
  {
    Store.EmptyValid();
    Store.AddBindingsFacts(Store.Empty, ["name1", "name2"], [], Constant(value));
    assert Store.Lookup(["name1", "name2"]) == {"name1", "name2"};
  }

  /** The getContainer-fresh scenario: `get(name1)` caches the constant under
      both aliases, `get(name2)` finds it there; after `unbind(name1)`,
      `name1` is absent and `name2` still gives the cached value. */
  lemma TwoAliasesScenario(value: Value, objects: nat, calls: seq<Handle>)
    ensures Resolution.Ranked(TwoAliases(value), [0])
    ensures var first := Resolution.Get(TwoAliases(value), [0], "name1", map[], 0, []);
      first.value == value && first.session.singletons == map["name1" := value, "name2" := value]
    ensures var second := Resolution.Get(TwoAliases(value), [0], "name2", map["name1" := value, "name2" := value], objects, calls);
      second.value == value && second.session.singletons == map["name1" := value, "name2" := value]
    ensures var u := Store.Unbind(Store.Store(TwoAliases(value), map["name1" := value, "name2" := value]), "name1");
      Resolution.Ranked(u.reg, [0]) &&
      Resolution.Get(u.reg, [0], "name1", u.singletons, objects, calls).value == Undefined &&
      Resolution.Get(u.reg, [0], "name2", u.singletons, objects, calls).value == value
  {
    var reg := TwoAliases(value);
    var cached := map["name1" := value, "name2" := value];
    var s := Resolution.Session(map[], map[], 0, []);
    assert Resolution.ResolveDeps(reg, [0], 0, 0, s) == Resolution.ResolvedAll([], s);
    assert Resolution.ResolveBinding(reg, [0], 0, s).value == value;
    assert Resolution.CacheWith(map[], {"name1", "name2"}, value) == cached;
    Resolution.SingletonEntryUsed(reg, [0], "name2", cached, objects, calls);
    var st := Store.Store(reg, cached);
    assert Store.Valid(st);
    Properties.UnbindOneAlias(st, "name1", "name2", [0], objects, calls);
  }

  /** Two aliases of one singleton constant share its value; after one of
      them is unbound it is absent while the other still gives the value. */
  method SingletonAliasesThenUnbind(value: Value) returns (first: Value, second: Value, gone: Value, kept: Value)
    ensures first == value && second == value && gone == Undefined && kept == value
  {
    var di := new Container();
    var h := di.ToConstant(["name1", "name2"], value);
    TwoAliasesBound(value);
    di.Singleton(h);
    assert di.Reg() == TwoAliases(value) && di.singletons == map[] && di.objects == 0 && di.calls == [];
    TwoAliasesScenario(value, 0, []);
    first := di.Get("name1", [0]);
    TwoAliasesScenario(value, di.objects, di.calls);
    second := di.Get("name2", [0]);
    di.Unbind("name1");
    gone := di.Get("name1", [0]);
    kept := di.Get("name2", [0]);
  }
}
