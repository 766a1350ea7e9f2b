/** Properties that span the store and the resolver: what `get` returns
    after `to`, `toConstant` and `unbind`. */
module Properties {
  import opened Values
  import opened Store
  import opened Resolution

  /** Removing a binding keeps a ranking valid. */
  lemma UnbindRanked(st: Store, name: string, rank: seq<nat>)
    requires Ranked(st.reg, rank)
    ensures Ranked(Unbind(st, name).reg, rank)
  {
  }

  /** After `bind(names).toConstant(value)` on a valid store, `get` of any
      of the names returns `value`, whatever the name was bound to or had
      cached as a singleton before. */
  lemma ToConstantThenGet(st: Store, names: seq<string>, value: Value, name: string, rank: seq<nat>, objects: nat, calls: seq<Handle>)
    requires Valid(st) && name in names
    requires Ranked(AddBindings(st, names, [], Constant(value)).reg, rank)
    ensures var r := AddBindings(st, names, [], Constant(value));
      Get(r.reg, rank, name, r.singletons, objects, calls).value == value
  {
    AddBindingsFacts(st, names, [], Constant(value));
    var r := AddBindings(st, names, [], Constant(value));
    var h := |st.reg.records|;
    var s := Session(map[], r.singletons, objects, calls);
    assert r.reg.bindings[name] == h && !r.reg.records[h].singleton;
    assert ResolveDeps(r.reg, rank, h, 0, s).values == [];
    assert ResolveBinding(r.reg, rank, h, s).value == value;
  }

  /** Unbinding one alias of a singleton record: that name becomes absent,
      while another alias still resolves to its cached singleton value
      without running any factory. */
  lemma UnbindOneAlias(st: Store, name: string, other: string, rank: seq<nat>, objects: nat, calls: seq<Handle>)
    requires Valid(st) && Ranked(st.reg, rank)
    requires name != other && other in st.reg.bindings && other in st.singletons
    requires st.reg.records[st.reg.bindings[other]].singleton
    ensures var u := Unbind(st, name);
      Get(u.reg, rank, name, u.singletons, objects, calls).value == Undefined &&
      Get(u.reg, rank, other, u.singletons, objects, calls).value == st.singletons[other] &&
      Get(u.reg, rank, other, u.singletons, objects, calls).session.calls == calls
  {
    var u := Unbind(st, name);
    UnbindKeepsOthers(st, name, other);
    UnbindRanked(st, name, rank);
    SingletonEntryUsed(u.reg, rank, other, u.singletons, objects, calls);
  }

  /** A fresh container resolves every name to the absent value. */
  lemma EmptyGet(name: string, objects: nat, calls: seq<Handle>)
    ensures Ranked(Empty.reg, [])
    ensures Get(Empty.reg, [], name, Empty.singletons, objects, calls) == Resolved(Undefined, Session(map[], map[], objects, calls))
  {
  }

  /** Binding one name that is not bound yet appends its record and adds the
      name; nothing else changes. */
  lemma BindFreshName(st: Store, name: string, deps: seq<string>, factory: Factory)
    requires HandlesValid(st.reg) && name !in st.reg.bindings
    ensures AddBindings(st, [name], deps, factory) ==
      Store(Registry(st.reg.bindings[name := |st.reg.records|], st.reg.records + [Binding({name}, deps, factory, false)]),
            st.singletons)
  {
    var h := |st.reg.records|;
    var s0 := NewRecord(st, [name], deps, factory);
    assert [name][..0] == [];
    assert Lookup([name]) == {name};
    assert BindEach(s0, [name], h) == BindName(BindEach(s0, [], h), name, h);
    assert Unbind(s0, name) == s0;
  }

  /** The registry `bind("a", "a").to([function () { return {}; }]).singleton()`
      builds: `a` is bound to a record whose alias set is empty. */
  function RepeatedSingleton(): (reg: Registry) {
    Registry(map["a" := 0], [Binding({}, [], NewObject, true)])
  }

  lemma RepeatedSingletonBound()
    ensures var r := AddBindings(Empty, ["a", "a"], [], NewObject);
      SetScope(r.reg, 0, true) == RepeatedSingleton() && r.singletons == map[]
  {
    EmptyValid();
    AddBindingsFacts(Empty, ["a", "a"], [], NewObject);
    AddBindingsRepeatedName(NewObject);
    var r := AddBindings(Empty, ["a", "a"], [], NewObject);
    assert r.reg.bindings.Keys == {"a"};
    assert r.reg.records == [Binding({}, [], NewObject, false)];
  }

  /** Such a singleton never caches its value, because the value is written
      only under the record's aliases, and there are none: two `get`s of `a`
      give two different objects. */
  lemma RepeatedSingletonNotCached()
    ensures Ranked(RepeatedSingleton(), [0])
    ensures var first := Get(RepeatedSingleton(), [0], "a", map[], 0, []);
      var second := Get(RepeatedSingleton(), [0], "a", first.session.singletons, first.session.objects, first.session.calls);
      first.session.singletons == map[] && first.value != second.value
  {
    var reg := RepeatedSingleton();
    var s := Session(map[], map[], 0, []);
    assert ResolveDeps(reg, [0], 0, 0, s) == ResolvedAll([], s);
    assert CacheWith(map[], {}, Obj(0)) == map[];
    var s1 := Session(map[], map[], 1, [0]);
    assert ResolveDeps(reg, [0], 0, 0, s1) == ResolvedAll([], s1);
  }

  /** The registry `bind("a", "b", "a").to([function () { return {}; }]).singleton()`
      builds: `a` and `b` are bound to one record whose alias set is `{b}`. */
  function RepeatedPair(): (reg: Registry) {
    Registry(map["a" := 0, "b" := 0], [Binding({"b"}, [], NewObject, true)])
  }

  /** The store `addBindings` starts its loop from for `bind("a", "b", "a")`:
      one record whose alias set is `{a, b}`, no name bound yet. */
  function PairStart(): (st: Store) {
    Store(Registry(map[], [Binding({"a", "b"}, [], NewObject, false)]), map[])
  }

  lemma PairFirstTwo()
    ensures BindEach(PairStart(), ["a", "b"], 0)
      == Store(Registry(map["a" := 0, "b" := 0], PairStart().reg.records), map[])
  {
    assert ["a", "b"][..1] == ["a"];
    assert BindEach(PairStart(), ["a"], 0) == Store(Registry(map["a" := 0], PairStart().reg.records), map[]);
  }

  lemma RepeatedPairBound()
    ensures var r := AddBindings(Empty, ["a", "b", "a"], [], NewObject);
      SetScope(r.reg, 0, true) == RepeatedPair() && r.singletons == map[]
  {
    var names := ["a", "b", "a"];
    assert Lookup(names) == {"a", "b"};
    assert NewRecord(Empty, names, [], NewObject) == PairStart();
    assert names[..2] == ["a", "b"];
    PairFirstTwo();
    var s3 := BindName(BindEach(PairStart(), ["a", "b"], 0), "a", 0);
    assert s3.reg.records[0].names == {"b"};
    assert s3.reg == Registry(map["a" := 0, "b" := 0], [Binding({"b"}, [], NewObject, false)]);
  }

  /** `get("a")` on that registry, with no entry for `a`: the factory runs
      and its object is written under `b` only. */
  lemma RepeatedPairGetA(singletons: map<string, Value>, objects: nat, calls: seq<Handle>)
    requires "a" !in singletons
    ensures Ranked(RepeatedPair(), [0])
    ensures Get(RepeatedPair(), [0], "a", singletons, objects, calls)
      == Resolved(Obj(objects), Session(map["b" := Obj(objects)], singletons["b" := Obj(objects)], objects + 1, calls + [0]))
  {
    var s := Session(map[], singletons, objects, calls);
    assert ResolveDeps(RepeatedPair(), [0], 0, 0, s) == ResolvedAll([], s);
    assert CacheWith(singletons, {"b"}, Obj(objects)) == singletons["b" := Obj(objects)];
    assert CacheWith(map[], {"b"}, Obj(objects)) == map["b" := Obj(objects)];
  }

  /** The repeated name never gets a singleton entry, but the record's other
      alias does, and each `get` of the repeated name overwrites it: `get("b")`
      gives another object before and after a second `get("a")`. */
  lemma RepeatedPairOverwritten(objects: nat, calls: seq<Handle>)
    ensures Ranked(RepeatedPair(), [0])
    ensures var reg := RepeatedPair();
      var first := Get(reg, [0], "a", map[], objects, calls);
      var b1 := Get(reg, [0], "b", first.session.singletons, first.session.objects, first.session.calls);
      var second := Get(reg, [0], "a", b1.session.singletons, b1.session.objects, b1.session.calls);
      var b2 := Get(reg, [0], "b", second.session.singletons, second.session.objects, second.session.calls);
      first.session.singletons == map["b" := first.value] && b1.value == first.value &&
      second.session.singletons == map["b" := second.value] && b2.value == second.value &&
      b1.value != b2.value
  {
    var reg := RepeatedPair();
    var m0, m1 := map["b" := Obj(objects)], map["b" := Obj(objects + 1)];
    RepeatedPairGetA(map[], objects, calls);
    SingletonEntryUsed(reg, [0], "b", m0, objects + 1, calls + [0]);
    RepeatedPairGetA(m0, objects + 1, calls + [0]);
    assert m0["b" := Obj(objects + 1)] == m1;
    SingletonEntryUsed(reg, [0], "b", m1, objects + 2, calls + [0] + [0]);
  }

  // ----- a three-level graph -----

  function Child(args: seq<Value>): (v: Value) {
    if |args| == 1 && args[0].Int? then Int(args[0].i - 23) else Undefined
  }

  function Parent(args: seq<Value>): (v: Value) {
    if |args| == 2 && args[0].Int? && args[1].Int? then Int(args[0].i + args[1].i + 27) else Undefined
  }

  /** `grandchild` is 123, `child` takes it and subtracts 23, `parent` takes
      both and adds 27. */
  function ThreeLevels(): (reg: Registry) {
    Registry(map["grandchild" := 0, "child" := 1, "parent" := 2],
             [Binding({"grandchild"}, [], Constant(Int(123)), false),
              Binding({"child"}, ["grandchild"], Compute(Child), false),
              Binding({"parent"}, ["grandchild", "child"], Compute(Parent), false)])
  }

  /** The graph arises from three `bind` calls on a fresh container. */
  lemma ThreeLevelsBound()
    ensures var s1 := AddBindings(Empty, ["grandchild"], [], Constant(Int(123)));
      var s2 := AddBindings(s1, ["child"], ["grandchild"], Compute(Child));
      var s3 := AddBindings(s2, ["parent"], ["grandchild", "child"], Compute(Parent));
      s3 == Store(ThreeLevels(), map[])
  {
    var recs := ThreeLevels().records;
    assert Lookup(["grandchild"]) == {"grandchild"};
    assert Lookup(["child"]) == {"child"};
    assert Lookup(["parent"]) == {"parent"};
    var s1 := AddBindings(Empty, ["grandchild"], [], Constant(Int(123)));
    assert s1 == Store(Registry(map["grandchild" := 0], [recs[0]]), map[]) by {
      assert ["grandchild"][..0] == [];
    }
    var s2 := AddBindings(s1, ["child"], ["grandchild"], Compute(Child));
    assert s2 == Store(Registry(map["grandchild" := 0, "child" := 1], [recs[0], recs[1]]), map[]) by {
      assert ["child"][..0] == [];
    }
    var s3 := AddBindings(s2, ["parent"], ["grandchild", "child"], Compute(Parent));
    assert ["parent"][..0] == [];
    assert s3.reg.records == [recs[0], recs[1], recs[2]];
  }

  lemma ThreeLevelsRanked()
    ensures Ranked(ThreeLevels(), [0, 1, 2])
  {
  }

  /** `get("grandchild")` inside the request. */
  lemma GrandchildStep(s: Session)
    requires s.cache == map[] && s.objects == 0
    ensures Ranked(ThreeLevels(), [0, 1, 2]) && Resolve(ThreeLevels(), [0, 1, 2], "grandchild", s)
      == Resolved(Int(123), s.(cache := map["grandchild" := Int(123)], calls := s.calls + [0]))
  {
    ThreeLevelsRanked();
    var reg, rank := ThreeLevels(), [0, 1, 2];
    assert ResolveDeps(reg, rank, 0, 0, s) == ResolvedAll([], s);
    assert CacheWith(map[], {"grandchild"}, Int(123)) == map["grandchild" := Int(123)];
  }

  /** The session after `grandchild` has been resolved inside `get("parent")`. */
  function AfterGrandchild(): (s: Session) {
    Session(map["grandchild" := Int(123)], map[], 0, [0])
  }

  /** `resolve` of the record of `child` once `grandchild` is cached:
      the cached 123 is passed in, and the factory gives 100. */
  lemma ChildBinding()
    ensures Ranked(ThreeLevels(), [0, 1, 2]) && ResolveBinding(ThreeLevels(), [0, 1, 2], 1, AfterGrandchild())
      == Resolved(Int(100), Session(map["grandchild" := Int(123)], map[], 0, [0, 1]))
  {
    ThreeLevelsRanked();
    var reg, rank, s := ThreeLevels(), [0, 1, 2], AfterGrandchild();
    assert Resolve(reg, rank, "grandchild", s) == Resolved(Int(123), s);
    assert ResolveDeps(reg, rank, 1, 0, s) == ResolvedAll([], s);
    assert ResolveDeps(reg, rank, 1, 1, s) == ResolvedAll([Int(123)], s);
    assert Child([Int(123)]) == Int(100);
  }

  /** `get("child")` once `grandchild` is cached: the cached value is used. */
  lemma ChildStep()
    ensures Ranked(ThreeLevels(), [0, 1, 2]) && Resolve(ThreeLevels(), [0, 1, 2], "child", AfterGrandchild())
      == Resolved(Int(100), Session(map["grandchild" := Int(123), "child" := Int(100)], map[], 0, [0, 1]))
  {
    ThreeLevelsRanked();
    ChildBinding();
    assert ThreeLevels().bindings["child"] == 1 && !ThreeLevels().records[1].singleton;
    assert CacheWith(map["grandchild" := Int(123)], {"child"}, Int(100)) == map["grandchild" := Int(123), "child" := Int(100)];
  }

  /** The first step of the dependency loop of `parent`. */
  lemma ParentFirstDependency()
    ensures Ranked(ThreeLevels(), [0, 1, 2]) &&
      ResolveDeps(ThreeLevels(), [0, 1, 2], 2, 1, Session(map[], map[], 0, []))
        == ResolvedAll([Int(123)], Session(map["grandchild" := Int(123)], map[], 0, [0]))
  {
    ThreeLevelsRanked();
    var s0 := Session(map[], map[], 0, []);
    GrandchildStep(s0);
    assert ResolveDeps(ThreeLevels(), [0, 1, 2], 2, 0, s0) == ResolvedAll([], s0);
  }

  /** The dependency loop of `parent`: `grandchild` is resolved first, then
      `child` reuses it. */
  lemma ParentDependencies()
    ensures Ranked(ThreeLevels(), [0, 1, 2]) &&
      ResolveDeps(ThreeLevels(), [0, 1, 2], 2, 2, Session(map[], map[], 0, []))
        == ResolvedAll([Int(123), Int(100)], Session(map["grandchild" := Int(123), "child" := Int(100)], map[], 0, [0, 1]))
  {
    ThreeLevelsRanked();
    ParentFirstDependency();
    ChildStep();
  }

  /** `resolve` of the record of `parent`: 123 + 100 + 27 = 250, after the
      factories of `grandchild` and `child`. */
  lemma ParentBinding()
    ensures Ranked(ThreeLevels(), [0, 1, 2]) &&
      var r := ResolveBinding(ThreeLevels(), [0, 1, 2], 2, Session(map[], map[], 0, []));
      r.value == Int(250) && r.session.calls == [0, 1, 2]
  {
    ThreeLevelsRanked();
    ParentDependencies();
    assert ThreeLevels().records[2].factory == Compute(Parent);
    assert Invoke(Compute(Parent), [Int(123), Int(100)], 0) == Made(Int(250), 0);
  }

  /** `get("parent")` is 123 + 100 + 27 = 250, and each factory runs exactly
      once: `grandchild` is shared between `parent` and `child`. */
  lemma ThreeLevelsGet()
    ensures Ranked(ThreeLevels(), [0, 1, 2])
    ensures var r := Get(ThreeLevels(), [0, 1, 2], "parent", map[], 0, []);
      r.value == Int(250) && r.session.calls == [0, 1, 2]
  {
    ThreeLevelsRanked();
    ParentBinding();
    assert ThreeLevels().bindings["parent"] == 2 && !ThreeLevels().records[2].singleton;
  }
}
