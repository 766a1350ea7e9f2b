/** The synchronous container of di.js as a class whose fields are the
    objects the source mutates in place: `container.bindings`, the binding
    records (shared by their aliases), `container.singletons`. Every method
    is proved equal to its counterpart in Store or Resolution. */
module DI {
  import opened Values
  import Store
  import Resolution

  /** `getNameLookup(names)`: the lookup object with one key per name. */
  method NameLookup(names: seq<string>) returns (lookup: set<string>)
    ensures lookup == Store.Lookup(names)
  {
    lookup := {};
    var index := 0;
    while index != |names|
      invariant 0 <= index <= |names|
      invariant lookup == Store.Lookup(names[..index])
    {
      assert names[..index + 1] == names[..index] + [names[index]];
      lookup := lookup + {names[index]};
      index := index + 1;
    }
    assert names[..index] == names;
  }

  /** `updateCache(cache, names, value)`: write `value` under each name. */
  method UpdateCache(cache: map<string, Value>, names: set<string>, value: Value) returns (c: map<string, Value>)
    ensures c == Resolution.CacheWith(cache, names, value)
  {
    c := cache;
    var rest := names;
    while rest != {}
      invariant rest <= names
      invariant c == Resolution.CacheWith(cache, names - rest, value)
      decreases rest
    {
      var name :| name in rest;
      c := c[name := value];
      rest := rest - {name};
    }
  }

  class Container {
    /** `container.bindings`: name to binding record. */
    var bindings: map<string, Handle>
    /** The binding records; a handle is an index into this table. */
    var records: seq<Binding>
    /** `container.singletons`. */
    var singletons: map<string, Value>
    /** The next free object identity, for factories that allocate `{}`. */
    var objects: nat
    /** Every factory call so far, as the handle of its record. */
    var calls: seq<Handle>

    ghost function Reg(): Store.Registry
      reads this
    {
      Store.Registry(bindings, records)
    }

    ghost function Abs(): Store.Store
      reads this
    {
      Store.Store(Reg(), singletons)
    }

    ghost predicate Valid()
      reads this
    {
      Store.Valid(Abs())
    }

    /** The aliases of each record are either all in `singletons`, with one
        value, or all absent. */
    ghost predicate SingletonsClosed()
      reads this
    {
      Store.CacheClosed(Reg(), singletons)
    }

    /** `getContainer()`: no bindings, no singletons. */
    constructor ()
      ensures Valid() && SingletonsClosed() && Abs() == Store.Empty && objects == 0 && calls == []
    {
      bindings := map[];
      records := [];
      singletons := map[];
      objects := 0;
      calls := [];
    }

    /** Calling the container, `container()`: a new, independent, empty one. */
    method Call() returns (c: Container)
      ensures fresh(c) && c.Valid() && c.SingletonsClosed() && c.Abs() == Store.Empty && c.calls == []
    {
      c := new Container();
    }

    /** `unbind(name)`. */
    method Unbind(name: string)
      requires Store.HandlesValid(Reg())
      modifies this
      ensures Abs() == Store.Unbind(old(Abs()), name)
      ensures objects == old(objects) && calls == old(calls)
      ensures old(Valid()) ==> Valid()
      ensures old(Valid() && SingletonsClosed()) ==> SingletonsClosed()
    {
      if name !in bindings {
        return;
      }
      var binding := bindings[name];
      bindings := bindings - {name};
      singletons := singletons - {name};
      records := records[binding := records[binding].(names := records[binding].names - {name})];
      if old(Valid()) {
        Store.UnbindRemovesAlias(old(Abs()), name);
      }
      if old(Valid() && SingletonsClosed()) {
        Store.UnbindKeepsSingletonsClosed(old(Abs()), name);
      }
    }

    /** `addBindings(container, names, factory, dependencies)`: returns the
        handle of the new record. */
    method AddBindings(names: seq<string>, factory: Factory, dependencies: seq<string>) returns (h: Handle)
      requires Valid()
      modifies this
      ensures h == old(|records|)
      ensures Abs() == Store.AddBindings(old(Abs()), names, dependencies, factory)
      ensures objects == old(objects) && calls == old(calls)
      ensures Valid()
      ensures old(SingletonsClosed()) ==> SingletonsClosed()
    {
      var nameLookup := NameLookup(names);
      h := |records|;
      records := records + [Binding(nameLookup, dependencies, factory, false)];
      ghost var start := Store.NewRecord(old(Abs()), names, dependencies, factory);
      assert Abs() == start;
      var index := 0;
      while index != |names|
        invariant 0 <= index <= |names|
        invariant Store.HandlesValid(start.reg) && h < |start.reg.records|
        invariant Abs() == Store.BindEach(start, names[..index], h)
        invariant objects == old(objects) && calls == old(calls)
      {
        var name := names[index];
        Unbind(name);
        bindings := bindings[name := h];
        assert names[..index + 1][..index] == names[..index];
        index := index + 1;
      }
      assert names[..index] == names;
      Store.AddBindingsFacts(old(Abs()), names, dependencies, factory);
      if old(SingletonsClosed()) {
        Store.AddBindingsKeepsSingletonsClosed(old(Abs()), names, dependencies, factory);
      }
    }

    /** `bind(...names).to(spec)`: the specification is checked before the
        store is touched; then the names are bound to one new record. */
    method To(names: seq<string>, spec: Spec) returns (r: Result<Handle>)
      requires Valid()
      modifies this
      ensures Valid() && objects == old(objects) && calls == old(calls)
      ensures old(SingletonsClosed()) ==> SingletonsClosed()
      ensures Store.ParseSpec(spec).Err? ==> r == Err(Store.ParseSpec(spec).error) && Abs() == old(Abs())
      ensures Store.ParseSpec(spec).Ok? ==>
        var p := Store.ParseSpec(spec).value;
        r == Ok(old(|records|)) && Abs() == Store.AddBindings(old(Abs()), names, p.dependencies, p.factory)
    {
      if spec.NotAnArray? || |spec.elements| == 0 {
        return Err(InvalidSpecification);
      }
      var factory := spec.elements[|spec.elements| - 1];
      if !factory.Function? {
        return Err(FactoryNotLast);
      }
      var dependencies := seq(|spec.elements| - 1, i requires 0 <= i < |spec.elements| - 1 => Store.KeyOf(spec.elements[i]));
      var h := AddBindings(names, factory.factory, dependencies);
      r := Ok(h);
    }

    /** `bind(...names).toConstant(value)`. */
    method ToConstant(names: seq<string>, value: Value) returns (h: Handle)
      requires Valid()
      modifies this
      ensures Valid() && objects == old(objects) && calls == old(calls)
      ensures old(SingletonsClosed()) ==> SingletonsClosed()
      ensures h == old(|records|)
      ensures Abs() == Store.AddBindings(old(Abs()), names, [], Constant(value))
    {
      Store.ConstantSpecParses(value);
      var r := To(names, Store.ConstantSpec(value));
      h := r.value;
    }

    /** `singleton()` on the configuration of record `h`. */
    method Singleton(h: Handle)
      requires h < |records|
      modifies this
      ensures Reg() == Store.SetScope(old(Reg()), h, true)
      ensures singletons == old(singletons) && objects == old(objects) && calls == old(calls)
      ensures old(Valid()) ==> Valid()
      ensures old(SingletonsClosed()) ==> SingletonsClosed()
    {
      records := records[h := records[h].(singleton := true)];
      if old(SingletonsClosed()) {
        Store.SetScopeKeepsClosed(old(Reg()), h, true, singletons);
      }
    }

    /** `transient()` on the configuration of record `h`. */
    method Transient(h: Handle)
      requires h < |records|
      modifies this
      ensures Reg() == Store.SetScope(old(Reg()), h, false)
      ensures singletons == old(singletons) && objects == old(objects) && calls == old(calls)
      ensures old(Valid()) ==> Valid()
      ensures old(SingletonsClosed()) ==> SingletonsClosed()
    {
      records := records[h := records[h].(singleton := false)];
      if old(SingletonsClosed()) {
        Store.SetScopeKeepsClosed(old(Reg()), h, false, singletons);
      }
    }

    /** `container.get(name)`; `rank` witnesses that the dependency graph is
        acyclic. */
    method Get(name: string, ghost rank: seq<nat>) returns (value: Value)
      requires Valid() && Resolution.Ranked(Reg(), rank)
      modifies this
      ensures Valid() && Reg() == old(Reg())
      ensures var r := Resolution.Get(old(Reg()), rank, name, old(singletons), old(objects), old(calls));
        value == r.value && singletons == r.session.singletons && objects == r.session.objects && calls == r.session.calls
      ensures Store.Consistent(Reg()) && old(SingletonsClosed()) ==>
        SingletonsClosed() && forall k :: k in old(singletons) ==> k in singletons && singletons[k] == old(singletons)[k]
    {
      var cache;
      value, cache := Resolve(name, map[], rank);
      if Store.Consistent(Reg()) && old(SingletonsClosed()) {
        Resolution.GetKeepsSingletons(Reg(), rank, name, old(singletons), old(objects), old(calls));
      }
    }

    /** `get(container, name, cache)`. */
    method Resolve(name: string, cache: map<string, Value>, ghost rank: seq<nat>) returns (value: Value, cache': map<string, Value>)
      requires Resolution.Ranked(Reg(), rank)
      modifies this
      ensures bindings == old(bindings) && records == old(records)
      ensures Resolution.Resolve(old(Reg()), rank, name, Resolution.Session(cache, old(singletons), old(objects), old(calls)))
        == Resolution.Resolved(value, Resolution.Session(cache', singletons, objects, calls))
      decreases Resolution.Level(Reg(), rank, name), 2
    {
      if name in cache {
        return cache[name], cache;
      }
      if name !in bindings {
        return Undefined, cache;
      }
      var h := bindings[name];
      var binding := records[h];
      if binding.singleton {
        if name in singletons {
          value, cache' := singletons[name], cache;
        } else {
          value, cache' := ResolveBinding(h, cache, rank);
          singletons := UpdateCache(singletons, binding.names, value);
        }
      } else {
        value, cache' := ResolveBinding(h, cache, rank);
      }
      cache' := UpdateCache(cache', binding.names, value);
    }

    /** `resolve(container, binding, cache)`. */
    method ResolveBinding(h: Handle, cache: map<string, Value>, ghost rank: seq<nat>) returns (value: Value, cache': map<string, Value>)
      requires Resolution.Ranked(Reg(), rank) && h < |records|
      modifies this
      ensures bindings == old(bindings) && records == old(records)
      ensures Resolution.ResolveBinding(old(Reg()), rank, h, Resolution.Session(cache, old(singletons), old(objects), old(calls)))
        == Resolution.Resolved(value, Resolution.Session(cache', singletons, objects, calls))
      decreases rank[h] + 1, 1
    {
      var dependencies;
      dependencies, cache' := GetDependencies(h, cache, rank);
      var made := Invoke(records[h].factory, dependencies, objects);
      value := made.value;
      objects := made.objects;
      calls := calls + [h];
    }

    /** `getDependencies(container, binding, cache)`. */
    method GetDependencies(h: Handle, cache: map<string, Value>, ghost rank: seq<nat>) returns (dependencies: seq<Value>, cache': map<string, Value>)
      requires Resolution.Ranked(Reg(), rank) && h < |records|
      modifies this
      ensures bindings == old(bindings) && records == old(records)
      ensures Resolution.ResolveDeps(old(Reg()), rank, h, |records[h].dependencies|, Resolution.Session(cache, old(singletons), old(objects), old(calls)))
        == Resolution.ResolvedAll(dependencies, Resolution.Session(cache', singletons, objects, calls))
      decreases rank[h] + 1, 0
    {
      ghost var start := Resolution.Session(cache, singletons, objects, calls);
      dependencies, cache' := [], cache;
      var names := records[h].dependencies;
      var index := 0;
      while index != |names|
        invariant 0 <= index <= |names|
        invariant bindings == old(bindings) && records == old(records)
        invariant Resolution.ResolveDeps(old(Reg()), rank, h, index, start)
          == Resolution.ResolvedAll(dependencies, Resolution.Session(cache', singletons, objects, calls))
      {
        var dependency;
        dependency, cache' := Resolve(names[index], cache', rank);
        dependencies := dependencies + [dependency];
        index := index + 1;
      }
    }
  }
}
