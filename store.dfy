/** The binding store: the name-to-binding map, the table of shared binding
    records and the singleton cache, with `to`, `unbind`, `singleton()` and
    `transient()` as functions on it. */
module Store {
  import opened Values

  /** `container.bindings` (name to record) and the records themselves. */
  datatype Registry = Registry(bindings: map<string, Handle>, records: seq<Binding>)

  /** The whole persistent state of one container: its registry and
      `container.singletons`. */
  datatype Store = Store(reg: Registry, singletons: map<string, Value>)

  /** The state of a container fresh from `getContainer`. */
  const Empty: Store := Store(Registry(map[], []), map[])

  // ----- invariants -----

  /** Every bound name refers to an existing record. */
  ghost predicate HandlesValid(reg: Registry) {
    forall n :: n in reg.bindings ==> reg.bindings[n] < |reg.records|
  }

  /** A record is reachable only through names in its alias set: every alias
      of record `h`, except for the record `skip`, is bound to `h`. */
  ghost predicate AliasesBoundExcept(reg: Registry, skip: int) {
    forall h, n :: 0 <= h < |reg.records| && h != skip && n in reg.records[h].names ==>
      n in reg.bindings && reg.bindings[n] == h
  }

  /** The invariant that holds after every operation of the store. */
  ghost predicate WellFormed(reg: Registry) {
    HandlesValid(reg) && AliasesBoundExcept(reg, -1)
  }

  /** The converse as well: a name is bound to a record exactly when it is in
      that record's alias set. This holds as long as no `bind` call repeats a
      name. */
  ghost predicate Consistent(reg: Registry) {
    WellFormed(reg) &&
    forall n :: n in reg.bindings ==> n in reg.records[reg.bindings[n]].names
  }

  /** The store invariant: the registry is well formed and only bound names
      have a singleton-cache entry. */
  ghost predicate Valid(st: Store) {
    WellFormed(st.reg) && st.singletons.Keys <= st.reg.bindings.Keys
  }

  /** A cache keyed by names, either the request cache of one `get` or
      `container.singletons`, holds only bound names, always together with
      every alias of their record and with one value for all of them. */
  ghost predicate CacheClosed(reg: Registry, cache: map<string, Value>) {
    forall k :: k in cache ==>
      k in reg.bindings && reg.bindings[k] < |reg.records| &&
      forall a :: a in reg.records[reg.bindings[k]].names ==> a in cache && cache[a] == cache[k]
  }

  predicate Distinct<T(==)>(s: seq<T>) {
    forall i, j :: 0 <= i < j < |s| ==> s[i] != s[j]
  }

  /** The records of `a` and `b` agree on everything but their alias sets. */
  ghost predicate SameShape(a: seq<Binding>, b: seq<Binding>) {
    |a| == |b| &&
    forall h :: 0 <= h < |a| ==>
      a[h].dependencies == b[h].dependencies && a[h].factory == b[h].factory && a[h].singleton == b[h].singleton
  }

  lemma EmptyValid()
    ensures Valid(Empty) && Consistent(Empty.reg) && CacheClosed(Empty.reg, Empty.singletons)
  {
  }

  // ----- validation of the binding specification -----

  /** The property key JavaScript uses for an element in a dependency
      position: its string, or a fixed key for a function. */
  function KeyOf(e: Element): (key: string) {
    match e
    case Key(n) => n
    case Function(_) => "function"
  }

  /** The checks `to` makes before it touches the store: an array that is not
      empty and whose last element is a function. The other elements are the
      dependencies, in order. */
  function ParseSpec(spec: Spec): (r: Result<Parsed>)
    ensures r == Err(InvalidSpecification) <==> (spec.NotAnArray? || |spec.elements| == 0)
    ensures r == Err(FactoryNotLast) <==>
      (spec.Items? && |spec.elements| > 0 && !spec.elements[|spec.elements| - 1].Function?)
    ensures r.Ok? ==>
      var els := spec.elements;
      |els| > 0 && els[|els| - 1] == Function(r.value.factory) &&
      |r.value.dependencies| == |els| - 1 &&
      forall i :: 0 <= i < |els| - 1 ==> r.value.dependencies[i] == KeyOf(els[i])
  {
    if spec.NotAnArray? || |spec.elements| == 0 then Err(InvalidSpecification)
    else
      var last := spec.elements[|spec.elements| - 1];
      if !last.Function? then Err(FactoryNotLast)
      else Ok(Parsed(seq(|spec.elements| - 1, i requires 0 <= i < |spec.elements| - 1 => KeyOf(spec.elements[i])), last.factory))
  }

  /** The specification `toConstant(value)` passes to `to`. */
  function ConstantSpec(value: Value): (spec: Spec) {
    Items([Function(Constant(value))])
  }

  lemma ConstantSpecParses(value: Value)
    ensures ParseSpec(ConstantSpec(value)) == Ok(Parsed([], Constant(value)))
  {
  }

  // ----- unbind -----

  /** `unbind(name)`: forget the name in the binding map, in the singleton
      cache and in its record's alias set; nothing if it is not bound. */
  function Unbind(st: Store, name: string): (r: Store)
    requires HandlesValid(st.reg)
    ensures HandlesValid(r.reg) && SameShape(r.reg.records, st.reg.records)
    ensures name !in st.reg.bindings ==> r == st
    ensures name !in r.reg.bindings
    ensures name in st.reg.bindings ==>
      r.reg.bindings == st.reg.bindings - {name} && r.singletons == st.singletons - {name}
    ensures forall h :: 0 <= h < |st.reg.records| ==>
      r.reg.records[h].names ==
        if name in st.reg.bindings && st.reg.bindings[name] == h then st.reg.records[h].names - {name}
        else st.reg.records[h].names
  {
    if name !in st.reg.bindings then st
    else
      var h := st.reg.bindings[name];
      var b := st.reg.records[h];
      Store(Registry(st.reg.bindings - {name}, st.reg.records[h := b.(names := b.names - {name})]),
            st.singletons - {name})
  }

  /** Unbinding keeps the store invariants, and the other aliases of the record
      stay bound to it with their own singleton entries. */
  lemma UnbindKeepsOthers(st: Store, name: string, other: string)
    requires Valid(st) && other != name && other in st.reg.bindings
    ensures Valid(Unbind(st, name))
    ensures Consistent(st.reg) ==> Consistent(Unbind(st, name).reg)
    ensures other in Unbind(st, name).reg.bindings && Unbind(st, name).reg.bindings[other] == st.reg.bindings[other]
    ensures other in st.singletons <==> other in Unbind(st, name).singletons
    ensures other in st.singletons ==> Unbind(st, name).singletons[other] == st.singletons[other]
    ensures Consistent(st.reg) ==> other in Unbind(st, name).reg.records[st.reg.bindings[other]].names
  {
  }

  /** After `unbind(name)` no record lists `name` as an alias. */
  lemma UnbindRemovesAlias(st: Store, name: string)
    requires Valid(st)
    ensures Valid(Unbind(st, name))
    ensures forall h :: 0 <= h < |Unbind(st, name).reg.records| ==> name !in Unbind(st, name).reg.records[h].names
  {
  }

  /** `unbind` keeps the singleton cache alias-closed: the name leaves the
      cache and its record's alias set together. */
  lemma UnbindKeepsSingletonsClosed(st: Store, name: string)
    requires Valid(st) && CacheClosed(st.reg, st.singletons)
    ensures CacheClosed(Unbind(st, name).reg, Unbind(st, name).singletons)
  {
    var u := Unbind(st, name);
    forall k | k in u.singletons
      ensures k in u.reg.bindings && u.reg.bindings[k] < |u.reg.records| &&
        forall a :: a in u.reg.records[u.reg.bindings[k]].names ==> a in u.singletons && u.singletons[a] == u.singletons[k]
    {
      var j := st.reg.bindings[k];
      forall a | a in u.reg.records[j].names
        ensures a in u.singletons && u.singletons[a] == u.singletons[k]
      {
        assert a in st.reg.records[j].names && a != name;
      }
    }
  }

  // ----- bind(...).to(...) -----

  /** The names of a `bind` call as the lookup object `getNameLookup` builds. */
  function Lookup(names: seq<string>): (r: set<string>)
    ensures forall n :: n in r <==> n in names
  {
    set n | n in names
  }

  /** One iteration of the loop in `addBindings`: unbind the name, then map
      it to record `h`. */
  function BindName(st: Store, name: string, h: Handle): (r: Store)
    requires HandlesValid(st.reg) && h < |st.reg.records|
    ensures HandlesValid(r.reg) && SameShape(r.reg.records, st.reg.records)
    ensures r.reg.bindings == st.reg.bindings[name := h]
    ensures r.singletons == if name in st.reg.bindings then st.singletons - {name} else st.singletons
    ensures forall k :: 0 <= k < |st.reg.records| ==>
      r.reg.records[k].names ==
        if name in st.reg.bindings && st.reg.bindings[name] == k then st.reg.records[k].names - {name}
        else st.reg.records[k].names
  {
    var u := Unbind(st, name);
    Store(u.reg.(bindings := u.reg.bindings[name := h]), u.singletons)
  }

  /** The loop in `addBindings` after it has handled `names`, in order. */
  function BindEach(st: Store, names: seq<string>, h: Handle): (r: Store)
    requires HandlesValid(st.reg) && h < |st.reg.records|
    ensures HandlesValid(r.reg) && SameShape(r.reg.records, st.reg.records)
    decreases |names|
  {
    if names == [] then st
    else BindName(BindEach(st, names[..|names| - 1], h), names[|names| - 1], h)
  }

  /** The record `addBindings` creates, appended to the table. */
  function NewRecord(st: Store, names: seq<string>, deps: seq<string>, factory: Factory): (r: Store) {
    st.(reg := st.reg.(records := st.reg.records + [Binding(Lookup(names), deps, factory, false)]))
  }

  /** `addBindings(container, names, factory, dependencies)`: new record, then
      each name is unbound and mapped to it. The new record's handle is the
      old length of the table. */
  function AddBindings(st: Store, names: seq<string>, deps: seq<string>, factory: Factory): (r: Store)
    requires HandlesValid(st.reg)
    ensures |r.reg.records| == |st.reg.records| + 1
    ensures var b := r.reg.records[|st.reg.records|]; b.dependencies == deps && b.factory == factory && !b.singleton
  {
    BindEach(NewRecord(st, names, deps, factory), names, |st.reg.records|)
  }

  /** A store with a record `h` that no name is bound to yet, as
      `addBindings` has it before its loop. */
  ghost predicate FreshRecord(st: Store, h: Handle) {
    HandlesValid(st.reg) && h < |st.reg.records| &&
    AliasesBoundExcept(st.reg, h) && st.singletons.Keys <= st.reg.bindings.Keys &&
    forall x :: x in st.reg.bindings ==> st.reg.bindings[x] != h
  }

  /** After the loop has handled `names`: exactly those names are bound to
      `h`, none of them has a singleton entry, and every other name keeps its
      binding and its singleton entry. */
  lemma {:induction false} BindEachBindings(st: Store, names: seq<string>, h: Handle)
    requires FreshRecord(st, h)
    ensures var r := BindEach(st, names, h);
      r.singletons.Keys <= r.reg.bindings.Keys &&
      (forall n :: n in names ==> n in r.reg.bindings && r.reg.bindings[n] == h && n !in r.singletons) &&
      (forall x :: x in r.reg.bindings && r.reg.bindings[x] == h ==> x in names) &&
      (forall x :: x !in names ==>
        (x in r.reg.bindings <==> x in st.reg.bindings) &&
        (x in r.reg.bindings ==> r.reg.bindings[x] == st.reg.bindings[x]) &&
        (x in r.singletons <==> x in st.singletons) &&
        (x in r.singletons ==> r.singletons[x] == st.singletons[x]))
    decreases |names|
  {
    if names != [] {
      var p := names[..|names| - 1];
      BindEachBindings(st, p, h);
      assert forall x :: x in names <==> x in p || x == names[|names| - 1];
    }
  }

  /** After the loop has handled `names`: every other record has lost those
      names from its alias set and is still reachable only through its
      aliases. */
  lemma {:induction false} BindEachAliases(st: Store, names: seq<string>, h: Handle)
    requires FreshRecord(st, h)
    ensures var r := BindEach(st, names, h);
      AliasesBoundExcept(r.reg, h) &&
      (forall k :: 0 <= k < |st.reg.records| && k != h ==>
        r.reg.records[k].names == st.reg.records[k].names - Lookup(names))
    decreases |names|
  {
    if names != [] {
      var p := names[..|names| - 1];
      var n := names[|names| - 1];
      BindEachAliases(st, p, h);
      var q := BindEach(st, p, h);
      var r := BindName(q, n, h);
      assert BindEach(st, names, h) == r;
      forall k | 0 <= k < |st.reg.records| && k != h
        ensures r.reg.records[k].names == st.reg.records[k].names - Lookup(names)
      {
        assert Lookup(names) == Lookup(p) + {n};
        if n in q.reg.bindings && q.reg.bindings[n] == k {
          assert r.reg.records[k].names == q.reg.records[k].names - {n};
        } else {
          assert n !in q.reg.records[k].names;
        }
      }
    }
  }

  /** The new record's alias set only loses names that occur twice, so none
      when the names are distinct. */
  lemma {:induction false} BindEachOwnAliases(st: Store, names: seq<string>, h: Handle)
    requires FreshRecord(st, h)
    ensures var r := BindEach(st, names, h);
      r.reg.records[h].names <= st.reg.records[h].names &&
      (Distinct(names) ==> r.reg.records[h].names == st.reg.records[h].names)
    decreases |names|
  {
    if names != [] {
      var p := names[..|names| - 1];
      var n := names[|names| - 1];
      BindEachOwnAliases(st, p, h);
      BindEachBindings(st, p, h);
      var q := BindEach(st, p, h);
      assert BindEach(st, names, h) == BindName(q, n, h);
      if Distinct(names) {
        assert Distinct(p);
        assert n !in p;
        assert !(n in q.reg.bindings && q.reg.bindings[n] == h);
      }
    }
  }

  /** `bind(n1..nk).to(...)` on a valid store: every name is bound to the new
      record, has no singleton entry, and was taken out of the alias set of
      its previous record; all other names keep their binding and singleton
      entry. With distinct names the new record's alias set is exactly the
      names and the converse invariant is kept too; with a repeated name the
      store stays valid (see AddBindingsRepeatedName). */
  lemma AddBindingsFacts(st: Store, names: seq<string>, deps: seq<string>, factory: Factory)
    requires Valid(st)
    ensures var r := AddBindings(st, names, deps, factory); var h := |st.reg.records|;
      Valid(r) && |r.reg.records| == h + 1 &&
      r.reg.records[h].dependencies == deps && r.reg.records[h].factory == factory && !r.reg.records[h].singleton &&
      (forall n :: n in names ==> n in r.reg.bindings && r.reg.bindings[n] == h && n !in r.singletons) &&
      (forall x :: x !in names ==>
        (x in r.reg.bindings <==> x in st.reg.bindings) &&
        (x in r.reg.bindings ==> r.reg.bindings[x] == st.reg.bindings[x]) &&
        (x in r.singletons <==> x in st.singletons) &&
        (x in r.singletons ==> r.singletons[x] == st.singletons[x])) &&
      (forall k :: 0 <= k < h ==> r.reg.records[k].names == st.reg.records[k].names - Lookup(names)) &&
      SameShape(r.reg.records[..h], st.reg.records) &&
      (Distinct(names) ==> r.reg.records[h].names == Lookup(names)) &&
      (Distinct(names) && Consistent(st.reg) ==> Consistent(r.reg))
  {
    var h := |st.reg.records|;
    var s0 := NewRecord(st, names, deps, factory);
    assert AliasesBoundExcept(s0.reg, h);
    BindEachBindings(s0, names, h);
    BindEachAliases(s0, names, h);
    BindEachOwnAliases(s0, names, h);
    var r := AddBindings(st, names, deps, factory);
    assert r == BindEach(s0, names, h);
    assert AliasesBoundExcept(r.reg, -1) by {
      forall k, n | 0 <= k < |r.reg.records| && n in r.reg.records[k].names
        ensures n in r.reg.bindings && r.reg.bindings[n] == k
      {
        if k == h {
          assert n in names;
        }
      }
    }
    if Distinct(names) && Consistent(st.reg) {
      forall x | x in r.reg.bindings ensures x in r.reg.records[r.reg.bindings[x]].names {
        if x !in names {
          assert r.reg.bindings[x] == st.reg.bindings[x];
        }
      }
    }
  }

  /** `addBindings` keeps the singleton cache alias-closed: the bound names
      lose their entries while they leave their old records' alias sets, and
      the new record has no entry. */
  lemma AddBindingsKeepsSingletonsClosed(st: Store, names: seq<string>, deps: seq<string>, factory: Factory)
    requires Valid(st) && CacheClosed(st.reg, st.singletons)
    ensures var r := AddBindings(st, names, deps, factory);
      CacheClosed(r.reg, r.singletons)
  {
    AddBindingsFacts(st, names, deps, factory);
    var r := AddBindings(st, names, deps, factory);
    var h := |st.reg.records|;
    forall k | k in r.singletons
      ensures k in r.reg.bindings && r.reg.bindings[k] < |r.reg.records| &&
        forall a :: a in r.reg.records[r.reg.bindings[k]].names ==> a in r.singletons && r.singletons[a] == r.singletons[k]
    {
      assert k !in names;
      var j := st.reg.bindings[k];
      assert r.reg.bindings[k] == j && j < h;
      forall a | a in r.reg.records[j].names
        ensures a in r.singletons && r.singletons[a] == r.singletons[k]
      {
        assert a in st.reg.records[j].names && a !in Lookup(names);
      }
    }
  }

  /** A name repeated in one `bind` call ends up bound to the new record but
      missing from its alias set: the second iteration unbinds it from the
      record the first iteration bound it to. */
  lemma AddBindingsRepeatedName(factory: Factory)
    ensures var r := AddBindings(Empty, ["a", "a"], [], factory);
      "a" in r.reg.bindings && r.reg.bindings["a"] == 0 && r.reg.records[0].names == {} && !Consistent(r.reg)
  {
    var s0 := NewRecord(Empty, ["a", "a"], [], factory);
    assert s0.reg.records[0].names == {"a"};
    var s1 := BindEach(s0, ["a"], 0);
    assert ["a", "a"][..1] == ["a"];
    assert s1.reg.records[0].names == {"a"};
  }

  // ----- singleton() / transient() -----

  /** `singleton()` (flag true) and `transient()` (flag false): assign the
      record's scope and nothing else. */
  function SetScope(reg: Registry, h: Handle, flag: bool): (r: Registry)
    requires h < |reg.records|
    ensures r.bindings == reg.bindings && |r.records| == |reg.records|
    ensures r.records[h].singleton == flag
    ensures r.records[h].names == reg.records[h].names && r.records[h].dependencies == reg.records[h].dependencies
    ensures r.records[h].factory == reg.records[h].factory
    ensures forall k :: 0 <= k < |reg.records| && k != h ==> r.records[k] == reg.records[k]
    ensures WellFormed(reg) ==> WellFormed(r)
    ensures Consistent(reg) ==> Consistent(r)
  {
    reg.(records := reg.records[h := reg.records[h].(singleton := flag)])
  }

  /** `singleton()` and `transient()` leave every alias set alone, so a
      cache that was alias-closed stays so. */
  lemma SetScopeKeepsClosed(reg: Registry, h: Handle, flag: bool, cache: map<string, Value>)
    requires h < |reg.records| && CacheClosed(reg, cache)
    ensures CacheClosed(SetScope(reg, h, flag), cache)
  {
    var r := SetScope(reg, h, flag);
    forall k | k in cache
      ensures k in r.bindings && r.bindings[k] < |r.records| &&
        forall a :: a in r.records[r.bindings[k]].names ==> a in cache && cache[a] == cache[k]
    {
      assert r.records[r.bindings[k]].names == reg.records[reg.bindings[k]].names;
    }
  }
}
