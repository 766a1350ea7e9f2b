/** The synchronous resolver of di.js (`get`, `resolve`, `getDependencies`,
    `updateCache`) as functions on a registry, threading the request cache,
    the singleton cache, the object allocator and a log of factory calls. */
module Resolution {
  import opened Values
  import opened Store

  /** Everything one resolution reads and writes besides the registry, which
      it never changes: the request cache, `container.singletons`, the next
      free object id and the log of factory calls (one record handle per
      call, oldest first). */
  datatype Session = Session(cache: map<string, Value>, singletons: map<string, Value>, objects: nat, calls: seq<Handle>)

  datatype Resolved = Resolved(value: Value, session: Session)

  datatype ResolvedAll = ResolvedAll(values: seq<Value>, session: Session)

  /** `rank` witnesses that the dependency graph has no cycle: every bound
      dependency of a record belongs to a record of smaller rank. di.js does
      not detect cycles; on a cyclic graph it recurses without end. */
  ghost predicate Ranked(reg: Registry, rank: seq<nat>) {
    HandlesValid(reg) && |rank| == |reg.records| &&
    forall h, i ::
      (0 <= h < |reg.records| && 0 <= i < |reg.records[h].dependencies| &&
       reg.records[h].dependencies[i] in reg.bindings) ==>
      rank[reg.bindings[reg.records[h].dependencies[i]]] < rank[h]
  }

  /** The termination measure of resolving `name`. */
  function Level(reg: Registry, rank: seq<nat>, name: string): (level: nat)
    requires Ranked(reg, rank)
  {
    if name in reg.bindings then rank[reg.bindings[name]] + 1 else 0
  }

  /** `updateCache(cache, names, value)`: `value` under every name, the other
      entries untouched. */
  function CacheWith(cache: map<string, Value>, names: set<string>, v: Value): (c: map<string, Value>)
    ensures c.Keys == cache.Keys + names
    ensures forall n :: n in names ==> c[n] == v
    ensures forall n :: n in cache && n !in names ==> c[n] == cache[n]
  {
    map n | n in cache.Keys + names :: if n in names then v else cache[n]
  }

  /** `get(container, name, cache)`: the request cache first, then the
      absent value for an unbound name, then the singleton cache for a
      singleton record, else the record is resolved; the value is written
      under every current alias into the request cache and, for a singleton,
      into the singleton cache. */
  function Resolve(reg: Registry, rank: seq<nat>, name: string, s: Session): (r: Resolved)
    requires Ranked(reg, rank)
    ensures r.session.objects >= s.objects
    ensures |r.session.calls| >= |s.calls| && r.session.calls[..|s.calls|] == s.calls
    ensures WellFormed(reg) && s.singletons.Keys <= reg.bindings.Keys ==> r.session.singletons.Keys <= reg.bindings.Keys
    decreases Level(reg, rank, name), 2
  {
    if name in s.cache then Resolved(s.cache[name], s)
    else if name !in reg.bindings then Resolved(Undefined, s)
    else
      var h := reg.bindings[name];
      var b := reg.records[h];
      if b.singleton && name in s.singletons then
        var v := s.singletons[name];
        Resolved(v, s.(cache := CacheWith(s.cache, b.names, v)))
      else
        var r := ResolveBinding(reg, rank, h, s);
        var t := if b.singleton then r.session.(singletons := CacheWith(r.session.singletons, b.names, r.value))
                 else r.session;
        Resolved(r.value, t.(cache := CacheWith(t.cache, b.names, r.value)))
  }

  /** `resolve(container, binding, cache)`: the dependencies, then one call
      of the factory with them. */
  function ResolveBinding(reg: Registry, rank: seq<nat>, h: Handle, s: Session): (r: Resolved)
    requires Ranked(reg, rank) && h < |reg.records|
    ensures r.session.objects >= s.objects
    ensures |r.session.calls| > |s.calls| && r.session.calls[..|s.calls|] == s.calls
    ensures r.session.calls[|r.session.calls| - 1] == h
    ensures WellFormed(reg) && s.singletons.Keys <= reg.bindings.Keys ==> r.session.singletons.Keys <= reg.bindings.Keys
    decreases rank[h] + 1, 1
  {
    var b := reg.records[h];
    var d := ResolveDeps(reg, rank, h, |b.dependencies|, s);
    var m := Invoke(b.factory, d.values, d.session.objects);
    assert (d.session.calls + [h])[..|s.calls|] == d.session.calls[..|s.calls|];
    Resolved(m.value, d.session.(objects := m.objects, calls := d.session.calls + [h]))
  }

  /** `getDependencies` after its loop has handled the first `k` declared
      dependencies of record `h`, left to right, sharing the request cache:
      one value per dependency, in declaration order. */
  function ResolveDeps(reg: Registry, rank: seq<nat>, h: Handle, k: nat, s: Session): (r: ResolvedAll)
    requires Ranked(reg, rank) && h < |reg.records| && k <= |reg.records[h].dependencies|
    ensures |r.values| == k
    ensures r.session.objects >= s.objects
    ensures |r.session.calls| >= |s.calls| && r.session.calls[..|s.calls|] == s.calls
    ensures WellFormed(reg) && s.singletons.Keys <= reg.bindings.Keys ==> r.session.singletons.Keys <= reg.bindings.Keys
    decreases rank[h] + 1, 0, k
  {
    if k == 0 then ResolvedAll([], s)
    else
      var p := ResolveDeps(reg, rank, h, k - 1, s);
      var r := Resolve(reg, rank, reg.records[h].dependencies[k - 1], p.session);
      assert r.session.calls[..|s.calls|] == r.session.calls[..|p.session.calls|][..|s.calls|];
      ResolvedAll(p.values + [r.value], r.session)
  }

  /** `container.get(name)`: a resolution with a fresh, empty request cache. */
  function Get(reg: Registry, rank: seq<nat>, name: string, singletons: map<string, Value>, objects: nat, calls: seq<Handle>): (r: Resolved)
    requires Ranked(reg, rank)
    ensures r.session.objects >= objects
    ensures |r.session.calls| >= |calls| && r.session.calls[..|calls|] == calls
    ensures WellFormed(reg) && singletons.Keys <= reg.bindings.Keys ==> r.session.singletons.Keys <= reg.bindings.Keys
  {
    Resolve(reg, rank, name, Session(map[], singletons, objects, calls))
  }

  // ----- the request cache -----

  /** The factory calls a resolution added to the log. */
  function NewCalls(s: Session, t: Session): (added: seq<Handle>)
    requires |s.calls| <= |t.calls|
  {
    t.calls[|s.calls|..]
  }

  /** How a resolution below rank `level` changes a session: the request
      cache keeps every entry and only gains names of records below `level`;
      the factory calls it logs are distinct, below `level`, and each belongs
      to a record whose aliases were all absent from the cache before and are
      all present after. */
  ghost predicate Grows(reg: Registry, rank: seq<nat>, level: nat, s: Session, t: Session)
    requires Ranked(reg, rank)
  {
    (forall k :: k in s.cache ==> k in t.cache && t.cache[k] == s.cache[k]) &&
    (forall k :: k in t.cache && k !in s.cache ==> k in reg.bindings && rank[reg.bindings[k]] < level) &&
    CacheClosed(reg, t.cache) &&
    |s.calls| <= |t.calls| && t.calls[..|s.calls|] == s.calls &&
    Distinct(NewCalls(s, t)) &&
    forall i :: 0 <= i < |NewCalls(s, t)| ==>
      var c := NewCalls(s, t)[i];
      c < |reg.records| && rank[c] < level && reg.records[c].names != {} &&
      forall k :: k in reg.records[c].names ==> k in t.cache && k !in s.cache
  }

  lemma GrowsRefl(reg: Registry, rank: seq<nat>, level: nat, s: Session)
    requires Ranked(reg, rank) && CacheClosed(reg, s.cache)
    ensures Grows(reg, rank, level, s, s)
  {
    assert NewCalls(s, s) == [];
  }

  lemma GrowsWeaken(reg: Registry, rank: seq<nat>, level: nat, level': nat, s: Session, t: Session)
    requires Ranked(reg, rank) && level <= level' && Grows(reg, rank, level, s, t)
    ensures Grows(reg, rank, level', s, t)
  {
  }

  /** Two resolutions in a row: their factory calls cannot overlap, because
      the first leaves the aliases of each record it called in the cache and
      the second calls only records whose aliases are all missing from it. */
  lemma GrowsTrans(reg: Registry, rank: seq<nat>, level: nat, s0: Session, s1: Session, s2: Session)
    requires Ranked(reg, rank) && Grows(reg, rank, level, s0, s1) && Grows(reg, rank, level, s1, s2)
    ensures Grows(reg, rank, level, s0, s2)
  {
    var a, b := NewCalls(s0, s1), NewCalls(s1, s2);
    assert s2.calls[..|s0.calls|] == s2.calls[..|s1.calls|][..|s0.calls|];
    assert NewCalls(s0, s2) == a + b by {
      assert s2.calls == s1.calls + b;
      assert s1.calls == s0.calls + a;
    }
    forall i, j | 0 <= i < |a| && 0 <= j < |b| ensures a[i] != b[j] {
      var k :| k in reg.records[a[i]].names;
      assert k in s1.cache;
    }
  }

  /** Writing a value under the aliases of a record none of whose aliases is
      cached keeps the cache closed and every earlier entry. */
  lemma CacheWithClosed(reg: Registry, cache: map<string, Value>, h: Handle, v: Value)
    requires WellFormed(reg) && h < |reg.records| && CacheClosed(reg, cache)
    requires forall a :: a in reg.records[h].names ==> a !in cache
    ensures CacheClosed(reg, CacheWith(cache, reg.records[h].names, v))
  {
    var c := CacheWith(cache, reg.records[h].names, v);
    forall k | k in c
      ensures k in reg.bindings && reg.bindings[k] < |reg.records|
      ensures forall a :: a in reg.records[reg.bindings[k]].names ==> a in c && c[a] == c[k]
    {
      if k in cache && k !in reg.records[h].names {
        var hk := reg.bindings[k];
        if hk == h {
          assert reg.records[h].names == {};
        }
        forall a | a in reg.records[hk].names ensures a !in reg.records[h].names {
          assert reg.bindings[a] == hk;
        }
      }
    }
  }

  /** The cache half of FinishGrows. */
  lemma FinishCache(reg: Registry, rank: seq<nat>, h: Handle, s: Session, d: Session, t: Session, v: Value)
    requires Consistent(reg) && Ranked(reg, rank) && h < |reg.records|
    requires forall a :: a in reg.records[h].names ==> a !in s.cache
    requires Grows(reg, rank, rank[h], s, d)
    requires t.cache == CacheWith(d.cache, reg.records[h].names, v)
    ensures forall k :: k in s.cache ==> k in t.cache && t.cache[k] == s.cache[k]
    ensures forall k :: k in t.cache && k !in s.cache ==> k in reg.bindings && rank[reg.bindings[k]] < rank[h] + 1
    ensures CacheClosed(reg, t.cache)
    ensures forall k :: k in d.cache ==> k in t.cache
  {
    var names := reg.records[h].names;
    assert forall a :: a in names ==> a !in d.cache by {
      forall a | a in names ensures a !in d.cache {
        assert reg.bindings[a] == h;
      }
    }
    CacheWithClosed(reg, d.cache, h, v);
  }

  /** The call-log half of FinishGrows. */
  lemma FinishCalls(reg: Registry, rank: seq<nat>, h: Handle, s: Session, d: Session, t: Session)
    requires Ranked(reg, rank) && h < |reg.records|
    requires reg.records[h].names != {} && forall a :: a in reg.records[h].names ==> a !in s.cache && a in t.cache
    requires Grows(reg, rank, rank[h], s, d)
    requires forall k :: k in d.cache ==> k in t.cache
    requires t.calls == d.calls + [h]
    ensures |s.calls| <= |t.calls| && t.calls[..|s.calls|] == s.calls
    ensures Distinct(NewCalls(s, t))
    ensures forall i :: 0 <= i < |NewCalls(s, t)| ==>
      var c := NewCalls(s, t)[i];
      c < |reg.records| && rank[c] < rank[h] + 1 && reg.records[c].names != {} &&
      forall k :: k in reg.records[c].names ==> k in t.cache && k !in s.cache
  {
    assert t.calls[..|s.calls|] == d.calls[..|s.calls|];
    var nd := NewCalls(s, d);
    assert NewCalls(s, t) == nd + [h];
    assert forall i :: 0 <= i < |nd| ==> nd[i] != h by {
      forall i | 0 <= i < |nd| ensures nd[i] != h {
        assert rank[nd[i]] < rank[h];
      }
    }
  }

  /** Closing a resolution of record `h`: its dependencies grew the session
      below the rank of `h`, then the factory call is logged and the value is
      written under every alias of `h`, none of which was cached before. */
  lemma FinishGrows(reg: Registry, rank: seq<nat>, h: Handle, s: Session, d: Session, t: Session, v: Value)
    requires Consistent(reg) && Ranked(reg, rank) && h < |reg.records| && CacheClosed(reg, s.cache)
    requires reg.records[h].names != {} && forall a :: a in reg.records[h].names ==> a !in s.cache
    requires Grows(reg, rank, rank[h], s, d)
    requires t.cache == CacheWith(d.cache, reg.records[h].names, v) && t.calls == d.calls + [h]
    ensures Grows(reg, rank, rank[h] + 1, s, t)
  {
    FinishCache(reg, rank, h, s, d, t, v);
    FinishCalls(reg, rank, h, s, d, t);
  }

  /** The central property of one resolution on a consistent, acyclic
      registry: the session grows as Grows says, and afterwards every alias
      of the requested name's record is cached with the returned value. */
  lemma {:induction false} ResolveGrows(reg: Registry, rank: seq<nat>, name: string, s: Session)
    requires Consistent(reg) && Ranked(reg, rank) && CacheClosed(reg, s.cache)
    ensures var r := Resolve(reg, rank, name, s);
      Grows(reg, rank, Level(reg, rank, name), s, r.session) &&
      (name in reg.bindings ==>
        forall a :: a in reg.records[reg.bindings[name]].names ==> a in r.session.cache && r.session.cache[a] == r.value)
    decreases Level(reg, rank, name), 2
  {
    var level := Level(reg, rank, name);
    if name in s.cache || name !in reg.bindings {
      GrowsRefl(reg, rank, level, s);
    } else {
      var h := reg.bindings[name];
      var b := reg.records[h];
      assert name in b.names;
      assert forall a :: a in b.names ==> a !in s.cache;
      if b.singleton && name in s.singletons {
        CacheWithClosed(reg, s.cache, h, s.singletons[name]);
        assert NewCalls(s, Resolve(reg, rank, name, s).session) == [];
      } else {
        var d := ResolveDeps(reg, rank, h, |b.dependencies|, s);
        ResolveDepsGrows(reg, rank, h, |b.dependencies|, s);
        var rb := ResolveBinding(reg, rank, h, s);
        assert rb.session.cache == d.session.cache && rb.session.calls == d.session.calls + [h];
        var r := Resolve(reg, rank, name, s);
        assert r.value == rb.value;
        assert r.session.cache == CacheWith(rb.session.cache, b.names, rb.value);
        assert r.session.calls == rb.session.calls;
        FinishGrows(reg, rank, h, s, d.session, r.session, r.value);
      }
    }
  }

  /** The same for the dependency loop of record `h`: everything it does
      stays below the rank of `h`. */
  lemma {:induction false} ResolveDepsGrows(reg: Registry, rank: seq<nat>, h: Handle, k: nat, s: Session)
    requires Consistent(reg) && Ranked(reg, rank) && CacheClosed(reg, s.cache)
    requires h < |reg.records| && k <= |reg.records[h].dependencies|
    ensures Grows(reg, rank, rank[h], s, ResolveDeps(reg, rank, h, k, s).session)
    decreases rank[h] + 1, 0, k
  {
    if k == 0 {
      GrowsRefl(reg, rank, rank[h], s);
    } else {
      var p := ResolveDeps(reg, rank, h, k - 1, s);
      ResolveDepsGrows(reg, rank, h, k - 1, s);
      var d := reg.records[h].dependencies[k - 1];
      ResolveGrows(reg, rank, d, p.session);
      var r := Resolve(reg, rank, d, p.session);
      GrowsWeaken(reg, rank, Level(reg, rank, d), rank[h], p.session, r.session);
      GrowsTrans(reg, rank, rank[h], s, p.session, r.session);
    }
  }

  /** The first `k` dependency names against the values passed for them: a
      bound name is cached with the value in its position, an unbound one
      got the absent value. */
  ghost predicate PositionsCached(reg: Registry, deps: seq<string>, k: nat, cache: map<string, Value>, values: seq<Value>)
    requires k <= |deps| && k <= |values|
  {
    forall i :: 0 <= i < k ==>
      if deps[i] in reg.bindings then deps[i] in cache && cache[deps[i]] == values[i]
      else values[i] == Undefined
  }

  lemma PositionsCachedStep(reg: Registry, deps: seq<string>, k: nat, c: map<string, Value>, c': map<string, Value>, values: seq<Value>, v: Value)
    requires 0 < k <= |deps| && |values| == k - 1
    requires PositionsCached(reg, deps, k - 1, c, values)
    requires forall n :: n in c ==> n in c' && c'[n] == c[n]
    requires if deps[k - 1] in reg.bindings then deps[k - 1] in c' && c'[deps[k - 1]] == v else v == Undefined
    ensures PositionsCached(reg, deps, k, c', values + [v])
  {
    forall i | 0 <= i < k
      ensures if deps[i] in reg.bindings then deps[i] in c' && c'[deps[i]] == (values + [v])[i]
        else (values + [v])[i] == Undefined
    {
      if i < k - 1 {
        assert (values + [v])[i] == values[i];
      }
    }
  }

  /** What the values lemma needs from one resolution: earlier request-cache
      entries are kept, the cache stays closed, and a bound name ends up
      cached with the value returned for it. */
  lemma ResolveCaches(reg: Registry, rank: seq<nat>, name: string, s: Session)
    requires Consistent(reg) && Ranked(reg, rank) && CacheClosed(reg, s.cache)
    ensures var r := Resolve(reg, rank, name, s);
      CacheClosed(reg, r.session.cache) &&
      (forall n :: n in s.cache ==> n in r.session.cache && r.session.cache[n] == s.cache[n]) &&
      (name in reg.bindings ==> name in r.session.cache && r.session.cache[name] == r.value)
  {
    ResolveGrows(reg, rank, name, s);
    if name in reg.bindings {
      assert name in reg.records[reg.bindings[name]].names;
    }
  }

  /** The request cache stays closed through the dependency loop. */
  lemma ResolveDepsCloses(reg: Registry, rank: seq<nat>, h: Handle, k: nat, s: Session)
    requires Consistent(reg) && Ranked(reg, rank) && CacheClosed(reg, s.cache)
    requires h < |reg.records| && k <= |reg.records[h].dependencies|
    ensures CacheClosed(reg, ResolveDeps(reg, rank, h, k, s).session.cache)
  {
    ResolveDepsGrows(reg, rank, h, k, s);
  }

  /** Dependencies are passed positionally: after the loop every bound
      dependency is cached with the value passed in its position, and an
      unbound one is passed as the absent value. */
  lemma {:induction false} ResolveDepsValues(reg: Registry, rank: seq<nat>, h: Handle, k: nat, s: Session)
    requires Consistent(reg) && Ranked(reg, rank) && CacheClosed(reg, s.cache)
    requires h < |reg.records| && k <= |reg.records[h].dependencies|
    ensures var r := ResolveDeps(reg, rank, h, k, s);
      PositionsCached(reg, reg.records[h].dependencies, k, r.session.cache, r.values)
  {
    var deps := reg.records[h].dependencies;
    if k == 0 {
      assert PositionsCached(reg, deps, 0, s.cache, []);
    } else {
      var p := ResolveDeps(reg, rank, h, k - 1, s);
      ResolveDepsValues(reg, rank, h, k - 1, s);
      ResolveDepsCloses(reg, rank, h, k - 1, s);
      var d := deps[k - 1];
      ResolveCaches(reg, rank, d, p.session);
      var q := Resolve(reg, rank, d, p.session);
      assert ResolveDeps(reg, rank, h, k, s) == ResolvedAll(p.values + [q.value], q.session);
      PositionsCachedStep(reg, deps, k, p.session.cache, q.session.cache, p.values, q.value);
    }
  }

  // ----- which factories a resolution can call -----

  /** The factory calls logged from `s` to `t` all belong to records of rank
      below `level`. */
  ghost predicate CallsBelow(reg: Registry, rank: seq<nat>, level: nat, s: Session, t: Session)
    requires Ranked(reg, rank) && |s.calls| <= |t.calls|
  {
    forall i :: |s.calls| <= i < |t.calls| ==> t.calls[i] < |reg.records| && rank[t.calls[i]] < level
  }

  /** A resolution on an acyclic registry calls only factories of records
      below its level, whether or not a `bind` repeated a name. */
  lemma {:induction false} ResolveCallsBelow(reg: Registry, rank: seq<nat>, name: string, s: Session)
    requires Ranked(reg, rank)
    ensures CallsBelow(reg, rank, Level(reg, rank, name), s, Resolve(reg, rank, name, s).session)
    decreases Level(reg, rank, name), 2
  {
    if name !in s.cache && name in reg.bindings {
      var h := reg.bindings[name];
      var b := reg.records[h];
      if !(b.singleton && name in s.singletons) {
        var d := ResolveDeps(reg, rank, h, |b.dependencies|, s);
        ResolveDepsCallsBelow(reg, rank, h, |b.dependencies|, s);
        assert Resolve(reg, rank, name, s).session.calls == ResolveBinding(reg, rank, h, s).session.calls
          == d.session.calls + [h];
      }
    }
  }

  /** The same for the dependency loop of record `h`, below its rank. */
  lemma {:induction false} ResolveDepsCallsBelow(reg: Registry, rank: seq<nat>, h: Handle, k: nat, s: Session)
    requires Ranked(reg, rank) && h < |reg.records| && k <= |reg.records[h].dependencies|
    ensures CallsBelow(reg, rank, rank[h], s, ResolveDeps(reg, rank, h, k, s).session)
    decreases rank[h] + 1, 0, k
  {
    if k > 0 {
      var p := ResolveDeps(reg, rank, h, k - 1, s);
      ResolveDepsCallsBelow(reg, rank, h, k - 1, s);
      var d := reg.records[h].dependencies[k - 1];
      ResolveCallsBelow(reg, rank, d, p.session);
      assert Level(reg, rank, d) <= rank[h];
      var t := ResolveDeps(reg, rank, h, k, s).session;
      forall i | |s.calls| <= i < |p.session.calls| ensures t.calls[i] == p.session.calls[i] {
        assert t.calls[..|p.session.calls|] == p.session.calls;
      }
    }
  }

  // ----- the singleton cache across resolutions -----

  /** How a resolution below rank `level` changes `container.singletons`:
      every entry is kept with its value, new entries belong only to records
      below `level`, and the cache stays alias-closed. */
  ghost predicate SingletonsGrow(reg: Registry, rank: seq<nat>, level: nat, s: map<string, Value>, t: map<string, Value>)
    requires Ranked(reg, rank)
  {
    (forall k :: k in s ==> k in t && t[k] == s[k]) &&
    (forall k :: k in t && k !in s ==> k in reg.bindings && rank[reg.bindings[k]] < level) &&
    CacheClosed(reg, t)
  }

  /** Closing a resolution of a singleton record `h` whose name had no
      entry: none of its aliases has one after the dependencies either, so
      writing the value under all of them overwrites nothing. */
  lemma FinishSingletons(reg: Registry, rank: seq<nat>, h: Handle, name: string, s: map<string, Value>, d: map<string, Value>, v: Value)
    requires Consistent(reg) && Ranked(reg, rank) && name in reg.bindings && reg.bindings[name] == h
    requires CacheClosed(reg, s) && name !in s
    requires SingletonsGrow(reg, rank, rank[h], s, d)
    ensures SingletonsGrow(reg, rank, rank[h] + 1, s, CacheWith(d, reg.records[h].names, v))
  {
    var names := reg.records[h].names;
    assert name in names;
    forall a | a in names ensures a !in d {
      assert reg.bindings[a] == h;
    }
    CacheWithClosed(reg, d, h, v);
  }

  /** One resolution on a consistent, acyclic registry whose singleton cache
      is alias-closed keeps every singleton entry and keeps the cache closed. */
  lemma {:induction false} ResolveSingletons(reg: Registry, rank: seq<nat>, name: string, s: Session)
    requires Consistent(reg) && Ranked(reg, rank) && CacheClosed(reg, s.singletons)
    ensures SingletonsGrow(reg, rank, Level(reg, rank, name), s.singletons, Resolve(reg, rank, name, s).session.singletons)
    decreases Level(reg, rank, name), 2
  {
    if name in s.cache || name !in reg.bindings {
    } else {
      var h := reg.bindings[name];
      var b := reg.records[h];
      if b.singleton && name in s.singletons {
      } else {
        var d := ResolveDeps(reg, rank, h, |b.dependencies|, s);
        ResolveDepsSingletons(reg, rank, h, |b.dependencies|, s);
        var rb := ResolveBinding(reg, rank, h, s);
        assert rb.session.singletons == d.session.singletons;
        var r := Resolve(reg, rank, name, s);
        if b.singleton {
          assert r.session.singletons == CacheWith(d.session.singletons, b.names, rb.value);
          FinishSingletons(reg, rank, h, name, s.singletons, d.session.singletons, rb.value);
        } else {
          assert r.session.singletons == d.session.singletons;
        }
      }
    }
  }

  /** The same for the dependency loop of record `h`, below its rank. */
  lemma {:induction false} ResolveDepsSingletons(reg: Registry, rank: seq<nat>, h: Handle, k: nat, s: Session)
    requires Consistent(reg) && Ranked(reg, rank) && CacheClosed(reg, s.singletons)
    requires h < |reg.records| && k <= |reg.records[h].dependencies|
    ensures SingletonsGrow(reg, rank, rank[h], s.singletons, ResolveDeps(reg, rank, h, k, s).session.singletons)
    decreases rank[h] + 1, 0, k
  {
    if k > 0 {
      var p := ResolveDeps(reg, rank, h, k - 1, s);
      ResolveDepsSingletons(reg, rank, h, k - 1, s);
      var d := reg.records[h].dependencies[k - 1];
      ResolveSingletons(reg, rank, d, p.session);
      assert Level(reg, rank, d) <= rank[h];
    }
  }

  /** A top-level `get` keeps every entry of an alias-closed singleton cache
      and keeps it closed, so that the invariant holds from one `get` to the
      next. */
  lemma GetKeepsSingletons(reg: Registry, rank: seq<nat>, name: string, singletons: map<string, Value>, objects: nat, calls: seq<Handle>)
    requires Consistent(reg) && Ranked(reg, rank) && CacheClosed(reg, singletons)
    ensures var t := Get(reg, rank, name, singletons, objects, calls).session.singletons;
      CacheClosed(reg, t) && forall k :: k in singletons ==> k in t && t[k] == singletons[k]
  {
    ResolveSingletons(reg, rank, name, Session(map[], singletons, objects, calls));
  }

  /** A sequence of top-level `get`s, one after another, threading the
      singleton cache, the allocator and the call log. */
  function GetAll(reg: Registry, rank: seq<nat>, names: seq<string>, singletons: map<string, Value>, objects: nat, calls: seq<Handle>): (r: Session)
    requires Ranked(reg, rank)
    ensures r.objects >= objects && |r.calls| >= |calls| && r.calls[..|calls|] == calls
    decreases |names|
  {
    if names == [] then Session(map[], singletons, objects, calls)
    else
      var first := Get(reg, rank, names[0], singletons, objects, calls).session;
      var rest := GetAll(reg, rank, names[1..], first.singletons, first.objects, first.calls);
      assert rest.calls[..|calls|] == rest.calls[..|first.calls|][..|calls|];
      rest
  }

  /** Any sequence of `get`s keeps an alias-closed singleton cache's entries. */
  lemma {:induction false} GetAllKeepsSingletons(reg: Registry, rank: seq<nat>, names: seq<string>, singletons: map<string, Value>, objects: nat, calls: seq<Handle>)
    requires Consistent(reg) && Ranked(reg, rank) && CacheClosed(reg, singletons)
    ensures var t := GetAll(reg, rank, names, singletons, objects, calls).singletons;
      CacheClosed(reg, t) && forall k :: k in singletons ==> k in t && t[k] == singletons[k]
    decreases |names|
  {
    if names != [] {
      var first := Get(reg, rank, names[0], singletons, objects, calls).session;
      GetKeepsSingletons(reg, rank, names[0], singletons, objects, calls);
      GetAllKeepsSingletons(reg, rank, names[1..], first.singletons, first.objects, first.calls);
    }
  }

  // ----- what one `get` promises -----

  /** A name already in the request cache is returned from it, and nothing
      else happens. */
  lemma CachedNameReused(reg: Registry, rank: seq<nat>, name: string, s: Session)
    requires Ranked(reg, rank) && name in s.cache
    ensures Resolve(reg, rank, name, s) == Resolved(s.cache[name], s)
  {
  }

  /** `get` of an unbound name is the absent value and runs no factory. */
  lemma GetUnbound(reg: Registry, rank: seq<nat>, name: string, singletons: map<string, Value>, objects: nat, calls: seq<Handle>)
    requires Ranked(reg, rank) && name !in reg.bindings
    ensures Get(reg, rank, name, singletons, objects, calls) == Resolved(Undefined, Session(map[], singletons, objects, calls))
  {
  }

  /** Every factory runs at most once per top-level `get`, however often and
      at whatever depth its names are referenced; afterwards every alias of
      the requested record is in the request cache with the returned value. */
  lemma GetAtMostOnce(reg: Registry, rank: seq<nat>, name: string, singletons: map<string, Value>, objects: nat, calls: seq<Handle>)
    requires Consistent(reg) && Ranked(reg, rank)
    ensures var r := Get(reg, rank, name, singletons, objects, calls);
      Distinct(r.session.calls[|calls|..]) &&
      (name in reg.bindings ==>
        forall a :: a in reg.records[reg.bindings[name]].names ==> a in r.session.cache && r.session.cache[a] == r.value)
  {
    ResolveGrows(reg, rank, name, Session(map[], singletons, objects, calls));
  }

  /** A dependency declared twice receives the same value in both positions. */
  lemma RepeatedDependencySameValue(reg: Registry, rank: seq<nat>, h: Handle, s: Session, i: nat, j: nat)
    requires Consistent(reg) && Ranked(reg, rank) && CacheClosed(reg, s.cache) && h < |reg.records|
    requires i < |reg.records[h].dependencies| && j < |reg.records[h].dependencies|
    requires reg.records[h].dependencies[i] == reg.records[h].dependencies[j]
    ensures var r := ResolveDeps(reg, rank, h, |reg.records[h].dependencies|, s);
      r.values[i] == r.values[j]
  {
    var deps := reg.records[h].dependencies;
    var r := ResolveDeps(reg, rank, h, |deps|, s);
    ResolveDepsValues(reg, rank, h, |deps|, s);
    assert PositionsCached(reg, deps, |deps|, r.session.cache, r.values);
  }

  /** A transient record runs its factory on every top-level `get` of one of
      its names, exactly once. */
  lemma TransientRunsEachGet(reg: Registry, rank: seq<nat>, name: string, singletons: map<string, Value>, objects: nat, calls: seq<Handle>)
    requires Ranked(reg, rank)
    requires name in reg.bindings && !reg.records[reg.bindings[name]].singleton
    ensures var r := Get(reg, rank, name, singletons, objects, calls);
      var added := r.session.calls[|calls|..];
      reg.bindings[name] in added &&
      forall i :: 0 <= i < |added| && added[i] == reg.bindings[name] ==> i == |added| - 1
  {
    var r := Get(reg, rank, name, singletons, objects, calls);
    var s := Session(map[], singletons, objects, calls);
    var h := reg.bindings[name];
    var d := ResolveDeps(reg, rank, h, |reg.records[h].dependencies|, s);
    ResolveDepsCallsBelow(reg, rank, h, |reg.records[h].dependencies|, s);
    var b := ResolveBinding(reg, rank, h, s);
    assert r.session.calls == b.session.calls == d.session.calls + [h];
    assert r.session.calls[|calls|..] == NewCalls(s, d.session) + [h];
  }

  /** A transient record whose factory is `function () { return {}; }`
      yields a different object on each of two `get`s in a row. */
  lemma TransientFreshObjects(reg: Registry, rank: seq<nat>, name: string, singletons: map<string, Value>, objects: nat, calls: seq<Handle>)
    requires Ranked(reg, rank) && name in reg.bindings
    requires !reg.records[reg.bindings[name]].singleton && reg.records[reg.bindings[name]].factory == NewObject
    ensures var first := Get(reg, rank, name, singletons, objects, calls);
      var second := Get(reg, rank, name, first.session.singletons, first.session.objects, first.session.calls);
      first.value.Obj? && second.value.Obj? && first.value != second.value
  {
    var h := reg.bindings[name];
    var first := Get(reg, rank, name, singletons, objects, calls);
    var b1 := ResolveBinding(reg, rank, h, Session(map[], singletons, objects, calls));
    var s2 := Session(map[], first.session.singletons, first.session.objects, first.session.calls);
    var b2 := ResolveBinding(reg, rank, h, s2);
    var d1 := ResolveDeps(reg, rank, h, |reg.records[h].dependencies|, Session(map[], singletons, objects, calls));
    var d2 := ResolveDeps(reg, rank, h, |reg.records[h].dependencies|, s2);
    assert first.value == Obj(d1.session.objects) && first.session.objects == d1.session.objects + 1;
    assert b2.value == Obj(d2.session.objects);
  }

  /** The first resolution of a singleton record stores its value under every
      current alias in the singleton cache; a later `get` of any alias then
      returns that identical value without running any factory and changes
      nothing but the request cache. */
  lemma SingletonReused(reg: Registry, rank: seq<nat>, name: string, other: string, singletons: map<string, Value>, objects: nat, calls: seq<Handle>)
    requires Consistent(reg) && Ranked(reg, rank)
    requires name in reg.bindings && reg.records[reg.bindings[name]].singleton
    requires name !in singletons && other in reg.records[reg.bindings[name]].names
    ensures var first := Get(reg, rank, name, singletons, objects, calls);
      var second := Get(reg, rank, other, first.session.singletons, first.session.objects, first.session.calls);
      (forall a :: a in reg.records[reg.bindings[name]].names ==>
        a in first.session.singletons && first.session.singletons[a] == first.value) &&
      second.value == first.value &&
      second.session.calls == first.session.calls && second.session.objects == first.session.objects &&
      second.session.singletons == first.session.singletons
  {
  }

  /** A singleton entry is used as it is: `get` of a name with an entry in the
      singleton cache returns it and runs no factory. */
  lemma SingletonEntryUsed(reg: Registry, rank: seq<nat>, name: string, singletons: map<string, Value>, objects: nat, calls: seq<Handle>)
    requires Ranked(reg, rank)
    requires name in reg.bindings && reg.records[reg.bindings[name]].singleton && name in singletons
    ensures var r := Get(reg, rank, name, singletons, objects, calls);
      r.value == singletons[name] && r.session.calls == calls && r.session.objects == objects &&
      r.session.singletons == singletons
  {
  }

  /** A singleton stays reused across any other `get`s: once a name of a
      singleton record has been resolved, a `get` of any of its aliases after
      any sequence of `get`s of other names returns that identical value,
      runs no factory and leaves the singleton cache as it is. */
  lemma SingletonReusedAfterGets(reg: Registry, rank: seq<nat>, name: string, other: string, between: seq<string>,
                                 singletons: map<string, Value>, objects: nat, calls: seq<Handle>)
    requires Consistent(reg) && Ranked(reg, rank) && CacheClosed(reg, singletons)
    requires name in reg.bindings && reg.records[reg.bindings[name]].singleton
    requires other in reg.records[reg.bindings[name]].names
    ensures var first := Get(reg, rank, name, singletons, objects, calls);
      var mid := GetAll(reg, rank, between, first.session.singletons, first.session.objects, first.session.calls);
      var last := Get(reg, rank, other, mid.singletons, mid.objects, mid.calls);
      last.value == first.value && last.session.calls == mid.calls && last.session.objects == mid.objects &&
      last.session.singletons == mid.singletons
  {
    var h := reg.bindings[name];
    var first := Get(reg, rank, name, singletons, objects, calls);
    GetKeepsSingletons(reg, rank, name, singletons, objects, calls);
    if name in singletons {
      SingletonEntryUsed(reg, rank, name, singletons, objects, calls);
      assert other in singletons && singletons[other] == singletons[name];
    } else {
      SingletonReused(reg, rank, name, other, singletons, objects, calls);
    }
    assert other in first.session.singletons && first.session.singletons[other] == first.value;
    GetAllKeepsSingletons(reg, rank, between, first.session.singletons, first.session.objects, first.session.calls);
    var mid := GetAll(reg, rank, between, first.session.singletons, first.session.objects, first.session.calls);
    assert reg.bindings[other] == h;
    SingletonEntryUsed(reg, rank, other, mid.singletons, mid.objects, mid.calls);
  }
}
