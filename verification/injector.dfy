/** The registry of `DependencyInjector`: two type-keyed stores and the
    registration and resolution operations over them, as pure functions from
    the registry before a call to the registry after it. */
module DependencyInjector {

  import opened Wrappers

  /** The identity of a Swift type (the `ObjectIdentifier` of its metatype).
      A request for type T looks under key T and wants a value of type T. */
  datatype TypeKey = TypeKey(name: string)

  /** An object reference. `id` is its identity (what `===` compares), `ctor`
      names the registration closure that built it, and `fields` holds what
      that closure looked up while building it (as `C(a:b:)` does). */
  datatype Obj = Obj(id: nat, ctor: nat, fields: seq<Option<Obj>>)

  /** A singleton entry, stored as `Any`: the instance and the type it was
      registered as, which is the only type `as?` recovers it at. */
  datatype Boxed = Boxed(tag: TypeKey, obj: Obj)

  /** A factory entry, a closure `() -> T` stored as `Any`: its return type T
      and the code it runs. */
  datatype Factory = Factory(tag: TypeKey, ctor: nat)

  /** The injector's state. `next` is the first object identity not yet
      handed out by any closure; it is model bookkeeping, not a Swift field. */
  datatype Registry = Registry(
    singletons: map<TypeKey, Boxed>,
    factories: map<TypeKey, Factory>,
    next: nat)

  /** A fresh injector (`init()`): both stores empty, so no type resolves,
      and the identity invariant holds from the start. */
  function Empty(): (r: Registry)
    ensures |r.singletons| == 0 && |r.factories| == 0
    ensures forall t :: !Resolvable(r, t)
    ensures Valid(r)
  {
    Registry(map[], map[], 0)
  }

  /** Every identity inside `o`, nested dependencies included, was handed out
      before the counter reached `n`. */
  predicate IssuedBefore(o: Obj, n: nat)
    decreases o
  {
    && o.id < n
    && forall i :: 0 <= i < |o.fields| ==> o.fields[i].None? || IssuedBefore(o.fields[i].value, n)
  }

  /** The counter is ahead of every instance the singleton store holds. */
  predicate Valid(reg: Registry)
  {
    forall k :: k in reg.singletons ==> IssuedBefore(reg.singletons[k].obj, reg.next)
  }

  /** `singletones[key] as? T` succeeds. */
  predicate SingletonMatches(reg: Registry, t: TypeKey)
  {
    t in reg.singletons && reg.singletons[t].tag == t
  }

  /** `factories[key] as? () -> T` succeeds. */
  predicate FactoryMatches(reg: Registry, t: TypeKey)
  {
    t in reg.factories && reg.factories[t].tag == t
  }

  /** A lookup of T runs the factory: no singleton of type T shadows it. */
  predicate ByFactory(reg: Registry, t: TypeKey)
  {
    !SingletonMatches(reg, t) && FactoryMatches(reg, t)
  }

  /** Some store holds an entry for T that downcasts to T. */
  predicate Resolvable(reg: Registry, t: TypeKey)
  {
    SingletonMatches(reg, t) || FactoryMatches(reg, t)
  }

  lemma {:induction false} IssuedBeforeMono(o: Obj, n: nat, m: nat)
    requires IssuedBefore(o, n)
    requires n <= m
    ensures IssuedBefore(o, m)
    decreases o
  {
    forall i | 0 <= i < |o.fields| && o.fields[i].Some?
      ensures IssuedBefore(o.fields[i].value, m)
    {
      IssuedBeforeMono(o.fields[i].value, n, m);
    }
  }

  lemma ValidMono(reg: Registry, m: nat)
    requires reg.next <= m
    ensures Valid(reg) ==> Valid(reg.(next := m))
  {
    if Valid(reg) {
      forall k | k in reg.singletons
        ensures IssuedBefore(reg.singletons[k].obj, m)
      {
        IssuedBeforeMono(reg.singletons[k].obj, reg.next, m);
      }
    }
  }

  /** The outcome of `getOptional`: the instance or nil, and the registry
      afterwards (a factory call hands out one identity). */
  datatype Lookup = Lookup(found: Option<Obj>, after: Registry)

  /** `getOptional<T>()`: the singleton store first, then the factory store
      (running the closure), else nil. An entry of the wrong type is skipped. */
  function GetOptional(reg: Registry, t: TypeKey): (r: Lookup)
    ensures r.after.singletons == reg.singletons && r.after.factories == reg.factories
    ensures r.found.None? <==> !Resolvable(reg, t)
    ensures SingletonMatches(reg, t) ==> r.found == Some(reg.singletons[t].obj) && r.after == reg
    ensures ByFactory(reg, t) ==>
              && r.found.value.ctor == reg.factories[t].ctor
              && reg.next <= r.found.value.id < r.after.next
    ensures !Resolvable(reg, t) ==> r.after == reg
    ensures reg.next <= r.after.next
    ensures Valid(reg) ==> Valid(r.after)
    ensures Valid(reg) && r.found.Some? ==> IssuedBefore(r.found.value, r.after.next)
  {
    if SingletonMatches(reg, t) then
      Lookup(Some(reg.singletons[t].obj), reg)
    else if FactoryMatches(reg, t) then
      var made := Obj(reg.next, reg.factories[t].ctor, []);
      ValidMono(reg, reg.next + 1);
      Lookup(Some(made), reg.(next := reg.next + 1))
    else
      Lookup(None, reg)
  }

  /** The outcome of `get`: the instance and the registry afterwards, or the
      `fatalError` that halts the process, naming the missing type. */
  datatype Required = Resolved(obj: Obj, after: Registry) | Fatal(missing: TypeKey)

  /** `get<T>()`: the same lookup as `getOptional`, but a miss is fatal. */
  function Get(reg: Registry, t: TypeKey): (r: Required)
    ensures r.Fatal? <==> !Resolvable(reg, t)
    ensures r.Fatal? ==> r.missing == t
    ensures r.Resolved? ==> r.after.singletons == reg.singletons && r.after.factories == reg.factories
    ensures SingletonMatches(reg, t) ==> r == Resolved(reg.singletons[t].obj, reg)
    ensures ByFactory(reg, t) ==>
              && r.obj.ctor == reg.factories[t].ctor
              && reg.next <= r.obj.id < r.after.next
  {
    if SingletonMatches(reg, t) then
      Resolved(reg.singletons[t].obj, reg)
    else if FactoryMatches(reg, t) then
      Resolved(Obj(reg.next, reg.factories[t].ctor, []), reg.(next := reg.next + 1))
    else
      Fatal(t)
  }

  /** Runs `getOptional` for each type in `deps`, left to right, threading
      the registry: what a singleton closure such as `C(a: di.getOptional(),
      b: di.getOptional())` does before it builds its instance. */
  function ResolveAll(reg: Registry, deps: seq<TypeKey>): (r: (seq<Option<Obj>>, Registry))
    ensures |r.0| == |deps|
    ensures r.1.singletons == reg.singletons && r.1.factories == reg.factories
    ensures reg.next <= r.1.next
    ensures forall i :: 0 <= i < |deps| ==> (r.0[i].None? <==> !Resolvable(reg, deps[i]))
    ensures forall i :: 0 <= i < |deps| && SingletonMatches(reg, deps[i]) ==>
              r.0[i] == Some(reg.singletons[deps[i]].obj)
    ensures forall i :: 0 <= i < |deps| && ByFactory(reg, deps[i]) ==>
              && r.0[i].Some?
              && r.0[i].value.ctor == reg.factories[deps[i]].ctor
              && reg.next <= r.0[i].value.id < r.1.next
    ensures Valid(reg) ==> Valid(r.1)
    ensures Valid(reg) ==> forall i :: 0 <= i < |deps| ==> r.0[i].None? || IssuedBefore(r.0[i].value, r.1.next)
    decreases |deps|
  {
    if deps == [] then
      ([], reg)
    else
      var first := GetOptional(reg, deps[0]);
      var rest := ResolveAll(first.after, deps[1..]);
      assert Valid(reg) && first.found.Some? ==> IssuedBefore(first.found.value, rest.1.next) by {
        if Valid(reg) && first.found.Some? {
          IssuedBeforeMono(first.found.value, first.after.next, rest.1.next);
        }
      }
      var vals := [first.found] + rest.0;
      assert forall i :: 1 <= i < |deps| ==> vals[i] == rest.0[i - 1] && deps[i] == deps[1..][i - 1];
      (vals, rest.1)
  }

  /** The instances a closure's lookups obtain from factories are pairwise
      distinct: each factory call hands out a later identity than the one
      before it. */
  lemma {:induction false} ResolveAllFactoryIdsIncrease(reg: Registry, deps: seq<TypeKey>)
    ensures forall i, j :: 0 <= i < j < |deps| && ByFactory(reg, deps[i]) && ByFactory(reg, deps[j]) ==>
              ResolveAll(reg, deps).0[i].value.id < ResolveAll(reg, deps).0[j].value.id
    decreases |deps|
  {
    if deps != [] {
      var first := GetOptional(reg, deps[0]);
      var tail := deps[1..];
      var rest := ResolveAll(first.after, tail);
      ResolveAllFactoryIdsIncrease(first.after, tail);
      assert ResolveAll(reg, deps).0 == [first.found] + rest.0;
      ConsIdsIncrease(reg, deps, first.found, first.after.next, rest.0);
    }
  }

  /** Putting a lookup whose factory identity is below `bound` in front of
      lookups whose factory identities increase from `bound` on keeps them
      increasing. */
  lemma ConsIdsIncrease(reg: Registry, deps: seq<TypeKey>, head: Option<Obj>, bound: nat, rest: seq<Option<Obj>>)
    requires deps != [] && |rest| == |deps| - 1
    requires ByFactory(reg, deps[0]) ==> head.Some? && head.value.id < bound
    requires forall k :: 0 <= k < |rest| && ByFactory(reg, deps[1..][k]) ==> rest[k].Some? && bound <= rest[k].value.id
    requires forall i, j :: 0 <= i < j < |rest| && ByFactory(reg, deps[1..][i]) && ByFactory(reg, deps[1..][j]) ==>
               rest[i].Some? && rest[j].Some? && rest[i].value.id < rest[j].value.id
    ensures var vals := [head] + rest;
            forall i, j :: 0 <= i < j < |deps| && ByFactory(reg, deps[i]) && ByFactory(reg, deps[j]) ==>
              vals[i].Some? && vals[j].Some? && vals[i].value.id < vals[j].value.id
  {
    var vals := [head] + rest;
    forall i, j | 0 <= i < j < |deps| && ByFactory(reg, deps[i]) && ByFactory(reg, deps[j])
      ensures vals[i].Some? && vals[j].Some? && vals[i].value.id < vals[j].value.id
    {
      assert vals[j] == rest[j - 1] && deps[j] == deps[1..][j - 1];
      if i > 0 {
        assert vals[i] == rest[i - 1] && deps[i] == deps[1..][i - 1];
      }
    }
  }

  /** A new instance holding only issued instances is issued once the
      counter moves past it, and the counter still covers the store. */
  lemma NewInstanceIssued(reg: Registry, vals: seq<Option<Obj>>, ctor: nat)
    ensures Valid(reg) && (forall i :: 0 <= i < |vals| ==> vals[i].None? || IssuedBefore(vals[i].value, reg.next)) ==>
              && IssuedBefore(Obj(reg.next, ctor, vals), reg.next + 1)
              && Valid(reg.(next := reg.next + 1))
  {
    if Valid(reg) && (forall i :: 0 <= i < |vals| ==> vals[i].None? || IssuedBefore(vals[i].value, reg.next)) {
      forall i | 0 <= i < |vals| && vals[i].Some?
        ensures IssuedBefore(vals[i].value, reg.next + 1)
      {
        IssuedBeforeMono(vals[i].value, reg.next, reg.next + 1);
      }
      ValidMono(reg, reg.next + 1);
    }
  }

  /** `singleton(type: key) { T(deps...) }`: if the key is free, run the
      closure (its lookups, then one new instance of type `tag`) and store the
      result; if the key is taken, do nothing at all. */
  function RegisterSingleton(reg: Registry, key: TypeKey, tag: TypeKey, ctor: nat, deps: seq<TypeKey>): (r: Registry)
    ensures key in reg.singletons ==> r == reg
    ensures key in r.singletons && r.singletons[key].tag == (if key in reg.singletons then reg.singletons[key].tag else tag)
    ensures key !in reg.singletons ==>
              && r.singletons[key].obj.ctor == ctor
              && reg.next <= r.singletons[key].obj.id < r.next
              && |r.singletons[key].obj.fields| == |deps|
              && (forall i :: 0 <= i < |deps| ==> (r.singletons[key].obj.fields[i].None? <==> !Resolvable(reg, deps[i])))
              && (forall i :: 0 <= i < |deps| && SingletonMatches(reg, deps[i]) ==>
                    r.singletons[key].obj.fields[i] == Some(reg.singletons[deps[i]].obj))
              && (forall i :: 0 <= i < |deps| && ByFactory(reg, deps[i]) ==>
                    && r.singletons[key].obj.fields[i].value.ctor == reg.factories[deps[i]].ctor
                    && reg.next <= r.singletons[key].obj.fields[i].value.id < r.singletons[key].obj.id)
              && (forall i, j :: 0 <= i < j < |deps| && ByFactory(reg, deps[i]) && ByFactory(reg, deps[j]) ==>
                    r.singletons[key].obj.fields[i].value.id < r.singletons[key].obj.fields[j].value.id)
    ensures forall k :: k != key ==> (k in r.singletons <==> k in reg.singletons)
    ensures forall k :: k != key && k in reg.singletons ==> r.singletons[k] == reg.singletons[k]
    ensures r.factories == reg.factories
    ensures reg.next <= r.next
    ensures Valid(reg) ==> Valid(r)
  {
    if key in reg.singletons then
      reg
    else
      var (vals, mid) := ResolveAll(reg, deps);
      var made := Obj(mid.next, ctor, vals);
      NewInstanceIssued(mid, vals, ctor);
      ResolveAllFactoryIdsIncrease(reg, deps);
      mid.(singletons := mid.singletons[key := Boxed(tag, made)], next := mid.next + 1)
  }

  /** `factory(type: key) { T() }`: store the closure, replacing any earlier
      one for the key. Nothing runs. */
  function RegisterFactory(reg: Registry, key: TypeKey, tag: TypeKey, ctor: nat): (r: Registry)
    ensures key in r.factories && r.factories[key] == Factory(tag, ctor)
    ensures forall k :: k != key ==> (k in r.factories <==> k in reg.factories)
    ensures forall k :: k != key && k in reg.factories ==> r.factories[k] == reg.factories[k]
    ensures r.singletons == reg.singletons && r.next == reg.next
    ensures Valid(reg) ==> Valid(r)
  {
    reg.(factories := reg.factories[key := Factory(tag, ctor)])
  }

  /** `resetDependencies()`: empty both stores. Instances already handed out
      keep their identities, so the counter is kept. */
  function ResetDependencies(reg: Registry): (r: Registry)
    ensures |r.singletons| == 0 && |r.factories| == 0
    ensures r.next == reg.next
    ensures forall t :: !Resolvable(r, t)
    ensures Valid(r)
  {
    Registry(map[], map[], reg.next)
  }

}
