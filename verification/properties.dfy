/** What the registry promises across calls: registration order, store
    precedence, instance identity, the agreement of `get` with `getOptional`,
    and reset. */
module RegistryProperties {

  import opened Wrappers
  import opened DependencyInjector

  /** `get` fails exactly when `getOptional` returns nil, and otherwise both
      return the same instance and leave the same registry. */
  lemma GetAgreesWithGetOptional(reg: Registry, t: TypeKey)
    ensures Get(reg, t).Fatal? <==> GetOptional(reg, t).found.None?
    ensures Get(reg, t).Resolved? ==>
              && GetOptional(reg, t).found == Some(Get(reg, t).obj)
              && GetOptional(reg, t).after == Get(reg, t).after
  {
  }

  /** A second singleton registration for a taken key leaves the injector as
      the first left it, counter included: its closure never runs, and the
      instance resolved afterwards is the first registration's. */
  lemma SingletonFirstWriterWins(reg: Registry, key: TypeKey, c1: nat, d1: seq<TypeKey>, tag2: TypeKey, c2: nat, d2: seq<TypeKey>)
    requires key !in reg.singletons
    ensures var first := RegisterSingleton(reg, key, key, c1, d1);
            && RegisterSingleton(first, key, tag2, c2, d2) == first
            && GetOptional(RegisterSingleton(first, key, tag2, c2, d2), key).found.value.ctor == c1
  {
  }

  /** A later factory registration for a key replaces the earlier one, and
      resolution then runs the newest closure (unless a singleton shadows
      the key). */
  lemma FactoryLastWriterWins(reg: Registry, key: TypeKey, tag1: TypeKey, c1: nat, c2: nat)
    ensures RegisterFactory(RegisterFactory(reg, key, tag1, c1), key, key, c2) == RegisterFactory(reg, key, key, c2)
    ensures !SingletonMatches(reg, key) ==>
              GetOptional(RegisterFactory(RegisterFactory(reg, key, tag1, c1), key, key, c2), key).found.value.ctor == c2
  {
  }

  /** Registering a factory under one key changes no resolution of another
      type. */
  lemma RegisterFactoryFrame(reg: Registry, key: TypeKey, tag: TypeKey, ctor: nat, t: TypeKey)
    requires t != key
    ensures GetOptional(RegisterFactory(reg, key, tag, ctor), t).found == GetOptional(reg, t).found
    ensures Get(RegisterFactory(reg, key, tag, ctor), t).Fatal? == Get(reg, t).Fatal?
  {
  }

  /** Registering a singleton under one key changes no singleton resolution
      of another type. */
  lemma RegisterSingletonFrame(reg: Registry, key: TypeKey, tag: TypeKey, ctor: nat, deps: seq<TypeKey>, t: TypeKey)
    requires t != key
    requires SingletonMatches(reg, t)
    ensures GetOptional(RegisterSingleton(reg, key, tag, ctor, deps), t).found == GetOptional(reg, t).found
  {
  }

  /** With both a singleton and a factory under the key, resolution returns
      the singleton and never runs the factory (no identity is handed out). */
  lemma SingletonShadowsFactory(reg: Registry, t: TypeKey)
    requires SingletonMatches(reg, t)
    requires FactoryMatches(reg, t)
    ensures GetOptional(reg, t) == Lookup(Some(reg.singletons[t].obj), reg)
    ensures Get(reg, t) == Resolved(reg.singletons[t].obj, reg)
  {
  }

  /** Two resolutions of a singleton type, one after the other, return the
      identical instance (`a === a2`). */
  lemma RepeatedSingletonResolutionIsIdentical(reg: Registry, t: TypeKey)
    requires SingletonMatches(reg, t)
    ensures var first := GetOptional(reg, t);
            var second := GetOptional(first.after, t);
            first.found.Some? && second.found == first.found
  {
  }

  /** Two resolutions of a factory type, one after the other, return
      distinct instances (`b !== b2`), and neither is any instance the
      singleton store holds. */
  lemma RepeatedFactoryResolutionIsFresh(reg: Registry, t: TypeKey)
    requires Valid(reg)
    requires !SingletonMatches(reg, t) && FactoryMatches(reg, t)
    ensures var first := GetOptional(reg, t);
            var second := GetOptional(first.after, t);
            && first.found.Some? && second.found.Some?
            && first.found.value.id != second.found.value.id
            && forall k :: k in reg.singletons ==>
                 reg.singletons[k].obj.id != first.found.value.id && reg.singletons[k].obj.id != second.found.value.id
  {
  }

  /** A stored entry whose type does not match is skipped: a mismatched
      singleton falls through to the factory store, and a mismatched factory
      to "not found". */
  lemma MismatchFallsThrough(reg: Registry, t: TypeKey)
    requires t in reg.singletons && reg.singletons[t].tag != t
    ensures FactoryMatches(reg, t) ==> GetOptional(reg, t).found.value.ctor == reg.factories[t].ctor
    ensures !FactoryMatches(reg, t) ==> GetOptional(reg, t) == Lookup(None, reg) && Get(reg, t) == Fatal(t)
  {
  }

  /** After `resetDependencies`, no type resolves: `getOptional` is nil and
      `get` is fatal, and neither hands out an identity. */
  lemma ResetForgetsEverything(reg: Registry, t: TypeKey)
    ensures GetOptional(ResetDependencies(reg), t) == Lookup(None, ResetDependencies(reg))
    ensures Get(ResetDependencies(reg), t) == Fatal(t)
  {
  }

}
