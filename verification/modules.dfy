/** `DIModule` and `registerModules`: a module is a deferred registration
    closure, modelled as the sequence of registration calls it makes; loading
    runs them in order against the injector it is given. */
module Modules {

  import opened DependencyInjector

  /** One call a registration closure makes on the injector it receives. A
      singleton closure may look up other types (with `getOptional`) before
      building its instance. */
  datatype Command =
    | SingletonCmd(key: TypeKey, tag: TypeKey, ctor: nat, deps: seq<TypeKey>)
    | FactoryCmd(key: TypeKey, tag: TypeKey, ctor: nat)

  /** `DIModule(dependencies:)`: holds the closure and nothing else; building
      one touches no injector. */
  datatype DIModule = DIModule(dependencies: seq<Command>)

  /** The factory entry a command installs, if any. */
  function InstalledFactory(c: Command): map<TypeKey, Factory>
  {
    if c.FactoryCmd? then map[c.key := Factory(c.tag, c.ctor)] else map[]
  }

  /** The singleton key a command claims, if any. */
  function ClaimedKey(c: Command): set<TypeKey>
  {
    if c.SingletonCmd? then {c.key} else {}
  }

  /** One registration call. */
  function Step(reg: Registry, c: Command): (r: Registry)
    ensures r.factories == reg.factories + InstalledFactory(c)
    ensures r.singletons.Keys == reg.singletons.Keys + ClaimedKey(c)
    ensures forall k :: k in reg.singletons ==> r.singletons[k] == reg.singletons[k]
    ensures c.SingletonCmd? && c.key !in reg.singletons ==>
              r.singletons[c.key].tag == c.tag && r.singletons[c.key].obj.ctor == c.ctor
    ensures reg.next <= r.next
    ensures Valid(reg) ==> Valid(r)
  {
    match c
    case SingletonCmd(key, tag, ctor, deps) => RegisterSingleton(reg, key, tag, ctor, deps)
    case FactoryCmd(key, tag, ctor) => RegisterFactory(reg, key, tag, ctor)
  }

  /** The keys a command sequence registers singletons under. */
  function SingletonKeys(cmds: seq<Command>): set<TypeKey>
    decreases |cmds|
  {
    if cmds == [] then {} else ClaimedKey(cmds[0]) + SingletonKeys(cmds[1..])
  }

  /** The first singleton call for `k`: the one whose closure runs when `k`
      is still free as the calls start. */
  function FirstSingleton(cmds: seq<Command>, k: TypeKey): (c: Command)
    requires k in SingletonKeys(cmds)
    ensures c in cmds && c.SingletonCmd? && c.key == k
    decreases |cmds|
  {
    if cmds[0].SingletonCmd? && cmds[0].key == k then cmds[0] else FirstSingleton(cmds[1..], k)
  }

  /** The factory each key ends up with: the last factory command for it. */
  function FactoriesOf(cmds: seq<Command>): map<TypeKey, Factory>
    decreases |cmds|
  {
    if cmds == [] then map[] else InstalledFactory(cmds[0]) + FactoriesOf(cmds[1..])
  }

  lemma UnionAssoc<K, V>(a: map<K, V>, b: map<K, V>, c: map<K, V>)
    ensures (a + b) + c == a + (b + c)
  {
  }

  /** The registration calls run one after another (a left fold). Singletons
      only accumulate, the first one for a key staying; the factory store
      ends as the old one overridden by the last factory of each key. */
  function Run(reg: Registry, cmds: seq<Command>): (r: Registry)
    ensures r.factories == reg.factories + FactoriesOf(cmds)
    ensures r.singletons.Keys == reg.singletons.Keys + SingletonKeys(cmds)
    ensures forall k :: k in reg.singletons ==> r.singletons[k] == reg.singletons[k]
    ensures forall k :: k in SingletonKeys(cmds) && k !in reg.singletons ==>
              && r.singletons[k].tag == FirstSingleton(cmds, k).tag
              && r.singletons[k].obj.ctor == FirstSingleton(cmds, k).ctor
    ensures reg.next <= r.next
    ensures Valid(reg) ==> Valid(r)
    decreases |cmds|
  {
    if cmds == [] then
      assert reg.factories + map[] == reg.factories;
      reg
    else
      UnionAssoc(reg.factories, InstalledFactory(cmds[0]), FactoriesOf(cmds[1..]));
      Run(Step(reg, cmds[0]), cmds[1..])
  }

  /** `load(dependencyInjector:)`: run the wrapped closure on the injector
      passed in. */
  function Load(m: DIModule, reg: Registry): (r: Registry)
    ensures r.factories == reg.factories + FactoriesOf(m.dependencies)
    ensures r.singletons.Keys == reg.singletons.Keys + SingletonKeys(m.dependencies)
    ensures forall k :: k in reg.singletons ==> r.singletons[k] == reg.singletons[k]
    ensures forall k :: k in SingletonKeys(m.dependencies) && k !in reg.singletons ==>
              && r.singletons[k].tag == FirstSingleton(m.dependencies, k).tag
              && r.singletons[k].obj.ctor == FirstSingleton(m.dependencies, k).ctor
    ensures reg.next <= r.next
    ensures Valid(reg) ==> Valid(r)
  {
    Run(reg, m.dependencies)
  }

  /** The reference meaning of `registerModules`: each module loaded in
      array order. */
  function LoadAll(reg: Registry, modules: seq<DIModule>): Registry
    decreases |modules|
  {
    if modules == [] then reg
    else Load(modules[|modules| - 1], LoadAll(reg, modules[..|modules| - 1]))
  }

  /** All the registration calls of a module list, in loading order. */
  function Commands(modules: seq<DIModule>): seq<Command>
    decreases |modules|
  {
    if modules == [] then []
    else Commands(modules[..|modules| - 1]) + modules[|modules| - 1].dependencies
  }

  /** `registerModules(modules:)`. */
  method RegisterModules(reg: Registry, modules: seq<DIModule>) returns (r: Registry)
    ensures r == LoadAll(reg, modules)
    ensures forall k :: k in reg.singletons ==> k in r.singletons && r.singletons[k] == reg.singletons[k]
    ensures reg.factories.Keys <= r.factories.Keys
    ensures reg.next <= r.next
    ensures Valid(reg) ==> Valid(r)
  {
    r := reg;
    var i := 0;
    while i < |modules|
      invariant 0 <= i <= |modules|
      invariant r == LoadAll(reg, modules[..i])
    {
      assert modules[..i + 1][..i] == modules[..i];
      r := Load(modules[i], r);
      i := i + 1;
    }
    assert modules[..|modules|] == modules;
    LoadAllKeepsSingletons(reg, modules);
  }

  lemma {:induction false} RunAppend(reg: Registry, a: seq<Command>, b: seq<Command>)
    ensures Run(reg, a + b) == Run(Run(reg, a), b)
    decreases |a|
  {
    if a == [] {
      assert a + b == b;
    } else {
      assert (a + b)[1..] == a[1..] + b;
      RunAppend(Step(reg, a[0]), a[1..], b);
    }
  }

  /** Registering a list of modules is the same as running all their
      registration calls as one sequence. */
  lemma {:induction false} LoadAllRunsAllCommands(reg: Registry, modules: seq<DIModule>)
    ensures LoadAll(reg, modules) == Run(reg, Commands(modules))
    decreases |modules|
  {
    if modules != [] {
      var init := modules[..|modules| - 1];
      LoadAllRunsAllCommands(reg, init);
      RunAppend(reg, Commands(init), modules[|modules| - 1].dependencies);
    }
  }

  /** Registering `a` then `b` is registering `a + b`. */
  lemma {:induction false} LoadAllAppend(reg: Registry, a: seq<DIModule>, b: seq<DIModule>)
    ensures LoadAll(reg, a + b) == LoadAll(LoadAll(reg, a), b)
    decreases |b|
  {
    if b == [] {
      assert a + b == a;
    } else {
      assert (a + b)[..|a + b| - 1] == a + b[..|b| - 1];
      LoadAllAppend(reg, a, b[..|b| - 1]);
    }
  }

  /** Running calls whose singleton keys are all taken changes only the
      factory store: every singleton call is a no-op. */
  lemma {:induction false} RunOverTakenSingletons(reg: Registry, cmds: seq<Command>)
    requires SingletonKeys(cmds) <= reg.singletons.Keys
    ensures Run(reg, cmds) == reg.(factories := reg.factories + FactoriesOf(cmds))
    decreases |cmds|
  {
    if cmds == [] {
      assert reg.factories + map[] == reg.factories;
    } else {
      var s := Step(reg, cmds[0]);
      assert s.singletons == reg.singletons && s.next == reg.next;
      RunOverTakenSingletons(s, cmds[1..]);
    }
  }

  /** Loading a module into an injector that already holds all its
      singleton keys keeps every singleton instance and re-installs the
      module's factories. */
  lemma ReloadKeepsSingletonsReinstallsFactories(m: DIModule, reg: Registry)
    requires SingletonKeys(m.dependencies) <= reg.singletons.Keys
    ensures Load(m, reg).singletons == reg.singletons
    ensures Load(m, reg).next == reg.next
    ensures forall k :: k in FactoriesOf(m.dependencies) ==> Load(m, reg).factories[k] == FactoriesOf(m.dependencies)[k]
    ensures forall k :: k !in FactoriesOf(m.dependencies) && k in reg.factories ==> Load(m, reg).factories[k] == reg.factories[k]
  {
    RunOverTakenSingletons(reg, m.dependencies);
  }

  /** Loading the same module twice in a row is loading it once: the second
      load's singleton calls find their keys taken, and its factory calls
      store what the first load stored. */
  lemma LoadTwiceIsLoadOnce(m: DIModule, reg: Registry)
    ensures Load(m, Load(m, reg)) == Load(m, reg)
  {
    var once := Load(m, reg);
    RunOverTakenSingletons(once, m.dependencies);
    var f := FactoriesOf(m.dependencies);
    assert once.factories + f == once.factories;
  }

  /** Loading more modules never removes or replaces a singleton, never
      loses a factory key, never moves the counter back, and keeps the
      identity invariant. */
  lemma {:induction false} LoadAllKeepsSingletons(reg: Registry, modules: seq<DIModule>)
    ensures reg.singletons.Keys <= LoadAll(reg, modules).singletons.Keys
    ensures forall k :: k in reg.singletons ==> LoadAll(reg, modules).singletons[k] == reg.singletons[k]
    ensures reg.factories.Keys <= LoadAll(reg, modules).factories.Keys
    ensures reg.next <= LoadAll(reg, modules).next
    ensures Valid(reg) ==> Valid(LoadAll(reg, modules))
    decreases |modules|
  {
    if modules != [] {
      LoadAllKeepsSingletons(reg, modules[..|modules| - 1]);
    }
  }

  /** Loading a module, then other modules, then the same module again: the
      second load keeps every singleton (the first load's instances) and
      puts the module's factories back over whatever the others installed. */
  lemma ReloadAfterOthers(m: DIModule, others: seq<DIModule>, reg: Registry)
    ensures var mid := LoadAll(Load(m, reg), others);
            && Load(m, mid).singletons == mid.singletons
            && (forall k :: k in Load(m, reg).singletons ==>
                  k in Load(m, mid).singletons && Load(m, mid).singletons[k] == Load(m, reg).singletons[k])
            && Load(m, mid).next == mid.next
            && forall k :: k in FactoriesOf(m.dependencies) ==> Load(m, mid).factories[k] == FactoriesOf(m.dependencies)[k]
  {
    var mid := LoadAll(Load(m, reg), others);
    LoadAllKeepsSingletons(Load(m, reg), others);
    ReloadKeepsSingletonsReinstallsFactories(m, mid);
  }

  /** Within one module, the first of two singleton registrations for a
      free key is the one stored. */
  lemma ModuleSingletonFirstWriterWins(reg: Registry, k: TypeKey, c1: nat, d1: seq<TypeKey>, c2: nat, d2: seq<TypeKey>)
    requires k !in reg.singletons
    ensures var r := Load(DIModule([SingletonCmd(k, k, c1, d1), SingletonCmd(k, k, c2, d2)]), reg);
            k in r.singletons && r.singletons[k].obj.ctor == c1
  {
    var cmds := [SingletonCmd(k, k, c1, d1), SingletonCmd(k, k, c2, d2)];
    assert k in SingletonKeys(cmds);
    assert FirstSingleton(cmds, k) == cmds[0];
  }

}
