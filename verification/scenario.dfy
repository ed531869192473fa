/** The module of the test suite, loaded into a fresh injector: `B` as the
    factory for `PrintsSomething`, `A` as a singleton, and `C` as a singleton
    built from `getOptional` of both. */
module Scenario {

  import opened Wrappers
  import opened DependencyInjector
  import opened Modules

  const A := TypeKey("A")
  const C := TypeKey("C")
  const PrintsSomething := TypeKey("PrintsSomething")

  /** `swiftDIKitModule { di in ... }` of the test set-up. */
  function TestModule(): DIModule
  {
    DIModule([
      FactoryCmd(PrintsSomething, PrintsSomething, 1),
      SingletonCmd(A, A, 2, []),
      SingletonCmd(C, C, 3, [A, PrintsSomething])
    ])
  }

  /** The set-up: the test module loaded into an empty injector. */
  function Started(): Registry
  {
    LoadAll(Empty(), [TestModule()])
  }

  /** The injector after each registration call of the set-up: the factory
      for `PrintsSomething`, then `A` (identity 0), then `C` (identity 2),
      whose construction made a `B` (identity 1) from the factory. */
  const AfterFactory := Registry(map[], map[PrintsSomething := Factory(PrintsSomething, 1)], 0)
  const AfterA := AfterFactory.(singletons := map[A := Boxed(A, Obj(0, 2, []))], next := 1)
  const AfterC := Registry(
    map[A := Boxed(A, Obj(0, 2, [])),
        C := Boxed(C, Obj(2, 3, [Some(Obj(0, 2, [])), Some(Obj(1, 1, []))]))],
    map[PrintsSomething := Factory(PrintsSomething, 1)],
    3)

  /** `C`'s closure, run on `AfterA`: `getOptional` of `A` returns the
      singleton, and `getOptional` of `PrintsSomething` runs the factory. */
  lemma LookupsForC()
    ensures ResolveAll(AfterA, [A, PrintsSomething]) == ([Some(Obj(0, 2, [])), Some(Obj(1, 1, []))], AfterA.(next := 2))
  {
    var lookA := GetOptional(AfterA, A);
    assert lookA == Lookup(Some(Obj(0, 2, [])), AfterA);
    var lookB := GetOptional(AfterA, PrintsSomething);
    var after := lookB.after;
    assert lookB == Lookup(Some(Obj(1, 1, [])), AfterA.(next := 2));
    assert [A, PrintsSomething][1..] == [PrintsSomething] && [PrintsSomething][1..] == [];
    assert ResolveAll(after, []) == ([], after);
    assert ResolveAll(AfterA, [PrintsSomething]) == ([lookB.found] + [], after);
    assert [lookB.found] + [] == [Some(Obj(1, 1, []))];
    assert ResolveAll(AfterA, [A, PrintsSomething]) == ([lookA.found] + [lookB.found], after);
    assert [lookA.found] + [lookB.found] == [Some(Obj(0, 2, [])), Some(Obj(1, 1, []))];
  }

  lemma BuildC()
    ensures Step(AfterA, SingletonCmd(C, C, 3, [A, PrintsSomething])) == AfterC
  {
    LookupsForC();
  }

  /** The set-up leaves the injector in state `AfterC`. */
  lemma {:induction false} StartedState()
    ensures Started() == AfterC
  {
    var cmds := TestModule().dependencies;
    assert Step(Empty(), cmds[0]) == AfterFactory;
    assert Step(AfterFactory, cmds[1]) == AfterA;
    BuildC();
    assert cmds[1..][1..] == cmds[2..] && cmds[2..][1..] == [];
    assert Run(AfterC, []) == AfterC;
    assert Run(AfterA, cmds[2..]) == AfterC;
    assert Run(AfterFactory, cmds[1..]) == AfterC;
    assert Run(Empty(), cmds) == AfterC;
    assert LoadAll(Empty(), []) == Empty();
  }

  /** `C` resolves with both fields present; its `a` is the `A` singleton. */
  lemma RegisterDependencies()
    ensures var c := GetOptional(Started(), C).found;
            && c.Some? && |c.value.fields| == 2
            && c.value.fields[0].Some? && c.value.fields[1].Some?
            && c.value.fields[0] == GetOptional(Started(), A).found
  {
    StartedState();
  }

  /** Two resolutions of `A` are the same instance (`a === a2`). */
  lemma SingletonIdentity()
    ensures var a := GetOptional(Started(), A);
            var a2 := GetOptional(a.after, A);
            a.found.Some? && a.found == a2.found
  {
    StartedState();
    assert SingletonMatches(AfterC, A);
  }

  lemma FactoryFreshnessAfterC()
    ensures var b := GetOptional(AfterC, PrintsSomething);
            var b2 := GetOptional(b.after, PrintsSomething);
            && b.found.Some? && b2.found.Some?
            && b.found.value.ctor == 1 && b2.found.value.ctor == 1
            && b.found.value.id != b2.found.value.id
  {
    assert ByFactory(AfterC, PrintsSomething);
  }

  /** Two resolutions of `PrintsSomething` are different instances, both
      made by `B`'s closure (`b !== b2`). */
  lemma FactoryFreshness()
    ensures var b := GetOptional(Started(), PrintsSomething);
            var b2 := GetOptional(b.after, PrintsSomething);
            && b.found.Some? && b2.found.Some?
            && b.found.value.ctor == 1 && b2.found.value.ctor == 1
            && b.found.value.id != b2.found.value.id
  {
    StartedState();
    FactoryFreshnessAfterC();
  }

  lemma ResolveThreadedAfterC()
    ensures Get(AfterC, PrintsSomething).Resolved?
    ensures Get(AfterC, PrintsSomething).obj.ctor == 1
    ensures Get(Get(AfterC, PrintsSomething).after, A).Resolved?
  {
    assert ByFactory(AfterC, PrintsSomething);
    var b := Get(AfterC, PrintsSomething);
    assert SingletonMatches(b.after, A);
  }

  /** `get` resolves `PrintsSomething`, which `B`'s closure makes
      (`b as? B != nil`), and then resolves `A` in the injector that call
      left. */
  lemma Resolve()
    ensures Get(Started(), PrintsSomething).Resolved?
    ensures Get(Started(), PrintsSomething).obj.ctor == 1
    ensures Get(Get(Started(), PrintsSomething).after, A).Resolved?
  {
    StartedState();
    ResolveThreadedAfterC();
  }

  /** After a reset, `A` no longer resolves. */
  lemma Reset()
    ensures GetOptional(ResetDependencies(Started()), A).found == None
  {
    StartedState();
  }

}
