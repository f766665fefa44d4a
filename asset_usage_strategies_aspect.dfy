/** The advice around `AssetService::getUsageStrategies()`: the configured strategies that are
    not disabled name the classes whose instances survive the filter. */
module StrategiesAspect {
  import opened Collections

  /** One entry of the `assetUsageStrategies` setting; `disable` is `None` when unset or null. */
  datatype StrategyConfiguration = StrategyConfiguration(className: string, disable: Option<bool>)

  /** `!isset($strategyConfiguration['disable']) || !$strategyConfiguration['disable']` */
  function IsEnabled(c: StrategyConfiguration): (r: bool)
    ensures r <==> c.disable != Some(true)
  {
    c.disable.None? || !c.disable.value
  }

  /** The class names of the enabled entries, in configuration order. */
  function EnabledClassNames(configurations: seq<StrategyConfiguration>): seq<string>
    decreases |configurations|
  {
    if configurations == [] then []
    else
      var last := configurations[|configurations| - 1];
      EnabledClassNames(configurations[..|configurations| - 1]) + (if IsEnabled(last) then [last.className] else [])
  }

  /** The enabled names of two runs of entries are those of each, in turn. */
  lemma {:induction false} EnabledClassNamesConcat(a: seq<StrategyConfiguration>, b: seq<StrategyConfiguration>)
    ensures EnabledClassNames(a + b) == EnabledClassNames(a) + EnabledClassNames(b)
    decreases |b|
  {
    if b == [] {
      assert a + b == a;
    } else {
      assert (a + b)[..|a + b| - 1] == a + b[..|b| - 1];
      EnabledClassNamesConcat(a, b[..|b| - 1]);
    }
  }

  /** A name is enabled iff some enabled entry carries it. */
  lemma {:induction false} EnabledClassNamesAt(configurations: seq<StrategyConfiguration>, name: string)
    ensures name in EnabledClassNames(configurations) <==>
      exists i :: 0 <= i < |configurations| && IsEnabled(configurations[i]) && configurations[i].className == name
    decreases |configurations|
  {
    if configurations != [] {
      var n := |configurations| - 1;
      var init := configurations[..n];
      EnabledClassNamesAt(init, name);
      if exists i :: 0 <= i < |configurations| && IsEnabled(configurations[i]) && configurations[i].className == name {
        var i :| 0 <= i < |configurations| && IsEnabled(configurations[i]) && configurations[i].className == name;
        if i < n {
          assert init[i] == configurations[i];
        }
      }
      if exists i :: 0 <= i < n && IsEnabled(init[i]) && init[i].className == name {
        var i :| 0 <= i < n && IsEnabled(init[i]) && init[i].className == name;
        assert init[i] == configurations[i];
      }
    }
  }

  /** The enabled names are exactly the class names of the enabled entries. */
  lemma EnabledClassNamesMembers(configurations: seq<StrategyConfiguration>)
    ensures forall name :: name in EnabledClassNames(configurations) <==>
      exists i :: 0 <= i < |configurations| && IsEnabled(configurations[i]) && configurations[i].className == name
  {
    forall name
      ensures name in EnabledClassNames(configurations) <==>
        exists i :: 0 <= i < |configurations| && IsEnabled(configurations[i]) && configurations[i].className == name
    {
      EnabledClassNamesAt(configurations, name);
    }
  }

  /** An enabled entry contributes its class name at its own place. */
  lemma EnabledContributesItsName(configurations: seq<StrategyConfiguration>, i: nat)
    requires i < |configurations| && IsEnabled(configurations[i])
    ensures EnabledClassNames(configurations) ==
      EnabledClassNames(configurations[..i]) + [configurations[i].className] + EnabledClassNames(configurations[i + 1..])
  {
    var before, entry, after := configurations[..i], configurations[i], configurations[i + 1..];
    assert configurations == before + [entry] + after;
    EnabledClassNamesConcat(before + [entry], after);
    EnabledClassNamesConcat(before, [entry]);
    EnabledClassNamesSingle(entry);
  }

  /** An entry marked `disable` contributes nothing: dropping it leaves the enabled names as
      they were. */
  lemma DisabledContributesNothing(configurations: seq<StrategyConfiguration>, i: nat)
    requires i < |configurations| && !IsEnabled(configurations[i])
    ensures EnabledClassNames(configurations) == EnabledClassNames(configurations[..i] + configurations[i + 1..])
  {
    var before, entry, after := configurations[..i], configurations[i], configurations[i + 1..];
    assert configurations == before + [entry] + after;
    EnabledClassNamesConcat(before + [entry], after);
    EnabledClassNamesConcat(before, [entry]);
    EnabledClassNamesConcat(before, after);
    EnabledClassNamesSingle(entry);
  }

  /** One entry contributes its class name iff it is enabled. */
  lemma EnabledClassNamesSingle(c: StrategyConfiguration)
    ensures EnabledClassNames([c]) == if IsEnabled(c) then [c.className] else []
  {
    assert [c][..0] == [];
  }

  /** `getEnabledAssetUsageStrategies()` */
  method GetEnabledAssetUsageStrategies(assetUsageStrategies: seq<StrategyConfiguration>) returns (enabled: seq<string>)
    ensures enabled == EnabledClassNames(assetUsageStrategies)
  {
    enabled := [];
    for i := 0 to |assetUsageStrategies|
      invariant enabled == EnabledClassNames(assetUsageStrategies[..i])
    {
      assert assetUsageStrategies[..i + 1][..i] == assetUsageStrategies[..i];
      var strategyConfiguration := assetUsageStrategies[i];
      if strategyConfiguration.disable.None? || !strategyConfiguration.disable.value {
        enabled := enabled + [strategyConfiguration.className];
      }
    }
    assert assetUsageStrategies[..|assetUsageStrategies|] == assetUsageStrategies;
  }

  /** The strategy is an instance of one of the enabled classes; `instanceOf` stands for PHP's
      `instanceof` with a class name. */
  ghost predicate InstanceOfAny<S>(strategy: S, enabled: seq<string>, instanceOf: (S, string) -> bool) {
    exists i :: 0 <= i < |enabled| && instanceOf(strategy, enabled[i])
  }

  /** The closure given to `array_filter`: true at the first enabled class the strategy is an
      instance of, false when there is none. */
  method IsInstanceOfEnabled<S>(strategy: S, enabled: seq<string>, instanceOf: (S, string) -> bool) returns (keep: bool)
    ensures keep == InstanceOfAny(strategy, enabled, instanceOf)
  {
    for i := 0 to |enabled|
      invariant forall j :: 0 <= j < i ==> !instanceOf(strategy, enabled[j])
    {
      if instanceOf(strategy, enabled[i]) {
        return true;
      }
    }
    return false;
  }

  /** `array_filter` with that closure: the entries of `proceeded` (key and strategy) that are
      instances of an enabled class, in their order. */
  ghost function KeepInstances<K, S>(proceeded: seq<(K, S)>, enabled: seq<string>, instanceOf: (S, string) -> bool): seq<(K, S)>
    decreases |proceeded|
  {
    if proceeded == [] then []
    else
      var last := proceeded[|proceeded| - 1];
      KeepInstances(proceeded[..|proceeded| - 1], enabled, instanceOf) +
        (if InstanceOfAny(last.1, enabled, instanceOf) then [last] else [])
  }

  /** The filtered strategies are the proceeded ones with some left out: keys and order are
      preserved. */
  lemma {:induction false} KeepInstancesSubsequence<K, S>(proceeded: seq<(K, S)>, enabled: seq<string>, instanceOf: (S, string) -> bool)
    ensures IsSubsequence(KeepInstances(proceeded, enabled, instanceOf), proceeded)
    decreases |proceeded|
  {
    if proceeded != [] {
      var init := proceeded[..|proceeded| - 1];
      var last := proceeded[|proceeded| - 1];
      KeepInstancesSubsequence(init, enabled, instanceOf);
      var kept := KeepInstances(init, enabled, instanceOf);
      if InstanceOfAny(last.1, enabled, instanceOf) {
        assert (kept + [last])[..|kept|] == kept;
      } else {
        assert KeepInstances(proceeded, enabled, instanceOf) == kept + [] == kept;
        SubsequenceOfPrefix(kept, init, last);
        assert init + [last] == proceeded;
      }
    }
  }

  /** An entry is kept iff it was proceeded and its strategy is an instance of an enabled
      class. */
  lemma {:induction false} KeepInstancesAt<K, S>(proceeded: seq<(K, S)>, enabled: seq<string>, instanceOf: (S, string) -> bool, e: (K, S))
    ensures e in KeepInstances(proceeded, enabled, instanceOf) <==> e in proceeded && InstanceOfAny(e.1, enabled, instanceOf)
    decreases |proceeded|
  {
    if proceeded != [] {
      var init := proceeded[..|proceeded| - 1];
      KeepInstancesAt(init, enabled, instanceOf, e);
      assert proceeded == init + [proceeded[|proceeded| - 1]];
    }
  }

  /** The filter keeps exactly the instances of enabled classes; with no class enabled it keeps
      nothing. */
  lemma KeepInstancesMeaning<K, S>(proceeded: seq<(K, S)>, enabled: seq<string>, instanceOf: (S, string) -> bool)
    ensures IsSubsequence(KeepInstances(proceeded, enabled, instanceOf), proceeded)
    ensures forall e :: e in KeepInstances(proceeded, enabled, instanceOf) <==>
      e in proceeded && InstanceOfAny(e.1, enabled, instanceOf)
    ensures enabled == [] ==> KeepInstances(proceeded, enabled, instanceOf) == []
  {
    KeepInstancesSubsequence(proceeded, enabled, instanceOf);
    forall e
      ensures e in KeepInstances(proceeded, enabled, instanceOf) <==> e in proceeded && InstanceOfAny(e.1, enabled, instanceOf)
    {
      KeepInstancesAt(proceeded, enabled, instanceOf, e);
    }
  }

  /** `filterAssetUsageStrategies($joinPoint)`: `proceeded` is what the advised method returned. */
  method FilterAssetUsageStrategies<K, S>(proceeded: seq<(K, S)>, assetUsageStrategies: seq<StrategyConfiguration>,
                                          instanceOf: (S, string) -> bool)
    returns (filtered: seq<(K, S)>)
    ensures filtered == KeepInstances(proceeded, EnabledClassNames(assetUsageStrategies), instanceOf)
  {
    var enabled := GetEnabledAssetUsageStrategies(assetUsageStrategies);
    filtered := [];
    for i := 0 to |proceeded|
      invariant filtered == KeepInstances(proceeded[..i], enabled, instanceOf)
    {
      assert proceeded[..i + 1][..i] == proceeded[..i];
      var keep := IsInstanceOfEnabled(proceeded[i].1, enabled, instanceOf);
      if keep {
        filtered := filtered + [proceeded[i]];
      }
    }
    assert proceeded[..|proceeded|] == proceeded;
  }
}
