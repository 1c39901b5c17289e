/**
 * The conversion engine of `MetaConverter`: rules run in table order against a
 * working copy of the source dict, the source fields they name are deleted
 * only once every rule has run, the settings hook takes its keys, and whatever
 * remains is merged into the result, which is then read as a mapping.
 */
module Converter {
  import opened Wrappers
  import opened Dicts
  import opened Registry

  /** The engine between two rules: the working copy and the result so far, or an exception escaped. */
  datatype State = Running(work: Dict, out: Dict) | Aborted

  /** The rule names a non-empty source field the working copy lacks: it is skipped. */
  predicate Skips(rule: Rule, work: Dict) {
    rule.FieldRule? && rule.field != "" && rule.field !in work.entries
  }

  /** The argument the rule's function is called with exists. */
  predicate Callable(rule: Rule, work: Dict) {
    rule.WholeRule? || rule.field in work.entries
  }

  /** Calling the rule's function: with the field's value, or with the whole working copy. */
  function Call(rule: Rule, work: Dict): Outcome
    requires Callable(rule, work)
  {
    match rule
    case FieldRule(field, convert) => convert(work.entries[field])
    case WholeRule(convertAll, _) => convertAll(work)
  }

  /** The working copy once the call returned: a catch-all may have popped keys from it. */
  function AfterCall(rule: Rule, work: Dict): (r: Dict)
    requires WellFormed(work)
    ensures WellFormed(r)
  {
    match rule
    case FieldRule(_, _) => work
    case WholeRule(_, pops) => Without(work, pops(work))
  }

  /**
   * One pass of the first loop of `_convert` for the rule registered under
   * `target`. An empty source field is not skipped (it is falsy), so its lookup
   * raises `KeyError` when the key is missing.
   */
  function Apply(target: string, rule: Rule, work: Dict, out: Dict): (s: State)
    requires WellFormed(work) && WellFormed(out)
    ensures s.Aborted? <==> !Skips(rule, work) && (!Callable(rule, work) || Call(rule, work) == Fail)
    ensures s.Running? ==> WellFormed(s.work) && WellFormed(s.out)
    ensures s.Running? ==> s.work.entries.Keys <= work.entries.Keys
    ensures s.Running? ==> s.out == out || (target in s.out.entries && s.out == Set(out, target, s.out.entries[target]))
  {
    if Skips(rule, work) then Running(work, out)
    else if !Callable(rule, work) then Aborted
    else
      match Call(rule, work)
      case Present(v) => Running(AfterCall(rule, work), Set(out, target, v))
      case Absent => Running(AfterCall(rule, work), out)
      case Fail => Aborted
  }

  /** The first loop of `_convert` over the rules of `reg`, in order, starting from `source`. */
  function Run(reg: Registry, source: Dict): (s: State)
    requires WellFormed(source)
    ensures s.Running? ==> WellFormed(s.work) && WellFormed(s.out)
    decreases |reg|
  {
    if reg == [] then Running(source, Empty)
    else
      match Run(reg[..|reg| - 1], source)
      case Aborted => Aborted
      case Running(work, out) => Apply(reg[|reg| - 1].0, reg[|reg| - 1].1, work, out)
  }

  /** The source fields named by the rules of `reg`: what the second loop deletes. */
  function Claimed(reg: Registry): set<string> {
    set i | 0 <= i < |reg| && reg[i].1.FieldRule? :: reg[i].1.field
  }

  /**
   * What a `get_settings` hook that moves the keys `settingsKeys` into
   * `settings` takes from the working copy (the base class's no-op hook is
   * the empty set).
   */
  function SettingsOf(work: Dict, settingsKeys: set<string>): map<string, Value> {
    map k | k in work.entries && k in settingsKeys :: work.entries[k]
  }

  /** The outcome of a conversion: the result mapping and the settings. */
  datatype Converted = Converted(data: Dict, settings: map<string, Value>)

  /** The working copy once claimed fields are deleted and the settings hook ran. */
  function Leftovers(reg: Registry, settingsKeys: set<string>, source: Dict): (r: Dict)
    requires WellFormed(source) && Run(reg, source).Running?
    ensures WellFormed(r)
  {
    Without(Without(Run(reg, source).work, Claimed(reg)), settingsKeys)
  }

  /** The whole of `MetaConverter(source)`; None when a rule raised something other than `Unset`. */
  function Conversion(reg: Registry, settingsKeys: set<string>, source: Dict): (r: Option<Converted>)
    requires WellFormed(source)
    ensures r.Some? <==> Run(reg, source).Running?
    ensures r.Some? ==> WellFormed(r.value.data) && r.value.settings.Keys <= settingsKeys
  {
    match Run(reg, source)
    case Aborted => None
    case Running(work, out) =>
      var unclaimed := Without(work, Claimed(reg));
      Some(Converted(Update(out, Without(unclaimed, settingsKeys)), SettingsOf(unclaimed, settingsKeys)))
  }

  /**
   * Unfolding aid, not a property: `Conversion`'s `Running` branch spelled out,
   * so that `Convert` and the leftover lemmas need not unfold the match themselves.
   */
  lemma ConversionAfterRun(reg: Registry, settingsKeys: set<string>, source: Dict)
    requires WellFormed(source) && Run(reg, source).Running?
    ensures var unclaimed := Without(Run(reg, source).work, Claimed(reg));
      Conversion(reg, settingsKeys, source)
        == Some(Converted(Update(Run(reg, source).out, Without(unclaimed, settingsKeys)), SettingsOf(unclaimed, settingsKeys)))
  {
  }

  lemma {:induction false} DistinctCardinality(s: seq<string>)
    requires Distinct(s)
    ensures |set x | x in s| == |s|
  {
    if s != [] {
      var init := s[..|s| - 1];
      DistinctCardinality(init);
      assert s == init + [s[|s| - 1]];
      assert (set x | x in s) == (set x | x in init) + {s[|s| - 1]};
    }
  }

  /** A converter instance: its class's table, its settings hook, and the mapping it exposes. */
  class MetaConverter {
    const converters: Registry
    const settingsKeys: set<string>
    var data: map<string, Value>
    var keys: seq<string>
    var settings: map<string, Value>

    /** The table is a dict (no target twice) and `keys` is the insertion order of `data`. */
    ghost predicate Valid()
      reads this
    {
      Distinct(Targets(converters)) && WellFormed(Dict(keys, data))
    }

    /** `__init__` before conversion: an empty result and empty settings. */
    constructor (converters: Registry, settingsKeys: set<string>)
      requires Distinct(Targets(converters))
      ensures this.converters == converters && this.settingsKeys == settingsKeys
      ensures Valid() && keys == [] && data == map[] && settings == map[]
    {
      this.converters := converters;
      this.settingsKeys := settingsKeys;
      data, keys, settings := map[], [], map[];
    }

    /** `__getitem__`: the value under `k`, None where Python raises `KeyError`. */
    function Get(k: string): (r: Option<Value>)
      reads this
      requires Valid()
      ensures r.Some? <==> k in Iter()
      ensures r.Some? ==> r.value == data[k]
    {
      if k in data then Some(data[k]) else None
    }

    /** `__len__`: the number of keys iteration yields. */
    function Len(): (n: nat)
      reads this
      requires Valid()
      ensures n == |Iter()|
    {
      DistinctCardinality(keys);
      assert data.Keys == set x | x in keys;
      |data|
    }

    /** `__iter__`: every key of the mapping once, in insertion order. */
    function Iter(): (ks: seq<string>)
      reads this
      requires Valid()
      ensures Distinct(ks) && forall k :: k in ks <==> k in data
    {
      keys
    }

    /** The default `get_settings` hook, generalised to move `settingsKeys` into `settings`. */
    method GetSettings(source: Dict) returns (rest: Dict)
      requires WellFormed(source)
      modifies this`settings
      ensures settings == old(settings) + SettingsOf(source, settingsKeys)
      ensures rest == Without(source, settingsKeys)
    {
      settings := settings + map k | k in source.entries && k in settingsKeys :: source.entries[k];
      rest := Without(source, settingsKeys);
    }

    /**
     * The first loop of `_convert`: every rule in table order, writing outputs
     * into `data`; `ok` is false where an exception other than `Unset` escapes.
     */
    method RunRules(source: Dict) returns (work: Dict, ok: bool)
      requires WellFormed(source) && Valid() && keys == []
      modifies this`data, this`keys
      ensures ok <==> Run(converters, source).Running?
      ensures ok ==> Run(converters, source) == Running(work, Dict(keys, data)) && Valid()
    {
      assert data == map[];
      work := source;
      for i := 0 to |converters|
        invariant WellFormed(work) && Valid()
        invariant Run(converters[..i], source) == Running(work, Dict(keys, data))
      {
        assert converters[..i + 1][..i] == converters[..i];
        ghost var before := Dict(keys, data);
        ghost var workBefore := work;
        var (key, rule) := converters[i];
        assert Run(converters[..i + 1], source) == Apply(key, rule, workBefore, before);
        if Skips(rule, work) {
          continue;
        }
        var outcome: Outcome;
        if rule.FieldRule? {
          if rule.field !in work.entries {
            AbortIsFinal(converters, source, i + 1);
            return work, false;
          }
          outcome := rule.convert(work.entries[rule.field]);
        } else {
          outcome := rule.convertAll(work);
          work := Without(work, rule.pops(work));
        }
        assert outcome == Call(rule, workBefore) && work == AfterCall(rule, workBefore);
        match outcome
        case Present(v) =>
          if key !in data {
            keys := keys + [key];
          }
          data := data[key := v];
          assert Dict(keys, data) == Set(before, key, v);
        case Absent =>
        case Fail =>
          AbortIsFinal(converters, source, i + 1);
          return work, false;
      }
      assert converters[..|converters|] == converters;
      ok := true;
    }

    /** The second loop of `_convert`: delete every named source field, ignoring missing ones. */
    method DeleteUsedFields(ran: Dict) returns (work: Dict)
      requires WellFormed(ran)
      ensures work == Without(ran, Claimed(converters))
    {
      work := ran;
      assert Claimed(converters[..0]) == {};
      WithoutAbsent(ran, {});
      for i := 0 to |converters|
        invariant WellFormed(work)
        invariant work == Without(ran, Claimed(converters[..i]))
      {
        var (_, rule) := converters[i];
        if rule.WholeRule? {
          assert Claimed(converters[..i + 1]) == Claimed(converters[..i]);
          continue;
        }
        assert Claimed(converters[..i + 1]) == Claimed(converters[..i]) + {rule.field};
        WithoutTwice(ran, Claimed(converters[..i]), {rule.field});
        if rule.field in work.entries {
          work := Without(work, {rule.field});
        } else {
          WithoutAbsent(work, {rule.field});
        }
      }
      assert converters[..|converters|] == converters;
    }

    /** `_convert(source)` on a fresh instance; `ok` is false where an exception escapes. */
    method Convert(source: Dict) returns (ok: bool)
      requires WellFormed(source) && Valid() && keys == [] && settings == map[]
      modifies this
      ensures ok ==> Valid() && Conversion(converters, settingsKeys, source) == Some(Converted(Dict(keys, data), settings))
      ensures !ok ==> Conversion(converters, settingsKeys, source) == None
    {
      var work;
      work, ok := RunRules(source);
      if !ok {
        return;
      }
      ghost var out := Dict(keys, data);
      ConversionAfterRun(converters, settingsKeys, source);
      var unclaimed := DeleteUsedFields(work);
      work := GetSettings(unclaimed);
      assert settings == SettingsOf(unclaimed, settingsKeys);
      var merged := Update(Dict(keys, data), work);
      keys, data := merged.order, merged.entries;
      assert Dict(keys, data) == merged == Update(out, Without(unclaimed, settingsKeys));
    }
  }

  /** `MetaConverter(source)`: None where the constructor raises. The caller's dict is a value and stays as it was. */
  method Create(converters: Registry, settingsKeys: set<string>, source: Dict) returns (c: Option<MetaConverter>)
    requires WellFormed(source) && Distinct(Targets(converters))
    ensures c.Some? <==> Conversion(converters, settingsKeys, source).Some?
    ensures c.Some? ==> fresh(c.value) && c.value.Valid()
    ensures c.Some? ==> Dict(c.value.keys, c.value.data) == Conversion(converters, settingsKeys, source).value.data
    ensures c.Some? ==> c.value.settings == Conversion(converters, settingsKeys, source).value.settings
  {
    var converter := new MetaConverter(converters, settingsKeys);
    var ok := converter.Convert(source);
    c := if ok then Some(converter) else None;
  }

  /** An exception escaping any rule ends the whole conversion: no later rule can undo it. */
  lemma {:induction false} AbortIsFinal(reg: Registry, source: Dict, i: nat)
    requires WellFormed(source) && i <= |reg| && Run(reg[..i], source).Aborted?
    ensures Run(reg, source).Aborted?
    decreases |reg|
  {
    if i < |reg| {
      var init := reg[..|reg| - 1];
      assert init[..i] == reg[..i];
      AbortIsFinal(init, source, i);
    } else {
      assert reg[..i] == reg;
    }
  }

  /**
   * A rule whose call raises something other than `Unset` (or whose empty
   * source field is missing, so that the lookup raises) yields no result at all.
   */
  lemma FailAborts(reg: Registry, settingsKeys: set<string>, source: Dict, i: nat)
    requires WellFormed(source) && i < |reg| && Run(reg[..i], source).Running?
    requires var work := Run(reg[..i], source).work;
      !Skips(reg[i].1, work) && (!Callable(reg[i].1, work) || Call(reg[i].1, work) == Fail)
    ensures Conversion(reg, settingsKeys, source) == None
  {
    assert reg[..i + 1][..i] == reg[..i];
    AbortIsFinal(reg, source, i + 1);
  }

  /** A rule whose source field is missing contributes nothing and changes nothing. */
  lemma MissingFieldSkipped(reg: Registry, source: Dict, i: nat)
    requires WellFormed(source) && i < |reg| && Run(reg[..i], source).Running?
    requires Skips(reg[i].1, Run(reg[..i], source).work)
    ensures Run(reg[..i + 1], source) == Run(reg[..i], source)
  {
    assert reg[..i + 1][..i] == reg[..i];
  }

  /**
   * A rule that raises `Unset` adds no key: the result so far is kept as it was
   * and the conversion goes on to the next rule.
   */
  lemma AbsentSkip(reg: Registry, source: Dict, i: nat)
    requires WellFormed(source) && i < |reg| && Run(reg[..i], source).Running?
    requires var work := Run(reg[..i], source).work;
      Callable(reg[i].1, work) && Call(reg[i].1, work) == Absent
    ensures Run(reg[..i + 1], source).Running?
    ensures Run(reg[..i + 1], source).out == Run(reg[..i], source).out
  {
    assert reg[..i + 1][..i] == reg[..i];
  }

  /**
   * Nothing is deleted while rules run, except what a catch-all pops: as long as
   * only field rules have run, the working copy is the source itself, so a
   * catch-all placed after field rules still sees the fields they read.
   */
  lemma {:induction false} CatchAllSeesWholeCopy(reg: Registry, source: Dict, i: nat)
    requires WellFormed(source) && i <= |reg| && Run(reg[..i], source).Running?
    requires forall j :: 0 <= j < i ==> reg[j].1.FieldRule?
    ensures Run(reg[..i], source).work == source
  {
    if i > 0 {
      var init := reg[..i - 1];
      assert reg[..i][..i - 1] == init;
      assert Run(init, source).Running?;
      CatchAllSeesWholeCopy(reg, source, i - 1);
    }
  }

  lemma WithoutSameDrop(d: Dict, a: set<string>, b: set<string>)
    requires WellFormed(d) && a * d.entries.Keys == b * d.entries.Keys
    ensures Without(d, a) == Without(d, b)
  {
    forall x | x in d.order ensures x in a <==> x in b {
      assert x in d.entries.Keys;
      assert x in a <==> x in a * d.entries.Keys;
      assert x in b <==> x in b * d.entries.Keys;
    }
    DropCongruent(d.order, a, b);
    assert d.entries - a == d.entries - b;
  }

  /**
   * During the rules the working copy is the source minus some keys: whatever
   * it still holds has its original value and its original relative order.
   */
  lemma {:induction false} WorkFromSource(reg: Registry, source: Dict)
    requires WellFormed(source) && Run(reg, source).Running?
    ensures var work := Run(reg, source).work;
      work == Without(source, source.entries.Keys - work.entries.Keys)
    decreases |reg|
  {
    var work := Run(reg, source).work;
    if reg == [] {
      WithoutAbsent(source, source.entries.Keys - work.entries.Keys);
    } else {
      var init := reg[..|reg| - 1];
      WorkFromSource(init, source);
      var before := Run(init, source).work;
      var gone := source.entries.Keys - before.entries.Keys;
      var rule := reg[|reg| - 1].1;
      if work != before {
        assert rule.WholeRule?;
        assert work == Without(before, rule.pops(before));
        WithoutTwice(source, gone, rule.pops(before));
        WithoutSameDrop(source, gone + rule.pops(before), source.entries.Keys - work.entries.Keys);
      }
    }
  }

  /**
   * Rule outputs enter the result in table order: the result's keys are the
   * table's targets whose rule produced a value, in table order.
   */
  lemma {:induction false} OutputsInRegistryOrder(reg: Registry, source: Dict)
    requires WellFormed(source) && Distinct(Targets(reg)) && Run(reg, source).Running?
    ensures var out := Run(reg, source).out;
      out.order == Drop(Targets(reg), (set t | t in Targets(reg)) - out.entries.Keys)
    decreases |reg|
  {
    var out := Run(reg, source).out;
    if reg != [] {
      var init := reg[..|reg| - 1];
      var t := reg[|reg| - 1].0;
      assert Targets(reg) == Targets(init) + [t];
      assert Distinct(Targets(init)) && t !in Targets(init);
      OutputsInRegistryOrder(init, source);
      var before := Run(init, source).out;
      var was := (set u | u in Targets(init)) - before.entries.Keys;
      var now := (set u | u in Targets(reg)) - out.entries.Keys;
      forall x | x in Targets(init) ensures x in now <==> x in was {
        assert x != t;
      }
      DropAppend(Targets(init), t, now);
      DropCongruent(Targets(init), now, was);
      if out != before {
        assert t !in before.entries by {
          assert t !in before.order;
        }
        assert out.order == before.order + [t];
      }
    }
  }

  /** The outputs of the rules only ever use the table's target names. */
  lemma OutputKeysAreTargets(reg: Registry, source: Dict)
    requires WellFormed(source) && Distinct(Targets(reg)) && Run(reg, source).Running?
    ensures forall k :: k in Run(reg, source).out.entries ==> k in Targets(reg)
  {
    OutputsInRegistryOrder(reg, source);
  }

  /**
   * Rule `i` of `reg` was called (not skipped, its argument present) and
   * returned `v` for its target `reg[i].0`.
   */
  ghost predicate Produced(reg: Registry, source: Dict, i: int, v: Value) {
    WellFormed(source) && 0 <= i < |reg| && Run(reg[..i], source).Running? &&
    var work := Run(reg[..i], source).work;
    !Skips(reg[i].1, work) && Callable(reg[i].1, work) && Call(reg[i].1, work) == Present(v)
  }

  /** A rule that returns a value stores it under its target (line 67) and the loop goes on. */
  lemma PresentStored(reg: Registry, source: Dict, i: nat, v: Value)
    requires Produced(reg, source, i, v)
    ensures Run(reg[..i + 1], source).Running?
    ensures Run(reg[..i + 1], source).out == Set(Run(reg[..i], source).out, reg[i].0, v)
  {
    assert reg[..i + 1][..i] == reg[..i];
  }

  /** A result entry is kept by every later rule registered under another target. */
  lemma {:induction false} OutputKept(reg: Registry, source: Dict, n: nat, k: string)
    requires WellFormed(source) && n <= |reg| && Run(reg, source).Running?
    requires Run(reg[..n], source).Running? && k in Run(reg[..n], source).out.entries
    requires forall j :: n <= j < |reg| ==> reg[j].0 != k
    ensures k in Run(reg, source).out.entries
    ensures Run(reg, source).out.entries[k] == Run(reg[..n], source).out.entries[k]
    decreases |reg|
  {
    if n < |reg| {
      var init := reg[..|reg| - 1];
      assert init[..n] == reg[..n];
      assert Run(init, source).Running?;
      forall j | n <= j < |init| ensures init[j].0 != k {
        assert init[j] == reg[j];
      }
      OutputKept(init, source, n, k);
    } else {
      assert reg[..n] == reg;
    }
  }

  /**
   * With distinct targets, the value a rule returns is what the rule loop
   * leaves under its target.
   */
  lemma PresentFinal(reg: Registry, source: Dict, i: nat, v: Value)
    requires Distinct(Targets(reg)) && Produced(reg, source, i, v) && Run(reg, source).Running?
    ensures reg[i].0 in Run(reg, source).out.entries && Run(reg, source).out.entries[reg[i].0] == v
  {
    var t := reg[i].0;
    PresentStored(reg, source, i, v);
    var stored := Run(reg[..i + 1], source).out;
    assert t in stored.entries && stored.entries[t] == v;
    forall j | i + 1 <= j < |reg| ensures reg[j].0 != t {
      assert Targets(reg)[j] != Targets(reg)[i];
    }
    OutputKept(reg, source, i + 1, t);
  }

  /** Every entry the rule loop leaves is the value some rule returned for that target. */
  lemma {:induction false} OutputOrigin(reg: Registry, source: Dict, k: string)
    requires WellFormed(source) && Run(reg, source).Running? && k in Run(reg, source).out.entries
    ensures exists i :: Produced(reg, source, i, Run(reg, source).out.entries[k]) && reg[i].0 == k
    decreases |reg|
  {
    var last := |reg| - 1;
    var init := reg[..last];
    assert reg[..last] == init;
    var before := Run(init, source);
    var out := Run(reg, source).out;
    if reg[last].0 == k && out != before.out {
      LastRuleProduced(reg, source);
    } else {
      OutputOrigin(init, source, k);
      var i :| Produced(init, source, i, before.out.entries[k]) && init[i].0 == k;
      assert init[..i] == reg[..i] && init[i] == reg[i];
      assert Produced(reg, source, i, out.entries[k]);
    }
  }

  /** A last rule that changed the result returned the value now under its target. */
  lemma LastRuleProduced(reg: Registry, source: Dict)
    requires WellFormed(source) && reg != [] && Run(reg, source).Running?
    requires Run(reg, source).out != Run(reg[..|reg| - 1], source).out
    ensures var out := Run(reg, source).out;
      reg[|reg| - 1].0 in out.entries && Produced(reg, source, |reg| - 1, out.entries[reg[|reg| - 1].0])
  {
  }

  /**
   * A rule's returned value is what the converter finally holds under its
   * target, unless a leftover source key of the same name overrides it.
   */
  lemma PresentInResult(reg: Registry, settingsKeys: set<string>, source: Dict, i: nat, v: Value)
    requires Distinct(Targets(reg)) && Produced(reg, source, i, v) && Conversion(reg, settingsKeys, source).Some?
    requires reg[i].0 !in Leftovers(reg, settingsKeys, source).entries
    ensures var data := Conversion(reg, settingsKeys, source).value.data;
      reg[i].0 in data.entries && data.entries[reg[i].0] == v
  {
    PresentFinal(reg, source, i, v);
  }

  /**
   * A field rule's pass never deletes from the working copy: until line 71
   * only a catch-all's own pops remove keys.
   */
  lemma FieldRuleKeepsWork(reg: Registry, source: Dict, i: nat)
    requires WellFormed(source) && i < |reg| && reg[i].1.FieldRule? && Run(reg[..i + 1], source).Running?
    ensures Run(reg[..i], source).Running?
    ensures Run(reg[..i + 1], source).work == Run(reg[..i], source).work
  {
    assert reg[..i + 1][..i] == reg[..i];
  }

  /**
   * Consumption: no source field named by a rule survives as a leftover,
   * whether its rule produced a value, raised `Unset` or was skipped; such a
   * key is in the result only as a rule's output.
   */
  lemma Consumption(reg: Registry, settingsKeys: set<string>, source: Dict, f: string)
    requires WellFormed(source) && Conversion(reg, settingsKeys, source).Some?
    requires f in Claimed(reg)
    ensures f !in Leftovers(reg, settingsKeys, source).entries
    ensures var data := Conversion(reg, settingsKeys, source).value.data;
      f in data.entries ==> f in Run(reg, source).out.entries && data.entries[f] == Run(reg, source).out.entries[f]
  {
  }

  /**
   * Leftover preservation: a source key that no rule names, that the settings
   * hook does not take and that no catch-all popped is in the result with its
   * original value, even over a rule output of the same name.
   */
  lemma LeftoverPreservation(reg: Registry, settingsKeys: set<string>, source: Dict, k: string)
    requires WellFormed(source) && Run(reg, source).Running?
    requires k in Run(reg, source).work.entries && k !in Claimed(reg) && k !in settingsKeys
    ensures Conversion(reg, settingsKeys, source).Some?
    ensures var data := Conversion(reg, settingsKeys, source).value.data;
      k in source.entries && k in data.entries && data.entries[k] == source.entries[k]
  {
    var work := Run(reg, source).work;
    WorkFromSource(reg, source);
    assert work.entries[k] == source.entries[k];
    var left := Leftovers(reg, settingsKeys, source);
    assert k in left.entries && left.entries[k] == work.entries[k];
    ConversionAfterRun(reg, settingsKeys, source);
    var data := Update(Run(reg, source).out, left);
    assert Conversion(reg, settingsKeys, source).value.data == data;
    assert data.entries == Run(reg, source).out.entries + left.entries;
    assert data.entries[k] == left.entries[k];
  }

  /** With field rules only, every unclaimed source key not taken as a setting reaches the result unchanged. */
  lemma LeftoverPreservationFieldRules(reg: Registry, settingsKeys: set<string>, source: Dict, k: string)
    requires WellFormed(source) && Run(reg, source).Running?
    requires forall j :: 0 <= j < |reg| ==> reg[j].1.FieldRule?
    requires k in source.entries && k !in Claimed(reg) && k !in settingsKeys
    ensures Conversion(reg, settingsKeys, source).Some?
    ensures var data := Conversion(reg, settingsKeys, source).value.data;
      k in data.entries && data.entries[k] == source.entries[k]
  {
    assert reg[..|reg|] == reg;
    CatchAllSeesWholeCopy(reg, source, |reg|);
    LeftoverPreservation(reg, settingsKeys, source, k);
  }

  /**
   * Every key of the result is either the target of a rule that returned the
   * value it holds, or a source key no rule names, carrying its source value.
   */
  lemma ResultOrigin(reg: Registry, settingsKeys: set<string>, source: Dict, k: string)
    requires WellFormed(source) && Conversion(reg, settingsKeys, source).Some?
    requires k in Conversion(reg, settingsKeys, source).value.data.entries
    ensures var data := Conversion(reg, settingsKeys, source).value.data;
      || (exists i :: Produced(reg, source, i, data.entries[k]) && reg[i].0 == k)
      || (k in source.entries && k !in Claimed(reg) && k !in settingsKeys && data.entries[k] == source.entries[k])
  {
    WorkFromSource(reg, source);
    var out := Run(reg, source).out;
    if k !in Leftovers(reg, settingsKeys, source).entries {
      OutputOrigin(reg, source, k);
    }
  }

  /** The settings come from unclaimed source keys the hook takes, with their source values. */
  lemma SettingsFromSource(reg: Registry, settingsKeys: set<string>, source: Dict, k: string)
    requires WellFormed(source) && Conversion(reg, settingsKeys, source).Some?
    requires k in Conversion(reg, settingsKeys, source).value.settings
    ensures k in settingsKeys && k in source.entries && k !in Claimed(reg)
    ensures Conversion(reg, settingsKeys, source).value.settings[k] == source.entries[k]
    ensures k !in Leftovers(reg, settingsKeys, source).entries
  {
    WorkFromSource(reg, source);
  }

  /**
   * Iteration order of the result: rule outputs in table order, then the
   * leftovers that are new keys, in the source's order.
   */
  lemma IterationOrder(reg: Registry, settingsKeys: set<string>, source: Dict)
    requires WellFormed(source) && Distinct(Targets(reg)) && Conversion(reg, settingsKeys, source).Some?
    ensures var out := Run(reg, source).out;
      var left := Leftovers(reg, settingsKeys, source);
      && Conversion(reg, settingsKeys, source).value.data.order
           == Drop(Targets(reg), (set t | t in Targets(reg)) - out.entries.Keys) + Drop(left.order, out.entries.Keys)
      && left == Without(source, source.entries.Keys - left.entries.Keys)
  {
    OutputsInRegistryOrder(reg, source);
    WorkFromSource(reg, source);
    var work := Run(reg, source).work;
    var left := Leftovers(reg, settingsKeys, source);
    WithoutTwice(work, Claimed(reg), settingsKeys);
    WithoutTwice(source, source.entries.Keys - work.entries.Keys, Claimed(reg) + settingsKeys);
    WithoutSameDrop(source, (source.entries.Keys - work.entries.Keys) + (Claimed(reg) + settingsKeys),
                    source.entries.Keys - left.entries.Keys);
  }
}
