/**
 * Conversion rules and the per-class registry of them: what `convert_from`
 * records on a function, and the table the converter metaclass builds from a
 * class body when the class is defined.
 */
module Registry {
  import opened Wrappers
  import opened Dicts

  /** What calling a conversion function gives: a value, `Unset` raised, or any other exception. */
  datatype Outcome = Present(value: Value) | Absent | Fail

  /** A conversion function together with the source field `convert_from` recorded for it. */
  datatype Rule =
      /** `convert_from(field)`: called with the working copy's entry for `field`. */
    | FieldRule(field: string, convert: Value -> Outcome)
      /**
       * `convert_from()` (field None): called with the whole working copy, which it
       * receives by reference; `pops` gives the keys it removes from that copy.
       */
    | WholeRule(convertAll: Dict -> Outcome, pops: Dict -> set<string>)

  /**
   * An attribute of a class body. `Decorated` is a function marked by
   * `convert_from(field, name)`: the rule carries `field`, `convertTo` is `name`.
   */
  datatype Member = Plain | Decorated(convertTo: Option<string>, rule: Rule)

  /** The `_converters` table: target name and rule, in insertion order. */
  type Registry = seq<(string, Rule)>

  /** `value._convert_to or key`: an empty or missing name falls back to the attribute name. */
  function TargetName(attr: string, m: Member): (t: string)
    requires m.Decorated?
    ensures t == attr || (m.convertTo == Some(t) && t != "")
    ensures t == "" ==> attr == ""
    ensures m.convertTo.Some? && m.convertTo.value != "" ==> t == m.convertTo.value
  {
    if m.convertTo.Some? && m.convertTo.value != "" then m.convertTo.value else attr
  }

  /** The class-body entry is a marked function whose target is `name`. */
  predicate Declares(entry: (string, Member), name: string) {
    entry.1.Decorated? && TargetName(entry.0, entry.1) == name
  }

  function Targets(reg: Registry): (ts: seq<string>)
    ensures |ts| == |reg| && forall i :: 0 <= i < |reg| ==> ts[i] == reg[i].0
  {
    seq(|reg|, i requires 0 <= i < |reg| => reg[i].0)
  }

  /** `converters[name]`, or None when the name is not registered. */
  function Lookup(reg: Registry, name: string): Option<Rule>
  {
    if reg == [] then None
    else if reg[0].0 == name then Some(reg[0].1)
    else Lookup(reg[1..], name)
  }

  /**
   * `converters[name] = rule`: a new name is appended; a name already present
   * keeps its position and gets the new rule.
   */
  function Register(reg: Registry, name: string, rule: Rule): (r: Registry)
    ensures Targets(r) == if name in Targets(reg) then Targets(reg) else Targets(reg) + [name]
  {
    if reg == [] then [(name, rule)]
    else
      TargetsCons(reg);
      if reg[0].0 == name then
        TargetsCons([(name, rule)] + reg[1..]);
        [(name, rule)] + reg[1..]
      else
        var rest := Register(reg[1..], name, rule);
        TargetsCons([reg[0]] + rest);
        assert ([reg[0]] + rest)[1..] == rest;
        [reg[0]] + rest
  }

  lemma TargetsCons(reg: Registry)
    requires reg != []
    ensures Targets(reg) == [reg[0].0] + Targets(reg[1..])
  {
  }

  /** After `converters[name] = rule`, the name maps to the rule and every other name is unaffected. */
  lemma {:induction false} RegisterLookup(reg: Registry, name: string, rule: Rule, other: string)
    ensures Lookup(Register(reg, name, rule), name) == Some(rule)
    ensures other != name ==> Lookup(Register(reg, name, rule), other) == Lookup(reg, other)
  {
    if reg != [] && reg[0].0 != name {
      RegisterLookup(reg[1..], name, rule, other);
    }
  }

  /** The table built from a class body `ns`, entry by entry (specification of BuildRegistry). */
  function RegistryOf(ns: seq<(string, Member)>): Registry
  {
    if ns == [] then []
    else
      var reg := RegistryOf(ns[..|ns| - 1]);
      var (attr, m) := ns[|ns| - 1];
      if m.Decorated? then Register(reg, TargetName(attr, m), m.rule) else reg
  }

  /** The target names of the marked functions of `ns`, in declaration order, repeats included. */
  function DeclaredTargets(ns: seq<(string, Member)>): seq<string>
  {
    if ns == [] then []
    else
      var (attr, m) := ns[|ns| - 1];
      DeclaredTargets(ns[..|ns| - 1]) + if m.Decorated? then [TargetName(attr, m)] else []
  }

  /** The first occurrence of each element of `s`, in order. */
  function FirstOccurrences(s: seq<string>): seq<string>
  {
    if s == [] then []
    else
      var firsts := FirstOccurrences(s[..|s| - 1]);
      if s[|s| - 1] in firsts then firsts else firsts + [s[|s| - 1]]
  }

  lemma {:induction false} FirstOccurrencesDistinct(s: seq<string>)
    ensures Distinct(FirstOccurrences(s))
    ensures forall x :: x in FirstOccurrences(s) <==> x in s
  {
    if s != [] {
      var init := s[..|s| - 1];
      FirstOccurrencesDistinct(init);
      assert s == init + [s[|s| - 1]];
    }
  }

  /**
   * The table lists each target name once, at the position of its FIRST
   * declaration in the class body, whatever later declarations do.
   */
  lemma {:induction false} RegistryOrder(ns: seq<(string, Member)>)
    ensures Targets(RegistryOf(ns)) == FirstOccurrences(DeclaredTargets(ns))
  {
    if ns != [] {
      var init := ns[..|ns| - 1];
      RegistryOrder(init);
      var declared := DeclaredTargets(ns);
      var (attr, m) := ns[|ns| - 1];
      if m.Decorated? {
        assert declared == DeclaredTargets(init) + [TargetName(attr, m)];
        assert declared[..|declared| - 1] == DeclaredTargets(init);
        var t := TargetName(attr, m);
        var firsts := FirstOccurrences(DeclaredTargets(init));
        assert FirstOccurrences(declared) == if t in firsts then firsts else firsts + [t];
        assert RegistryOf(ns) == Register(RegistryOf(init), t, m.rule);
      } else {
        assert declared == DeclaredTargets(init);
        assert RegistryOf(ns) == RegistryOf(init);
      }
    }
  }

  lemma RegistryTargetsDistinct(ns: seq<(string, Member)>)
    ensures Distinct(Targets(RegistryOf(ns)))
  {
    RegistryOrder(ns);
    FirstOccurrencesDistinct(DeclaredTargets(ns));
  }

  /** A name is registered exactly when some marked function of the class body targets it. */
  lemma {:induction false} RegisteredIffDeclared(ns: seq<(string, Member)>, name: string)
    ensures name in Targets(RegistryOf(ns)) <==> exists j :: 0 <= j < |ns| && Declares(ns[j], name)
  {
    if ns != [] {
      var init := ns[..|ns| - 1];
      RegisteredIffDeclared(init, name);
      if exists j :: 0 <= j < |ns| && Declares(ns[j], name) {
        var j :| 0 <= j < |ns| && Declares(ns[j], name);
        if j < |ns| - 1 {
          assert Declares(init[j], name);
        }
      } else {
        assert forall j :: 0 <= j < |init| ==> init[j] == ns[j];
      }
    }
  }

  /** The rule registered under a name is that of the LAST marked function targeting it. */
  lemma {:induction false} LastDeclarationWins(ns: seq<(string, Member)>, j: nat, name: string)
    requires j < |ns| && Declares(ns[j], name)
    requires forall i :: j < i < |ns| ==> !Declares(ns[i], name)
    ensures Lookup(RegistryOf(ns), name) == Some(ns[j].1.rule)
  {
    if j < |ns| - 1 {
      var init := ns[..|ns| - 1];
      assert init[j] == ns[j];
      forall i | j < i < |init| ensures !Declares(init[i], name) {
        assert init[i] == ns[i];
      }
      LastDeclarationWins(init, j, name);
      var (attr, m) := ns[|ns| - 1];
      if m.Decorated? {
        RegisterLookup(RegistryOf(init), TargetName(attr, m), m.rule, name);
      }
    } else {
      var (attr, m) := ns[j];
      RegisterLookup(RegistryOf(ns[..j]), name, m.rule, name);
    }
  }

  /**
   * A subclass's table comes from its own body only: a rule declared in a base
   * class body and not redeclared in the subclass body is not in the subclass's table.
   */
  lemma InheritedRulesNotCopied(base: seq<(string, Member)>, own: seq<(string, Member)>, j: nat, name: string)
    requires j < |base| && Declares(base[j], name)
    requires forall i :: 0 <= i < |own| ==> !Declares(own[i], name)
    ensures name in Targets(RegistryOf(base))
    ensures name !in Targets(RegistryOf(own))
  {
    RegisteredIffDeclared(base, name);
    RegisteredIffDeclared(own, name);
  }

  /**
   * The metaclass's `__init__`: a fresh table filled from the class body, in its
   * order. `ns` is the namespace dict's `items()`, so its attribute names are distinct.
   */
  method BuildRegistry(ns: seq<(string, Member)>) returns (converters: Registry)
    requires forall i, j :: 0 <= i < j < |ns| ==> ns[i].0 != ns[j].0
    ensures converters == RegistryOf(ns)
    ensures Distinct(Targets(converters))
  {
    converters := [];
    for i := 0 to |ns|
      invariant converters == RegistryOf(ns[..i])
    {
      assert ns[..i + 1][..i] == ns[..i];
      var (key, value) := ns[i];
      if value.Decorated? {
        converters := Register(converters, TargetName(key, value), value.rule);
      }
    }
    assert ns[..|ns|] == ns;
    RegistryTargetsDistinct(ns);
  }
}
