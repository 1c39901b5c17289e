# Metadata conversion engine of `pdm.formats.base`, modelled in Dafny

`pdm/formats/base.py` turns a loose project-metadata dict into PDM's canonical
mapping. A converter class marks some of its functions with
`convert_from(field, name)`. When the class is defined, its metaclass collects
the marked functions into a per-class table, `_converters`. The table is keyed
by target name and kept in insertion order. Constructing a converter over a
source dict works on a shallow copy of that dict, in four steps:

1. It runs every rule in table order. A rule whose source field is missing is
   skipped. A rule that raises `Unset` adds no key. Any other exception ends
   the conversion.
2. Once every rule has run, it deletes every named source field. A field that
   is already gone is ignored.
3. It calls the `get_settings` hook.
4. It merges what is left into the result with `dict.update`.

The result is then read through `__getitem__`, `__len__` and `__iter__`.

The model has four modules:

- `Wrappers` (`wrappers.dfy`): the `Option` type.
- `Dicts` (`dicts.dfy`): Python's insertion-ordered dict as a value `Dict(order, entries)`.
  - `Set` is `d[k] = v`: a new key is appended, and an existing key keeps its place.
  - `Without` is a series of `del d[k]` in which a missing key is ignored.
  - `Update` is `d.update(e)`. It is proved equal to assigning `e`'s entries one by one (`Merge`).
- `Registry` (`registry.dfy`):
  - `Rule` pairs a conversion function with the source field `convert_from` recorded for it.
    A `FieldRule` names a field. A `WholeRule` is a catch-all (`field=None`).
  - `Member` is a class-body attribute. It is either plain or marked by `convert_from`.
  - `RegistryOf` specifies the metaclass's table. Its argument `ns` stands for the
    class namespace's `ns.items()`: one entry per attribute name, in first-binding
    order, holding the last value bound. `BuildRegistry` requires the names to be distinct.
  - `BuildRegistry` is the metaclass's loop, proved against `RegistryOf`.
- `Converter` (`converter.dfy`):
  - `Run` and `Conversion` specify `_convert`.
  - The class `MetaConverter` has the fields `data`, `keys` (the insertion order of `data`)
    and `settings`. Its methods `RunRules`, `DeleteUsedFields`, `GetSettings` and `Convert`
    are the loops and steps of `_convert`, each proved against the specification.
    `Get`, `Len` and `Iter` are the mapping view.
  - The lemmas state the engine's properties: consumption, leftover preservation,
    absent-skip, abort, delete-after-all-rules and iteration order.

Rule functions are uninterpreted. A field rule is a total function
`Value -> Outcome`. A catch-all is a function `Dict -> Outcome` together with
`pops`, the set of keys it pops from the working copy it receives by reference.
`Outcome` is `Present(v)`, `Absent` (it raised `Unset`) or `Fail` (it raised
anything else).

A failed construction, where an exception escapes `__init__`, is `None` from
`Conversion` and from `Create`. The source dict is a value in the model, so the
caller's dict cannot change, which is the guarantee `dict(source)` gives at
`pdm/formats/base.py:44`.

Three behaviours of the registry and the rule loop are easy to miss:

- A class's table holds only the rules declared in its own body. Base-class
  rules are not copied (`pdm/formats/base.py:27-29`,
  `Registry.InheritedRulesNotCopied`).
- A target name declared twice is not refused: the last rule wins, at the
  position of the first (`Registry.LastDeclarationWins`, `Registry.RegistryOrder`).
- A source field given as the empty string is falsy, so the rule is not skipped.
  Looking the field up then raises `KeyError` when it is missing
  (`pdm/formats/base.py:60-65`). The model keeps this behaviour: it is an abort
  in `Converter.Apply`, stated by `Converter.FailAborts`.

## Model

| member | source | states |
|---|---|---|
| `Registry.Register` | pdm/formats/base.py:32 | Assigning a table entry appends a new target name and leaves the order unchanged when the name is already present. |
| `Registry.RegisterLookup` | pdm/formats/base.py:32 | After the assignment, the name maps to the new rule and every other name maps to what it did before. |
| `Registry.BuildRegistry` | pdm/formats/base.py:25-32 | The metaclass loop starts from an empty table, scans the class body in order and produces `RegistryOf(ns)`. The result has distinct target names. |
| `Registry.RegistryOrder` | pdm/formats/base.py:27-32 | Each target name appears once, at the position of its first declaration in the class body. |
| `Registry.RegistryTargetsDistinct` | pdm/formats/base.py:27-32 | No target name is registered twice. |
| `Registry.RegisteredIffDeclared` | pdm/formats/base.py:11-17 | A name is registered exactly when some `convert_from`-marked member targets it: its explicit non-empty `name`, otherwise its attribute name (line 31). Unmarked members are never registered (line 30). |
| `Registry.LastDeclarationWins` | pdm/formats/base.py:29-32 | The rule registered under a name is that of the last marked member that targets the name. |
| `Registry.InheritedRulesNotCopied` | pdm/formats/base.py:27-29 | A rule declared in a base class body and not redeclared in the subclass body is in the base's table and not in the subclass's table. |
| `Dicts.Update` | pdm/formats/base.py:81 | `dict.update` gives the new entries precedence. The old keys keep their places, and the new keys are appended in the source's order. The result is a well-formed dict. |
| `Dicts.WithoutTwice` | pdm/formats/base.py:71-78 | Deleting two sets of fields one after the other deletes their union. |
| `Registry.TargetName` | pdm/formats/base.py:31 | The target is the explicit `name` when it is non-empty and otherwise the attribute name, so it is empty only when the attribute name is. |
| `Dicts.Set` | pdm/formats/base.py:67 | After `d[k] = v` the key holds `v` and every other key keeps its value. The key set gains at most `k`, and the old order is a prefix of the new one with at most `k` appended. |
| `Dicts.Without` | pdm/formats/base.py:76-78 | The entries are exactly the old ones minus the deleted keys. A key that is not present is ignored, as the `KeyError` handler does. The result stays well-formed. Its order is the old order with the deleted keys filtered out, so the remaining keys keep their relative order. |
| `Converter.Apply` | pdm/formats/base.py:60-69 | One pass of the rule loop aborts exactly when the rule is not skipped and its argument is missing or its call raises something other than `Unset`. Otherwise it only removes keys from the working copy, and it either leaves the result alone or sets the rule's own target. |
| `Converter.Conversion` | pdm/formats/base.py:38-81 | `MetaConverter(source)` yields a result exactly when the rule loop does not abort. The result is a well-formed dict, and the settings only hold keys the hook claims. |
| `Converter.Run` | pdm/formats/base.py:59-69 | The rule loop keeps the working copy and the result well-formed dicts, with distinct keys in insertion order. |
| `Converter.MetaConverter.RunRules` | pdm/formats/base.py:59-69 | The imperative first loop, writing `data` and `keys` in place, ends in exactly the state `Run` specifies. It reports failure exactly when `Run` aborts. |
| `Converter.MetaConverter.DeleteUsedFields` | pdm/formats/base.py:71-78 | The second loop removes exactly the fields named by the table's field rules. It skips catch-alls and ignores fields that are already missing. |
| `Converter.MetaConverter.GetSettings` | pdm/formats/base.py:55-56 | The hook moves the keys it claims from the working copy into `settings` and removes them from the copy. With no claimed keys it is the base class's no-op. |
| `Converter.MetaConverter.Convert` | pdm/formats/base.py:58-81 | `_convert` on a fresh instance. It succeeds exactly when `Conversion` does, and then `data`, `keys` and `settings` are exactly `Conversion`'s result. |
| `Converter.MetaConverter.constructor` | pdm/formats/base.py:41-43 | A new instance holds its class's table, whose targets are distinct as the keys of a dict are, an empty result and empty settings. |
| `Converter.Create` | pdm/formats/base.py:38-44 | Constructing a converter fails exactly when the conversion aborts. Otherwise the new object's mapping and settings are the conversion's. |
| `Converter.MetaConverter.Get` | pdm/formats/base.py:46-47 | Lookup succeeds exactly for the keys iteration yields and returns the stored value. Any other key is the `KeyError` case. |
| `Converter.MetaConverter.Len` | pdm/formats/base.py:49-50 | The length equals the number of keys iteration yields. |
| `Converter.MetaConverter.Iter` | pdm/formats/base.py:52-53 | Iteration yields every key of the result exactly once. |
| `Converter.AbortIsFinal` | pdm/formats/base.py:66-69 | Once an exception escapes a rule, the whole rule loop has aborted, whatever the later rules are. |
| `Converter.FailAborts` | pdm/formats/base.py:60-69 | A rule that raises something other than `Unset` makes the conversion yield no result. So does a rule whose empty-string field is missing. |
| `Converter.MissingFieldSkipped` | pdm/formats/base.py:59-61 | A rule whose non-empty source field is missing leaves the working copy and the result unchanged. |
| `Converter.AbsentSkip` | pdm/formats/base.py:66-69 | A rule that raises `Unset` adds no key and keeps the earlier outputs, and the conversion continues to the next rule. |
| `Converter.CatchAllSeesWholeCopy` | pdm/formats/base.py:59-65 | While only field rules have run, the working copy is the whole source, so a catch-all placed after field rules still sees the fields they read. |
| `Converter.FieldRuleKeepsWork` | pdm/formats/base.py:59-69 | A field rule's pass leaves the working copy unchanged: nothing but a catch-all's own pops is deleted before line 71. |
| `Converter.WorkFromSource` | pdm/formats/base.py:59-69 | During the rules, the working copy is the source minus some keys, with the original values and relative order. |
| `Converter.OutputsInRegistryOrder` | pdm/formats/base.py:59-67 | The result keys written by rules are the table's targets whose rule produced a value, in table order. |
| `Converter.OutputKeysAreTargets` | pdm/formats/base.py:67 | Rules only write their own target names. |
| `Converter.Consumption` | pdm/formats/base.py:71-81 | No field named by a rule survives as a leftover, whether its rule produced a value, raised `Unset` or was skipped. If such a key is in the result, it holds a rule's output. |
| `Converter.LeftoverPreservation` | pdm/formats/base.py:79-81 | A source key must meet three conditions: no rule names it, the settings hook does not take it, and no catch-all popped it. Such a key is in the result with its original value, even over a rule output of the same name. |
| `Converter.LeftoverPreservationFieldRules` | pdm/formats/base.py:59-81 | With field rules only, every unclaimed source key that the settings hook does not take reaches the result unchanged. |
| `Converter.ResultOrigin` | pdm/formats/base.py:58-81 | Every result key is one of two things: the target of a rule that was called and returned `Present(v)` where `v` is the value the key holds, or an unclaimed source key the hook did not take, holding its source value. |
| `Converter.PresentStored` | pdm/formats/base.py:66-67 | A rule that is called and returns a value stores that value under its target, and the loop goes on. |
| `Converter.OutputKept` | pdm/formats/base.py:59-67 | A later rule registered under another target leaves an earlier output untouched. |
| `Converter.PresentFinal` | pdm/formats/base.py:59-69 | With distinct targets, the value a rule returned is what the rule loop finally holds under its target. |
| `Converter.OutputOrigin` | pdm/formats/base.py:59-69 | Every entry the rule loop leaves in the result is the value some rule registered under that key returned. |
| `Converter.PresentInResult` | pdm/formats/base.py:67-81 | A rule's returned value is what the converter finally exposes under its target, unless a leftover source key of the same name overrides it at line 81. |
| `Converter.SettingsFromSource` | pdm/formats/base.py:80 | Settings come from unclaimed source keys the hook takes, with their source values, and those keys are not leftovers. |
| `Converter.IterationOrder` | pdm/formats/base.py:52-53 | The result iterates over the rule outputs in table order, then over the new leftover keys. The leftovers keep their relative order from the source. |

## Left out

- The helpers `make_inline_table`, `make_array` and `array_of_inline_tables` (`pdm/formats/base.py:87-109`) are wrappers over `tomlkit` objects. `tomlkit` is not part of this model.
- `NAME_EMAIL_RE` and `parse_name_email` (`pdm/formats/base.py:84`, `112-115`) depend on the semantics of Python's regular-expression engine and on `tomlkit`. A rule that calls them is an uninterpreted rule whose failure on a non-matching string is `Fail`.
- Concrete conversion functions live in subclasses that are not part of this model. Rules are uninterpreted total functions.
- A catch-all rule receives the working dict itself. The model lets it pop keys (`pops`), but not add keys or overwrite values.
- A field rule could mutate a nested value in place. Such a value is shared with the caller's dict, because `dict(source)` is a shallow copy. Values are immutable in the model.
- `Converter.MetaConverter.GetSettings`: a subclass's `get_settings` may run arbitrary code. The model restricts it to moving a fixed set of keys (`settingsKeys`) into `settings`. The empty set is the base class's no-op.
- The `abc.ABCMeta` and `collections.abc.Mapping` machinery is not modelled. The mapping's other inherited methods (`get`, `items`, `==`, …) are not modelled either.
- The `filename` attribute is not modelled, because it plays no part in conversion.
- `Converter.ResultOrigin`, `Converter.SettingsFromSource`: rules are called as `func(self, value)` (`pdm/formats/base.py:67`), so a real rule can read and write `self._data` and `self.settings`. The model gives rules no access to the instance, and both lemmas depend on that. A catch-all that returns the working dict itself would share it with `_data`, so the deletions at line 76 would also change the stored value. The model stores a snapshot instead.
- `Converter.MetaConverter.Get`: `KeyError` is modelled as `None` rather than as an exception.
- Floating-point values and the other value types of TOML documents are not in `Value`. Values are opaque to the engine.
