# Damage-pattern context menu, modelled in Dafny

This project models `ChangeDamagePattern`, the context menu of the ship-fitting
tool that lets a user pick the damage pattern (a resistance profile) of the
active fit.

`getText` joins the built-in and user pattern lists. It sorts them stably,
with "Uniform" and "Selected Ammo" first and then by the `smartSort` key of
the full name. It then files every pattern into a tree of ordered
dictionaries. To do that it walks the pattern's `hierarchy`, creating missing
categories with `setdefault`, and assigns the pattern under its `shortName` in
the node it reaches. It returns the root's pattern labels followed by the
root's category labels.

On that tree:

- `isChecked` tells whether a root pattern entry is the fit's current pattern.
- `getSubMenu` tells a pattern entry from a category entry by its index.
- `handlePatternSwitch` switches the fit's pattern when a bound menu id fires,
  and skips any id that nothing bound.

Files:

- `options.dfy`: `Option`.
- `ordered_dict.dfy`: Python's `OrderedDict` with string keys, as an association
  list. It covers:
  - `keys()`
  - lookup
  - item assignment, which keeps an existing key in place
  - `setdefault`, which never replaces an entry
- `damage_pattern.dfy`: patterns, fits, object identity (`is`), and the "last
  pattern filed at a path" reference definition.
- `pattern_sort.dfy`: the sort key and Python's `<` on the key tuples. The
  stable `list.sort` is modelled as insertion sort. The file proves:
  - the result is sorted and a permutation of the input;
  - the sort is stable;
  - the pinned names come first.
- `pattern_tree.dfy`: the category tree, the filing of one pattern (`Insert`)
  and of a whole list (`Build`), with what the built tree holds.
- `damage_pattern_change.dfy`: the menu object itself (class
  `ChangeDamagePattern`) and the properties of its index rules.

The code sorts the joined list first and groups it into categories second.

`display` is modelled by the predicate
`DamagePatternChange.ChangeDamagePattern.Display`. It is the single
comparison of `damagePatternChange.py` line 21 and not a proved property.

## Model

| member | source | states |
|---|---|---|
| OrderedDict.Keys | gui/builtinContextMenus/damagePatternChange.py:47 | `list(d.keys())` has one key per entry, in entry order |
| OrderedDict.Get | gui/builtinContextMenus/damagePatternChange.py:73 | a lookup finds nothing exactly when the key is absent; when it finds a value, that (key, value) pair is an entry |
| OrderedDict.GetEntry | gui/builtinContextMenus/damagePatternChange.py:73 | with distinct keys, looking up an entry's key finds that entry's value |
| OrderedDict.Put | gui/builtinContextMenus/damagePatternChange.py:45 | `d[k] = v` keeps the key order when `k` is present and appends `k` otherwise |
| OrderedDict.PutGet | gui/builtinContextMenus/damagePatternChange.py:45 | after `d[k] = v`, `k` maps to `v` and every other key maps to what it mapped to before |
| OrderedDict.PutEntries | gui/builtinContextMenus/damagePatternChange.py:45 | assignment brings in no entry other than `(k, v)` |
| OrderedDict.SetDefault | gui/builtinContextMenus/damagePatternChange.py:44 | `setdefault` returns the value now stored under `k`. An existing entry is neither replaced nor moved, and the dictionary is unchanged. A missing key is appended with the default, and no other key changes |
| OrderedDict.Dedup | gui/builtinContextMenus/damagePatternChange.py:44-45 | the reference key order: distinct, and holding exactly the elements of its input |
| OrderedDict.DedupOrder | gui/builtinContextMenus/damagePatternChange.py:44-45 | that order is first-insertion order: an earlier key was first seen earlier |
| DamagePatterns.SameObject | gui/builtinContextMenus/damagePatternChange.py:74 | `p is q`, as equality of pattern identities. `AtMostOneChecked` and `CheckedPairSame` use it |
| DamagePatterns.Uses | gui/builtinContextMenus/damagePatternChange.py:74 | `self.fit and pattern is self.fit.damagePattern`: a fit exists, has a pattern, and that pattern is this object. `IsChecked` and `CheckedIsLastRootPattern` state the check through it |
| DamagePatterns.LastWithIsLast | gui/builtinContextMenus/damagePatternChange.py:41-45 | the reference "last pattern at a path" finds nothing exactly when no pattern is filed there. Otherwise it finds a pattern filed there with no later pattern filed there |
| DamagePatterns.LastWithSnoc | gui/builtinContextMenus/damagePatternChange.py:41-45 | filing one more pattern makes it the last at its own path and changes no other path |
| DamagePatterns.LastWithLaterWins | gui/builtinContextMenus/damagePatternChange.py:33-34 | a pattern of the later list at a path hides every pattern of the earlier list at that path |
| PatternSort.Key | gui/builtinContextMenus/damagePatternChange.py:36 | the sort key `(p.fullName not in ["Uniform", "Selected Ammo"], smartSort(p.fullName))`. `PinnedFirst` and `SortStable` state its effect |
| PatternSort.LexLess | gui/builtinContextMenus/damagePatternChange.py:36 | Python's `<` on the `smartSort` lists: lexicographic, a proper prefix first. `LexIrreflexive` and `LexTransitive` prove it a strict order |
| PatternSort.KeyLess | gui/builtinContextMenus/damagePatternChange.py:36 | Python's `<` on the key tuples, `False` before `True`. `KeyIrreflexive` and `KeyTransitive` prove it a strict order |
| PatternSort.KeyTransitive | gui/builtinContextMenus/damagePatternChange.py:36 | Python's `<` on the key tuples `(not pinned, smartSort(name))` is transitive |
| PatternSort.InsertSorted | gui/builtinContextMenus/damagePatternChange.py:36 | one step of the stable sort: the pattern goes before the first strictly greater key. It keeps the multiset. `InsertSortedSorted` and `InsertSortedStable` state the rest |
| PatternSort.InsertSortedSorted | gui/builtinContextMenus/damagePatternChange.py:36 | inserting a pattern into a sorted list keeps it sorted |
| PatternSort.SortPatterns | gui/builtinContextMenus/damagePatternChange.py:36 | the sorted list is a permutation of its input, and no pattern comes after one with a strictly greater key |
| PatternSort.PinnedFirst | gui/builtinContextMenus/damagePatternChange.py:36 | after the sort, every "Uniform" or "Selected Ammo" pattern comes before every other pattern |
| PatternSort.InsertSortedStable | gui/builtinContextMenus/damagePatternChange.py:36 | inserting a pattern into a sorted list puts it after every pattern with the same key |
| PatternSort.SortStable | gui/builtinContextMenus/damagePatternChange.py:36 | stability: for every key, the patterns with that key keep their input order |
| PatternSort.BuiltinsBeforeUsers | gui/builtinContextMenus/damagePatternChange.py:33-36 | among patterns with equal keys, the built-in ones stay ahead of the user ones |
| PatternSort.SortKeepsLastWith | gui/builtinContextMenus/damagePatternChange.py:33-36 | when all patterns at a path share one key, the sort does not change which of them is last |
| PatternTree.Insert | gui/builtinContextMenus/damagePatternChange.py:42-45 | filing one pattern: the `setdefault` walk down its hierarchy, then the assignment under its short name. `InsertLeafAt`, `InsertFindNode`, `InsertCons`, `InsertLeafKeys`, `InsertCatKeys` and `InsertValid` state its effect |
| PatternTree.Build | gui/builtinContextMenus/damagePatternChange.py:40-45 | filing every pattern, in order, into an empty tree. `BuildLeafAt`, `BuildFindNode`, `BuildKeys`, `BuildValid` and `BuildStored` state what it holds |
| PatternTree.MenuText | gui/builtinContextMenus/damagePatternChange.py:47 | `list(items[0].keys()) + list(items[1].keys())`. `MenuTextOfBuild` states it in terms of the input patterns |
| PatternTree.BuildStep | gui/builtinContextMenus/damagePatternChange.py:41-45 | one pass of the loop files pattern `k` into the tree of the first `k` patterns |
| PatternTree.InsertLeafAt | gui/builtinContextMenus/damagePatternChange.py:42-45 | filing a pattern makes it the pattern found at its (hierarchy, shortName) and changes no other lookup |
| PatternTree.InsertFindNode | gui/builtinContextMenus/damagePatternChange.py:43-44 | filing a pattern creates exactly the missing category nodes along its hierarchy |
| PatternTree.InsertCons | gui/builtinContextMenus/damagePatternChange.py:44 | one `setdefault` step adds the category to the node's keys if missing and changes only that child |
| PatternTree.InsertLeafKeys | gui/builtinContextMenus/damagePatternChange.py:45 | the leaf keys of the node at the pattern's hierarchy gain its short name at the end unless already present. No other leaf key order changes |
| PatternTree.InsertCatKeys | gui/builtinContextMenus/damagePatternChange.py:44 | the category keys of each node strictly above the pattern gain the next hierarchy name at the end unless already present. No other category key order changes |
| PatternTree.InsertValid | gui/builtinContextMenus/damagePatternChange.py:44-45 | filing a pattern keeps every dictionary's keys distinct |
| PatternTree.BuildValid | gui/builtinContextMenus/damagePatternChange.py:40-45 | every dictionary of the built tree has distinct keys |
| PatternTree.BuildLeafAt | gui/builtinContextMenus/damagePatternChange.py:40-45 | in the built tree, the pattern found at (path, name) is the last input pattern filed there, and nothing is found where none was filed |
| PatternTree.EveryPatternFiled | gui/builtinContextMenus/damagePatternChange.py:41-45 | walking any input pattern's hierarchy reaches a node whose leaves hold its short name |
| PatternTree.BuildFindNode | gui/builtinContextMenus/damagePatternChange.py:43-44 | the built tree has a category node exactly at the root and at each hierarchy prefix of an input pattern |
| PatternTree.BuildKeys | gui/builtinContextMenus/damagePatternChange.py:40-45 | every node's leaf keys and category keys are the distinct names that reached it, in first-insertion order |
| PatternTree.MenuTextOfBuild | gui/builtinContextMenus/damagePatternChange.py:47 | the returned labels are the distinct root short names in first-seen order, then the distinct first category names in first-seen order |
| PatternTree.StoredIffLeafAt | gui/builtinContextMenus/damagePatternChange.py:44-45 | in a tree with distinct keys, lookup along a path finds exactly the patterns stored along it |
| PatternTree.BuildStored | gui/builtinContextMenus/damagePatternChange.py:41-45 | every pattern stored anywhere in the built tree is an input pattern, stored at its own path, and is the last input pattern filed there |
| DamagePatternChange.UserPatternWins | gui/builtinContextMenus/damagePatternChange.py:33-45 | when all patterns at a path share one key, the tree holds the last user pattern at that path if there is one, else the last built-in one |
| DamagePatternChange.ItemAt | gui/builtinContextMenus/damagePatternChange.py:81-104 | index `i` selects root pattern `i` when `i < len(items[0])`. Otherwise it selects root category `i - len(items[0])`, or nothing past the end |
| DamagePatternChange.ItemMatchesLabel | gui/builtinContextMenus/damagePatternChange.py:47 | the entry at index `i` is what label `i` of `getText` names: the last pattern filed at the root under that short name, or the category node of that name |
| DamagePatternChange.ChangeDamagePattern.constructor | gui/builtinContextMenus/damagePatternChange.py:17-18 | a new menu has no fit, no patterns, an empty tree and no bound ids |
| DamagePatternChange.ChangeDamagePattern.GetText | gui/builtinContextMenus/damagePatternChange.py:27-47 | it stores the fit, the sorted joined patterns and the tree built from them, and clears the bound ids. It returns the root leaf keys then the root category keys, whose length is their sum |
| DamagePatternChange.ChangeDamagePattern.IsChecked | gui/builtinContextMenus/damagePatternChange.py:68-76 | a root pattern entry is checked exactly when a fit exists and uses the pattern filed under its label. A larger index gets the base menu's answer |
| DamagePatternChange.ChangeDamagePattern.GetSubMenu | gui/builtinContextMenus/damagePatternChange.py:78-85 | a pattern entry binds the item's id to that pattern, returns no submenu, and makes that id switch to it. A category entry yields its node. An index past the end raises and binds nothing |
| DamagePatternChange.ChangeDamagePattern.HandlePatternSwitch | gui/builtinContextMenus/damagePatternChange.py:108-118 | an unbound id is skipped and changes nothing. A bound id sets its pattern on the active fit |
| DamagePatternChange.CheckedIsLastRootPattern | gui/builtinContextMenus/damagePatternChange.py:68-76 | after `getText`, root entry `i` is checked exactly when the fit uses the last sorted pattern filed at the root under its label |
| DamagePatternChange.AtMostOneChecked | gui/builtinContextMenus/damagePatternChange.py:68-76 | at most one root pattern entry is checked, given only that a pattern's identity determines its fields. The same object may occur several times in the lists |

## Left out

- Widget work is not modelled. This covers `makeMenu`, the menu items built by `_addPattern` and `_addCategory`, `Bind`, `Check`, `PostEvent` and the `wxMSW` switch. It is toolkit UI.
- Binding by submenus is not modelled. When `getSubMenu` expands a category, `_addPattern` binds fresh menu ids in `patternEventMap` to the patterns of the submenu. `GetSubMenu` states nothing about `patternEventMap` in that case.
- `_addPattern` recomputes whether an entry is checked from the active fit, not from the stored one. That is not modelled.
- Service calls become parameters:
  - The pattern service's two lists and the active fit become the `builtin`, `user` and `activeFit` parameters of `GetText`.
  - The active fit id becomes the `activeFitId` parameter of `HandlePatternSwitch`.
  - `setDamagePattern`, the main window's `_activeDmgPattern` attribute and the fit-changed event are returned as one `Switched` effect value.
- `ChangeDamagePattern.constructor`: the source constructor only fetches the main window, and the other attributes appear on the first `getText`. The model starts them empty.
- `smartSort` is not part of this model. It is any function from names to lists of integers, compared as Python compares lists.
- `list.sort` is modelled by insertion sort. That yields the same list, which is the one stable sorted permutation of the input.
- The nested dictionaries are values here, not shared objects. Filing a pattern rebuilds the path from the root instead of mutating the node that `setdefault` returned. The keys and values that result are the same, and no other code holds those nodes.
- Negative indices are left out. In Python, `list[i]` does not raise for `-len <= i < 0`, and indices are `nat` here.
- `ChangeDamagePattern.IsChecked`: the base class's `isChecked` is not part of this model. Its answer is the `fallback` parameter.
- The `enabled` property is not modelled: it is a null test on the active fit.
- `register()` is plugin registration.
- `gui/fitCommands/guiSetMode.py` is not part of this model. It is a wrapper around the windowing toolkit's command processor.
- Pattern identity (`is`) is the `ident` field of a pattern. Fit ids are integers.
