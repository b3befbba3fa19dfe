/**
 * The `ChangeDamagePattern` context menu: it lists the damage patterns of
 * the active fit's context as a tree of categories, reports which entry is
 * the fit's current pattern, tells a pattern entry from a category entry by
 * its index, and switches the fit's pattern when a bound menu id fires.
 * The pattern service, the fit service, the main window and the windowing
 * toolkit are outside; what the menu takes from them arrives as parameters
 * and what it asks of them is returned as a value.
 */
module DamagePatternChange {
  import opened Options
  import opened OrderedDict
  import opened DamagePatterns
  import opened PatternSort
  import opened PatternTree

  /** A top-level menu entry as selected by index: a pattern, a category, or past the end. */
  datatype MenuItem = PatternItem(pattern: Pattern) | CategoryItem(container: Node) | NoItem

  /** What `getSubMenu` returns: `False` for a pattern entry, a category's submenu, or an `IndexError`. */
  datatype SubMenu = NoSubMenu | CategoryMenu(container: Node) | IndexError

  /**
   * What `handlePatternSwitch` asks of the outside: nothing (the event is
   * skipped), or to set the fit's damage pattern, remember it as the main
   * window's active pattern and post a fit-changed event for that fit.
   */
  datatype SwitchEffect = Skipped | Switched(fitId: Option<int>, pattern: Pattern)

  /**
   * The index dispatch of `getSubMenu`: the first indices are the root's
   * patterns, the following ones its categories, in dictionary order.
   */
  function ItemAt(items: Node, i: nat): (r: MenuItem)
    ensures r.PatternItem? <==> i < |items.leaves|
    ensures r.CategoryItem? <==> |items.leaves| <= i < |MenuText(items)|
    ensures r.PatternItem? ==> r.pattern == items.leaves[i].1
    ensures r.CategoryItem? ==> r.container == items.cats[i - |items.leaves|].1
  {
    if i < |items.leaves| then PatternItem(items.leaves[i].1)
    else if i - |items.leaves| < |items.cats| then CategoryItem(items.cats[i - |items.leaves|].1)
    else NoItem
  }

  /**
   * On the tree built from `ps`, the entry at index `i` is what the text at
   * index `i` names: the last pattern filed at the root under that short
   * name, or the category node of that name.
   */
  lemma ItemMatchesLabel(ps: seq<Pattern>, i: nat)
    requires i < |MenuText(Build(ps))|
    ensures var items := Build(ps); var text := MenuText(items)[i];
      match ItemAt(items, i)
      case PatternItem(q) => Some(q) == LastWith(ps, [], text) && At(q, [], text)
      case CategoryItem(c) => FindNode(items, [text]) == Some(c) &&
        exists j :: 0 <= j < |ps| && |ps[j].hierarchy| > 0 && ps[j].hierarchy[0] == text
      case NoItem => false
  {
    var items, text := Build(ps), MenuText(Build(ps))[i];
    BuildValid(ps);
    if i < |items.leaves| {
      GetEntry(items.leaves, i);
      BuildLeafAt(ps, [], text);
      LastWithIsLast(ps, [], text);
    } else {
      var k := i - |items.leaves|;
      GetEntry(items.cats, k);
      BuildFindNode(ps, [text]);
      EmptyNodeAt([]);
      assert FindNode(items, [text]) == FindNode(items.cats[k].1, []);
      var j :| 0 <= j < |ps| && IsPrefix([text], ps[j].hierarchy);
      assert ps[j].hierarchy[0] == ps[j].hierarchy[..1][0];
    }
  }

  /**
   * With every pattern at (`path`, `name`) sharing one sort key, the tree
   * `getText` builds files there the last user pattern with that path when
   * there is one, else the last built-in one: duplicates from the user list
   * overwrite the built-in ones.
   */
  lemma UserPatternWins(builtin: seq<Pattern>, user: seq<Pattern>, smartSort: string -> seq<int>,
                        path: seq<string>, name: string, k: SortKey)
    requires forall x :: x in builtin + user && At(x, path, name) ==> Key(x, smartSort) == k
    ensures LeafAt(Build(SortPatterns(builtin + user, smartSort)), path, name) ==
      if LastWith(user, path, name).Some? then LastWith(user, path, name) else LastWith(builtin, path, name)
  {
    BuildLeafAt(SortPatterns(builtin + user, smartSort), path, name);
    SortKeepsLastWith(builtin + user, smartSort, k, path, name);
    LastWithLaterWins(builtin, user, path, name);
  }

  class ChangeDamagePattern {
    /** `self.fit`: the active fit, if any, when the menu text was built. */
    var fit: Option<Fit>
    /** `self.patterns`: built-in then user patterns, sorted. */
    var patterns: seq<Pattern>
    /** `self.items`: the root of the category tree. */
    var items: Node
    /** `self.patternEventMap`: menu ids bound to the pattern they select. */
    var patternEventMap: map<int, Pattern>

    /** The tree is the one filed from the current pattern list. */
    ghost predicate Valid()
      reads this
    {
      items == Build(patterns)
    }

    constructor ()
      ensures Valid()
      ensures fit == None && patterns == [] && items == Empty && patternEventMap == map[]
    {
      fit := None;
      patterns := [];
      items := Empty;
      patternEventMap := map[];
    }

    /** `display`: the menu is offered only in the full resistances view. */
    predicate Display(srcContext: string)
    {
      srcContext == "resistancesViewFull"
    }

    /**
     * `getText`: join built-in and user patterns, sort them with the pinned
     * names first, file them into a fresh tree one by one, and return the
     * root's pattern labels followed by its category labels.
     */
    method GetText(builtin: seq<Pattern>, user: seq<Pattern>, activeFit: Option<Fit>, smartSort: string -> seq<int>)
      returns (texts: seq<string>)
      modifies this
      ensures Valid()
      ensures fit == activeFit && patternEventMap == map[]
      ensures patterns == SortPatterns(builtin + user, smartSort)
      ensures texts == MenuText(items) && |texts| == |items.leaves| + |items.cats|
      ensures texts == Dedup(LeafNamesAt(patterns, [])) + Dedup(ChildNamesAt(patterns, []))
    {
      fit := activeFit;
      patterns := builtin + user;
      patterns := SortPatterns(patterns, smartSort);
      patternEventMap := map[];
      items := Empty;
      ghost var sorted := patterns;
      var k := 0;
      while k < |patterns|
        invariant 0 <= k <= |sorted|
        invariant fit == activeFit && patternEventMap == map[] && patterns == sorted
        invariant items == Build(sorted[..k])
      {
        var pattern := patterns[k];
        BuildStep(sorted, k);
        items := Insert(items, pattern.hierarchy, pattern.shortName, pattern);
        k := k + 1;
      }
      assert sorted[..k] == sorted;
      MenuTextOfBuild(sorted);
      texts := Keys(items.leaves) + Keys(items.cats);
    }

    /**
     * `isChecked(i)`: a root pattern entry is checked exactly when the fit
     * uses the pattern filed under its text; an index past the root's
     * patterns gets the base menu's answer `fallback`.
     */
    function IsChecked(i: nat, fallback: bool): (checked: bool)
      reads this
      ensures i >= |items.leaves| ==> checked == fallback
      ensures i < |items.leaves| ==>
        LeafAt(items, [], MenuText(items)[i]).Some? &&
        (checked <==> Uses(fit, LeafAt(items, [], MenuText(items)[i]).value))
    {
      if i < |items.leaves| then
        var patternName := Keys(items.leaves)[i];
        var pattern := Get(items.leaves, patternName).value;
        Uses(fit, pattern)
      else
        fallback
    }

    /**
     * `getSubMenu` for index `i`: a pattern entry binds the entry's menu id
     * to its pattern and has no submenu; otherwise the category at
     * `i - len(items[0])` is expanded, and an index past every entry raises.
     */
    method GetSubMenu(i: nat, pitemId: int) returns (r: SubMenu)
      modifies this`patternEventMap
      ensures ItemAt(items, i).PatternItem? ==>
        r == NoSubMenu && patternEventMap == old(patternEventMap)[pitemId := ItemAt(items, i).pattern]
      ensures ItemAt(items, i).PatternItem? ==>
        forall fitId: Option<int> :: HandlePatternSwitch(pitemId, fitId) == Switched(fitId, ItemAt(items, i).pattern)
      ensures ItemAt(items, i).CategoryItem? ==> r == CategoryMenu(ItemAt(items, i).container)
      ensures ItemAt(items, i).NoItem? ==> r == IndexError && patternEventMap == old(patternEventMap)
    {
      match ItemAt(items, i)
      case PatternItem(pattern) =>
        patternEventMap := patternEventMap[pitemId := pattern];
        r := NoSubMenu;
      case CategoryItem(container) =>
        r := CategoryMenu(container);
      case NoItem =>
        r := IndexError;
    }

    /**
     * `handlePatternSwitch`: an id that no entry bound is skipped and
     * changes nothing; a bound id sets that entry's pattern on the active fit.
     */
    function HandlePatternSwitch(eventId: int, activeFitId: Option<int>): (e: SwitchEffect)
      reads this
      ensures e.Skipped? <==> eventId !in patternEventMap
      ensures e.Switched? ==> e.fitId == activeFitId && e.pattern == patternEventMap[eventId]
    {
      if eventId in patternEventMap then Switched(activeFitId, patternEventMap[eventId]) else Skipped
    }
  }

  /**
   * After `getText`, root entry `i` is checked exactly when the fit uses the
   * last sorted pattern filed at the root under the entry's label.
   */
  lemma CheckedIsLastRootPattern(m: ChangeDamagePattern, i: nat, fallback: bool)
    requires m.Valid() && i < |m.items.leaves|
    ensures LastWith(m.patterns, [], MenuText(m.items)[i]).Some?
    ensures m.IsChecked(i, fallback) <==> Uses(m.fit, LastWith(m.patterns, [], MenuText(m.items)[i]).value)
  {
    BuildLeafAt(m.patterns, [], MenuText(m.items)[i]);
  }

  /**
   * When a pattern's identity determines the pattern (one object, one set
   * of fields), at most one root pattern entry is checked, even if the same
   * object occurs more than once in the list.
   */
  lemma AtMostOneChecked(m: ChangeDamagePattern, fallback: bool)
    requires m.Valid()
    requires forall a, b :: a in m.patterns && b in m.patterns && SameObject(a, b) ==> a == b
    ensures forall i, j ::
      0 <= i < |m.items.leaves| && 0 <= j < |m.items.leaves| && m.IsChecked(i, fallback) && m.IsChecked(j, fallback)
      ==> i == j
  {
    forall i, j | 0 <= i < |m.items.leaves| && 0 <= j < |m.items.leaves| && m.IsChecked(i, fallback) && m.IsChecked(j, fallback)
      ensures i == j
    {
      CheckedPairSame(m, fallback, i, j);
    }
  }

  /** Two checked root entries use the same pattern object, so they are one entry. */
  lemma CheckedPairSame(m: ChangeDamagePattern, fallback: bool, i: nat, j: nat)
    requires m.Valid()
    requires forall a, b :: a in m.patterns && b in m.patterns && SameObject(a, b) ==> a == b
    requires i < |m.items.leaves| && j < |m.items.leaves|
    requires m.IsChecked(i, fallback) && m.IsChecked(j, fallback)
    ensures i == j
  {
    var leaves := m.items.leaves;
    CheckedUses(m, i, fallback);
    CheckedUses(m, j, fallback);
    var qi := RootPatternIndex(m, i);
    var qj := RootPatternIndex(m, j);
    assert SameObject(m.patterns[qi], m.patterns[qj]);
    assert m.patterns[qi] == m.patterns[qj];
    RootKeysDistinct(m.patterns);
    assert Keys(leaves)[i] == Keys(leaves)[j];
  }

  /** A checked root entry shows a pattern the fit uses. */
  lemma CheckedUses(m: ChangeDamagePattern, i: nat, fallback: bool)
    requires m.Valid() && i < |m.items.leaves| && m.IsChecked(i, fallback)
    ensures Uses(m.fit, m.items.leaves[i].1)
  {
    RootKeysDistinct(m.patterns);
    GetEntry(m.items.leaves, i);
  }

  /** The root's pattern labels are distinct. */
  lemma RootKeysDistinct(ps: seq<Pattern>)
    ensures Distinct(Keys(Build(ps).leaves))
  {
    BuildValid(ps);
  }

  /** The position in the sorted list of the pattern shown at root entry `i`. */
  lemma RootPatternIndex(m: ChangeDamagePattern, i: nat) returns (a: nat)
    requires m.Valid() && i < |m.items.leaves|
    ensures a < |m.patterns| && m.patterns[a] == m.items.leaves[i].1
    ensures m.patterns[a].shortName == m.items.leaves[i].0
  {
    var leaves := m.items.leaves;
    RootKeysDistinct(m.patterns);
    GetEntry(leaves, i);
    BuildLeafAt(m.patterns, [], leaves[i].0);
    LastWithIsLast(m.patterns, [], leaves[i].0);
    a :| 0 <= a < |m.patterns| && m.patterns[a] == leaves[i].1 && At(m.patterns[a], [], leaves[i].0);
  }
}
