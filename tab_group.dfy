/** `FluidTabGroup`: the handlers that keep a group of tabs consistent —
    deselecting the previous tab on a selection, keyboard navigation and
    activation, moving the tab stop away from a disabled tab, restoring it on
    blur, and normalising the tabs when the slot changes.

    The group owns its tabs as `TabState` records (the order of
    `tabChildren`); a tab setter is applied to a record and the event it
    dispatches is handled by the group at once, as synchronous DOM dispatch
    does. Each handler is specified by a function on `GroupState`; the class
    methods perform the handlers on their fields and are proved to agree. */
module TabGroup {
  import opened Common
  import opened Tab

  /** `event.code` of a key-up event, as far as the group distinguishes it. */
  datatype KeyCode = TabKey | EnterKey | SpaceKey | ArrowRightKey | ArrowLeftKey | OtherKey

  datatype GroupState = GroupState(tabs: seq<TabState>, selectedTabId: Option<string>)

  // ---------------------------------------------------------------------
  // Properties of a sequence of tabs
  // ---------------------------------------------------------------------

  predicate AtMostOneSelected(tabs: seq<TabState>) {
    forall i, j :: 0 <= i < |tabs| && 0 <= j < |tabs| && tabs[i].selected && tabs[j].selected ==> i == j
  }

  /** At most one tab is a tab stop (`tabIndex` 0). */
  predicate AtMostOneFocusable(tabs: seq<TabState>) {
    forall i, j :: 0 <= i < |tabs| && 0 <= j < |tabs| && tabs[i].tabIndex == 0 && tabs[j].tabIndex == 0 ==> i == j
  }

  predicate UniqueIds(tabs: seq<TabState>) {
    forall i, j :: 0 <= i < |tabs| && 0 <= j < |tabs| && tabs[i].tabId == tabs[j].tabId ==> i == j
  }

  predicate AllConsistent(tabs: seq<TabState>) {
    forall i :: 0 <= i < |tabs| ==> Consistent(tabs[i])
  }

  /** Same tabs in the same order, under the same ids. */
  predicate SameIds(a: seq<TabState>, b: seq<TabState>) {
    |a| == |b| && forall j :: 0 <= j < |a| ==> a[j].tabId == b[j].tabId
  }

  /** JavaScript truthiness of `selectedTabId`: set and not empty. */
  predicate Truthy(id: Option<string>) {
    id.Some? && id.value != ""
  }

  function FirstSelected(tabs: seq<TabState>): Option<nat> {
    FindIndex(tabs, (t: TabState) => t.selected)
  }

  function FirstFocusable(tabs: seq<TabState>): Option<nat> {
    FindIndex(tabs, (t: TabState) => t.tabIndex == 0)
  }

  function FirstWithId(tabs: seq<TabState>, id: string): Option<nat> {
    FindIndex(tabs, (t: TabState) => t.tabId == id)
  }

  function FirstEnabled(tabs: seq<TabState>): Option<nat> {
    FindIndex(tabs, (t: TabState) => !t.disabled)
  }

  /** The tab `_handleSelectTab` resets: the first selected tab whose id is
      not the selected one. */
  function FirstOtherSelected(tabs: seq<TabState>, id: string): Option<nat> {
    FindIndex(tabs, (t: TabState) => t.selected && t.tabId != id)
  }

  // ---------------------------------------------------------------------
  // Handlers, as functions of the group's state
  // ---------------------------------------------------------------------

  /** `_handleSelectTab`: the first selected tab with another id is
      deselected, untabbed and taken out of the tab order; the selected id is
      recorded. */
  function AfterSelectTab(g: GroupState, id: string): (r: GroupState)
    ensures SameIds(r.tabs, g.tabs)
    ensures r.selectedTabId == Some(id)
    ensures AllConsistent(g.tabs) ==> AllConsistent(r.tabs)
    ensures var k := FirstOtherSelected(g.tabs, id);
      k.Some? ==>
        !r.tabs[k.value].selected && !r.tabs[k.value].tabbed && r.tabs[k.value].tabIndex == -1
        && r.tabs[k.value].disabled == g.tabs[k.value].disabled
        && forall j :: 0 <= j < |g.tabs| && j != k.value ==> r.tabs[j] == g.tabs[j]
    ensures FirstOtherSelected(g.tabs, id).None? ==> r.tabs == g.tabs
  {
    var k := FirstOtherSelected(g.tabs, id);
    if k.Some? then
      var reset := WithTabbed(WithSelected(WithTabIndex(g.tabs[k.value], -1), false).tab, false);
      GroupState(g.tabs[k.value := reset], Some(id))
    else
      GroupState(g.tabs, Some(id))
  }

  /** The tab `setFirstTabIndex` makes the tab stop: the first tab named
      `selectedTabId` when that id is set and some tab of that name is enabled,
      otherwise the first enabled tab, otherwise none. */
  function FirstTabIndexTarget(tabs: seq<TabState>, selectedTabId: Option<string>): (r: Option<nat>)
    ensures r.Some? ==> r.value < |tabs|
    ensures r.None? <==> forall j :: 0 <= j < |tabs| ==> tabs[j].disabled
    ensures Truthy(selectedTabId) && (exists j :: 0 <= j < |tabs| && tabs[j].tabId == selectedTabId.value && !tabs[j].disabled)
      ==> r == FirstWithId(tabs, selectedTabId.value) && r.Some? && tabs[r.value].tabId == selectedTabId.value
    ensures !(Truthy(selectedTabId) && (exists j :: 0 <= j < |tabs| && tabs[j].tabId == selectedTabId.value && !tabs[j].disabled))
      ==> r == FirstEnabled(tabs)
    ensures UniqueIds(tabs) && r.Some? ==> !tabs[r.value].disabled
  {
    if Truthy(selectedTabId)
      && FindIndex(tabs, (t: TabState) => t.tabId == selectedTabId.value && !t.disabled).Some?
    then
      var named := FindIndex(tabs, (t: TabState) => t.tabId == selectedTabId.value && !t.disabled).value;
      assert tabs[named].tabId == selectedTabId.value;
      FirstWithId(tabs, selectedTabId.value)
    else
      FirstEnabled(tabs)
  }

  /** `setFirstTabIndex`. */
  function AfterSetFirstTabIndex(g: GroupState): (r: GroupState)
    ensures SameIds(r.tabs, g.tabs) && r.selectedTabId == g.selectedTabId
    ensures AllConsistent(g.tabs) ==> AllConsistent(r.tabs)
    ensures var k := FirstTabIndexTarget(g.tabs, g.selectedTabId);
      k.Some? ==>
        r.tabs[k.value].tabIndex == 0 && r.tabs[k.value].(tabIndex := g.tabs[k.value].tabIndex) == g.tabs[k.value]
        && forall j :: 0 <= j < |g.tabs| && j != k.value ==> r.tabs[j] == g.tabs[j]
    ensures FirstTabIndexTarget(g.tabs, g.selectedTabId).None? ==> r == g
  {
    var k := FirstTabIndexTarget(g.tabs, g.selectedTabId);
    if k.Some? then g.(tabs := g.tabs[k.value := WithTabIndex(g.tabs[k.value], 0)]) else g
  }

  /** `_handleDisabled`: only the disabling of the tab named `selectedTabId`
      moves the tab stop. */
  function AfterDisabled(g: GroupState, id: string): (r: GroupState)
    ensures SameIds(r.tabs, g.tabs) && r.selectedTabId == g.selectedTabId
    ensures AllConsistent(g.tabs) ==> AllConsistent(r.tabs)
  {
    if g.selectedTabId == Some(id) then AfterSetFirstTabIndex(g) else g
  }

  /** `_handleBlur`: when the first tab with the blurred id is tabbed but not
      selected, it leaves the tab order and the selected tab, if any, becomes
      the tab stop again. */
  function AfterBlur(g: GroupState, id: string): (r: GroupState)
    ensures SameIds(r.tabs, g.tabs) && r.selectedTabId == g.selectedTabId
    ensures AllConsistent(g.tabs) ==> AllConsistent(r.tabs)
  {
    var b := FirstWithId(g.tabs, id);
    var s := FirstSelected(g.tabs);
    if b.Some? && g.tabs[b.value].tabbed && !g.tabs[b.value].selected then
      var tabs := g.tabs[b.value := WithTabIndex(g.tabs[b.value], -1)];
      g.(tabs := if s.Some? then tabs[s.value := WithTabIndex(tabs[s.value], 0)] else tabs)
    else
      g
  }

  /** The group's listener for the event a tab dispatched. */
  function AfterEvent(g: GroupState, event: Option<TabEvent>): (r: GroupState)
    ensures SameIds(r.tabs, g.tabs)
    ensures AllConsistent(g.tabs) ==> AllConsistent(r.tabs)
  {
    match event
    case None => g
    case Some(SelectEvent(id)) => AfterSelectTab(g, id)
    case Some(DisableEvent(id)) => AfterDisabled(g, id)
    case Some(BlurEvent(id)) => AfterBlur(g, id)
  }

  /** A setter on tab `i`: the tab changes, then the group handles the event
      the setter dispatched. */
  function AfterTabStep(g: GroupState, i: nat, step: Step): (r: GroupState)
    requires i < |g.tabs| && step.tab.tabId == g.tabs[i].tabId
    ensures SameIds(r.tabs, g.tabs)
    ensures AllConsistent(g.tabs) && Consistent(step.tab) ==> AllConsistent(r.tabs)
  {
    AfterEvent(g.(tabs := g.tabs[i := step.tab]), step.event)
  }

  /** The index the arrow keys move the tab stop to, from the `findIndex`
      result `index` (-1 when no tab is a stop): one step right or left,
      wrapping around the ends. */
  function ArrowTarget(len: nat, index: int, right: bool): (r: int)
    requires -1 <= index < len
    ensures len > 0 ==> 0 <= r < len
    ensures len > 0 && index >= 0 ==> r == if right then (index + 1) % len else (index - 1 + len) % len
    ensures len > 0 && index == -1 ==> r == if right then 0 else len - 1
    ensures len == 0 ==> !(0 <= r < len)
  {
    var moved := if right then index + 1 else index - 1;
    if moved > len - 1 then
      if len > 0 then ModSelf(len); 0 else 0
    else if moved < 0 then
      if len > 0 then ModSmall(len - 1, len); len - 1 else len - 1
    else
      if right then ModSmall(moved, len); moved
      else ModShift(moved, len); moved
  }

  lemma ModSmall(x: int, n: int)
    requires 0 <= x < n
    ensures x % n == x
  {
  }

  lemma ModSelf(n: int)
    requires n > 0
    ensures n % n == 0
  {
  }

  lemma ModShift(x: int, n: int)
    requires 0 <= x < n
    ensures (x + n) % n == x
  {
  }

  /** The arrow keys: the target tab becomes tabbed and the old tab stop
      untabbed. Without a tab stop the source reads `tabChildren[-1]` and
      throws a `TypeError` (after tabbing the target, when there is one);
      `ok` is false then. */
  function AfterArrow(g: GroupState, right: bool): (r: (GroupState, bool))
    ensures SameIds(r.0.tabs, g.tabs) && r.0.selectedTabId == g.selectedTabId
    ensures r.1 <==> FirstFocusable(g.tabs).Some?
    ensures AllConsistent(g.tabs) ==> AllConsistent(r.0.tabs)
  {
    var f := FirstFocusable(g.tabs);
    var index: int := if f.Some? then f.value else -1;
    var target := ArrowTarget(|g.tabs|, index, right);
    if !(0 <= target < |g.tabs|) then (g, false)
    else
      var tabs := g.tabs[target := WithTabbed(g.tabs[target], true)];
      if index < 0 then (g.(tabs := tabs), false)
      else (g.(tabs := tabs[index := WithTabbed(tabs[index], false)]), true)
  }

  /** Enter and Space: when there is a tab stop, the first selected tab is
      deselected, then the tab stop is selected (its select event reaching
      `_handleSelectTab`) and its id recorded. */
  function AfterActivate(g: GroupState): (r: GroupState)
    ensures SameIds(r.tabs, g.tabs)
    ensures AllConsistent(g.tabs) ==> AllConsistent(r.tabs)
  {
    var a := FirstFocusable(g.tabs);
    if a.None? then g
    else
      var d := FirstSelected(g.tabs);
      var g1 := if d.Some? then AfterTabStep(g, d.value, WithSelected(g.tabs[d.value], false)) else g;
      var g2 := AfterTabStep(g1, a.value, WithSelected(g1.tabs[a.value], true));
      g2.(selectedTabId := Some(g1.tabs[a.value].tabId))
  }

  /** `_handleKeyUp`; the flag is false when the handler throws. */
  function AfterKeyUp(g: GroupState, key: KeyCode): (r: (GroupState, bool))
    ensures SameIds(r.0.tabs, g.tabs)
    ensures AllConsistent(g.tabs) ==> AllConsistent(r.0.tabs)
  {
    match key
    case TabKey =>
      var f := FirstFocusable(g.tabs);
      (if f.Some? then g.(tabs := g.tabs[f.value := WithTabbed(g.tabs[f.value], true)]) else g, true)
    case EnterKey => (AfterActivate(g), true)
    case SpaceKey => (AfterActivate(g), true)
    case ArrowRightKey => AfterArrow(g, true)
    case ArrowLeftKey => AfterArrow(g, false)
    case OtherKey => (g, true)
  }

  /** `tabChildren.filter(tab => tab.selected)`. */
  function SelectedTabs(tabs: seq<TabState>): (r: seq<TabState>)
    ensures |r| <= |tabs|
    ensures r == [] <==> FirstSelected(tabs).None?
    ensures r != [] ==> r[0] == tabs[FirstSelected(tabs).value]
  {
    if tabs == [] then []
    else (if tabs[0].selected then [tabs[0]] else []) + SelectedTabs(tabs[1..])
  }

  /** Assigning false to `selected` on every tab. */
  function DeselectAll(tabs: seq<TabState>): (r: seq<TabState>)
    ensures |r| == |tabs|
    ensures forall j :: 0 <= j < |tabs| ==> r[j] == WithSelected(tabs[j], false).tab
  {
    seq(|tabs|, j requires 0 <= j < |tabs| => WithSelected(tabs[j], false).tab)
  }

  /** Assigning -1 to `tabIndex` on every tab. */
  function AllOutOfTabOrder(tabs: seq<TabState>): (r: seq<TabState>)
    ensures |r| == |tabs|
    ensures forall j :: 0 <= j < |tabs| ==> r[j] == WithTabIndex(tabs[j], -1)
  {
    seq(|tabs|, j requires 0 <= j < |tabs| => WithTabIndex(tabs[j], -1))
  }

  /** `checkForMutipleSelectedTabs`: with more than one selected tab, every
      tab is deselected and the first tab carrying the id of the first
      selected one is selected again. */
  function AfterCheckForMultiple(g: GroupState): (r: GroupState)
    ensures SameIds(r.tabs, g.tabs)
    ensures AllConsistent(g.tabs) ==> AllConsistent(r.tabs)
  {
    if |g.tabs| > 0 && |SelectedTabs(g.tabs)| > 1 then
      var first := SelectedTabs(g.tabs)[0];
      var g1 := g.(tabs := DeselectAll(g.tabs));
      assert SameIds(g1.tabs, g.tabs) && AllConsistent(g1.tabs);
      var k := FirstWithId(g1.tabs, first.tabId);
      if k.Some? then AfterTabStep(g1, k.value, WithSelected(g1.tabs[k.value], true)) else g1
    else
      g
  }

  /** The end of `_slotchange`: the selected tab becomes the tab stop and
      names `selectedTabId`, or else `setFirstTabIndex` picks one. */
  function AfterSlotSelection(g: GroupState): (r: GroupState)
    ensures SameIds(r.tabs, g.tabs)
    ensures AllConsistent(g.tabs) ==> AllConsistent(r.tabs)
  {
    var s := FirstSelected(g.tabs);
    if s.Some? then
      GroupState(g.tabs[s.value := WithTabIndex(g.tabs[s.value], 0)], Some(g.tabs[s.value].tabId))
    else
      AfterSetFirstTabIndex(g)
  }

  /** `_slotchange` with the tabs now in the slot: none is a tab stop, multiple
      selections are resolved, then `AfterSlotSelection`. */
  function AfterSlotChange(g: GroupState, newTabs: seq<TabState>): (r: GroupState)
    ensures SameIds(r.tabs, newTabs)
    ensures AllConsistent(newTabs) ==> AllConsistent(r.tabs)
  {
    var g0 := GroupState(AllOutOfTabOrder(newTabs), g.selectedTabId);
    assert SameIds(g0.tabs, newTabs) && (AllConsistent(newTabs) ==> AllConsistent(g0.tabs));
    AfterSlotSelection(AfterCheckForMultiple(g0))
  }

  // ---------------------------------------------------------------------
  // What the handlers guarantee
  // ---------------------------------------------------------------------

  /** After a selection, no tab with another id is still selected when at most
      one was before, the tab that was reset is unselected, untabbed and out
      of the tab order, and every other tab is unchanged. */
  lemma SelectTabDeselectsOthers(g: GroupState, id: string)
    requires AtMostOneSelected(g.tabs)
    ensures var r := AfterSelectTab(g, id);
      AtMostOneSelected(r.tabs)
      && (forall j :: 0 <= j < |r.tabs| && r.tabs[j].selected ==> r.tabs[j].tabId == id)
      && (forall j :: 0 <= j < |r.tabs| && g.tabs[j].selected && g.tabs[j].tabId != id ==>
            !r.tabs[j].selected && !r.tabs[j].tabbed && r.tabs[j].tabIndex == -1)
      && (forall j :: 0 <= j < |r.tabs| && !(g.tabs[j].selected && g.tabs[j].tabId != id) ==> r.tabs[j] == g.tabs[j])
  {
  }

  /** With one tab stop among several tabs, an arrow key moves the stop to the
      neighbouring tab (wrapping), tabbed, and the old stop leaves the tab
      order untabbed; the rest is unchanged. */
  lemma ArrowMovesTabStop(g: GroupState, right: bool)
    requires AtMostOneFocusable(g.tabs) && FirstFocusable(g.tabs).Some? && |g.tabs| > 1
    ensures var i := FirstFocusable(g.tabs).value;
      var t := if right then (i + 1) % |g.tabs| else (i - 1 + |g.tabs|) % |g.tabs|;
      var r := AfterArrow(g, right);
      r.1 && t != i
      && r.0.tabs[t] == WithTabbed(g.tabs[t], true)
      && r.0.tabs[i] == WithTabbed(g.tabs[i], false)
      && (forall j :: 0 <= j < |g.tabs| && j != i && j != t ==> r.0.tabs[j] == g.tabs[j])
      && AtMostOneFocusable(r.0.tabs) && FirstFocusable(r.0.tabs) == Some(t)
  {
    var i := FirstFocusable(g.tabs).value;
    var t := if right then (i + 1) % |g.tabs| else (i - 1 + |g.tabs|) % |g.tabs|;
    var n := |g.tabs|;
    var r := AfterArrow(g, right).0;
    assert t == ArrowTarget(n, i, right);
    if right {
      if i + 1 < n { ModSmall(i + 1, n); } else { ModSelf(n); }
    } else {
      if i == 0 { ModSmall(n - 1, n); } else { ModShift(i - 1, n); }
    }
    assert t != i;
    assert r.tabs == g.tabs[t := WithTabbed(g.tabs[t], true)][i := WithTabbed(g.tabs[i], false)];
    assert r.tabs[t].tabIndex == 0;
    assert forall j :: 0 <= j < |r.tabs| && r.tabs[j].tabIndex == 0 ==> j == t;
  }

  /** Right then left returns the tab stop to where it was. */
  lemma ArrowRightThenLeft(g: GroupState)
    requires AtMostOneFocusable(g.tabs) && FirstFocusable(g.tabs).Some? && |g.tabs| > 1
    ensures FirstFocusable(AfterArrow(AfterArrow(g, true).0, false).0.tabs) == FirstFocusable(g.tabs)
  {
    var i := FirstFocusable(g.tabs).value;
    var n := |g.tabs|;
    ArrowMovesTabStop(g, true);
    var g1 := AfterArrow(g, true).0;
    ArrowMovesTabStop(g1, false);
    if i + 1 < n {
      ModSmall(i + 1, n);
      ModShift(i, n);
    } else {
      ModSelf(n);
      ModSmall(n - 1, n);
    }
  }

  /** A single tab loses its tab stop to the arrow keys: it is tabbed and then
      untabbed again, so nothing is left in the tab order. */
  lemma ArrowOnSingleTab(g: GroupState, right: bool)
    requires |g.tabs| == 1 && g.tabs[0].tabIndex == 0
    ensures AfterArrow(g, right) == (g.(tabs := [WithTabbed(g.tabs[0], false)]), true)
    ensures FirstFocusable(AfterArrow(g, right).0.tabs).None?
  {
    assert ArrowTarget(1, 0, right) == 0;
    assert WithTabbed(WithTabbed(g.tabs[0], true), false) == WithTabbed(g.tabs[0], false);
    assert g.tabs[0 := WithTabbed(g.tabs[0], true)][0 := WithTabbed(WithTabbed(g.tabs[0], true), false)]
      == [WithTabbed(g.tabs[0], false)];
  }

  /** Enter or Space on a tab stop leaves exactly that tab selected (none if it
      is disabled) and records its id. */
  lemma ActivateSelectsTabStop(g: GroupState)
    requires AtMostOneSelected(g.tabs) && AllConsistent(g.tabs) && FirstFocusable(g.tabs).Some?
    ensures var a := FirstFocusable(g.tabs).value;
      var r := AfterActivate(g);
      r.selectedTabId == Some(g.tabs[a].tabId)
      && (forall j :: 0 <= j < |r.tabs| ==> (r.tabs[j].selected <==> j == a && !g.tabs[a].disabled))
  {
    var a := FirstFocusable(g.tabs).value;
    var d := FirstSelected(g.tabs);
    var g1 := if d.Some? then AfterTabStep(g, d.value, WithSelected(g.tabs[d.value], false)) else g;
    assert g1.tabs == if d.Some? then g.tabs[d.value := WithSelected(g.tabs[d.value], false).tab] else g.tabs;
    assert forall j :: 0 <= j < |g1.tabs| ==> !g1.tabs[j].selected;
    assert g1.tabs[a].disabled == g.tabs[a].disabled;
    SelectAmongUnselected(g1, a);
  }

  /** `|selected tabs| > 1` is the negation of at most one selected tab. */
  lemma {:induction false} SelectedTabsCount(tabs: seq<TabState>)
    ensures |SelectedTabs(tabs)| <= 1 <==> AtMostOneSelected(tabs)
  {
    if tabs != [] {
      var rest := tabs[1..];
      SelectedTabsCount(rest);
      assert SelectedTabs(tabs) == (if tabs[0].selected then [tabs[0]] else []) + SelectedTabs(rest);
      AtMostOneSelectedTail(tabs);
      if tabs[0].selected {
        if SelectedTabs(rest) != [] {
          var k := FirstSelected(rest).value;
          assert rest[k] == tabs[k + 1];
        } else {
          forall i | 0 < i < |tabs| ensures !tabs[i].selected {
            assert tabs[i] == rest[i - 1];
          }
        }
      }
    }
  }

  /** With an unselected head, at most one tab is selected exactly when at
      most one tab of the tail is; either way the tail inherits it. */
  lemma AtMostOneSelectedTail(tabs: seq<TabState>)
    requires tabs != []
    ensures AtMostOneSelected(tabs) ==> AtMostOneSelected(tabs[1..])
    ensures !tabs[0].selected && AtMostOneSelected(tabs[1..]) ==> AtMostOneSelected(tabs)
  {
    var rest := tabs[1..];
    if AtMostOneSelected(tabs) {
      forall i, j | 0 <= i < |rest| && 0 <= j < |rest| && rest[i].selected && rest[j].selected
        ensures i == j
      {
        assert tabs[i + 1] == rest[i] && tabs[j + 1] == rest[j];
      }
    }
    if !tabs[0].selected && AtMostOneSelected(rest) {
      forall i, j | 0 <= i < |tabs| && 0 <= j < |tabs| && tabs[i].selected && tabs[j].selected
        ensures i == j
      {
        assert rest[i - 1] == tabs[i] && rest[j - 1] == tabs[j];
      }
    }
  }

  /** Selecting a tab in a group where no tab is selected changes only that
      tab: its select event finds no other selected tab to reset. */
  lemma SelectAmongUnselected(g: GroupState, k: nat)
    requires k < |g.tabs| && forall j :: 0 <= j < |g.tabs| ==> !g.tabs[j].selected
    ensures var r := AfterTabStep(g, k, WithSelected(g.tabs[k], true));
      r.selectedTabId == Some(g.tabs[k].tabId)
      && r.tabs == g.tabs[k := WithSelected(g.tabs[k], true).tab]
  {
    var tabs := g.tabs[k := WithSelected(g.tabs[k], true).tab];
    assert forall j :: 0 <= j < |tabs| && tabs[j].selected ==> j == k;
    assert FindIndex(tabs, (t: TabState) => t.selected && t.tabId != g.tabs[k].tabId).None?;
  }

  /** With at most one selected tab the check changes nothing. */
  lemma CheckForMultipleWithOneSelected(g: GroupState)
    requires AtMostOneSelected(g.tabs)
    ensures AfterCheckForMultiple(g) == g
  {
    SelectedTabsCount(g.tabs);
  }

  /** With more than one selected tab, the check's result in closed form:
      every tab deselected, then tab `k` selected. */
  lemma CheckForMultipleResult(g: GroupState)
    requires !AtMostOneSelected(g.tabs)
    ensures var tabs := DeselectAll(g.tabs);
      var k := FirstWithId(tabs, SelectedTabs(g.tabs)[0].tabId);
      AfterCheckForMultiple(g)
        == if k.Some? then GroupState(tabs[k.value := WithSelected(tabs[k.value], true).tab], Some(tabs[k.value].tabId))
           else g.(tabs := tabs)
  {
    SelectedTabsCount(g.tabs);
    var g1 := g.(tabs := DeselectAll(g.tabs));
    var k := FirstWithId(g1.tabs, SelectedTabs(g.tabs)[0].tabId);
    if k.Some? {
      SelectAmongUnselected(g1, k.value);
    }
  }

  /** With more than one selected tab the check leaves at most one selected,
      makes a tab stop only of a selected tab, and keeps every tab's
      `disabled` and `tabbed`. */
  lemma CheckForMultipleLeavesOne(g: GroupState)
    requires !AtMostOneSelected(g.tabs)
    ensures var r := AfterCheckForMultiple(g);
      AtMostOneSelected(r.tabs)
      && (forall j :: 0 <= j < |r.tabs| && r.tabs[j].tabIndex == 0 ==> r.tabs[j].selected)
      && (forall j :: 0 <= j < |r.tabs| ==> r.tabs[j].disabled == g.tabs[j].disabled && r.tabs[j].tabbed == g.tabs[j].tabbed)
  {
    CheckForMultipleResult(g);
    var tabs := DeselectAll(g.tabs);
    DeselectAllOutOfTabOrder(g.tabs);
    var k := FirstWithId(tabs, SelectedTabs(g.tabs)[0].tabId);
    var rt := if k.Some? then tabs[k.value := WithSelected(tabs[k.value], true).tab] else tabs;
    assert AfterCheckForMultiple(g).tabs == rt;
    if k.Some? {
      SelectOneOfDeselected(tabs, k.value);
    }
    assert AtMostOneSelected(rt)
      && (forall j :: 0 <= j < |rt| && rt[j].tabIndex == 0 ==> rt[j].selected)
      && (forall j :: 0 <= j < |rt| ==> rt[j].disabled == g.tabs[j].disabled && rt[j].tabbed == g.tabs[j].tabbed);
  }

  /** Deselecting every tab takes each out of the tab order and keeps its
      `disabled` and `tabbed`. */
  lemma DeselectAllOutOfTabOrder(tabs: seq<TabState>)
    ensures var r := DeselectAll(tabs);
      forall j :: 0 <= j < |r| ==>
        !r[j].selected && r[j].tabIndex == -1 && r[j].disabled == tabs[j].disabled && r[j].tabbed == tabs[j].tabbed
  {
  }

  /** Selecting one tab of a group where none is selected or a tab stop
      leaves it the only selected tab and the only possible tab stop. */
  lemma SelectOneOfDeselected(tabs: seq<TabState>, k: nat)
    requires k < |tabs| && forall j :: 0 <= j < |tabs| ==> !tabs[j].selected && tabs[j].tabIndex == -1
    ensures var t := tabs[k := WithSelected(tabs[k], true).tab];
      AtMostOneSelected(t)
      && (forall j :: 0 <= j < |t| && t[j].tabIndex == 0 ==> t[j].selected)
      && (forall j :: 0 <= j < |t| ==> t[j].disabled == tabs[j].disabled && t[j].tabbed == tabs[j].tabbed)
  {
  }

  /** When ids are unique and the tabs consistent, exactly the first selected
      tab stays selected, and `selectedTabId` names it. */
  lemma CheckForMultipleKeepsFirst(g: GroupState)
    requires !AtMostOneSelected(g.tabs) && UniqueIds(g.tabs) && AllConsistent(g.tabs)
    ensures var s := FirstSelected(g.tabs).value;
      var r := AfterCheckForMultiple(g);
      (forall j :: 0 <= j < |r.tabs| ==> (r.tabs[j].selected <==> j == s))
      && r.selectedTabId == Some(g.tabs[s].tabId)
  {
    SelectedTabsCount(g.tabs);
    CheckForMultipleResult(g);
    var first := SelectedTabs(g.tabs)[0];
    var s := FirstSelected(g.tabs).value;
    var tabs := DeselectAll(g.tabs);
    assert tabs[s].tabId == first.tabId;
    assert FirstWithId(tabs, first.tabId) == Some(s);
  }

  /** Resolving multiple selections on tabs that are all out of the tab order
      leaves at most one selected tab and makes a tab stop only of it. */
  lemma CheckForMultipleOutOfTabOrder(g: GroupState)
    requires forall j :: 0 <= j < |g.tabs| ==> g.tabs[j].tabIndex == -1
    ensures var r := AfterCheckForMultiple(g);
      AtMostOneSelected(r.tabs)
      && (forall j :: 0 <= j < |r.tabs| && r.tabs[j].tabIndex == 0 ==> r.tabs[j].selected)
  {
    if AtMostOneSelected(g.tabs) {
      CheckForMultipleWithOneSelected(g);
    } else {
      CheckForMultipleLeavesOne(g);
    }
  }

  /** The last step of a slot change, on tabs where at most one is selected
      and only a selected tab can be a tab stop. */
  lemma SlotChangeFinalStep(g1: GroupState)
    requires AtMostOneSelected(g1.tabs)
    requires forall j :: 0 <= j < |g1.tabs| && g1.tabs[j].tabIndex == 0 ==> g1.tabs[j].selected
    ensures var r := AfterSlotSelection(g1);
      AtMostOneSelected(r.tabs) && AtMostOneFocusable(r.tabs)
      && (forall j :: 0 <= j < |r.tabs| && r.tabs[j].selected ==>
            r.tabs[j].tabIndex == 0 && r.selectedTabId == Some(r.tabs[j].tabId))
  {
  }

  /** After a slot change at most one tab is selected and at most one is a tab
      stop, and a selected tab is the tab stop and is named by
      `selectedTabId`. */
  lemma SlotChangeNormalises(g: GroupState, newTabs: seq<TabState>)
    ensures var r := AfterSlotChange(g, newTabs);
      AtMostOneSelected(r.tabs) && AtMostOneFocusable(r.tabs)
      && (forall j :: 0 <= j < |r.tabs| && r.tabs[j].selected ==>
            r.tabs[j].tabIndex == 0 && r.selectedTabId == Some(r.tabs[j].tabId))
  {
    var g0 := GroupState(AllOutOfTabOrder(newTabs), g.selectedTabId);
    CheckForMultipleOutOfTabOrder(g0);
    SlotChangeFinalStep(AfterCheckForMultiple(g0));
  }

  /** Disabling the enabled tab named by `selectedTabId` deselects it, takes it
      out of the tab order and makes the first enabled tab the tab stop. */
  lemma DisablingSelectedTabMovesTabStop(g: GroupState, i: nat)
    requires i < |g.tabs| && UniqueIds(g.tabs) && !g.tabs[i].disabled
    requires g.selectedTabId == Some(g.tabs[i].tabId) && g.tabs[i].tabId != ""
    ensures var r := AfterTabStep(g, i, WithDisabled(g.tabs[i], true));
      var e := FirstEnabled(r.tabs);
      r.tabs[i].disabled && !r.tabs[i].selected && r.tabs[i].tabIndex == -1
      && (e.Some? ==> e.value != i && r.tabs[e.value].tabIndex == 0)
  {
    var g1 := g.(tabs := g.tabs[i := WithDisabled(g.tabs[i], true).tab]);
    assert UniqueIds(g1.tabs);
    assert !(exists j :: 0 <= j < |g1.tabs| && g1.tabs[j].tabId == g.tabs[i].tabId && !g1.tabs[j].disabled);
    assert FirstEnabled(AfterDisabled(g1, g.tabs[i].tabId).tabs) == FirstEnabled(g1.tabs);
  }

  /** Blurring a tabbed tab that was not selected takes it out of the tab order
      and makes the selected tab the tab stop again. */
  lemma BlurRestoresSelectedTabStop(g: GroupState, id: string)
    requires FirstWithId(g.tabs, id).Some?
    requires var b := FirstWithId(g.tabs, id).value; g.tabs[b].tabbed && !g.tabs[b].selected
    ensures var b := FirstWithId(g.tabs, id).value;
      var s := FirstSelected(g.tabs);
      var r := AfterBlur(g, id);
      r.tabs[b].tabIndex == -1 && r.tabs[b].tabbed
      && (s.Some? ==> r.tabs[s.value].tabIndex == 0 && r.tabs[s.value].selected)
  {
  }

  // ---------------------------------------------------------------------
  // The element
  // ---------------------------------------------------------------------

  class FluidTabGroup {
    var tabChildren: seq<TabState>
    var selectedTabId: Option<string>

    function State(): GroupState
      reads this
    {
      GroupState(tabChildren, selectedTabId)
    }

    constructor()
      ensures State() == GroupState([], None)
    {
      tabChildren := [];
      selectedTabId := None;
    }

    method HandleSelectTab(id: string)
      modifies this
      ensures State() == AfterSelectTab(old(State()), id)
    {
      var k := FindIndex(tabChildren, (t: TabState) => t.selected && t.tabId != id);
      if k.Some? {
        var tab := WithTabIndex(tabChildren[k.value], -1);
        tab := WithSelected(tab, false).tab;
        tab := WithTabbed(tab, false);
        tabChildren := tabChildren[k.value := tab];
      }
      selectedTabId := Some(id);
    }

    method SetFirstTabIndex()
      modifies this
      ensures State() == AfterSetFirstTabIndex(old(State()))
    {
      var tabToEnable := FirstTabIndexTarget(tabChildren, selectedTabId);
      if tabToEnable.Some? {
        tabChildren := tabChildren[tabToEnable.value := WithTabIndex(tabChildren[tabToEnable.value], 0)];
      }
    }

    method HandleDisabled(id: string)
      modifies this
      ensures State() == AfterDisabled(old(State()), id)
    {
      if selectedTabId == Some(id) {
        SetFirstTabIndex();
      }
    }

    method HandleBlur(id: string)
      modifies this
      ensures State() == AfterBlur(old(State()), id)
    {
      var toBlurTab := FirstWithId(tabChildren, id);
      var selectedTab := FirstSelected(tabChildren);
      if toBlurTab.Some? && tabChildren[toBlurTab.value].tabbed && !tabChildren[toBlurTab.value].selected {
        tabChildren := tabChildren[toBlurTab.value := WithTabIndex(tabChildren[toBlurTab.value], -1)];
        if selectedTab.Some? {
          tabChildren := tabChildren[selectedTab.value := WithTabIndex(tabChildren[selectedTab.value], 0)];
        }
      }
    }

    /** The listeners on the group's container. */
    method HandleEvent(event: Option<TabEvent>)
      modifies this
      ensures State() == AfterEvent(old(State()), event)
    {
      match event {
        case None =>
        case Some(SelectEvent(id)) => HandleSelectTab(id);
        case Some(DisableEvent(id)) => HandleDisabled(id);
        case Some(BlurEvent(id)) => HandleBlur(id);
      }
    }

    /** Tab `i` takes the state a setter produced and its event bubbles to the
        group. */
    method ApplyTabStep(i: nat, step: Step)
      requires i < |tabChildren| && step.tab.tabId == tabChildren[i].tabId
      modifies this
      ensures State() == AfterTabStep(old(State()), i, step)
    {
      tabChildren := tabChildren[i := step.tab];
      HandleEvent(step.event);
    }

    method HandleKeyUp(key: KeyCode) returns (ok: bool)
      modifies this
      ensures (State(), ok) == AfterKeyUp(old(State()), key)
    {
      ok := true;
      if key == TabKey {
        var focusableTab := FirstFocusable(tabChildren);
        if focusableTab.Some? {
          tabChildren := tabChildren[focusableTab.value := WithTabbed(tabChildren[focusableTab.value], true)];
        }
      }
      if key == EnterKey || key == SpaceKey {
        ActivateTabStop();
      }
      if key == ArrowRightKey || key == ArrowLeftKey {
        ok := MoveTabStop(key == ArrowRightKey);
      }
    }

    /** The Enter and Space branch of `_handleKeyUp`. */
    method ActivateTabStop()
      modifies this
      ensures State() == AfterActivate(old(State()))
    {
      var toBeActivatedTab := FirstFocusable(tabChildren);
      if toBeActivatedTab.Some? {
        var toDeactivateTab := FirstSelected(tabChildren);
        if toDeactivateTab.Some? {
          ApplyTabStep(toDeactivateTab.value, WithSelected(tabChildren[toDeactivateTab.value], false));
        }
        ApplyTabStep(toBeActivatedTab.value, WithSelected(tabChildren[toBeActivatedTab.value], true));
        selectedTabId := Some(tabChildren[toBeActivatedTab.value].tabId);
      }
    }

    /** The arrow-key branch of `_handleKeyUp`: the index steps right or
        left and wraps; `ok` is false where the source throws. */
    method MoveTabStop(right: bool) returns (ok: bool)
      modifies this
      ensures (State(), ok) == AfterArrow(old(State()), right)
    {
      var found := FirstFocusable(tabChildren);
      var index: int := if found.Some? then found.value else -1;
      var oldIndex := index;
      if right {
        index := index + 1;
      } else {
        index := index - 1;
      }
      if index > |tabChildren| - 1 {
        index := 0;
      } else if index < 0 {
        index := |tabChildren| - 1;
      }
      assert index == ArrowTarget(|tabChildren|, oldIndex, right);
      if !(0 <= index < |tabChildren|) {
        return false;
      }
      tabChildren := tabChildren[index := WithTabbed(tabChildren[index], true)];
      if oldIndex < 0 {
        return false;
      }
      tabChildren := tabChildren[oldIndex := WithTabbed(tabChildren[oldIndex], false)];
      ok := true;
    }

    method CheckForMultipleSelectedTabs()
      modifies this
      ensures State() == AfterCheckForMultiple(old(State()))
    {
      if |tabChildren| > 0 {
        var tabs := SelectedTabs(tabChildren);
        if |tabs| > 1 {
          var selectedTab := tabs[0];
          for k := 0 to |tabChildren|
            invariant |tabChildren| == |old(tabChildren)| && selectedTabId == old(selectedTabId)
            invariant forall j :: 0 <= j < k ==> tabChildren[j] == WithSelected(old(tabChildren)[j], false).tab
            invariant forall j :: k <= j < |tabChildren| ==> tabChildren[j] == old(tabChildren)[j]
          {
            tabChildren := tabChildren[k := WithSelected(tabChildren[k], false).tab];
          }
          assert tabChildren == DeselectAll(old(tabChildren));
          var tabToBeSelected := FirstWithId(tabChildren, selectedTab.tabId);
          if tabToBeSelected.Some? {
            ApplyTabStep(tabToBeSelected.value, WithSelected(tabChildren[tabToBeSelected.value], true));
          }
        }
      }
    }

    method SlotChange(newTabs: seq<TabState>)
      modifies this
      ensures State() == AfterSlotChange(old(State()), newTabs)
    {
      tabChildren := newTabs;
      for k := 0 to |tabChildren|
        invariant |tabChildren| == |newTabs| && selectedTabId == old(selectedTabId)
        invariant forall j :: 0 <= j < k ==> tabChildren[j] == WithTabIndex(newTabs[j], -1)
        invariant forall j :: k <= j < |tabChildren| ==> tabChildren[j] == newTabs[j]
      {
        tabChildren := tabChildren[k := WithTabIndex(tabChildren[k], -1)];
      }
      assert tabChildren == AllOutOfTabOrder(newTabs);
      CheckForMultipleSelectedTabs();
      var selectedTab := FirstSelected(tabChildren);
      if selectedTab.Some? {
        tabChildren := tabChildren[selectedTab.value := WithTabIndex(tabChildren[selectedTab.value], 0)];
        selectedTabId := Some(tabChildren[selectedTab.value].tabId);
      } else {
        SetFirstTabIndex();
      }
    }

    // Setters invoked on tab `i` of the group, with the group listening.

    method ClickTab(i: nat)
      requires i < |tabChildren|
      modifies this
      ensures State() == AfterTabStep(old(State()), i, Clicked(old(tabChildren)[i]))
    {
      ApplyTabStep(i, Clicked(tabChildren[i]));
    }

    method SetTabSelected(i: nat, value: bool)
      requires i < |tabChildren|
      modifies this
      ensures State() == AfterTabStep(old(State()), i, WithSelected(old(tabChildren)[i], value))
    {
      ApplyTabStep(i, WithSelected(tabChildren[i], value));
    }

    method SetTabDisabled(i: nat, value: bool)
      requires i < |tabChildren|
      modifies this
      ensures State() == AfterTabStep(old(State()), i, WithDisabled(old(tabChildren)[i], value))
    {
      ApplyTabStep(i, WithDisabled(tabChildren[i], value));
    }

    method SetTabTabbed(i: nat, value: bool)
      requires i < |tabChildren|
      modifies this
      ensures State() == AfterTabStep(old(State()), i, Step(WithTabbed(old(tabChildren)[i], value), None))
    {
      ApplyTabStep(i, Step(WithTabbed(tabChildren[i], value), None));
    }

    method BlurTab(i: nat)
      requires i < |tabChildren|
      modifies this
      ensures State() == AfterTabStep(old(State()), i, Blurred(old(tabChildren)[i]))
    {
      ApplyTabStep(i, Blurred(tabChildren[i]));
    }
  }
}
