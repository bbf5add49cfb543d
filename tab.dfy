/** `FluidTab`: the coupled `disabled`, `selected`, `tabbed` and `tabIndex`
    setters of a tab, its `aria-selected` update and its click and blur
    handlers. The transitions on a `TabState` record specify the setters;
    `FluidTab` performs them on its fields the way the element does. */
module Tab {
  import opened Common

  datatype TabState = TabState(
    tabId: string,
    disabled: bool,
    selected: bool,
    tabbed: bool,
    tabIndex: int,
    ariaSelected: string)

  /** The events a tab dispatches; `SelectEvent` carries the id as
      `selectedTabId`. */
  datatype TabEvent =
    | SelectEvent(selectedTabId: string)
    | DisableEvent(tabId: string)
    | BlurEvent(tabId: string)

  /** The tab after a setter, and the event the setter dispatched, if any
      (no setter dispatches more than one). */
  datatype Step = Step(tab: TabState, event: Option<TabEvent>)

  /** A fresh tab: enabled, unselected, untabbed, `tabIndex` 0 and
      `aria-selected` "false". */
  function NewTab(tabId: string): (t: TabState)
    ensures t.tabId == tabId && !t.disabled && !t.selected && !t.tabbed
    ensures t.tabIndex == 0 && t.ariaSelected == "false"
  {
    TabState(tabId, false, false, false, 0, "false")
  }

  /** A selected tab is never disabled. */
  predicate Consistent(t: TabState) {
    t.selected ==> !t.disabled
  }

  /** The `tabIndex` setter. */
  function WithTabIndex(t: TabState, value: int): (r: TabState)
    ensures r.tabIndex == value
    ensures r.(tabIndex := t.tabIndex) == t
  {
    t.(tabIndex := value)
  }

  /** The `selected` setter: a disabled tab stays unselected, `tabIndex`
      follows the new selection, and a select event is dispatched whenever the
      assigned value is true, even when the tab is disabled. */
  function WithSelected(t: TabState, value: bool): (r: Step)
    ensures r.tab.selected <==> value && !t.disabled
    ensures r.tab.tabIndex == if r.tab.selected then 0 else -1
    ensures r.tab.(selected := t.selected, tabIndex := t.tabIndex) == t
    ensures r.event == if value then Some(SelectEvent(t.tabId)) else None
  {
    var selected := if t.disabled then false else value;
    var tab := WithTabIndex(t.(selected := selected), if selected then 0 else -1);
    Step(tab, if value then Some(SelectEvent(t.tabId)) else None)
  }

  /** The `disabled` setter: assigning the current value changes nothing;
      disabling deselects the tab, takes it out of the tab order and dispatches
      a disable event; enabling only clears the flag. */
  function WithDisabled(t: TabState, value: bool): (r: Step)
    ensures value == t.disabled ==> r == Step(t, None)
    ensures value && !t.disabled ==>
      r.tab == t.(disabled := true, selected := false, tabIndex := -1) && r.event == Some(DisableEvent(t.tabId))
    ensures !value && t.disabled ==> r == Step(t.(disabled := false), None)
  {
    if t.disabled == value then Step(t, None)
    else
      var t1 := t.(disabled := value);
      if t1.disabled then
        var deselect := WithSelected(t1, false);
        Step(WithTabIndex(deselect.tab, -1), Some(DisableEvent(t.tabId)))
      else
        Step(t1, None)
  }

  /** The `tabbed` setter: a tabbed tab is in the tab order (`tabIndex` 0),
      an untabbed one is not (-1). */
  function WithTabbed(t: TabState, value: bool): (r: TabState)
    ensures r.tabbed == value
    ensures r.tabIndex == if value then 0 else -1
    ensures r.(tabbed := t.tabbed, tabIndex := t.tabIndex) == t
  {
    WithTabIndex(t.(tabbed := value), if value then 0 else -1)
  }

  /** `update`: `aria-selected` is the string form of `selected`. */
  function Updated(t: TabState): (r: TabState)
    ensures r.ariaSelected == if t.selected then "true" else "false"
    ensures r.(ariaSelected := t.ariaSelected) == t
  {
    t.(ariaSelected := if t.selected then "true" else "false")
  }

  /** `handleClick`: a click assigns true to `selected`. */
  function Clicked(t: TabState): (r: Step)
    ensures r.tab.selected <==> !t.disabled
    ensures r.tab.tabIndex == if t.disabled then -1 else 0
    ensures r.tab.(selected := t.selected, tabIndex := t.tabIndex) == t
    ensures r.event == Some(SelectEvent(t.tabId))
  {
    WithSelected(t, true)
  }

  /** `handleBlur`: the tab only reports the blur. */
  function Blurred(t: TabState): (r: Step)
    ensures r.tab == t && r.event == Some(BlurEvent(t.tabId))
  {
    Step(t, Some(BlurEvent(t.tabId)))
  }

  /** Every setter keeps a selected tab enabled, and none changes the id. */
  lemma SettersKeepConsistent(t: TabState, b: bool, n: int)
    requires Consistent(t)
    ensures Consistent(WithTabIndex(t, n)) && WithTabIndex(t, n).tabId == t.tabId
    ensures Consistent(WithSelected(t, b).tab) && WithSelected(t, b).tab.tabId == t.tabId
    ensures Consistent(WithDisabled(t, b).tab) && WithDisabled(t, b).tab.tabId == t.tabId
    ensures Consistent(WithTabbed(t, b)) && WithTabbed(t, b).tabId == t.tabId
    ensures Consistent(Updated(t)) && Updated(t).tabId == t.tabId
    ensures Consistent(Clicked(t).tab) && Consistent(Blurred(t).tab)
  {
  }

  /** `selected` and `disabled` are consistent after the `selected` setter
      whatever the tab was before, and after disabling an enabled tab; an
      already disabled tab is left as it is. */
  lemma SelectingRestoresConsistency(t: TabState, b: bool)
    ensures Consistent(WithSelected(t, b).tab)
    ensures !t.disabled ==> Consistent(WithDisabled(t, true).tab)
    ensures t.disabled ==> WithDisabled(t, true).tab == t
  {
  }

  /** Disabling twice is disabling once, and the second time dispatches
      nothing. */
  lemma DisablingIdempotent(t: TabState, b: bool)
    ensures WithDisabled(WithDisabled(t, b).tab, b) == Step(WithDisabled(t, b).tab, None)
  {
  }

  /** A disabled tab cannot be selected by a click, but the click still
      reports a selection. */
  lemma ClickOnDisabledTab(t: TabState)
    requires t.disabled
    ensures !Clicked(t).tab.selected && Clicked(t).tab.tabIndex == -1
    ensures Clicked(t).event == Some(SelectEvent(t.tabId))
  {
  }

  /** The tab element: fields updated in place by chained setters, and the
      events it has dispatched, oldest first. */
  class FluidTab {
    const tabId: string
    var disabled: bool
    var selected: bool
    var tabbed: bool
    var tabIndex: int
    var ariaSelected: string
    var dispatched: seq<TabEvent>

    function State(): TabState
      reads this
    {
      TabState(tabId, disabled, selected, tabbed, tabIndex, ariaSelected)
    }

    /** `tabId` stands for the generated `fluid-tab-<n>` id. */
    constructor(id: string)
      ensures State() == NewTab(id) && dispatched == []
    {
      tabId := id;
      disabled := false;
      selected := false;
      tabbed := false;
      tabIndex := 0;
      ariaSelected := "false";
      dispatched := [];
    }

    method Dispatch(event: Option<TabEvent>)
      modifies this
      ensures State() == old(State())
      ensures dispatched == old(dispatched) + (if event.Some? then [event.value] else [])
    {
      if event.Some? {
        dispatched := dispatched + [event.value];
      }
    }

    method SetTabIndex(value: int)
      modifies this
      ensures State() == WithTabIndex(old(State()), value)
      ensures dispatched == old(dispatched)
    {
      tabIndex := value;
    }

    method SetSelected(value: bool)
      modifies this
      ensures State() == WithSelected(old(State()), value).tab
      ensures dispatched == old(dispatched) + (if value then [SelectEvent(tabId)] else [])
    {
      selected := if disabled then false else value;
      SetTabIndex(if selected then 0 else -1);
      if value {
        Dispatch(Some(SelectEvent(tabId)));
      }
    }

    method SetDisabled(value: bool)
      modifies this
      ensures State() == WithDisabled(old(State()), value).tab
      ensures var e := WithDisabled(old(State()), value).event;
        dispatched == old(dispatched) + (if e.Some? then [e.value] else [])
    {
      if disabled != value {
        disabled := value;
        if disabled {
          SetSelected(false);
          SetTabIndex(-1);
          Dispatch(Some(DisableEvent(tabId)));
        }
      }
    }

    method SetTabbed(value: bool)
      modifies this
      ensures State() == WithTabbed(old(State()), value)
      ensures dispatched == old(dispatched)
    {
      tabbed := value;
      SetTabIndex(if value then 0 else -1);
    }

    method Update()
      modifies this
      ensures State() == Updated(old(State()))
      ensures dispatched == old(dispatched)
    {
      ariaSelected := if selected then "true" else "false";
    }

    method HandleClick()
      modifies this
      ensures State() == Clicked(old(State())).tab
      ensures dispatched == old(dispatched) + [SelectEvent(tabId)]
    {
      SetSelected(true);
    }

    method HandleBlur()
      modifies this
      ensures State() == old(State())
      ensures dispatched == old(dispatched) + [BlurEvent(tabId)]
    {
      Dispatch(Some(BlurEvent(tabId)));
    }
  }
}
