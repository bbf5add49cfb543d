# Barista and Fluid UI logic in Dafny

This project models six pieces of state logic from the Barista (Angular) and
Fluid (Lit web components) libraries. Each one is in its own module, and the
project proves the behaviour those components promise.

- `TokenAccessor` covers `FluidDesignTokenAccessor`. Overrides are layered on
  a frozen table of design tokens. An insertion-ordered key set follows
  them. A read-only proxy view has the `get`, `set`, `has`, `ownKeys` and
  `getOwnPropertyDescriptor` traps. The `setToken` and `resetToken` mutators
  change the overrides and keys. A shared cache memoises the mapping from
  `UPPER_SNAKE_CASE` token names to CSS custom-property names. The traps
  are functions on a `TokenView` value. The accessor and the cache are
  classes that update their fields.
- `Tab` covers `FluidTab`. Its `disabled`, `selected`, `tabbed` and
  `tabIndex` setters chain into one another. The module also covers the
  `aria-selected` update and the click and blur handlers. Each setter is a
  transition function on a `TabState` record. The `FluidTab` class performs
  the same steps on its fields, and each dispatched event goes into an
  append-only log.
- `TabGroup` covers `FluidTabGroup` over a sequence of tab records:
  - selecting a tab, and the deselection that comes with it;
  - Tab, Enter/Space and arrow-key handling;
  - the disabled and blur listeners;
  - `setFirstTabIndex`, `checkForMutipleSelectedTabs` and the slot change.

  A tab setter that dispatches an event is followed at once by the group's
  listener, which is how synchronous DOM event dispatch behaves. The
  `FluidTabGroup` class runs the handlers' loops and index arithmetic on its
  fields. Each method is proved equal to a transition function, and lemmas
  prove the invariants about those functions.
- `MultiSelect` covers `DtFilterFieldMultiSelect`:
  - toggling values in the current selection;
  - the rule that disables the apply button, which uses lodash `xor` against
    the initial selection;
  - submitting, which resets the selection;
  - case-insensitive filtering of options and option groups by the typed
    input.
- `DateAdapter` covers the calendar arithmetic of `DtDateAdapter` and
  `DtNativeDateAdapter`: compare, clamp, create, the length of a month, adding
  months, years and days, and the weekday. A date is an explicit
  `(year, month 0..11, day)` triple in the proleptic Gregorian calendar. An
  overflowing day is walked into its month the way the JavaScript `Date`
  constructor does it, and a day number proves the arithmetic.
- `Calendar` covers `DtCalendar`'s bookkeeping of its start, selected,
  minimum, maximum and active dates. The active date is always stored clamped
  to the bounds, and it is clamped again whenever a bound changes.

`Common` and `Text` model the JavaScript built-ins the components use:

- `Common`: `findIndex`, `filter` with an inequality test, and
  duplicate-freedom.
- `Text`: `toLowerCase`, `trim` and `includes`.

## Model

| member | source | states |
|---|---|---|
| Common.FindIndex | libs/fluid-elements/tab-group/src/lib/tab-group/tab-group.ts:133-135 | `findIndex`: the index of the first element that satisfies the test, and no index exactly when no element does |
| Common.RemoveAll | libs/barista-components/filter-field/src/filter-field-multi-select/filter-field-multi-select.ts:298-300 | `filter(x => x !== v)`: `v` is gone, every other element survives as often as before (the multiset of the result is that of the input without `v`), nothing new appears, and an absent `v` changes nothing |
| Common.RemoveAllDistributes | libs/barista-components/filter-field/src/filter-field-multi-select/filter-field-multi-select.ts:298-300 | `filter` keeps the order of what it keeps: filtering a concatenation concatenates the filtered parts |
| Common.RemoveAllKeepsNoDuplicates | libs/fluid-elements/provider/src/lib/token-accessor.ts:131 | deleting from a duplicate-free key sequence keeps it duplicate-free |
| Common.RemoveAllAppended | libs/fluid-elements/provider/src/lib/token-accessor.ts:118-131 | adding a key that was absent and then deleting it restores the sequence |
| Text.ToLower | libs/barista-components/filter-field/src/filter-field-multi-select/filter-field-multi-select.ts:127 | `toLowerCase` keeps the length and lower-cases each character in place |
| Text.ToLowerIdempotent | libs/barista-components/filter-field/src/filter-field-multi-select/filter-field-multi-select.ts:127 | the stored input can be lower-cased again without change |
| Text.TrimEmptyIffBlank | libs/barista-components/filter-field/src/filter-field-multi-select/filter-field-multi-select.ts:316 | `trim().length > 0` holds exactly when the input has a character that is not ECMAScript white space |
| Text.TrimStart | libs/barista-components/filter-field/src/filter-field-multi-select/filter-field-multi-select.ts:316 | drops leading ECMAScript white space only: the result is a suffix of the input and, when non-empty, starts with a non-white-space character |
| Text.TrimEnd | libs/barista-components/filter-field/src/filter-field-multi-select/filter-field-multi-select.ts:316 | drops trailing ECMAScript white space only: the result is a prefix of the input and, when non-empty, ends with a non-white-space character |
| Text.Trim | libs/barista-components/filter-field/src/filter-field-multi-select/filter-field-multi-select.ts:316 | `trim()` is the block of the input between a leading and a trailing run of white space, no longer than the input, and, when non-empty, neither starts nor ends with white space |
| Text.Includes | libs/barista-components/filter-field/src/filter-field-multi-select/filter-field-multi-select.ts:327 | `includes` holds for the empty query, and only for a query no longer than the text |
| TokenAccessor.Added | libs/fluid-elements/provider/src/lib/token-accessor.ts:118 | `Set.add` contains the new key and every old one and nothing else, keeps the old keys in order with at most the new key appended after them, leaves a present key where it is, and keeps the keys duplicate-free |
| TokenAccessor.TokenView.Original | libs/fluid-elements/provider/src/lib/token-accessor.ts:61 | `Reflect.get` on a key the table lacks reads undefined |
| TokenAccessor.TokenView.Get | libs/fluid-elements/provider/src/lib/token-accessor.ts:56-62 | a symbol reads undefined; a string reads its override unless that is null or undefined (`??`), and otherwise the original value |
| TokenAccessor.TokenView.Set | libs/fluid-elements/provider/src/lib/token-accessor.ts:65-69 | every write through the view is rejected with the "not allowed" error, whatever the key and value |
| TokenAccessor.TokenView.Has | libs/fluid-elements/provider/src/lib/token-accessor.ts:71-73 | `has` is true exactly for string keys in the key set |
| TokenAccessor.TokenView.OwnKeys | libs/fluid-elements/provider/src/lib/token-accessor.ts:75-81 | `ownKeys` and `enumerate` list the key set in insertion order |
| TokenAccessor.TokenView.GetOwnPropertyDescriptor | libs/fluid-elements/provider/src/lib/token-accessor.ts:83-104 | the table's own descriptor when it has one; otherwise an enumerable, configurable descriptor for an overridden name; none exactly when neither applies |
| TokenAccessor.InitialView | libs/fluid-elements/provider/src/lib/token-accessor.ts:36-44 | a fresh accessor has the given table as its target, no overrides, and the given key order (the table's own names and symbols) as its key set; it satisfies the key-set invariant |
| TokenAccessor.SetTokenView | libs/fluid-elements/provider/src/lib/token-accessor.ts:116-119 | `setToken` never touches the original table |
| TokenAccessor.ResetTokenView | libs/fluid-elements/provider/src/lib/token-accessor.ts:128-133 | `resetToken` never touches the original table |
| TokenAccessor.SetTokenKeepsValid | libs/fluid-elements/provider/src/lib/token-accessor.ts:116-119 | `setToken` keeps the key-set invariant: duplicate-free, every original key, every overridden name, nothing else |
| TokenAccessor.ResetTokenKeepsValid | libs/fluid-elements/provider/src/lib/token-accessor.ts:128-133 | `resetToken` keeps the key-set invariant; it never removes an original key |
| TokenAccessor.HasAgreesWithOwnKeys | libs/fluid-elements/provider/src/lib/token-accessor.ts:71-104 | `has` agrees with `ownKeys` on string keys; in a valid view a key has a descriptor exactly when it is listed |
| TokenAccessor.OwnKeysAreTokens | libs/fluid-elements/provider/src/lib/token-accessor.ts:39-44 | enumeration yields each original key and each overridden name once, and nothing else |
| TokenAccessor.GetAfterSetToken | libs/fluid-elements/provider/src/lib/token-accessor.ts:116-119 | after `setToken(n, v)`, `n` is a key and reads `v`, or the original when `v` is nullish; every other key reads and tests as before |
| TokenAccessor.ResetRevertsOrEvicts | libs/fluid-elements/provider/src/lib/token-accessor.ts:128-133 | after `resetToken(n)` no override is left; `n` reads its original value and stays a key exactly when it is an original one |
| TokenAccessor.ResetKeepsOtherKeys | libs/fluid-elements/provider/src/lib/token-accessor.ts:128-133 | `resetToken(n)` leaves every other key reading and testing as before |
| TokenAccessor.ResetIdempotent | libs/fluid-elements/provider/src/lib/token-accessor.ts:128-133 | a second reset changes nothing |
| TokenAccessor.SetThenReset | libs/fluid-elements/provider/src/lib/token-accessor.ts:116-133 | resetting after `setToken` is the same as resetting without it |
| TokenAccessor.SetThenResetRestores | libs/fluid-elements/provider/src/lib/token-accessor.ts:116-133 | for a token that was not overridden, `setToken` followed by `resetToken` restores the view exactly |
| TokenAccessor.DashForUnderscore | libs/fluid-elements/provider/src/lib/token-accessor.ts:144 | `replace(/\_/g, '-')` turns each underscore into a dash and keeps every other character in place |
| TokenAccessor.Mangled | libs/fluid-elements/provider/src/lib/token-accessor.ts:144 | lower-casing and then replacing underscores works character by character |
| TokenAccessor.CssPropertyName | libs/fluid-elements/provider/src/lib/token-accessor.ts:144 | the CSS name is `--` followed by the mangled token name, two characters longer |
| TokenAccessor.CssPropertyNameAt | libs/fluid-elements/provider/src/lib/token-accessor.ts:144 | character `i` of a token name becomes character `i + 2` of its CSS name: a dash for an underscore, otherwise the lower-case form |
| TokenAccessor.MangledAppend | libs/fluid-elements/provider/src/lib/token-accessor.ts:144 | mangling distributes over concatenation |
| TokenAccessor.UpperSnakeCharMangled | libs/fluid-elements/provider/src/lib/token-accessor.ts:137 | two characters allowed in a token name that mangle alike are equal |
| TokenAccessor.CssPropertyNameInjective | libs/fluid-elements/provider/src/lib/token-accessor.ts:137-144 | distinct `UPPER_CASE_SNAKE_CASE` token names get distinct CSS property names |
| TokenAccessor.GetCssPropertyNameAsWritten | libs/fluid-elements/provider/src/lib/token-accessor.ts:139-147 | as written: a non-empty cached name is returned; a name that is neither cached nor an inherited `Map` property (methods, `constructor`, `__proto__`) is computed; an inherited one hands back that property |
| TokenAccessor.CssPropertyNameOfConstructor | libs/fluid-elements/provider/src/lib/token-accessor.ts:140-141 | as written, the token name `constructor` yields the inherited `Map` constructor instead of `--constructor` |
| TokenAccessor.CssPropertyNameCache.constructor | libs/fluid-elements/provider/src/lib/token-accessor.ts:24 | the module-level cache starts empty |
| TokenAccessor.CssPropertyNameCache.GetCssPropertyName | libs/fluid-elements/provider/src/lib/token-accessor.ts:139-147 | the result is the mangled name; a miss stores it, a hit changes nothing, and every cached entry stays the mangled name of its key |
| TokenAccessor.FluidDesignTokenAccessor.constructor | libs/fluid-elements/provider/src/lib/token-accessor.ts:33-50 | the proxy starts as the initial view over the shared cache, and the invariant holds |
| TokenAccessor.FluidDesignTokenAccessor.SetToken | libs/fluid-elements/provider/src/lib/token-accessor.ts:116-119 | the map and the key set are updated in place so the proxy becomes `SetTokenView` of the old one; the invariant is kept |
| TokenAccessor.FluidDesignTokenAccessor.ResetToken | libs/fluid-elements/provider/src/lib/token-accessor.ts:128-133 | the proxy becomes `ResetTokenView` of the old one; the invariant is kept |
| TokenAccessor.FluidDesignTokenAccessor.GetCssPropertyName | libs/fluid-elements/provider/src/lib/token-accessor.ts:139-147 | returns the mangled name and records it in the shared cache |
| Tab.NewTab | libs/fluid-elements/tab-group/src/lib/tab/tab.ts:161-248 | a fresh tab is enabled, unselected, untabbed, tab index 0, `aria-selected` "false" |
| Tab.WithTabIndex | libs/fluid-elements/tab-group/src/lib/tab/tab.ts:169-173 | the `tabIndex` setter changes that field only |
| Tab.WithSelected | libs/fluid-elements/tab-group/src/lib/tab/tab.ts:188-197 | the tab is selected exactly when true was assigned to an enabled tab, `tabIndex` is 0 exactly when selected, nothing else changes, and a select event goes out exactly when true was assigned, even to a disabled tab |
| Tab.WithDisabled | libs/fluid-elements/tab-group/src/lib/tab/tab.ts:149-160 | assigning the current value does nothing; disabling deselects, sets tab index -1 and sends one disable event; enabling only clears the flag |
| Tab.WithTabbed | libs/fluid-elements/tab-group/src/lib/tab/tab.ts:242-247 | `tabbed` is the assigned value, `tabIndex` is 0 exactly when tabbed, and nothing else changes |
| Tab.Updated | libs/fluid-elements/tab-group/src/lib/tab/tab.ts:224-235 | `aria-selected` is "true" or "false" as `selected`; nothing else changes |
| Tab.Clicked | libs/fluid-elements/tab-group/src/lib/tab/tab.ts:267-269 | a click selects an enabled tab, gives it tab index 0 (-1 for a disabled tab), changes no other field, and always reports a selection |
| Tab.Blurred | libs/fluid-elements/tab-group/src/lib/tab/tab.ts:272-274 | a blur changes nothing and reports the blur |
| Tab.SettersKeepConsistent | libs/fluid-elements/tab-group/src/lib/tab/tab.ts:149-247 | no setter or handler makes a disabled tab selected or changes the id |
| Tab.SelectingRestoresConsistency | libs/fluid-elements/tab-group/src/lib/tab/tab.ts:149-197 | the `selected` setter and disabling an enabled tab each leave the tab consistent from any state |
| Tab.DisablingIdempotent | libs/fluid-elements/tab-group/src/lib/tab/tab.ts:151 | assigning the same `disabled` value twice changes nothing the second time and sends no event |
| Tab.ClickOnDisabledTab | libs/fluid-elements/tab-group/src/lib/tab/tab.ts:188-197 | clicking a disabled tab leaves it unselected with tab index -1, yet a select event goes out |
| Tab.FluidTab.constructor | libs/fluid-elements/tab-group/src/lib/tab/tab.ts:138-248 | the element starts as `NewTab` with an empty event log |
| Tab.FluidTab.Dispatch | libs/fluid-elements/tab-group/src/lib/tab/tab.ts:262-264 | dispatching appends the event to the log and changes no field |
| Tab.FluidTab.SetTabIndex | libs/fluid-elements/tab-group/src/lib/tab/tab.ts:169-173 | the fields become `WithTabIndex` of the old ones; no event |
| Tab.FluidTab.SetSelected | libs/fluid-elements/tab-group/src/lib/tab/tab.ts:188-197 | the fields become `WithSelected` of the old ones and the select event is logged when true was assigned |
| Tab.FluidTab.SetDisabled | libs/fluid-elements/tab-group/src/lib/tab/tab.ts:149-160 | the fields become `WithDisabled` of the old ones, and its event is logged |
| Tab.FluidTab.SetTabbed | libs/fluid-elements/tab-group/src/lib/tab/tab.ts:242-247 | the fields become `WithTabbed` of the old ones; no event |
| Tab.FluidTab.Update | libs/fluid-elements/tab-group/src/lib/tab/tab.ts:224-235 | the fields become `Updated` of the old ones |
| Tab.FluidTab.HandleClick | libs/fluid-elements/tab-group/src/lib/tab/tab.ts:267-269 | the fields become `Clicked` of the old ones and one select event is logged |
| Tab.FluidTab.HandleBlur | libs/fluid-elements/tab-group/src/lib/tab/tab.ts:272-274 | no field changes and one blur event is logged |
| TabGroup.AfterSelectTab | libs/fluid-elements/tab-group/src/lib/tab-group/tab-group.ts:91-102 | the select listener records the id; the first selected tab with another id, if any, is deselected, untabbed and given tab index -1 with `disabled` kept, and every other tab is unchanged; with no such tab the tabs are unchanged |
| TabGroup.FirstTabIndexTarget | libs/fluid-elements/tab-group/src/lib/tab-group/tab-group.ts:220-233 | when `selectedTabId` is truthy and an enabled tab carries it, the first tab with that id (the enabled one when ids are unique); otherwise the first enabled tab; none exactly when every tab is disabled |
| TabGroup.AfterSetFirstTabIndex | libs/fluid-elements/tab-group/src/lib/tab-group/tab-group.ts:220-237 | `setFirstTabIndex` gives the target tab tab index 0, changes nothing else on it and leaves every other tab and `selectedTabId` as they were; with no target nothing changes |
| TabGroup.AfterDisabled | libs/fluid-elements/tab-group/src/lib/tab-group/tab-group.ts:163-167 | the disabled listener keeps ids, `selectedTabId` and consistency |
| TabGroup.AfterBlur | libs/fluid-elements/tab-group/src/lib/tab-group/tab-group.ts:170-180 | the blur listener keeps ids, `selectedTabId` and consistency |
| TabGroup.AfterEvent | libs/fluid-elements/tab-group/src/lib/tab-group/tab-group.ts:204-216 | every listener on the container keeps ids and consistency |
| TabGroup.AfterTabStep | libs/fluid-elements/tab-group/src/lib/tab-group/tab-group.ts:204-216 | a tab setter followed by the listener for its event keeps ids, and keeps consistency when the setter does |
| TabGroup.ArrowTarget | libs/fluid-elements/tab-group/src/lib/tab-group/tab-group.ts:133-147 | the arrow index is one step right or left modulo the number of tabs; with no tab stop it is the first or the last tab |
| TabGroup.AfterArrow | libs/fluid-elements/tab-group/src/lib/tab-group/tab-group.ts:132-152 | arrow handling keeps ids, `selectedTabId` and consistency, and fails (the source throws) exactly when there is no tab stop |
| TabGroup.AfterActivate | libs/fluid-elements/tab-group/src/lib/tab-group/tab-group.ts:116-130 | Enter/Space keeps ids and consistency |
| TabGroup.AfterKeyUp | libs/fluid-elements/tab-group/src/lib/tab-group/tab-group.ts:105-153 | every key-up keeps ids and consistency |
| TabGroup.SelectedTabs | libs/fluid-elements/tab-group/src/lib/tab-group/tab-group.ts:242-246 | the filtered list is empty exactly when no tab is selected, and starts with the first selected tab |
| TabGroup.DeselectAll | libs/fluid-elements/tab-group/src/lib/tab-group/tab-group.ts:250-252 | every tab is given `selected = false` |
| TabGroup.AllOutOfTabOrder | libs/fluid-elements/tab-group/src/lib/tab-group/tab-group.ts:186-188 | every tab is given tab index -1 |
| TabGroup.AfterCheckForMultiple | libs/fluid-elements/tab-group/src/lib/tab-group/tab-group.ts:240-261 | the multiple-selection check keeps ids and consistency |
| TabGroup.AfterSlotSelection | libs/fluid-elements/tab-group/src/lib/tab-group/tab-group.ts:191-197 | the end of the slot change keeps ids and consistency |
| TabGroup.AfterSlotChange | libs/fluid-elements/tab-group/src/lib/tab-group/tab-group.ts:183-198 | the group's tabs are the new slot's tabs by id, and consistent when those are |
| TabGroup.SelectTabDeselectsOthers | libs/fluid-elements/tab-group/src/lib/tab-group/tab-group.ts:91-102 | with at most one selected tab before, afterwards only tabs with the event's id are selected; the reset tab is unselected, untabbed and out of the tab order, and every tab that was not a selected tab with another id is unchanged |
| TabGroup.SelectAmongUnselected | libs/fluid-elements/tab-group/src/lib/tab-group/tab-group.ts:91-102 | selecting a tab when none is selected changes only that tab and records its id |
| TabGroup.ArrowMovesTabStop | libs/fluid-elements/tab-group/src/lib/tab-group/tab-group.ts:132-152 | with one tab stop among several tabs, the neighbour (wrapping) becomes tabbed and the only tab stop, the old stop is untabbed, and no other tab changes |
| TabGroup.ArrowRightThenLeft | libs/fluid-elements/tab-group/src/lib/tab-group/tab-group.ts:132-152 | right then left returns the tab stop to where it was |
| TabGroup.ArrowOnSingleTab | libs/fluid-elements/tab-group/src/lib/tab-group/tab-group.ts:143-150 | a single tab is tabbed and untabbed again, so no tab stop is left |
| TabGroup.ActivateSelectsTabStop | libs/fluid-elements/tab-group/src/lib/tab-group/tab-group.ts:116-130 | Enter/Space leaves exactly the tab stop selected (none if it is disabled) and records its id |
| TabGroup.SelectedTabsCount | libs/fluid-elements/tab-group/src/lib/tab-group/tab-group.ts:242-248 | `tabs.length > 1` is exactly "more than one tab is selected" |
| TabGroup.CheckForMultipleWithOneSelected | libs/fluid-elements/tab-group/src/lib/tab-group/tab-group.ts:240-261 | with at most one selected tab the check changes nothing |
| TabGroup.CheckForMultipleResult | libs/fluid-elements/tab-group/src/lib/tab-group/tab-group.ts:248-258 | with several selected tabs, the result is every tab deselected and then the first tab with the first selected id selected again |
| TabGroup.CheckForMultipleLeavesOne | libs/fluid-elements/tab-group/src/lib/tab-group/tab-group.ts:248-258 | with several selected tabs, afterwards at most one tab is selected, only it can be a tab stop, and `disabled` and `tabbed` are kept |
| TabGroup.DeselectAllOutOfTabOrder | libs/fluid-elements/tab-group/src/lib/tab-group/tab-group.ts:250-252 | the deselecting loop takes every tab out of the tab order and keeps `disabled` and `tabbed` |
| TabGroup.SelectOneOfDeselected | libs/fluid-elements/tab-group/src/lib/tab-group/tab-group.ts:256-258 | selecting one tab among deselected ones leaves only it selected and only it possibly a tab stop |
| TabGroup.CheckForMultipleKeepsFirst | libs/fluid-elements/tab-group/src/lib/tab-group/tab-group.ts:248-258 | with unique ids and consistent tabs, exactly the first selected tab stays selected and `selectedTabId` names it |
| TabGroup.CheckForMultipleOutOfTabOrder | libs/fluid-elements/tab-group/src/lib/tab-group/tab-group.ts:186-189 | after the tab index loop the check leaves at most one selected tab, and only it can be a tab stop |
| TabGroup.SlotChangeFinalStep | libs/fluid-elements/tab-group/src/lib/tab-group/tab-group.ts:191-197 | from such tabs the end of the slot change leaves one selected tab at most, one tab stop at most, and a selected tab is the stop and named by `selectedTabId` |
| TabGroup.SlotChangeNormalises | libs/fluid-elements/tab-group/src/lib/tab-group/tab-group.ts:183-198 | after any slot change at most one tab is selected and at most one is a tab stop; a selected tab is the tab stop and `selectedTabId` is its id |
| TabGroup.DisablingSelectedTabMovesTabStop | libs/fluid-elements/tab-group/src/lib/tab-group/tab-group.ts:163-167 | disabling the enabled tab named by `selectedTabId` deselects it, takes it out of the tab order, and `setFirstTabIndex` makes the first enabled tab the tab stop |
| TabGroup.BlurRestoresSelectedTabStop | libs/fluid-elements/tab-group/src/lib/tab-group/tab-group.ts:170-180 | blurring a tabbed, unselected tab takes it out of the tab order (it stays tabbed) and makes the first selected tab, if any, the tab stop again |
| TabGroup.FluidTabGroup.constructor | libs/fluid-elements/tab-group/src/lib/tab-group/tab-group.ts:87-88 | the group starts with no tabs and no `selectedTabId` |
| TabGroup.FluidTabGroup.HandleSelectTab | libs/fluid-elements/tab-group/src/lib/tab-group/tab-group.ts:91-102 | the fields become `AfterSelectTab` of the old state |
| TabGroup.FluidTabGroup.SetFirstTabIndex | libs/fluid-elements/tab-group/src/lib/tab-group/tab-group.ts:220-237 | the fields become `AfterSetFirstTabIndex` of the old state |
| TabGroup.FluidTabGroup.HandleDisabled | libs/fluid-elements/tab-group/src/lib/tab-group/tab-group.ts:163-167 | the fields become `AfterDisabled` of the old state |
| TabGroup.FluidTabGroup.HandleBlur | libs/fluid-elements/tab-group/src/lib/tab-group/tab-group.ts:170-180 | the fields become `AfterBlur` of the old state |
| TabGroup.FluidTabGroup.HandleEvent | libs/fluid-elements/tab-group/src/lib/tab-group/tab-group.ts:204-216 | the fields become `AfterEvent` of the old state |
| TabGroup.FluidTabGroup.ApplyTabStep | libs/fluid-elements/tab-group/src/lib/tab-group/tab-group.ts:204-216 | the fields become `AfterTabStep` of the old state |
| TabGroup.FluidTabGroup.HandleKeyUp | libs/fluid-elements/tab-group/src/lib/tab-group/tab-group.ts:105-153 | the fields and the success flag become `AfterKeyUp` of the old state |
| TabGroup.FluidTabGroup.ActivateTabStop | libs/fluid-elements/tab-group/src/lib/tab-group/tab-group.ts:116-130 | the fields become `AfterActivate` of the old state |
| TabGroup.FluidTabGroup.MoveTabStop | libs/fluid-elements/tab-group/src/lib/tab-group/tab-group.ts:132-152 | the index is stepped and wrapped in place, and the fields and flag become `AfterArrow` of the old state |
| TabGroup.FluidTabGroup.CheckForMultipleSelectedTabs | libs/fluid-elements/tab-group/src/lib/tab-group/tab-group.ts:240-261 | the deselecting loop and the reselection make the fields `AfterCheckForMultiple` of the old state |
| TabGroup.FluidTabGroup.SlotChange | libs/fluid-elements/tab-group/src/lib/tab-group/tab-group.ts:183-198 | the tab index loop, the check and the final step make the fields `AfterSlotChange` of the old state |
| TabGroup.FluidTabGroup.ClickTab | libs/fluid-elements/tab-group/src/lib/tab/tab.ts:267-269 | a click on tab `i` and the group's reaction to it |
| TabGroup.FluidTabGroup.SetTabSelected | libs/fluid-elements/tab-group/src/lib/tab/tab.ts:188-197 | the `selected` setter on tab `i` and the group's reaction to it |
| TabGroup.FluidTabGroup.SetTabDisabled | libs/fluid-elements/tab-group/src/lib/tab/tab.ts:149-160 | the `disabled` setter on tab `i` and the group's reaction to it |
| TabGroup.FluidTabGroup.SetTabTabbed | libs/fluid-elements/tab-group/src/lib/tab/tab.ts:242-247 | the `tabbed` setter on tab `i`, which sends no event |
| TabGroup.FluidTabGroup.BlurTab | libs/fluid-elements/tab-group/src/lib/tab/tab.ts:272-274 | a blur on tab `i` and the group's reaction to it |
| MultiSelect.FilterGroupOptions | libs/barista-components/filter-field/src/filter-field-multi-select/filter-field-multi-select.ts:324-328 | a group keeps exactly its options whose lower-cased view value includes the query |
| MultiSelect.FilterNode | libs/barista-components/filter-field/src/filter-field-multi-select/filter-field-multi-select.ts:317-332 | a group keeps its other fields and exactly its matching options; a plain option is left as it is |
| MultiSelect.FilterNodes | libs/barista-components/filter-field/src/filter-field-multi-select/filter-field-multi-select.ts:316-339 | a plain option is kept exactly when it matches; a group is kept, as its filtered copy, exactly when one of its options matches, and every kept group is the filtered copy of an input group and holds matching options only |
| MultiSelect.Filtered | libs/barista-components/filter-field/src/filter-field-multi-select/filter-field-multi-select.ts:315-343 | a blank input keeps every node; otherwise a plain option is in the result exactly when it is an input option that matches; never more nodes than the input |
| MultiSelect.FilterNodesAppend | libs/barista-components/filter-field/src/filter-field-multi-select/filter-field-multi-select.ts:317-339 | filtering works node by node and keeps the order of the nodes |
| MultiSelect.FilterGroupOptionsIdempotent | libs/barista-components/filter-field/src/filter-field-multi-select/filter-field-multi-select.ts:324-328 | filtering a group's options twice with one query is filtering them once |
| MultiSelect.FilterNodesIdempotent | libs/barista-components/filter-field/src/filter-field-multi-select/filter-field-multi-select.ts:316-339 | filtering the filtered nodes again with the same query changes nothing |
| MultiSelect.FilterIgnoresCase | libs/barista-components/filter-field/src/filter-field-multi-select/filter-field-multi-select.ts:126-129 | a plain option whose view value contains the input in any mix of cases survives the filter on the stored lower-cased input |
| MultiSelect.Difference | libs/barista-components/filter-field/src/filter-field-multi-select/filter-field-multi-select.ts:312 | the values of one selection missing from the other |
| MultiSelect.Uniq | libs/barista-components/filter-field/src/filter-field-multi-select/filter-field-multi-select.ts:312 | each value once, no value lost or added |
| MultiSelect.Xor | libs/barista-components/filter-field/src/filter-field-multi-select/filter-field-multi-select.ts:312 | lodash `xor`: each value that is in exactly one of the two selections, once |
| MultiSelect.XorEmptyIffSameValues | libs/barista-components/filter-field/src/filter-field-multi-select/filter-field-multi-select.ts:312 | the symmetric difference is empty exactly when both selections hold the same values |
| MultiSelect.ApplyDisabledRule | libs/barista-components/filter-field/src/filter-field-multi-select/filter-field-multi-select.ts:309-313 | applying is disabled exactly when nothing is selected or the selection holds the same values as the initial one |
| MultiSelect.Toggled | libs/barista-components/filter-field/src/filter-field-multi-select/filter-field-multi-select.ts:285-292 | a selected value is removed everywhere, every other keeps its multiplicity and, by `RemoveAllDistributes`, its order; an unselected one is appended |
| MultiSelect.ToggleTwice | libs/barista-components/filter-field/src/filter-field-multi-select/filter-field-multi-select.ts:285-292 | toggling twice restores which values are selected, and restores the selection itself from an unselected value |
| MultiSelect.TemplateToggled | libs/barista-components/filter-field/src/filter-field-multi-select/filter-field-multi-select.ts:295-302 | a checked box appends the value even when that duplicates it; an unchecked box removes every occurrence and keeps every other value's multiplicity |
| MultiSelect.DtFilterFieldMultiSelect.constructor | libs/barista-components/filter-field/src/filter-field-multi-select/filter-field-multi-select.ts:118-182 | empty selections, empty input, no nodes, nothing emitted |
| MultiSelect.DtFilterFieldMultiSelect.IsOptionSelected | libs/barista-components/filter-field/src/filter-field-multi-select/filter-field-multi-select.ts:305-307 | true exactly when the value is an element of the current selection |
| MultiSelect.DtFilterFieldMultiSelect.CheckApplyDisable | libs/barista-components/filter-field/src/filter-field-multi-select/filter-field-multi-select.ts:309-313 | `applyDisabled` becomes the apply-disabled rule on the two selections; nothing else changes |
| MultiSelect.DtFilterFieldMultiSelect.ToggleOption | libs/barista-components/filter-field/src/filter-field-multi-select/filter-field-multi-select.ts:285-292 | the selection becomes `Toggled` of the old one and `applyDisabled` is recomputed |
| MultiSelect.DtFilterFieldMultiSelect.ToggleOptionFromTemplate | libs/barista-components/filter-field/src/filter-field-multi-select/filter-field-multi-select.ts:295-302 | the selection becomes `TemplateToggled` of the old one and `applyDisabled` is recomputed |
| MultiSelect.DtFilterFieldMultiSelect.SetInitialSelection | libs/barista-components/filter-field/src/filter-field-multi-select/filter-field-multi-select.ts:274-282 | an array becomes the initial selection and a copy of it the current one, so applying is disabled; anything else empties the initial selection and keeps the current one |
| MultiSelect.DtFilterFieldMultiSelect.EmitSelectEvent | libs/barista-components/filter-field/src/filter-field-multi-select/filter-field-multi-select.ts:264-271 | the current selection is emitted, then reset to empty |
| MultiSelect.DtFilterFieldMultiSelect.FilterOptions | libs/barista-components/filter-field/src/filter-field-multi-select/filter-field-multi-select.ts:315-343 | the filtered nodes are all nodes for a blank input and otherwise the filtered ones |
| MultiSelect.DtFilterFieldMultiSelect.SetInputValue | libs/barista-components/filter-field/src/filter-field-multi-select/filter-field-multi-select.ts:126-130 | the input is stored lower-cased, `applyDisabled` is recomputed, and the nodes are filtered by the stored input |
| MultiSelect.DtFilterFieldMultiSelect.SetOptionsOrGroups | libs/barista-components/filter-field/src/filter-field-multi-select/filter-field-multi-select.ts:114-117 | a missing value stores no nodes; then the nodes are filtered |
| DateAdapter.DaysInMonth | libs/barista-components/core/src/date/date-adapter.ts:136-140 | the Gregorian month lengths: 28 to 31 days, February 29 exactly in leap years, 30 for April, June, September and November |
| DateAdapter.NormalizeDay | libs/barista-components/core/src/date/date-adapter.ts:250 | `new Date(y, m, d)` always gives a valid date, and a day that exists is kept |
| DateAdapter.NormalizeDayNumber | libs/barista-components/core/src/date/date-adapter.ts:250 | the date reached is day `d` counted from the first of the month, so day 0 is the day before it |
| DateAdapter.CreateDateWithOverflow | libs/barista-components/core/src/date/date-adapter.ts:245-258 | the overflowing constructor always gives a valid date |
| DateAdapter.CreateDateWithOverflowNumber | libs/barista-components/core/src/date/date-adapter.ts:245-258 | whole years are carried out of the month, and the day is counted from the first of that month |
| DateAdapter.CreateDateWithOverflowOfValid | libs/barista-components/core/src/date/date-adapter.ts:250 | a valid date's own fields rebuild it |
| DateAdapter.CreateDateWithOverflowAsWritten | libs/barista-components/core/src/date/date-adapter.ts:245-258 | as written, the call throws exactly for years 0 to 99 and otherwise gives the overflowing date |
| DateAdapter.CreateDateWithOverflowAsWrittenFailsForYear50 | libs/barista-components/core/src/date/date-adapter.ts:254-256 | 1 January of year 50 throws as written, while the intended result is that date |
| DateAdapter.CompareDate | libs/barista-components/core/src/date/date-adapter.ts:345-351 | negative, zero or positive exactly as the first date comes before, equals or follows the second in `(year, month, day)` order |
| DateAdapter.CompareDateAgreesWithDayNumber | libs/barista-components/core/src/date/date-adapter.ts:339-351 | for valid dates, comparing fields agrees with comparing the days themselves |
| DateAdapter.ClampDate | libs/barista-components/core/src/date/date-adapter.ts:354-362 | `min` when the date is before a given minimum, else `max` when it is after a given maximum, else the date; with consistent bounds the result lies within them |
| DateAdapter.ClampDateIdempotent | libs/barista-components/core/src/date/date-adapter.ts:354-362 | with consistent bounds, clamping twice is clamping once |
| DateAdapter.ClampDateNotIdempotentWithCrossedBounds | libs/barista-components/core/src/date/date-adapter.ts:354-362 | with a minimum after the maximum, a second clamp can move the date again |
| DateAdapter.ClampDateValid | libs/barista-components/core/src/date/date-adapter.ts:354-362 | clamping valid dates gives a valid date |
| DateAdapter.NativeCompareDate | libs/barista-components/core/src/date/date-adapter.ts:81-83 | the native adapter's own `compareDate` always throws "Method not implemented." |
| DateAdapter.NativeClampDate | libs/barista-components/core/src/date/date-adapter.ts:84-86 | the native adapter's own `clampDate` always throws "Method not implemented." |
| DateAdapter.NativeClampDateDiffers | libs/barista-components/core/src/date/date-adapter.ts:81-86 | the native adapter fails on every input the abstract adapter's compare and clamp answer |
| DateAdapter.DtDateAdapter.constructor | libs/barista-components/core/src/date/date-adapter.ts:266-272 | an adapter starts with its locale and no locale change emitted |
| DateAdapter.DtDateAdapter.SetLocale | libs/barista-components/core/src/date/date-adapter.ts:275-278 | the locale is stored and `localeChanges` emits once |
| DateAdapter.DtDateAdapter.NativeSetLocale | libs/barista-components/core/src/date/date-adapter.ts:78-80 | the native adapter's own `setLocale` always throws "Method not implemented." |
| DateAdapter.CreateDateAsWritten | libs/barista-components/core/src/date/date-adapter.ts:88-106 | as written: a month outside 0..11 and a day below 1 are rejected; years 0 to 99 then throw a `TypeError`; otherwise a day that exists is returned as given, and a day past the month's end is returned exactly when the overflowing date stays in that month, as that date |
| DateAdapter.CreateDateAsWrittenAcceptsOverflow | libs/barista-components/core/src/date/date-adapter.ts:99-103 | as written, outside years 0 to 99 a day that overflows by a whole year, such as day 366 of January 2017, is accepted as 1 January of the next year, while the corrected `createDate` throws |
| DateAdapter.CreateDate | libs/barista-components/core/src/date/date-adapter.ts:88-106 | returns exactly `(year, month, date)` when that date exists; otherwise it throws for the first rule broken (month index, day below 1, day beyond the month's length) |
| DateAdapter.LastDayOfMonth | libs/barista-components/core/src/date/date-adapter.ts:136-140 | day 0 of the next month is the last day of this one, also for December |
| DateAdapter.GetNumDaysInMonth | libs/barista-components/core/src/date/date-adapter.ts:136-140 | the result is the Gregorian length of the date's month |
| DateAdapter.JsRemainder | libs/barista-components/core/src/date/date-adapter.ts:188 | JavaScript's `%` lies strictly between `-b` and `b`, takes the dividend's sign, and agrees with the mathematical remainder for non-negative dividends |
| DateAdapter.JsMonthIndex | libs/barista-components/core/src/date/date-adapter.ts:184-188 | `((m % 12) + 12) % 12` is the month index of `m`, also for negative `m` |
| DateAdapter.OverflowIntoNextMonth | libs/barista-components/core/src/date/date-adapter.ts:182-195 | a day past the end of a month lands early in the next month, and day 0 of that month is the last day of the first |
| DateAdapter.AddCalendarMonthsFits | libs/barista-components/core/src/date/date-adapter.ts:175-180 | when the day exists in the target month it is kept |
| DateAdapter.AddCalendarMonthsOverflow | libs/barista-components/core/src/date/date-adapter.ts:182-195 | when the day is past the end of the target month, the result is that month's last day |
| DateAdapter.AddCalendarMonthsResult | libs/barista-components/core/src/date/date-adapter.ts:175-198 | the month is `month + months` with whole years carried, and the day is the smaller of the old day and the target month's length |
| DateAdapter.AddCalendarMonths | libs/barista-components/core/src/date/date-adapter.ts:175-198 | adding months always gives a valid date |
| DateAdapter.JanuaryThirtyFirstPlusOneMonth | libs/barista-components/core/src/date/date-adapter.ts:329-334 | 31 January 2017 plus one month is 28 February 2017 |
| DateAdapter.AddCalendarYearsResult | libs/barista-components/core/src/date/date-adapter.ts:171-173 | adding years keeps the month, and the day when it exists in the target year |
| DateAdapter.AddCalendarYears | libs/barista-components/core/src/date/date-adapter.ts:171-173 | adding years always gives a valid date |
| DateAdapter.LeapDayPlusOneYear | libs/barista-components/core/src/date/date-adapter.ts:322-327 | 29 February 2016 plus one year is 28 February 2017 |
| DateAdapter.AddCalendarDaysShifts | libs/barista-components/core/src/date/date-adapter.ts:200-206 | adding days gives a valid date exactly that many days later or earlier |
| DateAdapter.AddCalendarDays | libs/barista-components/core/src/date/date-adapter.ts:200-206 | adding days always gives a valid date |
| DateAdapter.AddCalendarDaysRoundTrip | libs/barista-components/core/src/date/date-adapter.ts:200-206 | adding and then subtracting the same days returns the date |
| DateAdapter.AddCalendarDaysCompose | libs/barista-components/core/src/date/date-adapter.ts:200-206 | adding days in two steps is adding their sum |
| DateAdapter.GetDayOfWeek | libs/barista-components/core/src/date/date-adapter.ts:124-126 | `getDay()` lies in 0..6 |
| DateAdapter.GetDayOfWeekAdvances | libs/barista-components/core/src/date/date-adapter.ts:124-126 | the next day is the next weekday, and a week later is the same weekday |
| DateAdapter.EpochIsThursday | libs/barista-components/core/src/date/date-adapter.ts:124-126 | 1 January 1970 is a Thursday (4) |
| DateAdapter.GetFirstDayOfWeek | libs/barista-components/core/src/date/date-adapter.ts:128-130 | the first day of the week is the weekday of a Monday (2 January 2017) |
| Calendar.ValidDateOrNull | libs/barista-components/experimental/datepicker/src/calendar.ts:53-55 | a valid date is kept and anything else becomes null |
| Calendar.DtCalendar.constructor | libs/barista-components/experimental/datepicker/src/calendar.ts:56-112 | every date starts null or unset, nothing emitted, invariants hold |
| Calendar.DtCalendar.StartAt | libs/barista-components/experimental/datepicker/src/calendar.ts:48-52 | null when unset; otherwise the start date clamped, which lies within consistent bounds and is the start date itself when already within them |
| Calendar.DtCalendar.SetStartAt | libs/barista-components/experimental/datepicker/src/calendar.ts:53-55 | stores the filtered value; the other dates are unchanged |
| Calendar.DtCalendar.SetSelected | libs/barista-components/experimental/datepicker/src/calendar.ts:63-65 | stores the filtered value; the other dates are unchanged |
| Calendar.DtCalendar.SetActiveDate | libs/barista-components/experimental/datepicker/src/calendar.ts:100-111 | the active date is stored clamped to the current bounds, so it lies within consistent bounds |
| Calendar.DtCalendar.TryUpdateActiveDate | libs/barista-components/experimental/datepicker/src/calendar.ts:175-179 | an active date that is set is clamped again to the current bounds; an unset one stays unset |
| Calendar.DtCalendar.SetMinDate | libs/barista-components/experimental/datepicker/src/calendar.ts:73-76 | stores the filtered minimum and re-clamps the active date to the new bounds |
| Calendar.DtCalendar.SetMaxDate | libs/barista-components/experimental/datepicker/src/calendar.ts:84-87 | stores the filtered maximum and re-clamps the active date to the new bounds |
| Calendar.DtCalendar.NgAfterContentInit | libs/barista-components/experimental/datepicker/src/calendar.ts:129-131 | the active date becomes the clamped start date if one is set, otherwise today clamped |
| Calendar.DtCalendar.AddMonths | libs/barista-components/experimental/datepicker/src/calendar.ts:145-151 | the active date becomes `addCalendarMonths(active, months)` clamped; without an active date the call fails and nothing changes |
| Calendar.DtCalendar.SelectedValueChanged | libs/barista-components/experimental/datepicker/src/calendar.ts:156-160 | emits the value clamped to the bounds |
| Calendar.DtCalendar.SetTodayDate | libs/barista-components/experimental/datepicker/src/calendar.ts:165-170 | today becomes the selected date, the active date is today clamped, and the clamped date is emitted |

## Left out

- Rendering, CSS templates and the Lit and Angular lifecycles are not modelled, because they have no state logic. This covers `requestUpdate`, change detection, `markForCheck`, the calendar's `_label` formatting and `focus()` calls.
- `_handleKeyDown`'s `preventDefault` on Space is browser I/O.
- Events live in an append-only log (`FluidTab.dispatched`, `submitted`, `selectedChange`) rather than `dispatchEvent` or `EventEmitter`.
- Tabs in the group are values, not shared element references. The model does not capture aliasing between a tab object and the group's list.
- The generated `fluid-tab-<n>` id counter is replaced by an id passed to the constructor.
- `tabChildren` is empty before the first slot change, where the source leaves it undefined.
- The `querySelectorAll` of the slot change is a parameter holding the new tabs.
- `_handleKeyUp`'s Enter/Space and arrow branches are two helper methods that `HandleKeyUp` calls, and `focus()` on the new tab is left out.
- Throwing on an arrow key with no tab stop (`tabChildren[-1]`) is modelled as a false success flag, together with the effect before the throw.
- `TabGroup.FluidTabGroup.ClickTab`: the tab's own `FluidTab` event log is not updated by the group-level setters, because the group's state holds tab records.
- The design-token module is a `map` from property keys to opaque values. `deepFreezeChildren` and the JS object identity of frozen values are not part of this model.
- The Proxy invariants the engine enforces and the contents of the descriptors are left out.
- `provider.ts` is not part of this model. Its DOM stylesheet installation and the density multiplier arithmetic are floating point and DOM.
- Both the `Map` and the key set keep insertion order. The key set is a duplicate-free sequence.
- `TokenAccessor.CssPropertyNameCache.GetCssPropertyName` models the cache as the intended string map. Bracket indexing through the Map's properties gets its own row under Findings. The inherited `size` accessor is not modelled.
- `TokenAccessor.GetCssPropertyNameAsWritten` does not model the inherited `size` accessor. For `"size"` it computes `--size`, where the source's write to that getter-only property throws a `TypeError` in strict mode.
- `Text.ToLower` lower-cases ASCII letters only. Unicode case mapping beyond ASCII is not modelled.
- `MultiSelect.DtFilterFieldMultiSelect.IsOptionSelected` states membership. The source's `!!find(...)` is false for a falsy selected value such as `0` or `""`, and values are compared by Dafny equality, not by JavaScript identity. Likewise `toggleOption`'s loose `!=` is taken as strict inequality.
- `types.ts` (`isDtGroupDef`) is not part of this model. A node is a group when it carries a group definition. Option definitions are reduced to their `viewValue`.
- The filter-field multi-select trigger, covering overlay, streams, focus and scrolling, is left out as framework plumbing.
- `Calendar.DtCalendar` is modelled over an adapter that has the abstract adapter's `clampDate`. The root default `useClass: DtNativeDateAdapter` throws on every clamp (see Findings). Which adapter `DtNativeDateModule` provides is not part of this model.
- `today()`, the clock, is a parameter of `NgAfterContentInit` and `SetTodayDate`.
- `format`, `getDateNames`, `getDayOfWeekNames`, `isValid`, `isDateInstance` and `stripDirectionalityCharacters` are left out, because they depend on the `Intl` API or on the JavaScript `Date` object itself.
- The finite range of JavaScript dates and time-of-day fields are not modelled.
- `getValidDateOrNull` (`datepicker-utils/util`) is not part of this model. It is taken as a validity filter on optional dates.
- `DateAdapter.CreateDateWithOverflow` gives the intended result for years 0 to 99, where the source throws (see Findings). As a consequence, 29 February of years 0 to 99 is modelled as the proleptic Gregorian date.
- `DateAdapter.GetNumDaysInMonth`, `DateAdapter.AddCalendarMonths`, `DateAdapter.AddCalendarYears` and `DateAdapter.AddCalendarDays` are built on the corrected `CreateDateWithOverflow`, so for years 0 to 99 they give the intended date where the source throws.
- `addCalendarMonths` reassigns its local `newDate` once, without a loop, so it is modelled as a function.
- The literal example of a CSS property name for a concrete token is not proved. The character-by-character lemmas state the same mapping for every name.

## Findings

| source | as written | input that shows it | evidently intended | confidence | as-written member | corrected member |
|---|---|---|---|---|---|---|
| libs/barista-components/core/src/date/date-adapter.ts:254-256 | `createDateWithOverflow` is a free function but calls `this.getYear(result)` for years 0 to 99, so it throws a `TypeError` | `createDateWithOverflow(50, 0, 1)` | the date of the year as given (1 January of year 50) | not executed | DateAdapter.CreateDateWithOverflowAsWritten | DateAdapter.CreateDateWithOverflow |
| libs/barista-components/core/src/date/date-adapter.ts:84-86 | `DtNativeDateAdapter`, the default `useClass`, implements rather than extends `DtDateAdapter` and declares its own `clampDate`, which throws | `clampDate(d, null, null)` for any date `d` | the abstract adapter's clamp | not executed | DateAdapter.NativeClampDate | DateAdapter.ClampDate |
| libs/barista-components/core/src/date/date-adapter.ts:81-83 | likewise the native `compareDate` throws | `compareDate(d, d)` for any date `d` | the abstract adapter's field-wise comparison | not executed | DateAdapter.NativeCompareDate | DateAdapter.CompareDate |
| libs/barista-components/core/src/date/date-adapter.ts:78-80 | likewise the native `setLocale` throws | `setLocale("de")` | store the locale and notify `localeChanges` | not executed | DateAdapter.DtDateAdapter.NativeSetLocale | DateAdapter.DtDateAdapter.SetLocale |
| libs/barista-components/core/src/date/date-adapter.ts:99-103 | `createDate` only checks that the month of the result is `month`, so a day that overflows by a whole year slips through, although the contract says that no overflow is allowed | `createDate(2017, 0, 366)` gives 1 January 2018 | reject a day beyond the month's length | not executed | DateAdapter.CreateDateAsWritten | DateAdapter.CreateDate |
| libs/fluid-elements/provider/src/lib/token-accessor.ts:140-145 | the cache `Map` is indexed with brackets, which reads and writes the object's properties, so names of inherited members hit | `getCssPropertyName("constructor")` returns the `Map` constructor | `"--constructor"` from a real map lookup | not executed | TokenAccessor.GetCssPropertyNameAsWritten | TokenAccessor.CssPropertyNameCache.GetCssPropertyName |
