/** `DtFilterFieldMultiSelect`: the current and initial selections, the rule
    that disables the apply button, the submit that resets the selection, and
    the case-insensitive filtering of options and option groups by the typed
    input. */
module MultiSelect {
  import opened Common
  import opened Text

  // ---------------------------------------------------------------------
  // Options and groups
  // ---------------------------------------------------------------------

  /** An option definition, reduced to the text the filter looks at. */
  datatype OptionDef = OptionDef(viewValue: string)

  /** A node of `optionsOrGroups`: the node's own data, an optional option
      definition and an optional group definition. A node is a group exactly
      when it carries a group definition. */
  datatype NodeDef<T> = NodeDef(data: T, option: Option<OptionDef>, group: Option<GroupDef<T>>)

  /** A group definition; `labelText` is the group's `label`. */
  datatype GroupDef<T> = GroupDef(labelText: string, options: seq<NodeDef<T>>)

  /** `node.option?.viewValue.toLowerCase().includes(query)`: a node without
      an option definition never matches. */
  predicate Matches<T>(node: NodeDef<T>, query: string) {
    node.option.Some? && ContainsQuery(node.option.value.viewValue, query)
  }

  predicate ContainsQuery(viewValue: string, query: string) {
    Includes(ToLower(viewValue), query)
  }

  /** The options of a group that match the query, in their order. */
  function FilterGroupOptions<T(==)>(options: seq<NodeDef<T>>, query: string): (r: seq<NodeDef<T>>)
    ensures |r| <= |options|
    ensures forall o :: o in r ==> o in options && Matches(o, query)
    ensures forall o :: o in options && Matches(o, query) ==> o in r
  {
    if options == [] then []
    else
      assert options == [options[0]] + options[1..];
      (if Matches(options[0], query) then [options[0]] else []) + FilterGroupOptions(options[1..], query)
  }

  /** The first `map` step: a group keeps its other fields and only its
      matching options; a plain option is left as it is. */
  function FilterNode<T(==)>(node: NodeDef<T>, query: string): (r: NodeDef<T>)
    ensures r.data == node.data && r.option == node.option && r.group.Some? == node.group.Some?
    ensures node.group.None? ==> r == node
    ensures node.group.Some? ==>
      r.group.value.labelText == node.group.value.labelText
      && (forall o :: o in r.group.value.options ==> o in node.group.value.options && Matches(o, query))
      && (forall o :: o in node.group.value.options && Matches(o, query) ==> o in r.group.value.options)
  {
    if node.group.Some? then
      node.(group := Some(node.group.value.(options := FilterGroupOptions(node.group.value.options, query))))
    else
      node
  }

  /** The second `filter` step: a group is kept when it still has options,
      a plain option when it matches. */
  predicate Kept<T>(node: NodeDef<T>, query: string) {
    if node.group.Some? then |node.group.value.options| > 0 else Matches(node, query)
  }

  /** `_filterOptions` with a non-blank query. */
  function FilterNodes<T(==)>(nodes: seq<NodeDef<T>>, query: string): (r: seq<NodeDef<T>>)
    ensures |r| <= |nodes|
    ensures forall m :: m in r && m.group.None? ==> m in nodes && Matches(m, query)
    ensures forall m :: m in nodes && m.group.None? && Matches(m, query) ==> m in r
    ensures forall i :: 0 <= i < |r| && r[i].group.Some? ==>
      |r[i].group.value.options| > 0
      && forall o :: o in r[i].group.value.options ==> Matches(o, query)
    ensures forall n :: n in nodes && n.group.Some? && FilterGroupOptions(n.group.value.options, query) != [] ==>
      FilterNode(n, query) in r
    ensures forall m :: m in r && m.group.Some? ==> exists n :: n in nodes && n.group.Some? && m == FilterNode(n, query)
  {
    if nodes == [] then []
    else
      assert nodes == [nodes[0]] + nodes[1..];
      var n := FilterNode(nodes[0], query);
      (if Kept(n, query) then [n] else []) + FilterNodes(nodes[1..], query)
  }

  /** An input made of white space only, which `trim()` reduces to the empty
      string (`TrimEmptyIffBlank`). */
  predicate Blank(input: string) {
    forall i :: 0 <= i < |input| ==> IsJsWhitespace(input[i])
  }

  /** The value `_filterOptions` stores: the filtered nodes when the input has
      a character that is not white space, otherwise all nodes. */
  function Filtered<T(==)>(nodes: seq<NodeDef<T>>, input: string): (r: seq<NodeDef<T>>)
    ensures |r| <= |nodes|
    ensures Blank(input) ==> r == nodes
    ensures !Blank(input) ==> forall m :: m in r && m.group.None? ==> m in nodes && Matches(m, input)
    ensures !Blank(input) ==> forall m :: m in nodes && m.group.None? && Matches(m, input) ==> m in r
  {
    if Blank(input) then nodes else FilterNodes(nodes, input)
  }

  /** Filtering works node by node, so it keeps the order of the nodes:
      filtering a concatenation concatenates the filtered parts. */
  lemma {:induction false} FilterNodesAppend<T>(a: seq<NodeDef<T>>, b: seq<NodeDef<T>>, query: string)
    ensures FilterNodes(a + b, query) == FilterNodes(a, query) + FilterNodes(b, query)
  {
    if a == [] {
      assert a + b == b;
    } else {
      assert (a + b)[0] == a[0];
      assert (a + b)[1..] == a[1..] + b;
      FilterNodesAppend(a[1..], b, query);
    }
  }

  /** Filtering the group options a second time with the same query changes
      nothing. */
  lemma {:induction false} FilterGroupOptionsIdempotent<T>(options: seq<NodeDef<T>>, query: string)
    ensures FilterGroupOptions(FilterGroupOptions(options, query), query) == FilterGroupOptions(options, query)
  {
    if options != [] {
      FilterGroupOptionsIdempotent(options[1..], query);
      var rest := FilterGroupOptions(options[1..], query);
      if Matches(options[0], query) {
        var r := [options[0]] + rest;
        assert r[0] == options[0] && r[1..] == rest;
        assert FilterGroupOptions(r, query) == [options[0]] + FilterGroupOptions(rest, query);
      } else {
        assert FilterGroupOptions(options, query) == rest;
      }
    }
  }

  /** Filtering the filtered nodes again with the same query changes
      nothing. */
  lemma {:induction false} FilterNodesIdempotent<T>(nodes: seq<NodeDef<T>>, query: string)
    ensures FilterNodes(FilterNodes(nodes, query), query) == FilterNodes(nodes, query)
  {
    if nodes != [] {
      var n := FilterNode(nodes[0], query);
      var rest := FilterNodes(nodes[1..], query);
      FilterNodesIdempotent(nodes[1..], query);
      if Kept(n, query) {
        if n.group.Some? {
          FilterGroupOptionsIdempotent(nodes[0].group.value.options, query);
        }
        assert FilterNode(n, query) == n;
        var r := [n] + rest;
        assert r[0] == n && r[1..] == rest;
        assert FilterNodes(r, query) == [n] + FilterNodes(rest, query);
      } else {
        assert FilterNodes(nodes, query) == rest;
      }
    }
  }

  /** The filter ignores case: a plain option whose view value contains the
      lower-cased input in any mix of cases is kept. */
  lemma FilterIgnoresCase<T>(nodes: seq<NodeDef<T>>, input: string, m: NodeDef<T>)
    requires !Blank(input) && m in nodes && m.group.None? && m.option.Some?
    requires Includes(ToLower(m.option.value.viewValue), ToLower(input))
    ensures m in Filtered(nodes, ToLower(input))
  {
    var i :| 0 <= i < |input| && !IsJsWhitespace(input[i]);
    assert !IsJsWhitespace(ToLower(input)[i]);
  }

  // ---------------------------------------------------------------------
  // Selections
  // ---------------------------------------------------------------------

  /** The values of `s` that do not occur in `t`, in their order. */
  function Difference<T(==)>(s: seq<T>, t: seq<T>): (r: seq<T>)
    ensures forall x :: x in r ==> x in s && x !in t
    ensures forall x :: x in s && x !in t ==> x in r
  {
    if s == [] then []
    else
      assert s == [s[0]] + s[1..];
      (if s[0] in t then [] else [s[0]]) + Difference(s[1..], t)
  }

  /** Lodash's `uniq`: the first occurrence of every value, in order. */
  function Uniq<T(==)>(s: seq<T>): (r: seq<T>)
    ensures forall x :: x in r ==> x in s
    ensures forall x :: x in s ==> x in r
    ensures NoDuplicates(r)
  {
    if s == [] then []
    else
      assert s == [s[0]] + s[1..];
      var rest := RemoveAll(Uniq(s[1..]), s[0]);
      RemoveAllKeepsNoDuplicates(Uniq(s[1..]), s[0]);
      NoDuplicatesCons(s[0], rest);
      [s[0]] + rest
  }

  /** Lodash's `xor` of two arrays: the values that occur in exactly one of
      them, each once. */
  function Xor<T(==)>(s: seq<T>, t: seq<T>): (r: seq<T>)
    ensures forall x :: x in r ==> (x in s) != (x in t)
    ensures forall x :: x in s && x !in t ==> x in r
    ensures forall x :: x in t && x !in s ==> x in r
    ensures NoDuplicates(r)
  {
    Uniq(Difference(s, t) + Difference(t, s))
  }

  /** The symmetric difference is empty exactly when both hold the same
      values. */
  lemma XorEmptyIffSameValues<T>(s: seq<T>, t: seq<T>)
    ensures |Xor(s, t)| == 0 <==> (set x | x in s) == (set x | x in t)
  {
    var r := Xor(s, t);
    var vs, vt := set x | x in s, set x | x in t;
    if |r| != 0 {
      var x := r[0];
      assert x in r;
      assert (x in vs) != (x in vt);
    } else {
      assert forall x :: x in vs <==> x in vt;
    }
  }

  /** `_checkApplyDisable`: applying is disabled when nothing is selected or
      the selection holds the same values as the initial one. */
  function ApplyDisabledRule<T(==)>(current: seq<T>, initial: seq<T>): (r: bool)
    ensures r <==> |current| == 0 || (set x | x in current) == (set x | x in initial)
  {
    XorEmptyIffSameValues(current, initial);
    |current| == 0 || |Xor(current, initial)| == 0
  }

  /** `toggleOption(v)`: a value already selected is removed everywhere,
      another one is appended. */
  function Toggled<T(==)>(s: seq<T>, v: T): (r: seq<T>)
    ensures v in s ==> v !in r && (forall x :: x in r ==> x in s) && (forall x :: x in s && x != v ==> x in r)
    ensures v in s ==> multiset(r) == multiset(s)[v := 0]
    ensures v !in s ==> r == s + [v]
  {
    if v in s then RemoveAll(s, v) else s + [v]
  }

  /** Toggling a value twice restores which values are selected; starting
      from an unselected value it restores the selection itself. */
  lemma ToggleTwice<T>(s: seq<T>, v: T)
    ensures forall x :: x in Toggled(Toggled(s, v), v) <==> x in s
    ensures v !in s ==> Toggled(Toggled(s, v), v) == s
  {
    if v !in s {
      assert v in s + [v];
      assert RemoveAll(s + [v], v) == s by {
        RemoveAllAppended(s, v);
      }
    }
  }

  /** `_toggleOptionFromTemplate`: a checked box appends the value, even one
      already selected; an unchecked box removes it everywhere. */
  function TemplateToggled<T(==)>(s: seq<T>, checked: bool, v: T): (r: seq<T>)
    ensures checked ==> r == s + [v] && multiset(r)[v] == multiset(s)[v] + 1
    ensures !checked ==> v !in r && (forall x :: x in r ==> x in s) && (forall x :: x in s && x != v ==> x in r)
    ensures !checked ==> multiset(r) == multiset(s)[v := 0]
  {
    if checked then s + [v] else RemoveAll(s, v)
  }

  // ---------------------------------------------------------------------
  // The component
  // ---------------------------------------------------------------------

  class DtFilterFieldMultiSelect<T(==)> {
    /** `_currentSelection` and `_initialSelection`. */
    var currentSelection: seq<T>
    var initialSelection: seq<T>
    /** `_applyDisabled`: unset, hence falsy, until first computed. */
    var applyDisabled: bool
    /** `_inputValue`, stored lower-cased; unset reads as "". */
    var inputValue: string
    /** `_optionsOrGroups` and `_filteredOptionsOrGroups`. */
    var optionsOrGroups: seq<NodeDef<T>>
    var filteredOptionsOrGroups: seq<NodeDef<T>>
    /** The selections emitted on `multiSelectSubmitted`, oldest first. */
    var submitted: seq<seq<T>>

    /** The filtered nodes always reflect the current nodes and input. */
    ghost predicate Valid()
      reads this
    {
      filteredOptionsOrGroups == Filtered(optionsOrGroups, inputValue)
    }

    constructor()
      ensures currentSelection == [] && initialSelection == [] && !applyDisabled
      ensures inputValue == "" && optionsOrGroups == [] && filteredOptionsOrGroups == [] && submitted == []
      ensures Valid()
    {
      currentSelection := [];
      initialSelection := [];
      applyDisabled := false;
      inputValue := "";
      optionsOrGroups := [];
      filteredOptionsOrGroups := [];
      submitted := [];
    }

    /** `_isOptionSelected(v)`. */
    function IsOptionSelected(v: T): (r: bool)
      reads this
      ensures r <==> exists i :: 0 <= i < |currentSelection| && currentSelection[i] == v
    {
      v in currentSelection
    }

    method CheckApplyDisable()
      modifies this
      ensures applyDisabled == ApplyDisabledRule(currentSelection, initialSelection)
      ensures currentSelection == old(currentSelection) && initialSelection == old(initialSelection)
      ensures inputValue == old(inputValue) && optionsOrGroups == old(optionsOrGroups)
      ensures filteredOptionsOrGroups == old(filteredOptionsOrGroups) && submitted == old(submitted)
    {
      applyDisabled := |currentSelection| == 0 || |Xor(currentSelection, initialSelection)| == 0;
    }

    method ToggleOption(v: T)
      modifies this
      ensures currentSelection == Toggled(old(currentSelection), v)
      ensures applyDisabled == ApplyDisabledRule(currentSelection, initialSelection)
      ensures initialSelection == old(initialSelection) && inputValue == old(inputValue)
      ensures optionsOrGroups == old(optionsOrGroups) && filteredOptionsOrGroups == old(filteredOptionsOrGroups)
      ensures submitted == old(submitted)
      ensures old(Valid()) ==> Valid()
    {
      if v in currentSelection {
        currentSelection := RemoveAll(currentSelection, v);
      } else {
        currentSelection := currentSelection + [v];
      }
      CheckApplyDisable();
    }

    method ToggleOptionFromTemplate(checked: bool, v: T)
      modifies this
      ensures currentSelection == TemplateToggled(old(currentSelection), checked, v)
      ensures applyDisabled == ApplyDisabledRule(currentSelection, initialSelection)
      ensures initialSelection == old(initialSelection) && inputValue == old(inputValue)
      ensures optionsOrGroups == old(optionsOrGroups) && filteredOptionsOrGroups == old(filteredOptionsOrGroups)
      ensures submitted == old(submitted)
      ensures old(Valid()) ==> Valid()
    {
      if checked {
        currentSelection := currentSelection + [v];
      } else {
        currentSelection := RemoveAll(currentSelection, v);
      }
      CheckApplyDisable();
    }

    /** `_setInitialSelection(values)`: an array becomes the initial selection
        and a copy of it the current one; anything else empties the initial
        selection and keeps the current one. */
    method SetInitialSelection(values: Option<seq<T>>)
      modifies this
      ensures values.Some? ==> initialSelection == values.value && currentSelection == values.value
      ensures values.None? ==> initialSelection == [] && currentSelection == old(currentSelection)
      ensures applyDisabled == ApplyDisabledRule(currentSelection, initialSelection)
      ensures values.Some? ==> applyDisabled
      ensures inputValue == old(inputValue) && optionsOrGroups == old(optionsOrGroups)
      ensures filteredOptionsOrGroups == old(filteredOptionsOrGroups) && submitted == old(submitted)
      ensures old(Valid()) ==> Valid()
    {
      if values.Some? {
        initialSelection := values.value;
        currentSelection := values.value;
      } else {
        initialSelection := [];
      }
      CheckApplyDisable();
    }

    /** `_emitSelectEvent`: emits the current selection, then starts a fresh,
        empty one; `applyDisabled` is not recomputed. */
    method EmitSelectEvent()
      modifies this
      ensures submitted == old(submitted) + [old(currentSelection)]
      ensures currentSelection == []
      ensures initialSelection == old(initialSelection) && applyDisabled == old(applyDisabled)
      ensures inputValue == old(inputValue) && optionsOrGroups == old(optionsOrGroups)
      ensures filteredOptionsOrGroups == old(filteredOptionsOrGroups)
      ensures old(Valid()) ==> Valid()
    {
      submitted := submitted + [currentSelection];
      currentSelection := [];
    }

    /** `_filterOptions`. */
    method FilterOptions()
      modifies this
      ensures filteredOptionsOrGroups == Filtered(optionsOrGroups, inputValue)
      ensures currentSelection == old(currentSelection) && initialSelection == old(initialSelection)
      ensures applyDisabled == old(applyDisabled) && inputValue == old(inputValue)
      ensures optionsOrGroups == old(optionsOrGroups) && submitted == old(submitted)
      ensures Valid()
    {
      TrimEmptyIffBlank(inputValue);
      if |Trim(inputValue)| > 0 {
        filteredOptionsOrGroups := FilterNodes(optionsOrGroups, inputValue);
      } else {
        filteredOptionsOrGroups := optionsOrGroups;
      }
    }

    /** The `inputValue` setter: stores the value lower-cased, recomputes
        `applyDisabled` and filters. */
    method SetInputValue(value: string)
      modifies this
      ensures inputValue == ToLower(value)
      ensures filteredOptionsOrGroups == Filtered(optionsOrGroups, ToLower(value))
      ensures applyDisabled == ApplyDisabledRule(currentSelection, initialSelection)
      ensures currentSelection == old(currentSelection) && initialSelection == old(initialSelection)
      ensures optionsOrGroups == old(optionsOrGroups) && submitted == old(submitted)
      ensures Valid()
    {
      inputValue := ToLower(value);
      CheckApplyDisable();
      FilterOptions();
    }

    /** The `optionsOrGroups` setter: a missing value stores no nodes; then
        the nodes are filtered. */
    method SetOptionsOrGroups(opts: Option<seq<NodeDef<T>>>)
      modifies this
      ensures optionsOrGroups == if opts.Some? then opts.value else []
      ensures filteredOptionsOrGroups == Filtered(optionsOrGroups, inputValue)
      ensures currentSelection == old(currentSelection) && initialSelection == old(initialSelection)
      ensures applyDisabled == old(applyDisabled) && inputValue == old(inputValue)
      ensures submitted == old(submitted)
      ensures Valid()
    {
      optionsOrGroups := if opts.Some? then opts.value else [];
      FilterOptions();
    }
  }
}
