/** `DtCalendar`'s bookkeeping of its start, selected, minimum, maximum and
    active dates over the adapter's `clampDate` and `addCalendarMonths`. */
module Calendar {
  import opened Common
  import opened DateAdapter

  /** `getValidDateOrNull(adapter, value)`: a value that is a valid date is
      kept, anything else becomes null. */
  function ValidDateOrNull(value: Option<Date>): (r: Option<Date>)
    ensures r.Some? <==> value.Some? && IsValid(value.value)
    ensures r.Some? ==> r == value
  {
    if value.Some? && IsValid(value.value) then value else None
  }

  predicate ValidOrNull(d: Option<Date>) {
    d.None? || IsValid(d.value)
  }

  class DtCalendar {
    /** `_startAt`, `_selected`, `_minDate`, `_maxDate`. */
    var startAtValue: Option<Date>
    var selected: Option<Date>
    var minDate: Option<Date>
    var maxDate: Option<Date>
    /** `_activeDate`: undefined until the calendar is initialised. */
    var activeDate: Option<Date>
    /** The values emitted on `selectedChange`, oldest first. */
    var selectedChange: seq<Date>

    /** Every date the calendar stores is a valid date. */
    ghost predicate Valid()
      reads this
    {
      ValidOrNull(startAtValue) && ValidOrNull(selected) && ValidOrNull(minDate)
      && ValidOrNull(maxDate) && ValidOrNull(activeDate)
    }

    /** The active date respects the current bounds whenever they are
        consistent. */
    ghost predicate ActiveClamped()
      reads this
    {
      activeDate.Some? && OrderedBounds(minDate, maxDate) ==> WithinBounds(activeDate.value, minDate, maxDate)
    }

    constructor()
      ensures startAtValue == None && selected == None && minDate == None && maxDate == None
      ensures activeDate == None && selectedChange == []
      ensures Valid() && ActiveClamped()
    {
      startAtValue := None;
      selected := None;
      minDate := None;
      maxDate := None;
      activeDate := None;
      selectedChange := [];
    }

    /** The `startAt` getter: null when unset, otherwise the start date
        clamped to the current bounds. */
    function StartAt(): (r: Option<Date>)
      reads this
      ensures r.None? <==> startAtValue.None?
      ensures r.Some? && OrderedBounds(minDate, maxDate) ==> WithinBounds(r.value, minDate, maxDate)
      ensures r.Some? && WithinBounds(startAtValue.value, minDate, maxDate) ==> r == startAtValue
    {
      if startAtValue.Some? then Some(ClampDate(startAtValue.value, minDate, maxDate)) else None
    }

    /** The `startAt` setter. */
    method SetStartAt(value: Option<Date>)
      modifies this
      ensures startAtValue == ValidDateOrNull(value)
      ensures selected == old(selected) && minDate == old(minDate) && maxDate == old(maxDate)
      ensures activeDate == old(activeDate) && selectedChange == old(selectedChange)
      ensures old(Valid()) ==> Valid()
      ensures old(ActiveClamped()) ==> ActiveClamped()
    {
      startAtValue := ValidDateOrNull(value);
    }

    /** The `selected` setter. */
    method SetSelected(value: Option<Date>)
      modifies this
      ensures selected == ValidDateOrNull(value)
      ensures startAtValue == old(startAtValue) && minDate == old(minDate) && maxDate == old(maxDate)
      ensures activeDate == old(activeDate) && selectedChange == old(selectedChange)
      ensures old(Valid()) ==> Valid()
      ensures old(ActiveClamped()) ==> ActiveClamped()
    {
      selected := ValidDateOrNull(value);
    }

    /** The `activeDate` setter: the value is stored clamped to the current
        bounds. */
    method SetActiveDate(value: Date)
      modifies this
      ensures activeDate == Some(ClampDate(value, minDate, maxDate))
      ensures startAtValue == old(startAtValue) && selected == old(selected)
      ensures minDate == old(minDate) && maxDate == old(maxDate) && selectedChange == old(selectedChange)
      ensures old(Valid()) && IsValid(value) ==> Valid()
      ensures ActiveClamped()
    {
      if Valid() && IsValid(value) {
        ClampDateValid(value, minDate, maxDate);
      }
      activeDate := Some(ClampDate(value, minDate, maxDate));
    }

    /** `_tryUpdateActiveDate`: an active date that is already set is assigned
        again, which clamps it to the current bounds. */
    method TryUpdateActiveDate()
      modifies this
      ensures activeDate == if old(activeDate).Some? then Some(ClampDate(old(activeDate).value, minDate, maxDate)) else None
      ensures startAtValue == old(startAtValue) && selected == old(selected)
      ensures minDate == old(minDate) && maxDate == old(maxDate) && selectedChange == old(selectedChange)
      ensures old(Valid()) ==> Valid()
      ensures ActiveClamped()
    {
      if activeDate.Some? {
        SetActiveDate(activeDate.value);
      }
    }

    /** The `minDate` setter: stores the filtered minimum and re-clamps the
        active date to the new bounds. */
    method SetMinDate(value: Option<Date>)
      modifies this
      ensures minDate == ValidDateOrNull(value)
      ensures activeDate == if old(activeDate).Some? then Some(ClampDate(old(activeDate).value, minDate, maxDate)) else None
      ensures startAtValue == old(startAtValue) && selected == old(selected)
      ensures maxDate == old(maxDate) && selectedChange == old(selectedChange)
      ensures old(Valid()) ==> Valid()
      ensures ActiveClamped()
    {
      minDate := ValidDateOrNull(value);
      TryUpdateActiveDate();
    }

    /** The `maxDate` setter, symmetric to `SetMinDate`. */
    method SetMaxDate(value: Option<Date>)
      modifies this
      ensures maxDate == ValidDateOrNull(value)
      ensures activeDate == if old(activeDate).Some? then Some(ClampDate(old(activeDate).value, minDate, maxDate)) else None
      ensures startAtValue == old(startAtValue) && selected == old(selected)
      ensures minDate == old(minDate) && selectedChange == old(selectedChange)
      ensures old(Valid()) ==> Valid()
      ensures ActiveClamped()
    {
      maxDate := ValidDateOrNull(value);
      TryUpdateActiveDate();
    }

    /** `ngAfterContentInit`: the active date becomes the (clamped) start date
        if one is set, otherwise today, clamped. */
    method NgAfterContentInit(today: Date)
      modifies this
      ensures activeDate == Some(ClampDate(if old(StartAt()).Some? then old(StartAt()).value else today, minDate, maxDate))
      ensures startAtValue.Some? && OrderedBounds(minDate, maxDate) ==> activeDate == StartAt()
      ensures startAtValue.Some? && WithinBounds(startAtValue.value, minDate, maxDate) ==> activeDate == startAtValue
      ensures startAtValue == old(startAtValue) && selected == old(selected)
      ensures minDate == old(minDate) && maxDate == old(maxDate) && selectedChange == old(selectedChange)
      ensures old(Valid()) && IsValid(today) ==> Valid()
      ensures ActiveClamped()
    {
      var start := StartAt();
      if start.Some? {
        if Valid() {
          ClampDateValid(startAtValue.value, minDate, maxDate);
        }
        if OrderedBounds(minDate, maxDate) {
          ClampDateIdempotent(startAtValue.value, minDate, maxDate);
        }
        SetActiveDate(start.value);
      } else {
        SetActiveDate(today);
      }
    }

    /** `_addMonths(months)`: moves the active date by whole months and clamps
        it. Before initialisation there is no active date, the adapter is
        handed `undefined` and throws; `ok` is false and nothing changes. */
    method AddMonths(months: int) returns (ok: bool)
      modifies this
      ensures ok <==> old(activeDate).Some?
      ensures ok ==> activeDate == Some(ClampDate(AddCalendarMonths(old(activeDate).value, months), minDate, maxDate))
      ensures !ok ==> activeDate == old(activeDate)
      ensures startAtValue == old(startAtValue) && selected == old(selected)
      ensures minDate == old(minDate) && maxDate == old(maxDate) && selectedChange == old(selectedChange)
      ensures old(Valid()) ==> Valid()
      ensures old(ActiveClamped()) ==> ActiveClamped()
    {
      if activeDate.None? {
        return false;
      }
      SetActiveDate(AddCalendarMonths(activeDate.value, months));
      return true;
    }

    /** `_selectedValueChanged(value)`: emits the value clamped to the bounds. */
    method SelectedValueChanged(value: Date)
      modifies this
      ensures selectedChange == old(selectedChange) + [ClampDate(value, minDate, maxDate)]
      ensures startAtValue == old(startAtValue) && selected == old(selected)
      ensures minDate == old(minDate) && maxDate == old(maxDate) && activeDate == old(activeDate)
      ensures old(Valid()) ==> Valid()
      ensures old(ActiveClamped()) ==> ActiveClamped()
    {
      selectedChange := selectedChange + [ClampDate(value, minDate, maxDate)];
    }

    /** `_setTodayDate()`: today becomes the selected date, the active date is
        today clamped, and the clamped date is emitted. `today` is the
        adapter's clock reading, which is always a valid date. */
    method SetTodayDate(today: Date)
      requires IsValid(today)
      modifies this
      ensures selected == Some(today)
      ensures activeDate == Some(ClampDate(today, minDate, maxDate))
      ensures selectedChange == old(selectedChange) + [ClampDate(today, minDate, maxDate)]
      ensures startAtValue == old(startAtValue) && minDate == old(minDate) && maxDate == old(maxDate)
      ensures old(Valid()) ==> Valid()
      ensures ActiveClamped()
    {
      SetSelected(Some(today));
      SetActiveDate(selected.value);
      SelectedValueChanged(selected.value);
    }
  }
}
