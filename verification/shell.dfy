/**
 * The page that owns the calendar state (src/pages/Index.tsx): the reference date and
 * view, the loaded events, the editor's open flag and its selection (an event being
 * edited or a date that was clicked), navigation, and the save and delete flows.
 *
 * The store is not modelled: each flow takes the store's answer as a parameter and
 * returns, besides the next state, the requests it sent and the notifications it showed.
 */
module Shell {
  import opened Wrappers
  import opened CivilDate
  import opened LocalTime
  import opened Events
  import opened WeekView
  import opened EventEditor

  datatype View = Month | Week | Day

  datatype Page = Page(
    current: Date,
    view: View,
    events: seq<Event>,
    modalOpen: bool,
    selectedEvent: Option<Event>,
    selectedDate: Option<DateTime>)

  /** A request sent to the store. */
  datatype Request =
    | SelectAll
    | Insert(payload: Payload)
    | UpdateById(id: string, payload: Payload)
    | DeleteById(id: string)

  /** A notification; `destructive` is the error styling. */
  datatype Toast = Toast(title: string, description: string, destructive: bool)

  /** The store's answer to an insert, update or delete. */
  datatype StoreOutcome = Ok | Err(message: string)

  /** The store's answer to the event listing: rows (possibly `null`) or an error. */
  datatype FetchResult = Fetched(rows: Option<seq<Event>>) | FetchFailed(message: string)

  /** A state together with what reaching it sent to the store and showed to the user. */
  datatype Step = Step(page: Page, requests: seq<Request>, toasts: seq<Toast>)

  /** Nothing sent, nothing shown, nothing changed. */
  function Unchanged(s: Page): Step {
    Step(s, [], [])
  }

  /**
   * The selection invariant: never an event and a date at once, and the editor open
   * exactly when one of them is selected.
   */
  predicate Consistent(s: Page) {
    && !(s.selectedEvent.Some? && s.selectedDate.Some?)
    && (s.modalOpen <==> s.selectedEvent.Some? || s.selectedDate.Some?)
  }

  /** The state on first render, `today` being the clock's date. */
  function Initial(today: Date): (s: Page)
    ensures Consistent(s) && !s.modalOpen && s.current == today && s.view == Month && s.events == []
  {
    Page(today, Month, [], false, None, None)
  }

  /** `fetchEvents`: list the events; on error keep the old list and show the store's message. */
  function FetchEvents(s: Page, result: FetchResult): (r: Step)
    ensures r.requests == [SelectAll]
    ensures r.page.(events := s.events) == s
    ensures result.FetchFailed? ==>
      r.page == s && |r.toasts| == 1 && r.toasts[0].destructive && r.toasts[0].description == result.message
    ensures result.Fetched? ==> r.toasts == []
    ensures result.Fetched? && result.rows.Some? ==> r.page.events == result.rows.value
    ensures result.Fetched? && result.rows.None? ==> r.page.events == []
  {
    match result
    case FetchFailed(m) => Step(s, [SelectAll], [Toast("Error fetching events", m, true)])
    case Fetched(rows) => Step(s.(events := rows.GetOr([])), [SelectAll], [])
  }

  /** `if (eventData.id)`: a payload whose id is present and non-empty updates that row. */
  predicate IsUpdate(p: Payload)
    ensures IsUpdate(p) ==> p.id.Some?
    ensures p.id.Some? ==> (IsUpdate(p) <==> p.id.value != "")
  {
    p.id.Some? && p.id.value != ""
  }

  /**
   * `handleSaveEvent`: update or insert; on error show the store's message and stop; on
   * success confirm, re-list the events and clear the selection.
   */
  function HandleSaveEvent(s: Page, p: Payload, outcome: StoreOutcome, fetch: FetchResult): (r: Step)
    ensures |r.requests| >= 1 && |r.toasts| >= 1
    ensures r.requests[0].UpdateById? <==> p.id.Some? && p.id.value != ""
    ensures r.requests[0].UpdateById? ==> r.requests[0] == UpdateById(p.id.value, p)
    ensures !r.requests[0].UpdateById? ==> r.requests[0] == Insert(p)
    ensures outcome.Err? ==> r.page == s && |r.requests| == 1 && |r.toasts| == 1
    ensures outcome.Err? ==> r.toasts[0].destructive && r.toasts[0].description == outcome.message
    ensures outcome.Ok? ==> r.requests[1..] == [SelectAll] && !r.toasts[0].destructive
    ensures outcome.Ok? ==> r.page.selectedEvent.None? && r.page.selectedDate.None?
    ensures outcome.Ok? ==> r.page.current == s.current && r.page.view == s.view && r.page.modalOpen == s.modalOpen
    ensures outcome.Ok? ==> r.page.events == FetchEvents(s, fetch).page.events && r.toasts[1..] == FetchEvents(s, fetch).toasts
  {
    var update := IsUpdate(p);
    var request := if update then UpdateById(p.id.value, p) else Insert(p);
    match outcome
    case Err(m) =>
      Step(s, [request], [Toast(if update then "Error updating event" else "Error creating event", m, true)])
    case Ok =>
      var confirm :=
        if update then Toast("Event updated", "Your event has been updated successfully.", false)
        else Toast("Event created", "Your event has been created successfully.", false);
      var listed := FetchEvents(s, fetch);
      Step(listed.page.(selectedEvent := None, selectedDate := None), [request] + listed.requests, [confirm] + listed.toasts)
  }

  /**
   * `handleDeleteEvent`: without a selected event nothing happens; otherwise delete it;
   * on error show the store's message and keep the editor as it is; on success confirm,
   * re-list the events, close the editor and clear the selected event.
   */
  function HandleDeleteEvent(s: Page, outcome: StoreOutcome, fetch: FetchResult): (r: Step)
    ensures s.selectedEvent.None? ==> r == Unchanged(s)
    ensures s.selectedEvent.Some? ==> |r.requests| >= 1 && r.requests[0] == DeleteById(s.selectedEvent.value.id) && |r.toasts| >= 1
    ensures s.selectedEvent.Some? && outcome.Err? ==> r.page == s && |r.requests| == 1 && |r.toasts| == 1
    ensures s.selectedEvent.Some? && outcome.Err? ==> r.toasts[0].destructive && r.toasts[0].description == outcome.message
    ensures s.selectedEvent.Some? && outcome.Ok? ==> r.requests[1..] == [SelectAll] && !r.toasts[0].destructive
    ensures s.selectedEvent.Some? && outcome.Ok? ==>
      !r.page.modalOpen && r.page.selectedEvent.None? && r.page.selectedDate == s.selectedDate
    ensures s.selectedEvent.Some? && outcome.Ok? ==> r.page.current == s.current && r.page.view == s.view
    ensures s.selectedEvent.Some? && outcome.Ok? ==>
      r.page.events == FetchEvents(s, fetch).page.events && r.toasts[1..] == FetchEvents(s, fetch).toasts
  {
    match s.selectedEvent
    case None => Unchanged(s)
    case Some(e) =>
      match outcome
      case Err(m) => Step(s, [DeleteById(e.id)], [Toast("Error deleting event", m, true)])
      case Ok =>
        var listed := FetchEvents(s, fetch);
        Step(listed.page.(modalOpen := false, selectedEvent := None),
          [DeleteById(e.id)] + listed.requests,
          [Toast("Event deleted", "Your event has been deleted successfully.", false)] + listed.toasts)
  }

  /** `handleDateClick`: select the date, drop any selected event, open the editor. */
  function DateClick(s: Page, t: DateTime): (r: Page)
    ensures Consistent(r) && r.modalOpen && r.selectedDate == Some(t) && r.selectedEvent.None?
    ensures r.current == s.current && r.view == s.view && r.events == s.events
  {
    s.(selectedDate := Some(t), selectedEvent := None, modalOpen := true)
  }

  /** `handleEventClick`: select the event, drop any selected date, open the editor. */
  function EventClick(s: Page, e: Event): (r: Page)
    ensures Consistent(r) && r.modalOpen && r.selectedEvent == Some(e) && r.selectedDate.None?
    ensures r.current == s.current && r.view == s.view && r.events == s.events
  {
    s.(selectedEvent := Some(e), selectedDate := None, modalOpen := true)
  }

  /** The editor's `onClose`: close it and clear both selections. */
  function CloseModal(s: Page): (r: Page)
    ensures Consistent(r) && !r.modalOpen
    ensures r.current == s.current && r.view == s.view && r.events == s.events
  {
    s.(modalOpen := false, selectedEvent := None, selectedDate := None)
  }

  /** `handlePrevious`: one day, one week or one month back, by view. */
  function Previous(s: Page): (r: Page)
    ensures r.(current := s.current) == s
    ensures s.view == Day ==> r.current.dayNumber == s.current.dayNumber - 1
    ensures s.view == Week ==> r.current.dayNumber == s.current.dayNumber - 7 && Weekday(r.current) == Weekday(s.current)
    ensures s.view == Month ==> MonthIndex(ToCivil(r.current)) == MonthIndex(ToCivil(s.current)) - 1
    ensures s.view == Month ==> r.current == AddMonths(s.current, -1)
  {
    match s.view
    case Day => s.(current := AddDays(s.current, -1))
    case Week => s.(current := AddWeeks(s.current, -1))
    case Month => s.(current := AddMonths(s.current, -1))
  }

  /** `handleNext`: one day, one week or one month on, by view. */
  function Next(s: Page): (r: Page)
    ensures r.(current := s.current) == s
    ensures s.view == Day ==> r.current.dayNumber == s.current.dayNumber + 1
    ensures s.view == Week ==> r.current.dayNumber == s.current.dayNumber + 7 && Weekday(r.current) == Weekday(s.current)
    ensures s.view == Month ==> MonthIndex(ToCivil(r.current)) == MonthIndex(ToCivil(s.current)) + 1
    ensures s.view == Month ==> r.current == AddMonths(s.current, 1)
  {
    match s.view
    case Day => s.(current := AddDays(s.current, 1))
    case Week => s.(current := AddWeeks(s.current, 1))
    case Month => s.(current := AddMonths(s.current, 1))
  }

  /** In the day and week views, stepping forward and back returns to the same date. */
  lemma NextThenPrevious(s: Page)
    requires s.view != Month
    ensures Previous(Next(s)) == s
  {
    assert Previous(Next(s)).current.dayNumber == s.current.dayNumber;
  }

  /** In the week view, stepping forward moves every column one week on. */
  lemma NextShiftsWeekColumns(s: Page, i: int)
    requires s.view == Week && 0 <= i < 7
    ensures WeekColumns(Next(s).current)[i] == AddDays(WeekColumns(s.current)[i], 7)
  {
    var before := WeekColumns(s.current);
    var sunday := AddDays(before[0], 7);
    ShiftMod7(before[0].dayNumber + 4, 1);
    StartOfWeekUnique(Next(s).current, sunday);
  }

  /**
   * In the month view the round trip can fail: from 31 January 2024 the next month is
   * clamped to 29 February, and the month before that is 29 January.
   */
  lemma MonthRoundTripClamps(s: Page)
    requires s.view == Month && ToCivil(s.current) == Civil(2024, 1, 31)
    ensures ToCivil(Next(s).current) == Civil(2024, 2, 29)
    ensures ToCivil(Previous(Next(s)).current) == Civil(2024, 1, 29)
    ensures Previous(Next(s)) != s
  {
    assert MonthIndex(Civil(2024, 1, 31)) + 1 == 24289;
    assert 24289 / 12 == 2024 && 24289 % 12 == 1;
    assert DaysInMonth(2024, 2) == 29;
    var feb := AddMonths(s.current, 1);
    assert feb == FromCivil(Civil(2024, 2, 29));
    assert MonthIndex(Civil(2024, 2, 29)) - 1 == 24288;
    assert 24288 / 12 == 2024 && 24288 % 12 == 0;
    assert DaysInMonth(2024, 1) == 31;
    var jan := AddMonths(feb, -1);
    assert jan == FromCivil(Civil(2024, 1, 29));
  }

  /** The header's Today button, the clock's date being `today`. */
  function GoToday(s: Page, today: Date): (r: Page)
    ensures r.current == today && r.(current := s.current) == s
  {
    s.(current := today)
  }

  /** The view switcher: the reference date stays. */
  function ChangeView(s: Page, v: View): (r: Page)
    ensures r.view == v && r.(view := s.view) == s
  {
    s.(view := v)
  }

  /** The sidebar's mini calendar: a picked date becomes the reference date; an empty pick is ignored. */
  function SidebarSelect(s: Page, picked: Option<Date>): (r: Page)
    ensures picked.None? ==> r == s
    ensures picked.Some? ==> r.current == picked.value && r.(current := s.current) == s
  {
    match picked
    case Some(d) => s.(current := d)
    case None => s
  }

  /** `onDelete={selectedEvent ? handleDeleteEvent : undefined}`. */
  predicate DeleteHandlerPassed(s: Page)
    ensures DeleteHandlerPassed(s) <==> s.selectedEvent != None
  {
    s.selectedEvent.Some?
  }

  /** The delete button shows exactly when an event is being edited. */
  lemma DeleteShownIffEventSelected(s: Page)
    ensures ShowDelete(s.selectedEvent, DeleteHandlerPassed(s)) <==> s.selectedEvent.Some?
  {
  }

  /**
   * The editor's save button: with a complete form the dialog hands the payload to
   * `handleSaveEvent` and closes at once, so the store's answer arrives with the editor
   * already closed; with an incomplete form nothing happens.
   */
  function SubmitEditor(s: Page, form: Form, offset: int, outcome: StoreOutcome, fetch: FetchResult): (r: Step)
    ensures !CanSave(form) ==> r == Unchanged(s)
    ensures CanSave(form) ==> !r.page.modalOpen && r.page.selectedEvent.None? && r.page.selectedDate.None?
    ensures CanSave(form) ==> |r.requests| >= 1 && |r.toasts| >= 1
    ensures CanSave(form) ==>
      (r.requests[0].UpdateById? <==> s.selectedEvent.Some? && s.selectedEvent.value.id != "")
    ensures CanSave(form) ==> var p := MakePayload(form, s.selectedEvent, offset);
      r.requests[0] == if IsUpdate(p) then UpdateById(p.id.value, p) else Insert(p)
    ensures CanSave(form) ==> r.page.current == s.current && r.page.view == s.view
    ensures CanSave(form) && outcome.Err? ==> r.page.events == s.events
    ensures CanSave(form) && outcome.Err? ==> |r.requests| == 1 && |r.toasts| == 1
    ensures CanSave(form) && outcome.Err? ==> r.toasts[0].destructive && r.toasts[0].description == outcome.message
    ensures CanSave(form) && outcome.Ok? ==> r.page.events == FetchEvents(s, fetch).page.events
    ensures CanSave(form) && outcome.Ok? ==> r.requests[1..] == [SelectAll] && !r.toasts[0].destructive
    ensures CanSave(form) && outcome.Ok? ==> r.toasts[1..] == FetchEvents(s, fetch).toasts
  {
    var calls := HandleSave(form, s.selectedEvent, offset);
    if calls == [] then Unchanged(s)
    else HandleSaveEvent(CloseModal(s), calls[0].payload, outcome, fetch)
  }

  /** What the user (or the store, answering) can do to the page. */
  datatype Action =
    | ClickDate(date: DateTime)
    | ClickEvent(event: Event)
    | CloseEditor
    | SaveEditor(form: Form, saveOutcome: StoreOutcome, saveFetch: FetchResult)
    | DeleteInEditor(deleteOutcome: StoreOutcome, deleteFetch: FetchResult)
    | Back
    | Forward
    | Today(today: Date)
    | SwitchView(view: View)
    | PickInSidebar(picked: Option<Date>)
    | Reload(result: FetchResult)

  /** One action, each flow's store answers being part of the action. */
  function Apply(s: Page, a: Action, offset: int): (r: Step)
    ensures Consistent(s) ==> Consistent(r.page)
    ensures a.ClickDate? || a.ClickEvent? ==> r.page.modalOpen
    ensures a.CloseEditor? ==> !r.page.modalOpen
  {
    match a
    case ClickDate(t) => Unchanged(DateClick(s, t))
    case ClickEvent(e) => Unchanged(EventClick(s, e))
    case CloseEditor => Unchanged(CloseModal(s))
    case SaveEditor(form, outcome, fetch) => SubmitEditor(s, form, offset, outcome, fetch)
    case DeleteInEditor(outcome, fetch) => HandleDeleteEvent(s, outcome, fetch)
    case Back => Unchanged(Previous(s))
    case Forward => Unchanged(Next(s))
    case Today(today) => Unchanged(GoToday(s, today))
    case SwitchView(v) => Unchanged(ChangeView(s, v))
    case PickInSidebar(d) => Unchanged(SidebarSelect(s, d))
    case Reload(result) => FetchEvents(s, result)
  }

  /** The state after a run of actions. */
  function Run(s: Page, actions: seq<Action>, offset: int): Page
    decreases |actions|
  {
    if |actions| == 0 then s else Run(Apply(s, actions[0], offset).page, actions[1..], offset)
  }

  /**
   * Through any run of modelled actions from a consistent state, the selection is never an
   * event and a date at once, and the editor is open exactly when something is selected.
   */
  lemma {:induction false} RunKeepsConsistent(s: Page, actions: seq<Action>, offset: int)
    requires Consistent(s)
    ensures Consistent(Run(s, actions, offset))
    decreases |actions|
  {
    if |actions| != 0 {
      RunKeepsConsistent(Apply(s, actions[0], offset).page, actions[1..], offset);
    }
  }
}
