/**
 * The event editor dialog (src/components/EventModal.tsx): its five form fields, how they
 * are seeded from the event being edited or the date that was clicked, the guard that
 * keeps an incomplete form from being saved, and the payload a save hands to its caller.
 *
 * A `datetime-local` field holds either nothing (the empty string) or a wall-clock value
 * at minute granularity, so the start and end fields are `Option<DateTime>`.
 */
module EventEditor {
  import opened Wrappers
  import opened CivilDate
  import opened LocalTime
  import opened Events
  import opened DayView

  /** The six colour swatches, the first being the default colour. */
  const Palette: seq<string> := [DefaultColor, "#d50000", "#e67c73", "#33b679", "#f4511e", "#8e24aa"]

  datatype Form = Form(
    title: string,
    description: string,
    start: Option<DateTime>,
    end: Option<DateTime>,
    color: string)

  /** The fields before any seeding: the `useState` initial values. */
  const InitialForm := Form("", "", None, None, DefaultColor)

  /** A well-formed form holds a colour and valid wall-clock values. */
  predicate WellFormed(f: Form) {
    && f.color != ""
    && (f.start.Some? ==> f.start.value.Valid())
    && (f.end.Some? ==> f.end.value.Valid())
  }

  /**
   * With nothing selected the effect leaves the initial fields alone: a well-formed form
   * in the default colour that cannot be saved.
   */
  lemma InitialFormUnseeded(offset: int)
    ensures WellFormed(InitialForm) && InitialForm.color == DefaultColor && !CanSave(InitialForm)
    ensures Seed(InitialForm, None, None, offset) == InitialForm
  {
  }

  /**
   * The seeding effect, run with the event being edited and the date that was clicked:
   * an event fills the form from its fields, a date alone gives a one-hour slot from
   * 09:00 on that day, and with neither the form keeps whatever it held.
   */
  function Seed(form: Form, event: Option<Event>, selected: Option<DateTime>, offset: int): (r: Form)
    ensures WellFormed(form) ==> WellFormed(r)
    ensures event.Some? ==> var e := event.value;
      && r.title == e.title
      && (r.description == "" <==> !ShowsDescription(e))
      && (r.description != "" ==> e.description == Some(r.description))
      && r.start == Some(LocalStart(e, offset))
      && r.end == Some(ToLocal(e.endTime, offset))
      && r.color == DisplayColor(e)
    ensures event.None? && selected.Some? ==>
      && r.title == "" && r.description == "" && r.color == DefaultColor
      && r.start.Some? && r.start.value == DateTime(selected.value.date, 9, 0)
      && r.end.Some? && r.end.value == DateTime(selected.value.date, 10, 0)
    ensures event.None? && selected.None? ==> r == form
  {
    match event
    case Some(e) =>
      Form(e.title, e.description.GetOr(""), Some(LocalStart(e, offset)), Some(ToLocal(e.endTime, offset)), DisplayColor(e))
    case None =>
      match selected
      case Some(t) => Form("", "", Some(AtHour(t.date, 9)), Some(AtHour(t.date, 10)), DefaultColor)
      case None => form
  }

  /** A clicked date's hour and minute play no part in seeding: only its day is used. */
  lemma SeedIgnoresClickedTime(form: Form, a: DateTime, b: DateTime, offset: int)
    requires a.date == b.date
    ensures Seed(form, None, Some(a), offset) == Seed(form, None, Some(b), offset)
  {
  }

  /** Edit seeding gives an empty description field exactly when the day view hides the description. */
  lemma SeededDescriptionShownIff(form: Form, e: Event, selected: Option<DateTime>, offset: int)
    ensures Seed(form, Some(e), selected, offset).description != "" <==> ShowsDescription(e)
  {
  }

  /** An edit the user makes in the dialog. */
  datatype Edit =
    | TypeTitle(title: string)
    | TypeDescription(description: string)
    | PickStart(start: Option<DateTime>)
    | PickEnd(end: Option<DateTime>)
    | PickSwatch(swatch: int)

  /** `datetime-local` fields only ever hold valid values, and swatches are those of the palette. */
  predicate Allowed(edit: Edit) {
    match edit
    case PickStart(t) => t.Some? ==> t.value.Valid()
    case PickEnd(t) => t.Some? ==> t.value.Valid()
    case PickSwatch(i) => 0 <= i < |Palette|
    case _ => true
  }

  /** The `onChange` / `onClick` handlers: each edit sets its own field and nothing else. */
  function ApplyEdit(form: Form, edit: Edit): (r: Form)
    requires Allowed(edit)
    ensures WellFormed(form) ==> WellFormed(r)
    ensures edit.PickSwatch? ==> r.color == Palette[edit.swatch] && r.color in Palette
    ensures edit.TypeTitle? ==> r.title == edit.title
    ensures edit.TypeDescription? ==> r.description == edit.description
    ensures edit.PickStart? ==> r.start == edit.start
    ensures edit.PickEnd? ==> r.end == edit.end
    ensures edit.TypeTitle? ==> r.description == form.description && r.start == form.start && r.end == form.end && r.color == form.color
    ensures edit.TypeDescription? ==> r.title == form.title && r.start == form.start && r.end == form.end && r.color == form.color
    ensures edit.PickStart? ==> r.title == form.title && r.description == form.description && r.end == form.end && r.color == form.color
    ensures edit.PickEnd? ==> r.title == form.title && r.description == form.description && r.start == form.start && r.color == form.color
    ensures edit.PickSwatch? ==> r.title == form.title && r.description == form.description && r.start == form.start && r.end == form.end
  {
    match edit
    case TypeTitle(s) => form.(title := s)
    case TypeDescription(s) => form.(description := s)
    case PickStart(t) => form.(start := t)
    case PickEnd(t) => form.(end := t)
    case PickSwatch(i) => form.(color := Palette[i])
  }

  /**
   * The save guard, which is also the condition under which the save button is enabled:
   * `!title || !startTime || !endTime` blocks the save, an empty string being falsy.
   */
  predicate CanSave(f: Form)
    ensures !CanSave(f) <==> f.title == "" || f.start == None || f.end == None
  {
    f.title != "" && f.start.Some? && f.end.Some?
  }

  /** What `onSave` receives. */
  datatype Payload = Payload(
    id: Option<string>,
    title: string,
    description: Option<string>,
    startTime: Instant,
    endTime: Instant,
    color: string)

  /** The save payload: the edited event's id, a `null` for an empty description, and the wall-clock fields as instants. */
  function MakePayload(form: Form, event: Option<Event>, offset: int): (p: Payload)
    requires CanSave(form)
    ensures p.id.Some? <==> event.Some?
    ensures event.Some? ==> p.id == Some(event.value.id)
    ensures p.title == form.title && p.title != ""
    ensures p.description.None? <==> form.description == ""
    ensures p.description.Some? ==> p.description.value == form.description
    ensures p.startTime.millis % 60000 == 0 && p.endTime.millis % 60000 == 0
    ensures p.color == form.color
    ensures WellFormed(form) ==> p.color != ""
  {
    Payload(
      if event.Some? then Some(event.value.id) else None,
      form.title,
      if form.description == "" then None else Some(form.description),
      FromLocal(form.start.value, offset),
      FromLocal(form.end.value, offset),
      form.color)
  }

  /** The payload's instants read back, on the same wall clock, as the form's start and end. */
  lemma PayloadReadsBackForm(form: Form, event: Option<Event>, offset: int)
    requires WellFormed(form) && CanSave(form)
    ensures var p := MakePayload(form, event, offset);
      ToLocal(p.startTime, offset) == form.start.value && ToLocal(p.endTime, offset) == form.end.value
  {
    LocalRoundTrip(form.start.value, offset);
    LocalRoundTrip(form.end.value, offset);
  }

  /** A call the dialog makes to its owner. */
  datatype Call = OnSave(payload: Payload) | OnClose

  /** `handleSave`: nothing for an incomplete form, otherwise `onSave` then `onClose`. */
  function HandleSave(form: Form, event: Option<Event>, offset: int): (calls: seq<Call>)
    ensures calls == [] <==> !CanSave(form)
    ensures CanSave(form) ==> calls == [OnSave(MakePayload(form, event, offset)), OnClose]
  {
    if CanSave(form) then [OnSave(MakePayload(form, event, offset)), OnClose] else []
  }

  /** The event row the store holds once a payload has been saved under `id`. */
  function Stored(id: string, p: Payload): (e: Event)
    ensures e.id == id && e.title == p.title && e.description == p.description
    ensures e.startTime == p.startTime && e.endTime == p.endTime && e.color == Some(p.color)
  {
    Event(id, p.title, p.description, p.startTime, p.endTime, Some(p.color))
  }

  /** Editing a saved event seeds the form it was saved from: title, description, times and colour. */
  lemma {:induction false} SeedOfSavedPayload(form: Form, event: Option<Event>, id: string, before: Form, selected: Option<DateTime>, offset: int)
    requires WellFormed(form) && CanSave(form)
    ensures Seed(before, Some(Stored(id, MakePayload(form, event, offset))), selected, offset) == form
  {
    var p := MakePayload(form, event, offset);
    var e := Stored(id, p);
    var r := Seed(before, Some(e), selected, offset);
    PayloadReadsBackForm(form, event, offset);
    assert r.description == form.description;
    assert r.start == form.start;
    assert r.end == form.end;
  }

  /** Saving a freshly seeded event unchanged gives back its fields, its times cut to the minute. */
  lemma {:induction false} PayloadOfSeededEvent(e: Event, before: Form, selected: Option<DateTime>, offset: int)
    requires e.title != ""
    ensures var f := Seed(before, Some(e), selected, offset);
      && CanSave(f)
      && var p := MakePayload(f, Some(e), offset);
      && p.id == Some(e.id) && p.title == e.title
      && p.description == (if ShowsDescription(e) then e.description else None)
      && p.startTime == TruncateToMinute(e.startTime)
      && p.endTime == TruncateToMinute(e.endTime)
      && p.color == DisplayColor(e)
  {
    InstantRoundTrip(e.startTime, offset);
    InstantRoundTrip(e.endTime, offset);
  }

  /** `event && onDelete`: the delete button shows only when editing with a delete handler. */
  predicate ShowDelete(event: Option<Event>, hasDeleteHandler: bool)
    ensures ShowDelete(event, hasDeleteHandler) ==> event.Some?
    ensures event.Some? ==> (ShowDelete(event, hasDeleteHandler) <==> hasDeleteHandler)
  {
    event.Some? && hasDeleteHandler
  }

  /** The save button's label. */
  function ActionLabel(event: Option<Event>): (caption: string)
    ensures caption == "Update" <==> event.Some?
    ensures caption == "Create" <==> event.None?
  {
    if event.Some? then "Update" else "Create"
  }

  /** The dialog's title. */
  function DialogTitle(event: Option<Event>): (title: string)
    ensures title == "Edit Event" <==> event.Some?
    ensures title == "Create Event" <==> event.None?
  {
    if event.Some? then "Edit Event" else "Create Event"
  }

  /** The button reads "Update" exactly when the payload will carry the edited event's id. */
  lemma UpdateLabelIffPayloadHasId(form: Form, event: Option<Event>, offset: int)
    requires CanSave(form)
    ensures ActionLabel(event) == "Update" <==> MakePayload(form, event, offset).id.Some?
    ensures DialogTitle(event) == "Edit Event" <==> MakePayload(form, event, offset).id.Some?
  {
  }
}
