/** A row of the people table on an organisation's dashboard. Each control
    edits one field of the row's user and reports the edited copy, unless the
    new value equals the current one, in which case nothing is reported
    (`None`). */
module UserRow {
  import opened Optional
  import opened Text
  import opened Model
  import opened Json
  import AlgoliaSync

  // Edits that come from an input event.

  /** The fields edited through an input event: the visibility checkbox and
      the text fields. */
  datatype EventField = Visible | Name | Bio | Email | Phone

  /** A field's value as the strict equality check sees it. */
  datatype FieldValue = BoolValue(b: bool) | TextValue(s: string)

  /** What the input reports: its text and whether it is checked. */
  datatype InputEvent = InputEvent(value: string, checked: bool)

  /** `user[field]`. */
  function FieldOf(u: User, f: EventField): FieldValue {
    match f
    case Visible => BoolValue(u.visible)
    case Name => TextValue(u.name)
    case Bio => TextValue(u.bio)
    case Email => TextValue(u.email)
    case Phone => TextValue(u.phone)
  }

  /** The value the event carries for a field: the checkbox's state for
      `visible`, the text for every other field. */
  function EventValue(f: EventField, ev: InputEvent): (v: FieldValue)
    ensures f == Visible <==> v.BoolValue?
  {
    if f == Visible then BoolValue(ev.checked) else TextValue(ev.value)
  }

  /** `{ ...user, [field]: value }` for a value of the field's kind. */
  function WithField(u: User, f: EventField, v: FieldValue): User
    requires f == Visible <==> v.BoolValue?
  {
    match f
    case Visible => u.(visible := v.b)
    case Name => u.(name := v.s)
    case Bio => u.(bio := v.s)
    case Email => u.(email := v.s)
    case Phone => u.(phone := v.s)
  }

  /** `onEventChange`: nothing when the event's value is the field's current
      value; otherwise a copy in which that field, and no other, holds it. */
  function OnEventChange(u: User, f: EventField, ev: InputEvent): (r: Option<User>)
    ensures r.None? <==> EventValue(f, ev) == FieldOf(u, f)
    ensures r.Some? ==> FieldOf(r.value, f) == EventValue(f, ev)
    ensures r.Some? ==> forall g :: g != f ==> FieldOf(r.value, g) == FieldOf(u, g)
    ensures r.Some? ==>
              r.value.(visible := u.visible, name := u.name, bio := u.bio, email := u.email, phone := u.phone) == u
  {
    var v := EventValue(f, ev);
    if v == FieldOf(u, f) then None else Some(WithField(u, f, v))
  }

  /** Reporting the same event again on the reported copy reports nothing. */
  lemma OnEventChangeSettles(u: User, f: EventField, ev: InputEvent)
    requires OnEventChange(u, f, ev).Some?
    ensures OnEventChange(OnEventChange(u, f, ev).value, f, ev).None?
  {
  }

  // Edits that come with a value.

  /** The fields edited with a structured value. */
  datatype ValueEdit = ParentsEdit(parents: seq<string>) | AvailabilityEdit(availability: seq<Timeslot>)

  /** The edit holds the field's current value (the deep equality check). */
  predicate Unchanged(u: User, e: ValueEdit) {
    match e
    case ParentsEdit(parents) => parents == u.parents
    case AvailabilityEdit(availability) => availability == u.availability
  }

  /** `onValueChange`: nothing for a value equal to the current one;
      otherwise a copy in which only that field is replaced. */
  function OnValueChange(u: User, e: ValueEdit): (r: Option<User>)
    ensures r.None? <==> Unchanged(u, e)
    ensures r.Some? ==> Unchanged(r.value, e)
    ensures r.Some? ==> r.value.(parents := u.parents, availability := u.availability) == u
    ensures r.Some? && e.ParentsEdit? ==> r.value.availability == u.availability
    ensures r.Some? && e.AvailabilityEdit? ==> r.value.parents == u.parents
  {
    if Unchanged(u, e) then None
    else
      match e
      case ParentsEdit(parents) => Some(u.(parents := parents))
      case AvailabilityEdit(availability) => Some(u.(availability := availability))
  }

  /** `{ ...user, [aspect]: info }`. */
  function WithAspect(u: User, a: Aspect, info: AspectInfo): User {
    match a
    case Mentoring => u.(mentoring := info)
    case Tutoring => u.(tutoring := info)
  }

  /** `onSubjectsChange`: nothing for the current subjects; otherwise a copy
      in which only the subjects of that aspect are replaced. */
  function OnSubjectsChange(u: User, subjects: seq<string>, a: Aspect): (r: Option<User>)
    ensures r.None? <==> subjects == AspectOf(u, a).subjects
    ensures r.Some? ==> AspectOf(r.value, a).subjects == subjects
    ensures r.Some? ==> AspectOf(r.value, a).searches == AspectOf(u, a).searches
    ensures r.Some? ==> forall b :: b != a ==> AspectOf(r.value, b) == AspectOf(u, b)
    ensures r.Some? ==> r.value.(mentoring := u.mentoring, tutoring := u.tutoring) == u
  {
    var info := AspectOf(u, a);
    if subjects == info.subjects then None
    else Some(WithAspect(u, a, info.(subjects := subjects)))
  }

  // What the row shows.

  /** Only a user not yet saved, whose id is a temporary one, has an editable
      email. */
  predicate EmailEditable(u: User) {
    StartsWith(u.id, "temp")
  }

  lemma EmailEditableIff(u: User)
    ensures EmailEditable(u) <==> exists rest :: u.id == "temp" + rest
  {
    if EmailEditable(u) {
      assert u.id == "temp" + u.id[4..];
    }
  }

  /** The vetted box is checked for a user with at least one verification. */
  predicate Vetted(u: User) {
    |u.verifications| > 0
  }

  /** The box agrees with the index: a user whose stored document holds its
      verifications is vetted exactly when the index leaves it untagged. */
  lemma VettedAgreesWithTags(u: User, doc: Record)
    requires "verifications" in doc && doc["verifications"].Arr?
    requires |doc["verifications"].items| == |u.verifications|
    ensures Vetted(u) <==> AlgoliaSync.Tags(doc) == []
  {
    AlgoliaSync.TagsOfVerifications(doc);
  }
}
