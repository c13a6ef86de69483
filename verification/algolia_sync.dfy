/** The triggers that keep the search indexes in step with the database. When
    an appointment or a user document changes, the trigger deletes the index
    record of a removed document, or saves a record built from the document
    with a few fields computed at indexing time; then it sets the index's
    filterable attributes. A trigger that throws writes nothing more: that is
    `None` here. Each index call's own failure is caught and logged, so the
    actions are the calls issued, whatever they return. */
module AlgoliaSync {
  import opened Optional
  import opened Model
  import opened Json

  /** The tag given to users with no verification. */
  const NotVetted := "not-vetted"

  // Timeslots and availability.

  /** A timeslot as the database stores it: two timestamps. */
  function StampSlot(t: Timeslot): Value {
    Obj(map["from" := Stamp(t.from), "to" := Stamp(t.to)])
  }

  /** A timeslot as the index stores it: two numbers of milliseconds. */
  function MillisSlot(t: Timeslot): Value {
    Obj(map["from" := Num(t.from), "to" := Num(t.to)])
  }

  /** `timeslot`: `{from: time.from.toMillis(), to: time.to.toMillis()}`;
      `None` when an end is not a timestamp and the call throws. */
  function Slot(v: Value): (r: Option<Value>)
    ensures r.Some? <==> v.Obj? && Get(v.fields, "from").Stamp? && Get(v.fields, "to").Stamp?
    ensures r.Some? ==>
              && r.value.Obj? && r.value.fields.Keys == {"from", "to"}
              && r.value.fields["from"] == Num(v.fields["from"].millis)
              && r.value.fields["to"] == Num(v.fields["to"].millis)
  {
    match v
    case Obj(fields) =>
      var from := Get(fields, "from");
      var to := Get(fields, "to");
      if from.Stamp? && to.Stamp? then Some(MillisSlot(Timeslot(from.millis, to.millis))) else None
    case _ => None
  }

  lemma SlotOfStamps(t: Timeslot)
    ensures Slot(StampSlot(t)) == Some(MillisSlot(t))
  {
    assert Get(StampSlot(t).fields, "from") == Stamp(t.from);
    assert Get(StampSlot(t).fields, "to") == Stamp(t.to);
  }

  /** `times.map(timeslot)` over the elements of an array. */
  function Slots(times: seq<Value>): (r: Option<seq<Value>>)
    ensures r.Some? <==> forall i :: 0 <= i < |times| ==> Slot(times[i]).Some?
    ensures r.Some? ==> |r.value| == |times|
    ensures r.Some? ==> forall i :: 0 <= i < |times| ==> Slot(times[i]) == Some(r.value[i])
    decreases |times|
  {
    if |times| == 0 then Some([])
    else
      match Slot(times[|times| - 1])
      case None => None
      case Some(last) =>
        match Slots(times[..|times| - 1])
        case None =>
          var i :| 0 <= i < |times| - 1 && Slot(times[..|times| - 1][i]).None?;
          assert Slot(times[i]).None?;
          None
        case Some(init) => Some(init + [last])
  }

  /** `availability`: the array mapped slot by slot; `None` when the value is
      not an array or a slot is malformed. */
  function Availability(v: Value): (r: Option<Value>)
    ensures r.Some? <==> v.Arr? && Slots(v.items).Some?
    ensures r.Some? ==> r.value.Arr? && |r.value.items| == |v.items|
    ensures r.Some? ==> forall i :: 0 <= i < |v.items| ==> Slot(v.items[i]) == Some(r.value.items[i])
  {
    match v
    case Arr(times) =>
      (match Slots(times)
       case None => None
       case Some(slots) => Some(Arr(slots)))
    case _ => None
  }

  function StampSlots(ts: seq<Timeslot>): Value {
    Arr(seq(|ts|, i requires 0 <= i < |ts| => StampSlot(ts[i])))
  }

  function MillisSlots(ts: seq<Timeslot>): Value {
    Arr(seq(|ts|, i requires 0 <= i < |ts| => MillisSlot(ts[i])))
  }

  /** A stored availability converts slot by slot, keeping its length and
      order, each end on its own. */
  lemma AvailabilityOfStamps(ts: seq<Timeslot>)
    ensures Availability(StampSlots(ts)) == Some(MillisSlots(ts))
  {
    var times := StampSlots(ts).items;
    forall i | 0 <= i < |ts|
      ensures Slot(times[i]) == Some(MillisSlot(ts[i]))
    {
      SlotOfStamps(ts[i]);
    }
    var r := Slots(times);
    assert r.Some?;
    assert r.value == MillisSlots(ts).items;
  }

  // Tags.

  /** `tags`: "not-vetted" when `(user.verifications || []).length` is
      falsy. */
  function Tags(user: Record): (tags: seq<string>)
    ensures tags == [NotVetted] || tags == []
    ensures tags == [] <==> Truthy(Get(user, "verifications")) && Truthy(Length(Get(user, "verifications")))
  {
    var v := Get(user, "verifications");
    var list := if Truthy(v) then v else Arr([]);
    if !Truthy(Length(list)) then [NotVetted] else []
  }

  /** For a stored array of verifications, a user is tagged exactly when the
      array is empty; a user without the field is always tagged. */
  lemma TagsOfVerifications(user: Record)
    ensures "verifications" !in user ==> Tags(user) == [NotVetted]
    ensures "verifications" in user && user["verifications"].Arr? ==>
              (Tags(user) == [NotVetted] <==> |user["verifications"].items| == 0)
  {
  }

  // Handles.

  /** The attendees' handles: `({handle}) => handle` over the array, `None`
      when an attendee is `undefined` or `null`. */
  function AttendeeHandles(attendees: seq<Value>): (r: Option<seq<Value>>)
    ensures r.Some? <==> forall i :: 0 <= i < |attendees| ==> Field(attendees[i], "handle").Some?
    ensures r.Some? ==> |r.value| == |attendees|
    ensures r.Some? ==> forall i :: 0 <= i < |attendees| ==> Field(attendees[i], "handle") == Some(r.value[i])
    decreases |attendees|
  {
    if |attendees| == 0 then Some([])
    else
      var init := attendees[..|attendees| - 1];
      match Field(attendees[|attendees| - 1], "handle")
      case None => None
      case Some(h) =>
        match AttendeeHandles(init)
        case None =>
          var i :| 0 <= i < |init| && Field(init[i], "handle").None?;
          assert Field(attendees[i], "handle").None?;
          None
        case Some(hs) => Some(hs + [h])
  }

  /** `handles`: the creator's handle, then every attendee's, in order. */
  function Handles(appt: Record): (r: Option<seq<Value>>)
    ensures r.Some? <==>
              && Field(Get(appt, "creator"), "handle").Some?
              && Get(appt, "attendees").Arr?
              && AttendeeHandles(Get(appt, "attendees").items).Some?
    ensures r.Some? ==>
              && |r.value| == 1 + |Get(appt, "attendees").items|
              && r.value[0] == Field(Get(appt, "creator"), "handle").value
              && forall i :: 0 <= i < |Get(appt, "attendees").items| ==>
                   r.value[i + 1] == Field(Get(appt, "attendees").items[i], "handle").value
  {
    match Field(Get(appt, "creator"), "handle")
    case None => None
    case Some(creator) =>
      match Get(appt, "attendees")
      case Arr(attendees) =>
        (match AttendeeHandles(attendees)
         case None => None
         case Some(hs) => Some([creator] + hs))
      case _ => None
  }

  // Filterable attributes.

  const FilterOnlyOpen := "filterOnly("
  const FilterOnlyClose := ")"

  /** `attributes.map((attr) => `filterOnly(${attr})`)`. */
  function FilterOnly(attributes: seq<string>): (r: seq<string>)
    ensures |r| == |attributes|
    ensures forall i :: 0 <= i < |r| ==> r[i] == FilterOnlyOpen + attributes[i] + FilterOnlyClose
  {
    seq(|attributes|, i requires 0 <= i < |attributes| => FilterOnlyOpen + attributes[i] + FilterOnlyClose)
  }

  /** Reads the attribute back out of a faceting setting. */
  function Unwrap(setting: string): (r: Option<string>)
    ensures r.Some? ==> setting == FilterOnlyOpen + r.value + FilterOnlyClose
  {
    if |setting| >= |FilterOnlyOpen| + |FilterOnlyClose|
       && setting[..|FilterOnlyOpen|] == FilterOnlyOpen
       && setting[|setting| - 1..] == FilterOnlyClose
    then
      var attr := setting[|FilterOnlyOpen|..|setting| - 1];
      assert setting == setting[..|FilterOnlyOpen|] + attr + setting[|setting| - 1..];
      Some(attr)
    else None
  }

  /** Every setting names its attribute and nothing else, so the settings are
      the attributes, in order, and distinct attributes stay distinct. */
  lemma FilterOnlyRoundTrip(attributes: seq<string>)
    ensures forall i :: 0 <= i < |attributes| ==> Unwrap(FilterOnly(attributes)[i]) == Some(attributes[i])
  {
    forall i | 0 <= i < |attributes|
      ensures Unwrap(FilterOnly(attributes)[i]) == Some(attributes[i])
    {
      var s := FilterOnly(attributes)[i];
      assert s[..|FilterOnlyOpen|] == FilterOnlyOpen;
      assert s[|s| - 1..] == FilterOnlyClose;
      assert s[|FilterOnlyOpen|..|s| - 1] == attributes[i];
    }
  }

  /** The attributes each index is filtered on. */
  const ApptFacets: seq<string> := ["handles", "orgs"]
  const UserFacets: seq<string> := [
    "orgs", "parents", "availability", "mentoring.subjects", "mentoring.searches",
    "tutoring.subjects", "tutoring.searches", "verifications.checks", "langs", "featured"]

  // The attendees' organisations.

  /** No value appears twice. */
  predicate NoDuplicates(xs: seq<Value>) {
    forall i, j :: 0 <= i < j < |xs| ==> xs[i] != xs[j]
  }

  /** `vs.forEach((o) => ids.add(o))` on a set kept in insertion order. */
  function AddAll(acc: seq<Value>, vs: seq<Value>): (r: seq<Value>)
    ensures NoDuplicates(acc) ==> NoDuplicates(r)
    ensures forall x :: x in r <==> x in acc || x in vs
    ensures |acc| <= |r| && r[..|acc|] == acc
    decreases |vs|
  {
    if |vs| == 0 then acc
    else
      var next := if vs[0] in acc then acc else acc + [vs[0]];
      assert forall x :: x in vs <==> x == vs[0] || x in vs[1..];
      var r := AddAll(next, vs[1..]);
      assert r[..|acc|] == r[..|next|][..|acc|];
      r
  }

  /** The organisations of an existing attendee document:
      `doc.data().orgs`, which must be an array. */
  function OrgsOf(doc: Record): Option<seq<Value>> {
    match Get(doc, "orgs")
    case Arr(orgs) => Some(orgs)
    case _ => None
  }

  /** The org lists of the existing attendees among `ids` are all readable. */
  predicate OrgsReadable(users: map<string, Record>, ids: seq<string>) {
    forall i :: 0 <= i < |ids| && ids[i] in users ==> OrgsOf(users[ids[i]]).Some?
  }

  /** `x` is an organisation of one of the existing attendees among `ids`. */
  predicate InSomeOrgs(users: map<string, Record>, ids: seq<string>, x: Value) {
    exists i :: 0 <= i < |ids| && ids[i] in users && OrgsOf(users[ids[i]]).Some? && x in OrgsOf(users[ids[i]]).value
  }

  /** The union of the attendees' organisations, the reads handled in the
      order `arrivals` gives; an attendee without a document is skipped. */
  function CollectOrgs(users: map<string, Record>, arrivals: seq<string>, acc: seq<Value>): (r: Option<seq<Value>>)
    ensures r.Some? <==> OrgsReadable(users, arrivals)
    ensures r.Some? && NoDuplicates(acc) ==> NoDuplicates(r.value)
    ensures r.Some? ==> forall x :: x in r.value <==> x in acc || InSomeOrgs(users, arrivals, x)
    decreases |arrivals|
  {
    if |arrivals| == 0 then Some(acc)
    else
      var id := arrivals[0];
      var rest := arrivals[1..];
      assert forall i :: 0 < i < |arrivals| ==> arrivals[i] == rest[i - 1];
      if id !in users then
        var r := CollectOrgs(users, rest, acc);
        assert OrgsReadable(users, arrivals) <==> OrgsReadable(users, rest);
        assert forall x :: InSomeOrgs(users, arrivals, x) ==> InSomeOrgs(users, rest, x);
        r
      else
        match OrgsOf(users[id])
        case None => None
        case Some(orgs) =>
          var r := CollectOrgs(users, rest, AddAll(acc, orgs));
          assert OrgsReadable(users, arrivals) <==> OrgsReadable(users, rest);
          assert forall x :: InSomeOrgs(users, arrivals, x) ==> x in orgs || InSomeOrgs(users, rest, x);
          r
  }

  /** The ids of the attendees: `({id}) => ...` over the array, each id a
      string; `None` where the destructuring or the document lookup throws. */
  function AttendeeIds(appt: Record): (r: Option<seq<string>>)
    ensures r.Some? <==>
              && Get(appt, "attendees").Arr?
              && forall i :: 0 <= i < |Get(appt, "attendees").items| ==>
                   Field(Get(appt, "attendees").items[i], "id").Some? && Field(Get(appt, "attendees").items[i], "id").value.Str?
    ensures r.Some? ==>
              && |r.value| == |Get(appt, "attendees").items|
              && forall i :: 0 <= i < |r.value| ==> Field(Get(appt, "attendees").items[i], "id") == Some(Str(r.value[i]))
  {
    match Get(appt, "attendees")
    case Arr(attendees) =>
      if forall i :: 0 <= i < |attendees| ==> attendees[i].Obj? && Get(attendees[i].fields, "id").Str?
      then Some(seq(|attendees|, i requires 0 <= i < |attendees| => Get(attendees[i].fields, "id").s))
      else None
    case _ => None
  }

  /** `orgs(appt)`: the union of the organisations of the attendees whose
      documents exist, each once. */
  function ApptOrgs(users: map<string, Record>, arrivals: seq<string>): (r: Option<seq<Value>>)
    ensures r.Some? <==> OrgsReadable(users, arrivals)
    ensures r.Some? ==> NoDuplicates(r.value)
    ensures r.Some? ==> forall x :: x in r.value <==> InSomeOrgs(users, arrivals, x)
  {
    CollectOrgs(users, arrivals, [])
  }

  /** The order in which the reads complete changes the order of the list
      but not its contents. */
  lemma {:induction false} ApptOrgsOrderFree(users: map<string, Record>, a: seq<string>, b: seq<string>)
    requires multiset(a) == multiset(b)
    ensures ApptOrgs(users, a).Some? <==> ApptOrgs(users, b).Some?
    ensures ApptOrgs(users, a).Some? ==> forall x :: x in ApptOrgs(users, a).value <==> x in ApptOrgs(users, b).value
  {
    assert forall id :: id in a <==> id in b by {
      forall id
        ensures id in a <==> id in b
      {
        assert id in a <==> id in multiset(a);
        assert id in b <==> id in multiset(b);
      }
    }
    assert OrgsReadable(users, a) <==> OrgsReadable(users, b) by {
      if OrgsReadable(users, a) {
        forall j | 0 <= j < |b| && b[j] in users
          ensures OrgsOf(users[b[j]]).Some?
        {
          assert b[j] in a;
          var i :| 0 <= i < |a| && a[i] == b[j];
        }
      }
      if OrgsReadable(users, b) {
        forall i | 0 <= i < |a| && a[i] in users
          ensures OrgsOf(users[a[i]]).Some?
        {
          assert a[i] in b;
          var j :| 0 <= j < |b| && b[j] == a[i];
        }
      }
    }
    forall x
      ensures InSomeOrgs(users, a, x) <==> InSomeOrgs(users, b, x)
    {
      if InSomeOrgs(users, a, x) {
        var i :| 0 <= i < |a| && a[i] in users && OrgsOf(users[a[i]]).Some? && x in OrgsOf(users[a[i]]).value;
        assert a[i] in b;
        var j :| 0 <= j < |b| && b[j] == a[i];
      }
      if InSomeOrgs(users, b, x) {
        var j :| 0 <= j < |b| && b[j] in users && OrgsOf(users[b[j]]).Some? && x in OrgsOf(users[b[j]]).value;
        assert b[j] in a;
        var i :| 0 <= i < |a| && a[i] == b[j];
      }
    }
  }

  // The triggers.

  /** What a trigger asks of the search service. */
  datatype IndexAction =
    | DeleteObject(index: string, objectID: string)
    | SaveObject(index: string, record: Record)
    | SetFaceting(index: string, attributes: seq<string>)

  function IndexName(a: IndexAction): string {
    match a
    case DeleteObject(index, _) => index
    case SaveObject(index, _) => index
    case SetFaceting(index, _) => index
  }

  function ApptsIndex(partition: string): string {
    partition + "-appts"
  }

  function UsersIndex(partition: string): string {
    partition + "-users"
  }

  /** The two indexes of any partitions never share a name, and a partition
      has one index of each kind. */
  lemma IndexNamesDistinct(p: string, q: string)
    ensures ApptsIndex(p) != UsersIndex(q)
    ensures ApptsIndex(p) == ApptsIndex(q) ==> p == q
    ensures UsersIndex(p) == UsersIndex(q) ==> p == q
  {
    var a := ApptsIndex(p);
    var u := UsersIndex(q);
    if |a| == |u| {
      assert a[|a| - 5] == 'a' && u[|u| - 5] == 'u';
    }
    if ApptsIndex(p) == ApptsIndex(q) {
      assert p == ApptsIndex(p)[..|p|];
    }
    if UsersIndex(p) == UsersIndex(q) {
      assert p == UsersIndex(p)[..|p|];
    }
  }

  /** The keys the appointment trigger computes over the stored document. */
  const ApptComputed: set<string> := {"time", "handles", "orgs", "objectID"}

  /** The index record of an appointment: the document, then `time` in
      milliseconds (or `undefined` when falsy), the handles, the attendees'
      organisations and the object id. */
  function ApptRecord(appt: Record, id: string, users: map<string, Record>, arrivals: seq<string>): (r: Option<Record>)
    ensures r.Some? <==>
              && (Truthy(Get(appt, "time")) ==> Slot(Get(appt, "time")).Some?)
              && Handles(appt).Some?
              && AttendeeIds(appt).Some?
              && OrgsReadable(users, arrivals)
    ensures r.Some? ==>
              && r.value.Keys == appt.Keys + ApptComputed
              && (forall k :: k in appt && k !in ApptComputed ==> r.value[k] == appt[k])
              && r.value["objectID"] == Str(id)
              && r.value["orgs"].Arr? && NoDuplicates(r.value["orgs"].items)
              && r.value["handles"].Arr? && Get(appt, "attendees").Arr?
              && |r.value["handles"].items| == 1 + |Get(appt, "attendees").items|
              && (!Truthy(Get(appt, "time")) ==> r.value["time"] == Undefined)
              && (Truthy(Get(appt, "time")) ==> r.value["time"] == Slot(Get(appt, "time")).value)
              && r.value["handles"] == Arr(Handles(appt).value)
              && r.value["orgs"] == Arr(ApptOrgs(users, arrivals).value)
  {
    var time := Get(appt, "time");
    var t := if Truthy(time) then Slot(time) else Some(Undefined);
    var hs := Handles(appt);
    var orgs := ApptOrgs(users, arrivals);
    if t.Some? && hs.Some? && AttendeeIds(appt).Some? && orgs.Some? then
      Some(WithApptFields(appt, t.value, hs.value, orgs.value, id))
    else None
  }

  /** The stored document spread, then the four computed keys. */
  function WithApptFields(appt: Record, time: Value, hs: seq<Value>, orgs: seq<Value>, id: string): (r: Record)
    ensures r.Keys == appt.Keys + ApptComputed
    ensures forall k :: k in appt && k !in ApptComputed ==> r[k] == appt[k]
    ensures r["time"] == time && r["handles"] == Arr(hs) && r["orgs"] == Arr(orgs) && r["objectID"] == Str(id)
  {
    appt["time" := time]["handles" := Arr(hs)]["orgs" := Arr(orgs)]["objectID" := Str(id)]
  }

  /** `apptUpdate`: delete the record of a removed appointment, or save the
      rebuilt one, then set the index's filterable attributes. `arrivals`
      holds the attendee ids in the order their documents were read. */
  function ApptUpdate(partition: string, id: string, after: Option<Record>,
                      users: map<string, Record>, arrivals: seq<string>): (r: Option<seq<IndexAction>>)
    requires after.Some? && AttendeeIds(after.value).Some? ==>
               multiset(arrivals) == multiset(AttendeeIds(after.value).value)
    ensures after.None? ==> r == Some([DeleteObject(ApptsIndex(partition), id),
                                       SetFaceting(ApptsIndex(partition), FilterOnly(ApptFacets))])
    ensures after.Some? ==> (r.Some? <==> ApptRecord(after.value, id, users, arrivals).Some?)
    ensures r.Some? ==>
              && |r.value| == 2
              && r.value[1] == SetFaceting(ApptsIndex(partition), FilterOnly(ApptFacets))
              && forall a :: a in r.value ==> IndexName(a) == ApptsIndex(partition)
    ensures r.Some? && after.Some? ==>
              && r.value[0] == SaveObject(ApptsIndex(partition), ApptRecord(after.value, id, users, arrivals).value)
              && "objectID" in r.value[0].record && r.value[0].record["objectID"] == Str(id)
  {
    var index := ApptsIndex(partition);
    var settings := SetFaceting(index, FilterOnly(ApptFacets));
    match after
    case None => Some([DeleteObject(index, id), settings])
    case Some(appt) =>
      match ApptRecord(appt, id, users, arrivals)
      case None => None
      case Some(ob) => Some([SaveObject(index, ob), settings])
  }

  /** The keys the user trigger computes over the stored document. */
  const UserComputed: set<string> := {"availability", "visible", "_tags", "objectID"}

  /** The index record of a user: the document, then availability in
      milliseconds, `visible` as a boolean, the tags and the object id. */
  function UserRecord(user: Record, uid: string): (r: Option<Record>)
    ensures r.Some? <==> Availability(Get(user, "availability")).Some?
    ensures r.Some? ==>
              && r.value.Keys == user.Keys + UserComputed
              && (forall k :: k in user && k !in UserComputed ==> r.value[k] == user[k])
              && r.value["availability"] == Availability(Get(user, "availability")).value
              && r.value["visible"] == Bool(Truthy(Get(user, "visible")))
              && r.value["_tags"] == Strings(Tags(user))
              && r.value["objectID"] == Str(uid)
  {
    match Availability(Get(user, "availability"))
    case None => None
    case Some(avail) =>
      Some(user["availability" := avail]["visible" := Bool(Truthy(Get(user, "visible")))]
               ["_tags" := Strings(Tags(user))]["objectID" := Str(uid)])
  }

  /** `userUpdate`: delete the record of a removed user, or save the rebuilt
      one, then set the index's filterable attributes. */
  function UserUpdate(partition: string, uid: string, after: Option<Record>): (r: Option<seq<IndexAction>>)
    ensures after.None? ==> r == Some([DeleteObject(UsersIndex(partition), uid),
                                       SetFaceting(UsersIndex(partition), FilterOnly(UserFacets))])
    ensures after.Some? ==> (r.Some? <==> Availability(Get(after.value, "availability")).Some?)
    ensures r.Some? ==>
              && |r.value| == 2
              && r.value[1] == SetFaceting(UsersIndex(partition), FilterOnly(UserFacets))
              && forall a :: a in r.value ==> IndexName(a) == UsersIndex(partition)
    ensures r.Some? && after.Some? ==>
              && r.value[0] == SaveObject(UsersIndex(partition), UserRecord(after.value, uid).value)
              && r.value[0].record.Keys == after.value.Keys + UserComputed
              && r.value[0].record["objectID"] == Str(uid)
              && r.value[0].record["visible"].Bool?
  {
    var index := UsersIndex(partition);
    var settings := SetFaceting(index, FilterOnly(UserFacets));
    match after
    case None => Some([DeleteObject(index, uid), settings])
    case Some(user) =>
      match UserRecord(user, uid)
      case None => None
      case Some(ob) => Some([SaveObject(index, ob), settings])
  }

  /** A user stored with timestamp availability is always indexed, and the
      record keeps the slots in milliseconds, in order. */
  lemma StoredUserIsIndexed(user: Record, uid: string, ts: seq<Timeslot>)
    requires Get(user, "availability") == StampSlots(ts)
    ensures UserRecord(user, uid).Some?
    ensures UserRecord(user, uid).value["availability"] == MillisSlots(ts)
  {
    AvailabilityOfStamps(ts);
  }
}
