/** The records a project holds (schedules, staff members, actors), the values a
    submitted form yields, the free-text search the three list views apply, and
    the rule that decides which image a saved actor keeps. A field the user left
    blank, or that an older record lacks, is the empty string. */
module Records {
  import opened Lists
  import opened Text

  datatype Schedule = Schedule(
    id: string, title: string, date: string, time: string, location: string, description: string)

  datatype Staff = Staff(id: string, name: string, role: string, contact: string, email: string)

  /** `image` is a data URL, or "" when the actor has none. */
  datatype Actor = Actor(
    id: string, name: string, role: string, contact: string, email: string, image: string)

  /** The values read from the schedule form. */
  datatype ScheduleForm = ScheduleForm(
    title: string, date: string, time: string, location: string, description: string)

  /** The values read from the staff form or the actor form. */
  datatype PersonForm = PersonForm(name: string, role: string, contact: string, email: string)

  function ScheduleId(s: Schedule): string { s.id }
  function StaffId(s: Staff): string { s.id }
  function ActorId(a: Actor): string { a.id }

  /** `formId || freshId`: the hidden id field when editing, the new id otherwise. */
  function RecordId(formId: string, freshId: string): string
  {
    if formId != "" then formId else freshId
  }

  function NewSchedule(formId: string, freshId: string, f: ScheduleForm): Schedule
  {
    Schedule(RecordId(formId, freshId), f.title, f.date, f.time, f.location, f.description)
  }

  function NewStaff(formId: string, freshId: string, f: PersonForm): Staff
  {
    Staff(RecordId(formId, freshId), f.name, f.role, f.contact, f.email)
  }

  function NewActor(formId: string, freshId: string, f: PersonForm, image: string): Actor
  {
    Actor(RecordId(formId, freshId), f.name, f.role, f.contact, f.email, image)
  }

  // ---------------------------------------------------------------- search

  /** `.filter(Boolean)` on a list of strings: drops the empty ones. */
  function NonEmpty(f: string): bool { f != "" }

  /** `[fields].filter(Boolean).join(' ')`. */
  function JoinFields(fields: seq<string>): string
  {
    Join(Filter(fields, NonEmpty), " ")
  }

  /** The fields a schedule is searched on, in the order they are joined. */
  function ScheduleFields(s: Schedule): seq<string>
  {
    [s.title, s.location, s.description, s.date, s.time]
  }

  function StaffFields(s: Staff): seq<string>
  {
    [s.name, s.role, s.contact, s.email]
  }

  function ActorFields(a: Actor): seq<string>
  {
    [a.name, a.role, a.contact, a.email]
  }

  function ScheduleText(s: Schedule): string { JoinFields(ScheduleFields(s)) }
  function StaffText(s: Staff): string { JoinFields(StaffFields(s)) }
  function ActorText(a: Actor): string { JoinFields(ActorFields(a)) }

  /** A record is kept when its lower-cased search text includes the query.
      The query itself arrives trimmed and lower-cased from the search box. */
  predicate Matches(text: string, query: string)
  {
    Contains(Lower(text), query)
  }

  /** The filter of a list view: an empty query keeps everything, any other query
      keeps exactly the matching records, in their stored order. */
  function Search<T>(records: seq<T>, text: T -> string, query: string): (r: seq<T>)
    ensures query == "" ==> r == records
    ensures forall x | x in r :: x in records && Matches(text(x), query)
    ensures forall x | x in records && Matches(text(x), query) :: x in r
    ensures forall x | x in records ::
      multiset(r)[x] == if Matches(text(x), query) then multiset(records)[x] else 0
    ensures IsSubsequence(r, records)
  {
    if query == "" then
      IsSubsequenceOfItself(records);
      assert forall x | x in records :: Matches(text(x), query) by {
        forall x | x in records ensures Matches(text(x), query) {
          ContainsEmpty(Lower(text(x)));
        }
      }
      records
    else
      FilterIsSubsequence(records, x => Matches(text(x), query));
      Filter(records, x => Matches(text(x), query))
  }

  lemma {:induction false} IsSubsequenceOfItself<T>(s: seq<T>)
    ensures IsSubsequence(s, s)
  {
    if s != [] {
      IsSubsequenceOfItself(s[1..]);
    }
  }

  /** The `if (query)` guard in front of the filter changes nothing: filtering with
      the empty query would have kept every record as well. */
  lemma EmptyQueryKeepsAll<T>(records: seq<T>, text: T -> string)
    ensures Filter(records, x => Matches(text(x), "")) == records
  {
    forall x | x in records ensures Matches(text(x), "") {
      ContainsEmpty(Lower(text(x)));
    }
    FilterKeepsAll(records, x => Matches(text(x), ""));
  }

  /** A non-empty query found in any one field of a record makes the record match. */
  lemma FieldMatch(fields: seq<string>, k: nat, query: string)
    requires k < |fields|
    requires query != ""
    requires Contains(Lower(fields[k]), query)
    ensures Matches(JoinFields(fields), query)
  {
    var kept := Filter(fields, NonEmpty);
    assert fields[k] in kept;
    var j :| 0 <= j < |kept| && kept[j] == fields[k];
    JoinContainsPart(kept, " ", j, query);
  }

  /** A non-empty query never matches a record whose fields are all blank. */
  lemma BlankRecordNeverMatches(fields: seq<string>, query: string)
    requires forall k :: 0 <= k < |fields| ==> fields[k] == ""
    requires query != ""
    ensures !Matches(JoinFields(fields), query)
  {
    assert Filter(fields, NonEmpty) == [];
  }

  function SearchSchedules(records: seq<Schedule>, query: string): seq<Schedule>
  {
    Search(records, ScheduleText, query)
  }

  function SearchStaff(records: seq<Staff>, query: string): seq<Staff>
  {
    Search(records, StaffText, query)
  }

  function SearchActors(records: seq<Actor>, query: string): seq<Actor>
  {
    Search(records, ActorText, query)
  }

  /** A schedule whose title, location, description, date or time contains a
      non-empty query is in the list view's result. */
  lemma ScheduleFieldHit(records: seq<Schedule>, s: Schedule, k: nat, query: string)
    requires s in records && k < 5 && query != ""
    requires Contains(Lower(ScheduleFields(s)[k]), query)
    ensures s in SearchSchedules(records, query)
  {
    FieldMatch(ScheduleFields(s), k, query);
  }

  /** A staff member whose name, role, contact or email contains a non-empty
      query is in the list view's result. */
  lemma StaffFieldHit(records: seq<Staff>, s: Staff, k: nat, query: string)
    requires s in records && k < 4 && query != ""
    requires Contains(Lower(StaffFields(s)[k]), query)
    ensures s in SearchStaff(records, query)
  {
    FieldMatch(StaffFields(s), k, query);
  }

  /** An actor whose name, role, contact or email contains a non-empty query is
      in the list view's result. */
  lemma ActorFieldHit(records: seq<Actor>, a: Actor, k: nat, query: string)
    requires a in records && k < 4 && query != ""
    requires Contains(Lower(ActorFields(a)[k]), query)
    ensures a in SearchActors(records, query)
  {
    FieldMatch(ActorFields(a), k, query);
  }

  // ---------------------------------------------------------------- actor image

  /** The argument createOrUpdateActor is called with: the data URL read from the
      chosen file, or, with no file chosen, the existing actor's image or "". */
  function ImageArgument(upload: Option<string>, existing: Option<Actor>): string
  {
    match upload
    case Some(data) => data
    case None => if existing.Some? && existing.value.image != "" then existing.value.image else ""
  }

  /** `imageData || (existingActor && existingActor.image) || ''`. */
  function StoredImage(imageData: string, existing: Option<Actor>): (image: string)
    ensures imageData != "" ==> image == imageData
    ensures imageData == "" && existing.Some? ==> image == existing.value.image
    ensures imageData == "" && existing.None? ==> image == ""
  {
    if imageData != "" then imageData
    else if existing.Some? && existing.value.image != "" then existing.value.image
    else ""
  }

  /** Whichever path the submission takes, the saved image is the uploaded one when
      there is one, else the existing actor's, else "". */
  lemma ImagePrecedence(upload: Option<string>, existing: Option<Actor>)
    ensures StoredImage(ImageArgument(upload, existing), existing) ==
      if upload.Some? && upload.value != "" then upload.value
      else if existing.Some? then existing.value.image
      else ""
  {
  }

  /** The actor createOrUpdateActor saves, for the actor list it runs against. */
  function SubmittedActor(actors: seq<Actor>, formId: string, freshId: string, f: PersonForm,
                          upload: Option<string>): Actor
  {
    var existing := if formId != "" then FindById(actors, ActorId, formId) else None;
    NewActor(formId, freshId, f, StoredImage(ImageArgument(upload, existing), existing))
  }

  /** Editing an actor without choosing a new file keeps the image stored at the
      edited position: find and findIndex pick the same actor. */
  lemma {:induction false} EditWithoutUploadKeepsImage(actors: seq<Actor>, formId: string,
                                                       freshId: string, f: PersonForm)
    requires formId != ""
    requires IndexOfId(actors, ActorId, formId) != -1
    ensures var i := IndexOfId(actors, ActorId, formId);
      ReplaceById(actors, ActorId, formId, SubmittedActor(actors, formId, freshId, f, None))[i].image
        == actors[i].image
  {
    FindAgreesWithIndex(actors, ActorId, formId);
  }

  /** Editing an actor with a new file stores the new image. */
  lemma UploadReplacesImage(actors: seq<Actor>, formId: string, freshId: string, f: PersonForm,
                            data: string)
    requires data != ""
    ensures SubmittedActor(actors, formId, freshId, f, Some(data)).image == data
  {
  }
}
