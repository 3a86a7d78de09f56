/**
 * The contact records the membership API returns, as far as the archival
 * script reads them: the `FieldValues` of a contact, the last-login key the
 * candidates are sorted by, and the event registrations that keep a contact
 * off the candidate list.
 */
module Records {
  import opened Wrappers

  /** An instant, in seconds counted from Python's `datetime.min` in UTC, so every instant is a nat. */
  type Timestamp = nat

  type ContactId = nat

  /** The key of a contact with no recorded login: `datetime.min` in UTC. */
  const NoLogin: Timestamp := 0

  const IsArchivedCode := "IsArchived"
  const NotesCode := "Notes"
  const LastLoginDateCode := "LastLoginDate"

  /**
   * The JSON value a field holds. `Stamp` is used only for the value of a
   * `LastLoginDate` field that holds a date-time string, the one field value
   * the script parses, and stands for the instant it parses to. Every other
   * string, in any field (notes included, whatever their text), is `Text`;
   * a `Text` value in a `LastLoginDate` field is one dateutil cannot parse.
   */
  datatype Value = Null | Flag(b: bool) | Text(s: string) | Stamp(t: Timestamp)

  /** Python's truthiness of a JSON value. */
  predicate Truthy(v: Value) {
    match v
    case Null => false
    case Flag(b) => b
    case Text(s) => s != ""
    case Stamp(_) => true
  }

  /** One entry of a contact's `FieldValues` list. */
  datatype Field = Field(name: string, code: string, value: Value)

  /** A contact; a record without `FieldValues` has `fields == []`. */
  datatype Contact = Contact(id: ContactId, fields: seq<Field>)

  /** A field the last-login lookup stops at: a `LastLoginDate` field with a non-empty value. */
  predicate GivesLogin(f: Field) {
    f.code == LastLoginDateCode && Truthy(f.value)
  }

  /** The loop of `get_last_login_date`: the value of the first field that gives a login, if any. */
  function FirstLogin(fields: seq<Field>): Option<Value> {
    if fields == [] then None
    else if GivesLogin(fields[0]) then Some(fields[0].value)
    else FirstLogin(fields[1..])
  }

  lemma {:induction false} FirstLoginAbsent(fields: seq<Field>)
    ensures FirstLogin(fields).None? <==> forall i :: 0 <= i < |fields| ==> !GivesLogin(fields[i])
  {
    if fields != [] {
      FirstLoginAbsent(fields[1..]);
      assert forall i :: 1 <= i < |fields| ==> fields[i] == fields[1..][i - 1];
    }
  }

  lemma {:induction false} FirstLoginAt(fields: seq<Field>, i: nat)
    requires i < |fields| && GivesLogin(fields[i])
    requires forall j :: 0 <= j < i ==> !GivesLogin(fields[j])
    ensures FirstLogin(fields) == Some(fields[i].value)
  {
    if i > 0 {
      FirstLoginAt(fields[1..], i - 1);
    }
  }

  /** dateutil can parse the login value `get_last_login_date` stops at (it raises otherwise). */
  predicate LoginParses(fields: seq<Field>) {
    match FirstLogin(fields)
    case None => true
    case Some(v) => v.Stamp?
  }

  /** A contact the sort key can be computed for. */
  type SortableContact = c: Contact | LoginParses(c.fields) witness Contact(0, [])

  /** `get_last_login_date`: the first non-empty `LastLoginDate`, or the `datetime.min` sentinel. */
  function LastLoginKey(fields: seq<Field>): Timestamp
    requires LoginParses(fields)
  {
    match FirstLogin(fields)
    case None => NoLogin
    case Some(v) => v.t
  }

  lemma LastLoginKeyFirst(fields: seq<Field>, i: nat)
    requires i < |fields| && GivesLogin(fields[i])
    requires forall j :: 0 <= j < i ==> !GivesLogin(fields[j])
    ensures LoginParses(fields) <==> fields[i].value.Stamp?
    ensures LoginParses(fields) ==> LastLoginKey(fields) == fields[i].value.t
  {
    FirstLoginAt(fields, i);
  }

  lemma LastLoginKeyAbsent(fields: seq<Field>)
    requires forall i :: 0 <= i < |fields| ==> !GivesLogin(fields[i])
    ensures LoginParses(fields) && LastLoginKey(fields) == NoLogin
  {
    FirstLoginAbsent(fields);
  }

  /** An event registration; `eventStart` is `None` when the event or its `StartDate` is missing or empty. */
  datatype Registration = Registration(eventStart: Option<Timestamp>)

  predicate StartsAfter(r: Registration, now: Timestamp) {
    r.eventStart.Some? && r.eventStart.value > now
  }

  /** The loop of `has_upcoming_event_registrations`: true at the first registration whose event starts after `now`. */
  function AnyUpcoming(registrations: seq<Registration>, now: Timestamp): (r: bool)
    ensures r <==> exists i :: 0 <= i < |registrations| && StartsAfter(registrations[i], now)
  {
    if registrations == [] then false
    else if StartsAfter(registrations[0], now) then true
    else
      var rest := AnyUpcoming(registrations[1..], now);
      assert forall i :: 1 <= i < |registrations| ==> registrations[i] == registrations[1..][i - 1];
      rest
  }

  /**
   * `has_upcoming_event_registrations` on the result of the registrations
   * lookup: a failed lookup (`None`) counts as no upcoming event.
   */
  function HasUpcomingEventRegistrations(lookup: Option<seq<Registration>>, now: Timestamp): (r: bool)
    ensures r <==> lookup.Some? && exists i :: 0 <= i < |lookup.value| && StartsAfter(lookup.value[i], now)
  {
    lookup.Some? && AnyUpcoming(lookup.value, now)
  }
}
