# Contact archival policy: a Dafny model

This project models the decision logic of a script that keeps the number of
active contacts of a membership account (Wild Apricot) under its plan quota.
Each run does four things:

- It counts the active contacts. If there are at most 190, it stops.
- It computes how many contacts must go (`current - 190`).
- It checks that members, contacts with a balance and contacts with future
  event registrations, plus a buffer of 10, still fit under 190.
- It archives the lowest-priority contacts in order until the quota is met.

A contact's priority comes from its last login: the oldest login goes first,
and a contact that never logged in goes before everyone else. Contacts
registered for an upcoming event are never archived, unless their
registration lookup fails, which counts as having no registration.
Archiving a contact sets its `IsArchived` field to true and appends an
audit line to its `Notes`.

Every HTTP call is replaced by its result, passed in as a parameter:

- each count is a `nat`;
- the contacts response is an `Option` of a sequence of contacts;
- the registration lookups are a map from contact id to registrations, where
  a missing id means the lookup failed;
- the current time is one `Timestamp`.

Modules:

- `Wrappers` holds `Option`.
- `Records` holds field values, contacts, the last-login key (`get_last_login_date`)
  and the upcoming-registration check (`has_upcoming_event_registrations`).
- `Sorting` holds a stable sort by a natural-number key: its reference
  definition, its properties and an in-place array version. It also holds an
  order-keeping filter and the lemma that filtering commutes with the sort.
- `Selection` holds `return_archival_candidates`: the contacts array is
  sorted in place, then a loop collects the ids of the contacts without an
  upcoming event.
- `Archiver` holds the in-place loop over `FieldValues` from `set_contact_to_archived`.
- `RunController` holds the top-level quota and margin policy and the archive
  loop with its counter.

Modelling choices:

- Instants are natural numbers counted from Python's `datetime.min` in UTC.
  The "no login" sentinel is therefore 0, the smallest key.
- `Value.Stamp` is used only for the value of a `LastLoginDate` field that
  holds a date-time string, the one field value the script parses; it stands
  for the instant the string parses to. Every other string, in any field
  (notes included, whatever their text), is `Value.Text`. A `Text` value in
  a `LastLoginDate` field is one that dateutil cannot parse. Event start
  times are instants (or absent) in `Records.Registration`.
- Python's `list.sort` is modelled by an in-place insertion sort. That sort
  is proved equal to the reference `StableSort`. `Sorting.StableSortUnique`
  shows that any stable sort gives the same result, so the choice of
  algorithm does not change what the model says.

The capacity check aborts only when `190 - minimum - 10 < 0`
(archival_script.py:329-331), where the minimum is members plus contacts
with a balance plus contacts with a future registration. The buffer of 10
is part of that comparison, and a minimum of exactly 180 does not abort: the
run goes on with a margin of 0.

## Model

| member | source | states |
|---|---|---|
| `Records.FirstLoginAt` | archival_script.py:288-296 | the login lookup returns the value of the first `LastLoginDate` field with a non-empty value, whatever later fields hold |
| `Records.FirstLoginAbsent` | archival_script.py:288-297 | the lookup finds nothing exactly when no `LastLoginDate` field has a non-empty value |
| `Records.LastLoginKeyFirst` | archival_script.py:286-296 | the key is the instant of the first non-empty `LastLoginDate`; it can be computed exactly when that value is a date |
| `Records.LastLoginKeyAbsent` | archival_script.py:297 | with no non-empty `LastLoginDate`, the key is the `datetime.min` sentinel |
| `Records.AnyUpcoming` | archival_script.py:276-284 | true exactly when some registration's event has a start time strictly after `now`; registrations without a start time never count |
| `Records.HasUpcomingEventRegistrations` | archival_script.py:256-284 | a failed lookup gives false; otherwise true exactly when some registered event starts after `now` |
| `Sorting.InsertPermutes` | archival_script.py:231 | inserting adds exactly the inserted element |
| `Sorting.StableSortPermutes` | archival_script.py:231 | sorting is a permutation of the contacts |
| `Sorting.StableSortSorted` | archival_script.py:231 | the sorted contacts are in non-decreasing key order |
| `Sorting.StableSortKeepsTies` | archival_script.py:231 | for every key, the contacts with that key keep their input order (stability) |
| `Sorting.StableSortUnique` | archival_script.py:231 | any sorted arrangement that keeps ties in input order is the reference sort, so the result does not depend on the algorithm |
| `Sorting.SortInPlace` | archival_script.py:231 | sorting the array in place leaves it holding the stable sort of its old contents |
| `Sorting.FilterCommutesWithSort` | archival_script.py:231-240 | keeping the eligible contacts after the sort gives the same list as sorting the eligible contacts |
| `Sorting.Filter` | archival_script.py:236-240 | an element is in the filtered list exactly when it is in the input and satisfies the predicate, so every eligible contact of the response becomes a candidate |
| `Selection.CandidatesCharacterised` | archival_script.py:229-240 | the candidates are exactly the eligible contacts, each as often as in the response, in non-decreasing last-login order, with ties in response order |
| `Selection.CandidatesHaveNoUpcomingEvent` | archival_script.py:236-240 | no registration of a candidate is for an event starting after `now` |
| `Selection.NoLoginSortsFirst` | archival_script.py:231 | in the sorted order a contact with no login comes before every contact with a real login |
| `Selection.CollectEligibleIds` | archival_script.py:234-240 | the loop returns the ids of the contacts with no upcoming event, in array order |
| `Selection.ReturnArchivalCandidates` | archival_script.py:215-246 | no contacts response gives `None`; otherwise the result is the id list of the eligible contacts in stable last-login order |
| `Archiver.ArchiveField` | archival_script.py:89-96 | an `IsArchived` field becomes true, a `Notes` field gets the note appended, and any other field is unchanged; name and code are never changed |
| `Archiver.ArchiveFields` | archival_script.py:89-96 | the list keeps its length and order, and each field is updated as `ArchiveField` says |
| `Archiver.MarkArchived` | archival_script.py:89-96 | the in-place loop leaves the array equal to `ArchiveFields` of its old contents |
| `Archiver.ArchivingKeepsLastLogin` | archival_script.py:89-96 | archiving does not change the contact's last-login lookup or key |
| `Archiver.ArchivedRecord` | archival_script.py:90-96 | after archiving, an `IsArchived` field reads true and a `Notes` field ends with the audit line |
| `RunController.ArchiveInOrder` | archival_script.py:344-353 | the archived ids are the first `min(removalTarget, number of candidates)` candidates in order; the quota exit happens exactly when candidates remain |
| `RunController.RunArchival` | archival_script.py:308-353 | a run with at most 190 contacts does nothing. A margin below 0 gives a warning and archives nothing; a margin of exactly 0 goes on. Otherwise the removal target is positive and the archived ids are a prefix of the candidates no longer than the target |

## Left out

- HTTP calls: all `requests` traffic, `get_access_token`, `get_account_id` and status-code handling are I/O. Their results are parameters: the counts, the `Option` contacts response and the registrations map.
- The counting functions `num_contacts`, `num_members`, `contacts_w_balance` and `contacts_w_registrations` are server-side filtered queries. Their results are the `nat` parameters of `RunController.RunArchival`.
- `get_contact_info` is never called.
- The formatting code after the `return` in `set_contact_to_archived` (lines 107-123) can never run.
- `set_contact_to_archived` also re-fetches the contact and PUTs it back, and it skips contacts whose writes fail. Only its field loop is modelled. `RunController.RunArchival` returns the ids handed to the archiver, not the writes that succeeded.
- Logging, `cleanup_log_file` and the git commands it runs are file and process I/O.
- dateutil parsing and time zones are not modelled: every date is an absolute instant.
- `datetime.now` is read once per registration in the source. The model uses one `now` for the whole run.
- `strftime` is not modelled. The date in the audit line is a string parameter of `Archiver.AuditNote`.
- The model covers only the normal path, not these Python crashes:
  - a `None` count makes the arithmetic at line 312 or 327 fail;
  - a `None` candidate list makes `len` fail at line 342;
  - the response JSON is read before the status check at lines 179 and 229.
- A contact whose first non-empty `LastLoginDate` is not a date makes dateutil raise. Such contacts are excluded by the type `SortableContact`.
- A `Notes` field that is not text makes `None + str` raise. `Archiver.ArchiveField` requires notes to be text.
- A field without a `SystemCode` raises `KeyError` in the source. In the model every field has a code.
- `Sorting.SortInPlace` uses insertion sort, not Python's TimSort. Only the result is claimed equal, through `Sorting.StableSortUnique`, not the running time.
