/**
 * Candidate selection (`return_archival_candidates`): the fetched contacts
 * are sorted in place by last-login key with a stable sort, then every
 * contact without an upcoming event registration is kept, in that order.
 */
module Selection {
  import opened Wrappers
  import opened Records
  import opened Sorting

  /** The sort key of `return_archival_candidates`: `get_last_login_date`. */
  function Key(c: SortableContact): nat {
    LastLoginKey(c.fields)
  }

  function LookupRegistrations(lookups: map<ContactId, seq<Registration>>, id: ContactId): Option<seq<Registration>> {
    if id in lookups then Some(lookups[id]) else None
  }

  /** A contact the loop of `return_archival_candidates` keeps: no upcoming event registration. */
  predicate Eligible(c: SortableContact, lookups: map<ContactId, seq<Registration>>, now: Timestamp) {
    !HasUpcomingEventRegistrations(LookupRegistrations(lookups, c.id), now)
  }

  /** `Eligible` as a predicate value, for `Filter`. */
  function EligibleIn(lookups: map<ContactId, seq<Registration>>, now: Timestamp): SortableContact -> bool {
    (c: SortableContact) => Eligible(c, lookups, now)
  }

  function KeepEligible(s: seq<SortableContact>, lookups: map<ContactId, seq<Registration>>, now: Timestamp)
    : seq<SortableContact>
  {
    Filter(EligibleIn(lookups, now), s)
  }

  /** The contacts behind the ids `return_archival_candidates` returns, in order. */
  function Candidates(contacts: seq<SortableContact>, lookups: map<ContactId, seq<Registration>>, now: Timestamp)
    : seq<SortableContact>
  {
    KeepEligible(StableSort(Key, contacts), lookups, now)
  }

  /**
   * The candidates are exactly the eligible contacts (each as often as in the
   * input), in non-decreasing last-login order, with ties in input order.
   */
  lemma CandidatesCharacterised(contacts: seq<SortableContact>, lookups: map<ContactId, seq<Registration>>,
                                now: Timestamp)
    ensures SortedBy(Key, Candidates(contacts, lookups, now))
    ensures multiset(Candidates(contacts, lookups, now)) == multiset(KeepEligible(contacts, lookups, now))
    ensures forall k :: WithKey(Key, Candidates(contacts, lookups, now), k)
                     == WithKey(Key, KeepEligible(contacts, lookups, now), k)
  {
    var eligible := KeepEligible(contacts, lookups, now);
    FilterCommutesWithSort(Key, EligibleIn(lookups, now), contacts);
    StableSortSorted(Key, eligible);
    StableSortPermutes(Key, eligible);
    forall k ensures WithKey(Key, StableSort(Key, eligible), k) == WithKey(Key, eligible, k) {
      StableSortKeepsTies(Key, eligible, k);
    }
  }

  /** No candidate has a registration for an event that starts after `now`. */
  lemma CandidatesHaveNoUpcomingEvent(contacts: seq<SortableContact>, lookups: map<ContactId, seq<Registration>>,
                                      now: Timestamp, c: SortableContact, r: Registration)
    requires c in Candidates(contacts, lookups, now)
    requires c.id in lookups && r in lookups[c.id]
    ensures !StartsAfter(r, now)
  {
  }

  /** In a list sorted by last-login key, a contact with no recorded login precedes every contact with one. */
  lemma NoLoginSortsFirst(s: seq<SortableContact>, i: nat, j: nat)
    requires SortedBy(Key, s)
    requires i < |s| && j < |s|
    requires Key(s[i]) == NoLogin && Key(s[j]) != NoLogin
    ensures i < j
  {
  }

  predicate IdsOf(ids: seq<ContactId>, cs: seq<SortableContact>) {
    |ids| == |cs| && forall i :: 0 <= i < |ids| ==> ids[i] == cs[i].id
  }

  /** One iteration of the candidate loop: the id of `c` is appended exactly when `c` is eligible. */
  lemma AppendCandidate(ids: seq<ContactId>, done: seq<SortableContact>, c: SortableContact,
                        lookups: map<ContactId, seq<Registration>>, now: Timestamp)
    requires IdsOf(ids, KeepEligible(done, lookups, now))
    ensures IdsOf(ids + (if Eligible(c, lookups, now) then [c.id] else []), KeepEligible(done + [c], lookups, now))
  {
    FilterConcat(EligibleIn(lookups, now), done, [c]);
    FilterSingle(EligibleIn(lookups, now), c);
  }

  /** The loop of `return_archival_candidates` over the sorted contacts: the ids of the eligible ones, in order. */
  method CollectEligibleIds(contacts: array<SortableContact>, lookups: map<ContactId, seq<Registration>>,
                            now: Timestamp)
    returns (archivalCandidates: seq<ContactId>)
    ensures IdsOf(archivalCandidates, KeepEligible(contacts[..], lookups, now))
  {
    archivalCandidates := [];
    for i := 0 to contacts.Length
      invariant IdsOf(archivalCandidates, KeepEligible(contacts[..i], lookups, now))
    {
      var contact := contacts[i];
      var upcomingEvent := HasUpcomingEventRegistrations(LookupRegistrations(lookups, contact.id), now);
      AppendCandidate(archivalCandidates, contacts[..i], contact, lookups, now);
      if !upcomingEvent {
        archivalCandidates := archivalCandidates + [contact.id];
      }
      assert contacts[..i + 1] == contacts[..i] + [contact];
    }
    assert contacts[..contacts.Length] == contacts[..];
  }

  /**
   * `return_archival_candidates` on the response to the contacts query
   * (`None` when the account or the contacts could not be fetched) and the
   * registrations lookup of each contact (absent when it failed).
   */
  method ReturnArchivalCandidates(response: Option<seq<SortableContact>>,
                                  lookups: map<ContactId, seq<Registration>>, now: Timestamp)
    returns (candidates: Option<seq<ContactId>>)
    ensures response.None? ==> candidates.None?
    ensures response.Some? ==> candidates.Some? && IdsOf(candidates.value, Candidates(response.value, lookups, now))
  {
    if response.None? {
      return None;
    }
    var contacts := response.value;
    var a := new SortableContact[|contacts|](i requires 0 <= i < |contacts| => contacts[i]);
    assert a[..] == contacts;
    SortInPlace(Key, a);
    var archivalCandidates := CollectEligibleIds(a, lookups, now);
    candidates := Some(archivalCandidates);
  }
}
