/**
 * The top-level policy of the archival script: how many contacts must go,
 * whether the account has room to reach its target at all, and which
 * candidates are handed to the archiver. The counts the script fetches
 * from the API are parameters here.
 */
module RunController {
  import opened Records

  /** The number of active contacts the plan allows. */
  const ContactTarget: nat := 190

  /** The safety margin kept below the target. */
  const SafetyBuffer: nat := 10

  /** How a run ends. */
  datatype RunOutcome =
    | NoActionRequired(current: nat)
    | CapacityWarning(minimumContacts: nat, margin: int)
    | Completed(removalTarget: nat, minimumContacts: nat, margin: int, archived: seq<ContactId>, quotaReached: bool)
  {
    /** The contact ids handed to the archiver during the run. */
    function Archived(): seq<ContactId> {
      if Completed? then archived else []
    }
  }

  /**
   * The archive loop: a counter goes up before each candidate and the run
   * exits once it passes `removalTarget`; otherwise the candidate is archived.
   */
  method ArchiveInOrder(candidates: seq<ContactId>, removalTarget: nat)
    returns (archived: seq<ContactId>, quotaReached: bool)
    ensures |archived| == if |candidates| <= removalTarget then |candidates| else removalTarget
    ensures archived == candidates[..|archived|]
    ensures quotaReached <==> removalTarget < |candidates|
  {
    var num := 0;
    archived := [];
    for i := 0 to |candidates|
      invariant num == i <= removalTarget
      invariant archived == candidates[..i]
    {
      num := num + 1;
      if num > removalTarget {
        return archived, true;
      }
      archived := archived + [candidates[i]];
    }
    assert candidates[..|candidates|] == candidates;
    quotaReached := false;
  }

  /**
   * One run of the script, given the number of active contacts, the three
   * counts that make up the minimum, and the candidate list.
   */
  method RunArchival(current: nat, members: nat, withBalance: nat, withFutureRegistration: nat,
                     candidates: seq<ContactId>)
    returns (outcome: RunOutcome)
    ensures outcome.NoActionRequired? <==> current <= ContactTarget
    ensures outcome.CapacityWarning? <==>
      current > ContactTarget && members + withBalance + withFutureRegistration + SafetyBuffer > ContactTarget
    ensures outcome.CapacityWarning? ==>
      && outcome.minimumContacts == members + withBalance + withFutureRegistration
      && outcome.margin == ContactTarget - outcome.minimumContacts - SafetyBuffer < 0
    ensures outcome.Completed? ==>
      && outcome.removalTarget == current - ContactTarget > 0
      && outcome.minimumContacts == members + withBalance + withFutureRegistration
      && outcome.margin == ContactTarget - outcome.minimumContacts - SafetyBuffer >= 0
      && outcome.quotaReached == (outcome.removalTarget < |candidates|)
    ensures var n := |outcome.Archived()|;
      && n <= (if current > ContactTarget then current - ContactTarget else 0)
      && n <= |candidates|
      && outcome.Archived() == candidates[..n]
      && (outcome.Completed? ==> n == if |candidates| <= current - ContactTarget then |candidates| else current - ContactTarget)
  {
    var removalTarget: int := current - ContactTarget;
    if current <= ContactTarget {
      return NoActionRequired(current);
    }
    var minimumContacts := members + withBalance + withFutureRegistration;
    var margin: int := ContactTarget - minimumContacts - SafetyBuffer;
    if margin < 0 {
      return CapacityWarning(minimumContacts, margin);
    }
    var archived, quotaReached := ArchiveInOrder(candidates, removalTarget);
    return Completed(removalTarget, minimumContacts, margin, archived, quotaReached);
  }

  /**
   * Four sample runs, decided by the contracts above alone: 200 contacts and
   * 12 candidates archive exactly the first 10; 185 contacts archive nothing;
   * a minimum of 185 gives margin -5 and a warning; a minimum of exactly 180
   * gives margin 0 and the run goes on.
   */
  method SampleRuns() {
    var twelve := [1, 2, 3, 4, 5, 6, 7, 8, 9, 10, 11, 12];
    var busy := RunArchival(200, 100, 5, 5, twelve);
    assert busy.Archived() == twelve[..10];

    var quiet := RunArchival(185, 100, 5, 5, twelve);
    assert quiet.Archived() == [];

    var full := RunArchival(200, 170, 10, 5, twelve);
    assert full.CapacityWarning? && full.margin == -5 && full.Archived() == [];

    var exact := RunArchival(200, 170, 5, 5, twelve);
    assert exact.Completed? && exact.margin == 0;
  }
}
