/**
 * The record update of `set_contact_to_archived`: the loop over the
 * contact's `FieldValues` that raises the archived flag and appends the
 * audit line to the notes, in place, before the record is written back.
 */
module Archiver {
  import opened Records

  /** The audit line appended to the notes; `date` is the run date as `strftime('%m/%d/%Y')` prints it. */
  function AuditNote(date: string): string {
    "\n\r\nMember archived on " + date + " by RMM Archival Bot"
  }

  /** Appending to the notes needs them to be text: Python raises on `None + str`. */
  predicate NotesAreText(f: Field) {
    f.code == NotesCode ==> f.value.Text?
  }

  /** What one pass of the loop body does to one field. */
  function ArchiveField(f: Field, note: string): (r: Field)
    requires NotesAreText(f)
    ensures r.name == f.name && r.code == f.code
    ensures f.code == IsArchivedCode ==> r.value == Flag(true)
    ensures f.code == NotesCode ==> r.value == Text(f.value.s + note)
    ensures f.code != IsArchivedCode && f.code != NotesCode ==> r == f
  {
    var flagged := if f.code == IsArchivedCode then f.(value := Flag(true)) else f;
    if flagged.code == NotesCode then flagged.(value := Text(flagged.value.s + note)) else flagged
  }

  ghost predicate AllNotesAreText(fields: seq<Field>) {
    forall i :: 0 <= i < |fields| ==> NotesAreText(fields[i])
  }

  /** The whole `FieldValues` list after the loop. */
  function ArchiveFields(fields: seq<Field>, note: string): (r: seq<Field>)
    requires AllNotesAreText(fields)
    ensures |r| == |fields|
    ensures forall i :: 0 <= i < |fields| ==> r[i] == ArchiveField(fields[i], note)
  {
    if fields == [] then []
    else [ArchiveField(fields[0], note)] + ArchiveFields(fields[1..], note)
  }

  /** The loop of `set_contact_to_archived`, updating each field of `fieldValues` in place. */
  method MarkArchived(fieldValues: array<Field>, note: string)
    requires AllNotesAreText(fieldValues[..])
    modifies fieldValues
    ensures fieldValues[..] == ArchiveFields(old(fieldValues[..]), note)
  {
    for i := 0 to fieldValues.Length
      invariant forall k :: 0 <= k < i ==> fieldValues[k] == ArchiveField(old(fieldValues[k]), note)
      invariant forall k :: i <= k < fieldValues.Length ==> fieldValues[k] == old(fieldValues[k])
    {
      if fieldValues[i].code == IsArchivedCode {
        fieldValues[i] := fieldValues[i].(value := Flag(true));
      }
      if fieldValues[i].code == NotesCode {
        var currentNotes := fieldValues[i].value.s;
        fieldValues[i] := fieldValues[i].(value := Text(currentNotes + note));
      }
    }
  }

  /** Archiving leaves every `LastLoginDate` field alone, so the contact's last-login key is unchanged. */
  lemma {:induction false} ArchivingKeepsLastLogin(fields: seq<Field>, note: string)
    requires AllNotesAreText(fields)
    ensures FirstLogin(ArchiveFields(fields, note)) == FirstLogin(fields)
    ensures LoginParses(fields) ==> LastLoginKey(ArchiveFields(fields, note)) == LastLoginKey(fields)
  {
    if fields != [] {
      var r := ArchiveFields(fields, note);
      assert r[1..] == ArchiveFields(fields[1..], note);
      ArchivingKeepsLastLogin(fields[1..], note);
      assert GivesLogin(r[0]) <==> GivesLogin(fields[0]);
    }
  }

  /** After archiving, every `IsArchived` field reads true and the notes of every `Notes` field end with the audit line. */
  lemma ArchivedRecord(fields: seq<Field>, date: string, i: nat)
    requires AllNotesAreText(fields) && i < |fields|
    ensures fields[i].code == IsArchivedCode ==> Truthy(ArchiveFields(fields, AuditNote(date))[i].value)
    ensures fields[i].code == NotesCode ==>
      var notes := ArchiveFields(fields, AuditNote(date))[i].value.s;
      |notes| >= |AuditNote(date)| && notes[|notes| - |AuditNote(date)|..] == AuditNote(date)
  {
  }
}
