/**
  The notification ledger and the recipient roster (`database/db.py`).

  The `sent_notifications` table is a sequence of rows; it has no uniqueness
  constraint on (date, time, email), so the same row may occur more than once.
  The `recipients` table has a UNIQUE email column and is a set. Connection
  handling, the DDL and the `sent_at` timestamp column (never read) are not
  modelled.
 */
module Ledger {
  import opened Seqs
  import opened Text
  import opened Times
  import opened Slots

  /** One row of `sent_notifications`. */
  datatype Record = Record(date: string, time: string, level: string, email: string)

  predicate IsRowFor(row: Record, date: string, time: string, email: string)
  {
    row.date == date && row.time == time && row.email == email
  }

  /** `was_notified`: the `SELECT 1 ... WHERE class_date = ? AND class_time = ? AND recipient_email = ?` scan. */
  function WasNotified(ledger: seq<Record>, date: string, time: string, email: string): (b: bool)
    ensures b <==> exists row :: row in ledger && IsRowFor(row, date, time, email)
  {
    if |ledger| == 0 then false
    else
      assert ledger == ledger[..|ledger| - 1] + [ledger[|ledger| - 1]];
      IsRowFor(ledger[|ledger| - 1], date, time, email) || WasNotified(ledger[..|ledger| - 1], date, time, email)
  }

  /** `save_notification`: an unconditional INSERT. */
  function SaveNotification(ledger: seq<Record>, date: string, time: string, level: string, email: string): (r: seq<Record>)
    ensures |r| == |ledger| + 1 && r[..|ledger|] == ledger
    ensures multiset(r)[Record(date, time, level, email)] == multiset(ledger)[Record(date, time, level, email)] + 1
    ensures WasNotified(r, date, time, email)
    ensures forall d, t, e :: WasNotified(r, d, t, e) <==> WasNotified(ledger, d, t, e) || (d == date && t == time && e == email)
  {
    var row := Record(date, time, level, email);
    assert row in ledger + [row];
    ledger + [row]
  }

  /** The test `process_openings` applies to each opening for one recipient. */
  function PendingFor(ledger: seq<Record>, email: string): Opening -> bool
  {
    (o: Opening) => !WasNotified(ledger, o.date, o.time, email)
  }

  /** The openings a recipient has not been notified about, in their original order. */
  function Unnotified(ledger: seq<Record>, openings: seq<Opening>, email: string): (r: seq<Opening>)
    ensures forall o :: o in r <==> o in openings && !WasNotified(ledger, o.date, o.time, email)
  {
    Keep(openings, PendingFor(ledger, email))
  }

  /** `process_openings`: the loop that keeps each opening whose (date, time) the recipient was not notified about. */
  method ProcessOpenings(ledger: seq<Record>, openings: seq<Opening>, email: string) returns (pending: seq<Opening>)
    ensures pending == Unnotified(ledger, openings, email)
    ensures forall i :: 0 <= i < |pending| ==> !WasNotified(ledger, pending[i].date, pending[i].time, email)
  {
    pending := [];
    var i := 0;
    while i < |openings|
      invariant 0 <= i <= |openings|
      invariant pending == Unnotified(ledger, openings[..i], email)
    {
      KeepSnoc(openings, i, PendingFor(ledger, email));
      if !WasNotified(ledger, openings[i].date, openings[i].time, email) {
        pending := pending + [openings[i]];
      }
      i := i + 1;
    }
    assert openings[..i] == openings;
    forall i | 0 <= i < |pending|
      ensures !WasNotified(ledger, pending[i].date, pending[i].time, email)
    {
      assert pending[i] in pending;
    }
  }

  /** Filtering the result of `process_openings` again returns it unchanged. */
  lemma ProcessOpeningsIdempotent(ledger: seq<Record>, openings: seq<Opening>, email: string)
    ensures Unnotified(ledger, Unnotified(ledger, openings, email), email) == Unnotified(ledger, openings, email)
  {
    KeepIdempotent(openings, PendingFor(ledger, email));
  }

  /** Rows appended for other recipients do not change what a recipient has been notified about. */
  lemma WasNotifiedOtherRows(ledger: seq<Record>, rows: seq<Record>, date: string, time: string, email: string)
    requires forall i :: 0 <= i < |rows| ==> rows[i].email != email
    ensures WasNotified(ledger + rows, date, time, email) == WasNotified(ledger, date, time, email)
  {
    if WasNotified(ledger + rows, date, time, email) {
      var row :| row in ledger + rows && IsRowFor(row, date, time, email);
      assert row in ledger;
    }
  }

  /** Rows appended for other recipients leave a recipient's filtered openings unchanged. */
  lemma UnnotifiedOtherRows(ledger: seq<Record>, rows: seq<Record>, openings: seq<Opening>, email: string)
    requires forall i :: 0 <= i < |rows| ==> rows[i].email != email
    ensures Unnotified(ledger + rows, openings, email) == Unnotified(ledger, openings, email)
  {
    forall i | 0 <= i < |openings|
      ensures WasNotified(ledger + rows, openings[i].date, openings[i].time, email)
           == WasNotified(ledger, openings[i].date, openings[i].time, email)
    {
      WasNotifiedOtherRows(ledger, rows, openings[i].date, openings[i].time, email);
    }
    KeepCongruent(openings, PendingFor(ledger + rows, email), PendingFor(ledger, email));
  }

  /** `delete_class_entries`: `DELETE ... WHERE class_date = ? AND class_time = ?`, for every recipient. */
  function DeleteClassEntries(ledger: seq<Record>, date: string, time: string): (r: seq<Record>)
    ensures forall e :: !WasNotified(r, date, time, e)
    ensures forall row :: multiset(r)[row] == if row.date == date && row.time == time then 0 else multiset(ledger)[row]
    ensures forall d, t, e :: d != date || t != time ==> WasNotified(r, d, t, e) == WasNotified(ledger, d, t, e)
  {
    Keep(ledger, (row: Record) => !(row.date == date && row.time == time))
  }

  /** A row is removed by the cleanup exactly when `class_date || ' ' || class_time < now` in text order. */
  predicate Expired(row: Record, now: string)
  {
    LexLess(Stamp(row.date, row.time), now)
  }

  /**
    `cleanup_old_classes`, with the clock reading passed in: deletes the rows whose
    `date + " " + time` sorts strictly before `now` formatted as `%Y-%m-%d %H:%M`.
   */
  function CleanupOldClasses(ledger: seq<Record>, now: DateTime): (r: seq<Record>)
    requires ValidDateTime(now) && 1000 <= now.date.year
    ensures forall row :: multiset(r)[row] == if Expired(row, FormatMinute(now)) then 0 else multiset(ledger)[row]
    ensures forall row: Record :: Stamp(row.date, row.time) == FormatMinute(now) && row in ledger ==> row in r
  {
    LexLessIrreflexive(FormatMinute(now));
    Keep(ledger, (row: Record) => !Expired(row, FormatMinute(now)))
  }

  /** A notification for a class at or after the current minute survives the cleanup. */
  lemma CleanupKeepsCurrent(ledger: seq<Record>, now: DateTime, date: string, time: string, email: string)
    requires ValidDateTime(now) && 1000 <= now.date.year
    requires WasNotified(ledger, date, time, email) && !LexLess(Stamp(date, time), FormatMinute(now))
    ensures WasNotified(CleanupOldClasses(ledger, now), date, time, email)
  {
    var row :| row in ledger && IsRowFor(row, date, time, email);
    assert multiset(CleanupOldClasses(ledger, now))[row] == multiset(ledger)[row];
    assert row in CleanupOldClasses(ledger, now);
  }

  /**
    For rows stored with a zero-padded date and time, the text comparison of the cleanup is
    chronological: a row goes exactly when its class minute lies strictly before the current
    minute, so a class starting in the current minute is kept.
   */
  lemma CleanupIsChronological(ledger: seq<Record>, now: DateTime, row: Record, d: Date, c: Clock)
    requires ValidDateTime(now) && 1000 <= now.date.year
    requires ValidDate(d) && ValidClock(c) && row.date == FormatDate(d) && row.time == Format24(c)
    ensures multiset(CleanupOldClasses(ledger, now))[row] == 0 <==>
      (row !in ledger || Before(ClassInstant(d, c), ClassInstant(now.date, now.clock)))
  {
    StampOrder(d, c, now.date, now.clock);
  }

  // ---------------------------------------------------------------- roster

  datatype AddOutcome = Added | AlreadyPresent

  /** `add_recipient`: the UNIQUE constraint turns a duplicate insert into a reported no-op. */
  function AddRecipient(roster: set<string>, email: string): (r: (set<string>, AddOutcome))
    ensures email in r.0 && r.0 - {email} == roster - {email}
    ensures r.1 == AlreadyPresent <==> email in roster
    ensures email in roster ==> r.0 == roster
    ensures email !in roster ==> |r.0| == |roster| + 1
  {
    if email in roster then (roster, AlreadyPresent) else (roster + {email}, Added)
  }

  /** `recipient_exists`. */
  predicate RecipientExists(roster: set<string>, email: string)
  {
    email in roster
  }

  /** `remove_recipient`: deleting an absent email is harmless. */
  function RemoveRecipient(roster: set<string>, email: string): (r: set<string>)
    ensures !RecipientExists(r, email)
    ensures forall x :: x != email ==> (RecipientExists(r, x) <==> RecipientExists(roster, x))
  {
    roster - {email}
  }

  /**
    `recipient_exists` answers for the roster the other calls leave: after `add_recipient`
    the added address is known and every other answer is unchanged; after `remove_recipient`
    only the removed address is forgotten.
   */
  lemma RecipientExistsAfterUpdates(roster: set<string>, email: string, x: string)
    ensures RecipientExists(AddRecipient(roster, email).0, x) <==> x == email || RecipientExists(roster, x)
    ensures RecipientExists(RemoveRecipient(roster, email), x) <==> x != email && RecipientExists(roster, x)
  {
  }

  /** `get_all_recipients`: every roster email exactly once, in an order the table does not promise. */
  method GetAllRecipients(roster: set<string>) returns (list: seq<string>)
    ensures forall x :: x in list <==> x in roster
    ensures forall i, j :: 0 <= i < j < |list| ==> list[i] != list[j]
    ensures |list| == |roster|
  {
    list := [];
    var rest := roster;
    while rest != {}
      invariant rest <= roster
      invariant forall x :: x in list <==> x in roster && x !in rest
      invariant forall i, j :: 0 <= i < j < |list| ==> list[i] != list[j]
      invariant |list| + |rest| == |roster|
      decreases |rest|
    {
      var x :| x in rest;
      list := list + [x];
      rest := rest - {x};
    }
  }
}
