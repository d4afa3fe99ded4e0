/**
  One run of `main` (`main.py`): scrape, then for each recipient filter the
  openings through the ledger and send only a non-empty list, then clean up.
  The run's sends are recorded as a trace of calls to `gmail_send_message`.
 */
module Dispatch {
  import opened Text
  import opened Times
  import opened Slots
  import opened Ledger
  import opened Scraper
  import opened Email

  /** One call `gmail_send_message(openings, recipient)`. */
  datatype SendCall = SendCall(recipient: string, openings: seq<Opening>)

  predicate Distinct(rs: seq<string>)
  {
    forall i, j :: 0 <= i < j < |rs| ==> rs[i] != rs[j]
  }

  /** The openings `process_openings` returns for each recipient against `ledger`. */
  function PendingIn(ledger: seq<Record>, os: seq<Opening>): string -> seq<Opening>
  {
    (x: string) => Unnotified(ledger, os, x)
  }

  /** For each recipient in order, one call with its pending openings, when there are any. */
  function CallsOf(rs: seq<string>, pending: string -> seq<Opening>): seq<SendCall>
    decreases |rs|
  {
    if |rs| == 0 then []
    else
      var n := |rs| - 1;
      var prev := CallsOf(rs[..n], pending);
      if |pending(rs[n])| > 0 then prev + [SendCall(rs[n], pending(rs[n]))] else prev
  }

  /** Each call goes to one of the recipients, with exactly that recipient's non-empty pending list. */
  lemma {:induction false} CallsOfSound(rs: seq<string>, pending: string -> seq<Opening>)
    decreases |rs|
    ensures |CallsOf(rs, pending)| <= |rs|
    ensures forall k :: 0 <= k < |CallsOf(rs, pending)| ==>
      && CallsOf(rs, pending)[k].recipient in rs
      && |CallsOf(rs, pending)[k].openings| > 0
      && CallsOf(rs, pending)[k].openings == pending(CallsOf(rs, pending)[k].recipient)
  {
    if |rs| > 0 {
      var n := |rs| - 1;
      CallsOfSound(rs[..n], pending);
      var prev := CallsOf(rs[..n], pending);
      var r := CallsOf(rs, pending);
      assert forall k :: 0 <= k < |prev| ==> r[k] == prev[k] && prev[k].recipient in rs[..n];
      assert forall x :: x in rs[..n] ==> x in rs;
    }
  }

  /**
    The calls the dispatch loop makes when every send returns: for each recipient in order,
    one call with the openings it was not notified about in `ledger`, when there are any.
   */
  function Calls(ledger: seq<Record>, rs: seq<string>, os: seq<Opening>): seq<SendCall>
  {
    CallsOf(rs, PendingIn(ledger, os))
  }

  /** Every recipient with something pending gets a call. */
  lemma {:induction false} CallsComplete(rs: seq<string>, pending: string -> seq<Opening>, x: string)
    requires x in rs && |pending(x)| > 0
    ensures exists k :: 0 <= k < |CallsOf(rs, pending)| && CallsOf(rs, pending)[k].recipient == x
    decreases |rs|
  {
    var n := |rs| - 1;
    var prev := CallsOf(rs[..n], pending);
    var r := CallsOf(rs, pending);
    if rs[n] == x {
      assert r[|r| - 1].recipient == x;
    } else {
      assert rs == rs[..n] + [rs[n]];
      assert x in rs[..n];
      CallsComplete(rs[..n], pending, x);
      var k :| 0 <= k < |prev| && prev[k].recipient == x;
      assert r[k] == prev[k];
    }
  }

  /** With distinct recipients, no recipient gets two calls. */
  lemma {:induction false} CallsDistinct(rs: seq<string>, pending: string -> seq<Opening>)
    requires Distinct(rs)
    ensures forall j, k :: 0 <= j < k < |CallsOf(rs, pending)| ==>
      CallsOf(rs, pending)[j].recipient != CallsOf(rs, pending)[k].recipient
    decreases |rs|
  {
    if |rs| > 0 {
      var n := |rs| - 1;
      var prev := CallsOf(rs[..n], pending);
      assert Distinct(rs[..n]);
      CallsDistinct(rs[..n], pending);
      CallsOfSound(rs[..n], pending);
      var r := CallsOf(rs, pending);
      if |r| > |prev| {
        assert rs[n] !in rs[..n];
        assert forall j :: 0 <= j < |prev| ==> r[j] == prev[j] && prev[j].recipient in rs[..n];
      }
    }
  }

  /** Nobody with anything pending: no calls. */
  lemma {:induction false} CallsOfNone(rs: seq<string>, pending: string -> seq<Opening>)
    requires forall i :: 0 <= i < |rs| ==> |pending(rs[i])| == 0
    ensures CallsOf(rs, pending) == []
    decreases |rs|
  {
    if |rs| > 0 {
      var n := |rs| - 1;
      assert forall i :: 0 <= i < n ==> rs[..n][i] == rs[i];
      CallsOfNone(rs[..n], pending);
    }
  }

  /** One more recipient adds its call, if it has anything pending. */
  lemma CallsStep(rs: seq<string>, i: nat, pending: string -> seq<Opening>)
    requires i < |rs|
    ensures CallsOf(rs[..i + 1], pending)
         == CallsOf(rs[..i], pending) + (if |pending(rs[i])| > 0 then [SendCall(rs[i], pending(rs[i]))] else [])
  {
    assert rs[..i + 1][..i] == rs[..i];
  }

  /** The recipients are handled in order: the calls for `a + b` are those for `a`, then those for `b`. */
  lemma {:induction false} CallsConcat(a: seq<string>, b: seq<string>, pending: string -> seq<Opening>)
    decreases |b|
    ensures CallsOf(a + b, pending) == CallsOf(a, pending) + CallsOf(b, pending)
  {
    if |b| == 0 {
      assert a + b == a;
    } else {
      var n := |b| - 1;
      assert (a + b)[..|a + b| - 1] == a + b[..n];
      assert (a + b)[|a + b| - 1] == b[n];
      CallsConcat(a, b[..n], pending);
    }
  }

  /** Every opening recorded for a readable call's recipient. */
  predicate AllReadable(trace: seq<SendCall>)
  {
    forall k :: 0 <= k < |trace| ==> Readable(trace[k].openings)
  }

  /** The rows a call whose openings are all readable writes: one per opening, in order. */
  function Wrote(c: SendCall): (r: seq<Record>)
    ensures forall i :: 0 <= i < |r| ==> r[i].email == c.recipient
  {
    Rows(c.openings, c.recipient)
  }

  /** The rows a call that raised leaves behind: those of its openings before the first unreadable time. */
  function WroteBefore(c: SendCall): seq<Record>
  {
    Rows(c.openings[..FirstUnreadable(c.openings)], c.recipient)
  }

  /** The rows a sequence of completed calls writes, in call order. */
  function Written(trace: seq<SendCall>): seq<Record>
    decreases |trace|
  {
    if |trace| == 0 then [] else Written(trace[..|trace| - 1]) + Wrote(trace[|trace| - 1])
  }

  /** Every row the trace writes is for one of its recipients. */
  lemma {:induction false} WrittenEmails(trace: seq<SendCall>)
    decreases |trace|
    ensures forall i :: 0 <= i < |Written(trace)| ==>
      exists k :: 0 <= k < |trace| && Written(trace)[i].email == trace[k].recipient
  {
    if |trace| > 0 {
      var n := |trace| - 1;
      WrittenEmails(trace[..n]);
      var prev := Written(trace[..n]);
      var r := Written(trace);
      forall i | 0 <= i < |r|
        ensures exists k :: 0 <= k < |trace| && r[i].email == trace[k].recipient
      {
        if i < |prev| {
          assert r[i] == prev[i];
          var k :| 0 <= k < n && prev[i].email == trace[..n][k].recipient;
          assert trace[..n][k] == trace[k];
          assert r[i].email == trace[k].recipient;
        } else {
          assert r[i] == Wrote(trace[n])[i - |prev|];
          assert r[i].email == trace[n].recipient;
        }
      }
    } else {
      assert |Written(trace)| == 0;
    }
  }

  /** Every row a call writes is among the rows of the whole trace. */
  lemma {:induction false} WrittenIncludes(trace: seq<SendCall>, k: nat, i: nat)
    requires k < |trace| && i < |trace[k].openings|
    ensures Wrote(trace[k])[i] in Written(trace)
    decreases |trace|
  {
    var n := |trace| - 1;
    if k < n {
      assert trace[..n][k] == trace[k];
      WrittenIncludes(trace[..n], k, i);
    } else {
      assert Written(trace)[|Written(trace[..n])| + i] == Wrote(trace[n])[i];
    }
  }

  /** The rows of two traces, one after the other. */
  lemma {:induction false} WrittenConcat(a: seq<SendCall>, b: seq<SendCall>)
    ensures Written(a + b) == Written(a) + Written(b)
    decreases |b|
  {
    if |b| == 0 {
      assert a + b == a;
    } else {
      var n := |b| - 1;
      var ab := a + b;
      assert ab[..|ab| - 1] == a + b[..n];
      assert ab[|ab| - 1] == b[n];
      WrittenConcat(a, b[..n]);
      assert Written(ab) == (Written(a) + Written(b[..n])) + Wrote(b[n]);
      assert Written(b) == Written(b[..n]) + Wrote(b[n]);
    }
  }

  /**
    The body of the dispatch loop for one recipient (main.py:36-40): filter the openings and
    send only a non-empty list. The result is the call made, if any; a call that raises has
    written the rows of the openings before the unreadable one.
   */
  method NotifyRecipient(ledger: seq<Record>, openings: seq<Opening>, recipient: string,
                         send: (string, string) -> Reply)
    returns (ledger': seq<Record>, call: seq<SendCall>, raised: bool)
    ensures var pending := Unnotified(ledger, openings, recipient);
      call == if |pending| > 0 then [SendCall(recipient, pending)] else []
    ensures raised <==> !AllReadable(call)
    ensures !raised ==> ledger' == ledger + Written(call)
    ensures raised ==> ledger' == ledger + WroteBefore(call[0])
  {
    var pending := ProcessOpenings(ledger, openings, recipient);
    if |pending| > 0 {
      var outcome;
      ledger', outcome := GmailSendMessage(ledger, pending, recipient, send);
      call := [SendCall(recipient, pending)];
      SingleCall(call[0]);
      raised := outcome.Raised?;
      if !raised {
        AllRowsSaved(ledger, pending, recipient);
      }
    } else {
      ledger', call, raised := ledger, [], false;
    }
  }

  /** A trace of one call. */
  lemma SingleCall(c: SendCall)
    ensures Written([c]) == Rows(c.openings, c.recipient)
    ensures AllReadable([c]) <==> Readable(c.openings)
  {
    assert [c][..0] == [];
  }

  /**
    The dispatch loop of `main` (main.py:35-40) over the recipients in the order the table
    returned them. A call whose openings include an unreadable time raises out of `main`,
    ending the loop after that call's earlier rows were written.
   */
  method DispatchAll(ledger: seq<Record>, recipients: seq<string>, openings: seq<Opening>,
                     send: (string, string) -> Reply)
    returns (ledger': seq<Record>, trace: seq<SendCall>, raised: bool)
    requires Distinct(recipients)
    ensures !raised ==> trace == Calls(ledger, recipients, openings) && ledger' == ledger + Written(trace)
    ensures raised ==> 0 < |trace| <= |Calls(ledger, recipients, openings)|
                       && trace == Calls(ledger, recipients, openings)[..|trace|]
                       && !Readable(trace[|trace| - 1].openings)
                       && ledger' == ledger + Written(trace[..|trace| - 1]) + WroteBefore(trace[|trace| - 1])
    ensures raised <==> !AllReadable(Calls(ledger, recipients, openings))
  {
    ledger' := ledger;
    trace := [];
    raised := false;
    var i := 0;
    while i < |recipients|
      invariant 0 <= i <= |recipients|
      invariant trace == Calls(ledger, recipients[..i], openings)
      invariant AllReadable(trace)
      invariant ledger' == ledger + Written(trace)
    {
      ledger', trace, raised := DispatchNext(ledger, recipients, openings, i, trace, ledger', send);
      if raised {
        return;
      }
      i := i + 1;
    }
    assert recipients[..i] == recipients;
  }

  /** One turn of the dispatch loop: recipient `i` after the calls for the ones before it. */
  method DispatchNext(ledger: seq<Record>, recipients: seq<string>, openings: seq<Opening>, i: nat,
                      trace: seq<SendCall>, current: seq<Record>, send: (string, string) -> Reply)
    returns (ledger': seq<Record>, trace': seq<SendCall>, raised: bool)
    requires Distinct(recipients) && i < |recipients|
    requires trace == Calls(ledger, recipients[..i], openings) && AllReadable(trace)
    requires current == ledger + Written(trace)
    ensures !raised ==> && trace' == Calls(ledger, recipients[..i + 1], openings)
                        && AllReadable(trace')
                        && ledger' == ledger + Written(trace')
    ensures raised ==> 0 < |trace'| <= |Calls(ledger, recipients, openings)|
                       && trace' == Calls(ledger, recipients, openings)[..|trace'|]
                       && !Readable(trace'[|trace'| - 1].openings)
                       && ledger' == ledger + Written(trace'[..|trace'| - 1]) + WroteBefore(trace'[|trace'| - 1])
                       && !AllReadable(Calls(ledger, recipients, openings))
  {
    var call;
    ledger', call, raised := NotifyRecipient(current, openings, recipients[i], send);
    NextCall(ledger, recipients, openings, i, call);
    AllReadableConcat(trace, call);
    if raised {
      RaisedExit(ledger, recipients, i, openings, trace, call, ledger');
    } else {
      LedgerGrows(ledger, trace, call);
    }
    trace' := trace + call;
  }

  /**
    The call the loop makes for recipient `i`, filtering against the ledger grown by the
    earlier calls' rows, is the one it would make against the ledger it started from.
   */
  lemma NextCall(ledger: seq<Record>, rs: seq<string>, os: seq<Opening>, i: nat, call: seq<SendCall>)
    requires Distinct(rs) && i < |rs|
    requires var p := Unnotified(ledger + Written(Calls(ledger, rs[..i], os)), os, rs[i]);
      call == if |p| > 0 then [SendCall(rs[i], p)] else []
    ensures Calls(ledger, rs[..i], os) + call == Calls(ledger, rs[..i + 1], os)
  {
    var trace := Calls(ledger, rs[..i], os);
    assert Unnotified(ledger + Written(trace), os, rs[i]) == Unnotified(ledger, os, rs[i]) by {
      WrittenForOthers(ledger, rs, i, os);
      UnnotifiedOtherRows(ledger, Written(trace), os, rs[i]);
    }
    CallsStep(rs, i, PendingIn(ledger, os));
  }

  lemma AllReadableConcat(a: seq<SendCall>, b: seq<SendCall>)
    ensures AllReadable(a + b) <==> AllReadable(a) && AllReadable(b)
  {
    assert forall k :: 0 <= k < |a| ==> (a + b)[k] == a[k];
    assert forall k :: 0 <= k < |b| ==> (a + b)[|a| + k] == b[k];
    if AllReadable(a) && AllReadable(b) {
      forall k | 0 <= k < |a + b|
        ensures Readable((a + b)[k].openings)
      {
        if k >= |a| {
          assert (a + b)[|a| + (k - |a|)] == b[k - |a|];
        }
      }
    }
  }

  /**
    When the first `i` recipients' calls were readable and the next recipient's is not, the
    calls made so far are a prefix of the full run ending in the unreadable one.
   */
  lemma RaisedPrefix(ledger: seq<Record>, rs: seq<string>, i: nat, os: seq<Opening>)
    requires i < |rs|
    requires AllReadable(Calls(ledger, rs[..i], os)) && !AllReadable(Calls(ledger, rs[..i + 1], os))
    ensures var t, all := Calls(ledger, rs[..i + 1], os), Calls(ledger, rs, os);
      0 < |t| <= |all| && t == all[..|t|] && !Readable(t[|t| - 1].openings) && !AllReadable(all)
  {
    var prev, t, all := Calls(ledger, rs[..i], os), Calls(ledger, rs[..i + 1], os), Calls(ledger, rs, os);
    CallsStep(rs, i, PendingIn(ledger, os));
    CallsSplit(ledger, rs, i + 1, os);
    assert rs[..i + 1][..i] == rs[..i];
    assert t != prev;
    assert all[..|t|] == t;
    assert all[|t| - 1] == t[|t| - 1];
  }

  /** Adding the rows of one more call to a ledger that holds a trace's rows. */
  lemma LedgerGrows(ledger: seq<Record>, trace: seq<SendCall>, call: seq<SendCall>)
    ensures ledger + Written(trace) + Written(call) == ledger + Written(trace + call)
  {
    WrittenConcat(trace, call);
    assert ledger + Written(trace) + Written(call) == ledger + (Written(trace) + Written(call));
  }

  /** The state the dispatch loop leaves when the call for recipient `i` raises. */
  lemma RaisedExit(ledger: seq<Record>, rs: seq<string>, i: nat, os: seq<Opening>,
                   trace: seq<SendCall>, call: seq<SendCall>, ledger': seq<Record>)
    requires i < |rs|
    requires trace == Calls(ledger, rs[..i], os) && AllReadable(trace)
    requires trace + call == Calls(ledger, rs[..i + 1], os) && !AllReadable(call)
    requires ledger' == ledger + Written(trace) + WroteBefore(call[0])
    ensures var t, all := trace + call, Calls(ledger, rs, os);
      && 0 < |t| <= |all| && t == all[..|t|] && !Readable(t[|t| - 1].openings)
      && ledger' == ledger + Written(t[..|t| - 1]) + WroteBefore(t[|t| - 1])
      && !AllReadable(all)
  {
    AllReadableConcat(trace, call);
    RaisedPrefix(ledger, rs, i, os);
    CallsOfSound(rs[..i + 1], PendingIn(ledger, os));
    var t := trace + call;
    assert |call| == 1 by {
      CallsStep(rs, i, PendingIn(ledger, os));
    }
    assert t[..|t| - 1] == trace;
    assert t[|t| - 1] == call[0];
  }

  /** The calls for all recipients are those for the first `i`, then those for the rest. */
  lemma CallsSplit(ledger: seq<Record>, rs: seq<string>, i: nat, os: seq<Opening>)
    requires i <= |rs|
    ensures Calls(ledger, rs, os) == Calls(ledger, rs[..i], os) + Calls(ledger, rs[i..], os)
  {
    CallsOfSplit(rs, i, PendingIn(ledger, os));
  }

  lemma CallsOfSplit(rs: seq<string>, i: nat, pending: string -> seq<Opening>)
    requires i <= |rs|
    ensures CallsOf(rs, pending) == CallsOf(rs[..i], pending) + CallsOf(rs[i..], pending)
  {
    var a, b := rs[..i], rs[i..];
    assert a + b == rs;
    CallsConcat(a, b, pending);
  }

  /** The rows written for the first `i` recipients belong to them, so none is for the next one. */
  lemma WrittenForOthers(ledger: seq<Record>, rs: seq<string>, i: nat, os: seq<Opening>)
    requires Distinct(rs) && i < |rs|
    ensures forall k :: 0 <= k < |Written(Calls(ledger, rs[..i], os))| ==> Written(Calls(ledger, rs[..i], os))[k].email != rs[i]
  {
    var trace := Calls(ledger, rs[..i], os);
    CallsOfSound(rs[..i], PendingIn(ledger, os));
    WrittenEmails(trace);
    assert rs[i] !in rs[..i];
    forall k | 0 <= k < |Written(trace)|
      ensures Written(trace)[k].email != rs[i]
    {
      var j :| 0 <= j < |trace| && Written(trace)[k].email == trace[j].recipient;
    }
  }

  /** Every call's recipient counts as notified about each of its openings in the ledger grown by the trace's rows. */
  lemma WrittenRecordsCalls(ledger: seq<Record>, trace: seq<SendCall>, k: nat, o: Opening)
    requires k < |trace| && o in trace[k].openings
    ensures WasNotified(ledger + Written(trace), o.date, o.time, trace[k].recipient)
  {
    var c := trace[k];
    var i :| 0 <= i < |c.openings| && c.openings[i] == o;
    var row := Wrote(c)[i];
    WrittenIncludes(trace, k, i);
    assert row in ledger + Written(trace);
    assert IsRowFor(row, o.date, o.time, c.recipient);
  }

  /** Appending rows never un-notifies anyone. */
  lemma WasNotifiedGrows(ledger: seq<Record>, rows: seq<Record>, date: string, time: string, email: string)
    requires WasNotified(ledger, date, time, email)
    ensures WasNotified(ledger + rows, date, time, email)
  {
    var row :| row in ledger && IsRowFor(row, date, time, email);
    assert row in ledger + rows;
  }

  /**
    Idempotence: after a run that completed, the ledger holds the rows of all its calls, and
    filtering the same openings through it leaves nothing to send to anyone (main.py:35-40).
   */
  lemma RerunSendsNothing(ledger: seq<Record>, rs: seq<string>, os: seq<Opening>)
    ensures Calls(ledger + Written(Calls(ledger, rs, os)), rs, os) == []
  {
    var grown := ledger + Written(Calls(ledger, rs, os));
    forall x, o | x in rs && o in os
      ensures WasNotified(grown, o.date, o.time, x)
    {
      NotifiedAfterRerun(ledger, rs, os, x, o);
    }
    NothingPending(grown, rs, os);
  }

  /** When every recipient was notified about every opening, the loop sends nothing. */
  lemma NothingPending(ledger: seq<Record>, rs: seq<string>, os: seq<Opening>)
    requires forall x, o :: x in rs && o in os ==> WasNotified(ledger, o.date, o.time, x)
    ensures Calls(ledger, rs, os) == []
  {
    forall i | 0 <= i < |rs|
      ensures |PendingIn(ledger, os)(rs[i])| == 0
    {
      var u := Unnotified(ledger, os, rs[i]);
      assert rs[i] in rs;
      assert forall o :: o !in u;
      if |u| > 0 {
        assert u[0] in u;
      }
    }
    CallsOfNone(rs, PendingIn(ledger, os));
  }

  /**
    Idempotence across the cleanup: when no opening lies before the current minute, the
    cleanup keeps the rows the run wrote, and a rerun still sends nothing.
   */
  lemma RerunAfterCleanupSendsNothing(ledger: seq<Record>, rs: seq<string>, os: seq<Opening>, now: DateTime)
    requires ValidDateTime(now) && 1000 <= now.date.year
    requires forall o :: o in os ==> !LexLess(Stamp(o.date, o.time), FormatMinute(now))
    ensures Calls(CleanupOldClasses(ledger + Written(Calls(ledger, rs, os)), now), rs, os) == []
  {
    var grown := ledger + Written(Calls(ledger, rs, os));
    var kept := CleanupOldClasses(grown, now);
    forall x, o | x in rs && o in os
      ensures WasNotified(kept, o.date, o.time, x)
    {
      NotifiedAfterRerun(ledger, rs, os, x, o);
      CleanupKeepsCurrent(grown, now, o.date, o.time, x);
    }
    NothingPending(kept, rs, os);
  }

  /** After the rows of a run's calls are added, every recipient counts as notified about every opening. */
  lemma NotifiedAfterRerun(ledger: seq<Record>, rs: seq<string>, os: seq<Opening>, x: string, o: Opening)
    requires x in rs && o in os
    ensures WasNotified(ledger + Written(Calls(ledger, rs, os)), o.date, o.time, x)
  {
    var trace := Calls(ledger, rs, os);
    if WasNotified(ledger, o.date, o.time, x) {
      WasNotifiedGrows(ledger, Written(trace), o.date, o.time, x);
    } else {
      assert o in Unnotified(ledger, os, x);
      CallsComplete(rs, PendingIn(ledger, os), x);
      var k :| 0 <= k < |trace| && trace[k].recipient == x;
      CallsOfSound(rs, PendingIn(ledger, os));
      assert trace[k].openings == Unnotified(ledger, os, x);
      WrittenRecordsCalls(ledger, trace, k, o);
    }
  }

  // ---------------------------------------------------------------- one run of main

  /** A completed call list whose openings are all readable never raises in the mailer. */
  lemma CallsReadable(ledger: seq<Record>, rs: seq<string>, os: seq<Opening>)
    requires forall o :: o in os ==> ReadableTime(o)
    ensures AllReadable(Calls(ledger, rs, os))
  {
    var trace := Calls(ledger, rs, os);
    CallsOfSound(rs, PendingIn(ledger, os));
    forall k, j | 0 <= k < |trace| && 0 <= j < |trace[k].openings|
      ensures ReadableTime(trace[k].openings[j])
    {
      assert trace[k].openings[j] in Unnotified(ledger, os, trace[k].recipient);
    }
  }

  /** The two tables `main` works on. */
  datatype Db = Db(notifications: seq<Record>, roster: set<string>)

  /**
    `main` (main.py:27-45) with the clock readings and the mail service as parameters: scrape
    (deleting the ledger rows of unavailable classes as it goes), read the roster, dispatch when
    there are openings, then clean up. A `ValueError` out of the scrape ends the run before the
    roster is read; `order` is the order in which the roster table returned its emails.
   */
  method Run(db: Db, days: seq<Day>, scrapeNow: DateTime, cleanupNow: DateTime,
             send: (string, string) -> Reply)
    returns (db': Db, order: seq<string>, trace: seq<SendCall>, completed: bool)
    requires ValidDateTime(cleanupNow) && 1000 <= cleanupNow.date.year
    ensures db'.roster == db.roster
    ensures completed <==> CheckClassOpenings(days, scrapeNow).Scraped?
    ensures var s := CheckClassOpenings(days, scrapeNow);
      var after := ApplyInvalidations(db.notifications, s.invalidations);
      && (!completed ==> order == [] && trace == [] && db'.notifications == after)
      && (completed ==>
            && (forall x :: x in order <==> x in db.roster)
            && Distinct(order)
            && trace == (if |s.openings| > 0 then Calls(after, order, s.openings) else [])
            && db'.notifications == CleanupOldClasses(after + Written(trace), cleanupNow))
  {
    var s := CheckClassOpenings(days, scrapeNow);
    var after := ApplyInvalidations(db.notifications, s.invalidations);
    if s.ScrapeRaised? {
      return Db(after, db.roster), [], [], false;
    }
    order := GetAllRecipients(db.roster);
    var ledger := after;
    trace := [];
    if |s.openings| > 0 {
      var raised;
      ledger, trace, raised := DispatchAll(after, order, s.openings, send);
      assert !raised by {
        ScrapedTimesAreReadable(days, scrapeNow);
        CallsReadable(after, order, s.openings);
      }
    }
    assert ledger == after + Written(trace) by {
      if |s.openings| == 0 {
        assert after + Written([]) == after;
      }
    }
    db' := Db(CleanupOldClasses(ledger, cleanupNow), db.roster);
    completed := true;
  }

  /** Deleting the rows of other classes keeps a recipient's notification for this one. */
  lemma InvalidationsKeep(ledger: seq<Record>, keys: seq<SlotKey>, date: string, time: string, email: string)
    requires SlotKey(date, time) !in keys && WasNotified(ledger, date, time, email)
    ensures WasNotified(ApplyInvalidations(ledger, keys), date, time, email)
  {
    var row :| row in ledger && IsRowFor(row, date, time, email);
    assert multiset(ApplyInvalidations(ledger, keys))[row] == multiset(ledger)[row];
    assert row in ApplyInvalidations(ledger, keys);
  }

  /**
    No duplicate notifications across runs: when `main` runs twice over the same schedule, the
    second run's dispatch loop sends nothing. This needs the cleanup between the runs to keep the
    classes (none starts before its minute) and the scrape not to invalidate the slot of an
    opening it also yields, since `delete_class_entries` would then erase that opening's rows.
   */
  lemma SecondRunSendsNothing(ledger: seq<Record>, os: seq<Opening>, keys: seq<SlotKey>,
                              order1: seq<string>, order2: seq<string>, cleanupNow: DateTime)
    requires ValidDateTime(cleanupNow) && 1000 <= cleanupNow.date.year
    requires forall o :: o in os ==> SlotKey(o.date, o.time) !in keys
    requires forall o :: o in os ==> !LexLess(Stamp(o.date, o.time), FormatMinute(cleanupNow))
    requires forall x :: x in order2 ==> x in order1
    ensures var after := ApplyInvalidations(ledger, keys);
      var kept := CleanupOldClasses(after + Written(Calls(after, order1, os)), cleanupNow);
      Calls(ApplyInvalidations(kept, keys), order2, os) == []
  {
    var after := ApplyInvalidations(ledger, keys);
    var grown := after + Written(Calls(after, order1, os));
    var kept := CleanupOldClasses(grown, cleanupNow);
    var again := ApplyInvalidations(kept, keys);
    forall x, o | x in order2 && o in os
      ensures WasNotified(again, o.date, o.time, x)
    {
      NotifiedAfterRerun(after, order1, os, x, o);
      CleanupKeepsCurrent(grown, cleanupNow, o.date, o.time, x);
      InvalidationsKeep(kept, keys, o.date, o.time, x);
    }
    NothingPending(again, order2, os);
  }
}
