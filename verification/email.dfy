/**
  The message body and the record-on-send behaviour of `gmail_send_message`
  (`notif/email_sender.py`). OAuth, the `EmailMessage` envelope, base64 and the
  Gmail request are outside the model: the request is a function parameter from
  (recipient, body) to the API's reply.
 */
module Email {
  import Seqs
  import opened Text
  import opened Times
  import opened Slots
  import opened Ledger

  /** The fields of one body line, each padded to its column width, joined by ` | `. */
  function Row(o: Opening, shown: string): string
  {
    Ljust(o.openSpots, 14) + " | " + Ljust(o.level, 10) + " | " + Ljust(o.date, 10) + " | " + Ljust(shown, 15)
  }

  /**
    One line of the body: `"%s | %s | %s | %s\n"` over the padded fields. Where each field
    lands in the line is stated independently by `LineColumns`.
   */
  function BodyLine(o: Opening, shown: string): (r: string)
    ensures |r| > |o.openSpots| && r[|r| - 1] == '\n'
    ensures r[..|o.openSpots|] == o.openSpots
    ensures r[..|r| - 1] == Row(o, shown)
  {
    var row := Row(o, shown);
    assert row[..|o.openSpots|] == o.openSpots;
    row + "\n"
  }

  /** `%I:%M %p` succeeds on the opening's stored time. */
  predicate ReadableTime(o: Opening)
  {
    Reformat12(o.time).Some?
  }

  predicate Readable(os: seq<Opening>)
  {
    forall i :: 0 <= i < |os| ==> ReadableTime(os[i])
  }

  /** The 12-hour time shown for an opening. */
  function Shown(o: Opening): string
    requires ReadableTime(o)
  {
    Reformat12(o.time).value
  }

  /** The body line of one opening. */
  function LineOf(o: Opening): string
    requires ReadableTime(o)
  {
    BodyLine(o, Shown(o))
  }

  /** The body lines, one per opening, in order. */
  function BodyLinesOf(os: seq<Opening>): seq<string>
    requires Readable(os)
  {
    Seqs.Map(os, LineOf)
  }

  /** The body built by the loop: its lines joined in order. */
  function Body(os: seq<Opening>): string
    requires Readable(os)
  {
    Join(BodyLinesOf(os))
  }

  /** The index of the first opening whose time `strptime` rejects, or the number of openings. */
  function FirstUnreadable(os: seq<Opening>): (n: nat)
    ensures n <= |os|
    ensures Readable(os[..n])
    ensures n < |os| ==> !ReadableTime(os[n])
  {
    if |os| == 0 then 0
    else if !ReadableTime(os[0]) then 0
    else
      var m := FirstUnreadable(os[1..]);
      ReadableCons(os, m);
      1 + m
  }

  lemma ReadableCons(os: seq<Opening>, m: nat)
    requires 0 < |os| && m < |os| && ReadableTime(os[0]) && Readable(os[1..][..m])
    ensures Readable(os[..m + 1])
  {
    var t, u := os[..m + 1], os[1..][..m];
    forall i | 0 <= i < |t|
      ensures ReadableTime(t[i])
    {
      if i > 0 {
        assert t[i] == u[i - 1];
      }
    }
  }

  /** The ledger rows `save_notification` writes for a list of openings and one recipient, in order. */
  function Rows(os: seq<Opening>, email: string): (r: seq<Record>)
    ensures |r| == |os|
    ensures forall i :: 0 <= i < |os| ==> r[i].email == email
  {
    seq(|os|, i requires 0 <= i < |os| => Record(os[i].date, os[i].time, os[i].level, email))
  }

  // ---------------------------------------------------------------- reading the body back

  /** The length of the first line of `s`: the index of its first newline, or `|s|`. */
  function LineEnd(s: string): (k: nat)
    ensures k <= |s|
    ensures '\n' !in s[..k]
    ensures k < |s| ==> s[k] == '\n'
  {
    if |s| == 0 || s[0] == '\n' then 0
    else
      var k := 1 + LineEnd(s[1..]);
      assert s[..k] == [s[0]] + s[1..][..k - 1];
      k
  }

  /** The lines of a text, each without its terminating newline. */
  function SplitLines(s: string): seq<string>
    decreases |s|
  {
    if |s| == 0 then []
    else
      var k := LineEnd(s);
      if k == |s| then [s] else [s[..k]] + SplitLines(s[k + 1..])
  }

  lemma SplitLinesCons(line: string, rest: string)
    requires '\n' !in line
    ensures SplitLines(line + "\n" + rest) == [line] + SplitLines(rest)
  {
    var s := line + "\n" + rest;
    var k := LineEnd(s);
    assert s[|line|] == '\n';
    assert forall j :: 0 <= j < |line| ==> s[j] == line[j];
    assert k == |line|;
    assert s[..k] == line;
    assert s[k + 1..] == rest;
  }

  /** No field of the opening, nor the shown time, contains a newline. */
  predicate SingleLine(o: Opening)
  {
    '\n' !in o.openSpots && '\n' !in o.level && '\n' !in o.date
  }

  lemma Format12SingleLine(c: Clock)
    requires ValidClock(c)
    ensures '\n' !in Format12(c)
  {
    var t := From24(c);
    var h, m := Pad(t.hour, 2), Pad(t.minute, 2);
    assert '\n' !in h && '\n' !in m;
    assert Format12(c) == h + ":" + m + " " + (if t.pm then "PM" else "AM");
  }

  lemma RowSingleLine(o: Opening, shown: string)
    requires SingleLine(o) && '\n' !in shown
    ensures '\n' !in Row(o, shown)
  {
    var a, b, c, d := Ljust(o.openSpots, 14), Ljust(o.level, 10), Ljust(o.date, 10), Ljust(shown, 15);
    assert forall s: string, w: nat, i :: 0 <= i < |Ljust(s, w)| && '\n' !in s ==> Ljust(s, w)[i] != '\n' by {
      forall s: string, w: nat, i | 0 <= i < |Ljust(s, w)| && '\n' !in s
        ensures Ljust(s, w)[i] != '\n'
      {
        if i < |s| {
          assert Ljust(s, w)[..|s|][i] == s[i];
        }
      }
    }
    assert '\n' !in a && '\n' !in b && '\n' !in c && '\n' !in d;
  }

  /** Each line without its final character. */
  function Chomped(ls: seq<string>): (r: seq<string>)
    requires forall i :: 0 <= i < |ls| ==> |ls[i]| > 0
    ensures |r| == |ls|
    ensures forall i :: 0 <= i < |ls| ==> r[i] == ls[i][..|ls[i]| - 1]
  {
    if |ls| == 0 then [] else [ls[0][..|ls[0]| - 1]] + Chomped(ls[1..])
  }

  /** Lines that each drop to the given rows once their last character goes. */
  lemma ChompedIs(ls: seq<string>, rows: seq<string>)
    requires |ls| == |rows|
    requires forall i :: 0 <= i < |ls| ==> |ls[i]| > 0 && ls[i][..|ls[i]| - 1] == rows[i]
    ensures Chomped(ls) == rows
  {
  }

  /** Lines that each end in their only newline are read back as they were, without it. */
  lemma {:induction false} SplitJoin(ls: seq<string>)
    requires forall i :: 0 <= i < |ls| ==> |ls[i]| > 0 && ls[i][|ls[i]| - 1] == '\n' && '\n' !in ls[i][..|ls[i]| - 1]
    ensures SplitLines(Join(ls)) == Chomped(ls)
  {
    if |ls| > 0 {
      var line, rest := ls[0][..|ls[0]| - 1], ls[1..];
      assert ls[0] == line + "\n";
      assert Join(ls) == line + "\n" + Join(rest);
      SplitLinesCons(line, Join(rest));
      SplitJoin(rest);
    }
  }

  /** The padded fields of one opening, as its body line shows them. */
  function RowOf(o: Opening): string
    requires ReadableTime(o)
  {
    Row(o, Shown(o))
  }

  /** An opening's line is its row and a newline, and the row has no newline of its own. */
  lemma LineOfParts(o: Opening)
    requires ReadableTime(o) && SingleLine(o)
    ensures |LineOf(o)| > 0 && LineOf(o)[|LineOf(o)| - 1] == '\n'
    ensures LineOf(o)[..|LineOf(o)| - 1] == RowOf(o) && '\n' !in RowOf(o)
  {
    Format12SingleLine(ReadClock24(o.time).value);
    RowSingleLine(o, Shown(o));
  }

  /**
    The body read back line by line gives exactly one line per opening, in input order, each
    being that opening's padded fields (email_sender.py:57-65).
   */
  lemma BodyLines(os: seq<Opening>)
    requires Readable(os)
    requires forall i :: 0 <= i < |os| ==> SingleLine(os[i])
    ensures SplitLines(Body(os)) == Seqs.Map(os, RowOf)
  {
    var ls := BodyLinesOf(os);
    BodyLinesOfParts(os);
    SplitJoin(ls);
    ChompedIs(ls, Seqs.Map(os, RowOf));
  }

  lemma BodyLinesOfParts(os: seq<Opening>)
    requires Readable(os)
    requires forall i :: 0 <= i < |os| ==> SingleLine(os[i])
    ensures var ls := BodyLinesOf(os);
      forall i :: 0 <= i < |ls| ==>
        && |ls[i]| > 0 && ls[i][|ls[i]| - 1] == '\n' && '\n' !in ls[i][..|ls[i]| - 1]
        && ls[i][..|ls[i]| - 1] == RowOf(os[i])
  {
    var ls := BodyLinesOf(os);
    forall i | 0 <= i < |ls|
      ensures |ls[i]| > 0 && ls[i][|ls[i]| - 1] == '\n' && '\n' !in ls[i][..|ls[i]| - 1]
      ensures ls[i][..|ls[i]| - 1] == RowOf(os[i])
    {
      LineOfParts(os[i]);
    }
  }

  lemma ReadableConcat(a: seq<Opening>, b: seq<Opening>)
    requires Readable(a) && Readable(b)
    ensures Readable(a + b)
  {
    forall i | 0 <= i < |a + b|
      ensures ReadableTime((a + b)[i])
    {
      if i < |a| {
        assert (a + b)[i] == a[i];
      } else {
        assert (a + b)[i] == b[i - |a|];
      }
    }
  }

  /** The body of a concatenation is the concatenation of the bodies. */
  lemma BodyConcat(a: seq<Opening>, b: seq<Opening>)
    requires Readable(a) && Readable(b)
    ensures Readable(a + b)
    ensures Body(a + b) == Body(a) + Body(b)
  {
    ReadableConcat(a, b);
    Seqs.MapConcat(a, b, LineOf);
    JoinConcat(BodyLinesOf(a), BodyLinesOf(b));
  }

  /** With fields that fit their columns, the separators sit at fixed columns and each line is 59 characters. */
  lemma LineColumns(o: Opening, shown: string)
    requires |o.openSpots| <= 14 && |o.level| <= 10 && |o.date| <= 10 && |shown| <= 15
    ensures var r := BodyLine(o, shown);
      && |r| == 59
      && r[14..17] == " | " && r[27..30] == " | " && r[40..43] == " | "
      && r[..|o.openSpots|] == o.openSpots
      && r[17..17 + |o.level|] == o.level
      && r[30..30 + |o.date|] == o.date
      && r[43..43 + |shown|] == shown
      && r[58] == '\n'
  {
    var a, b, c, d := Ljust(o.openSpots, 14), Ljust(o.level, 10), Ljust(o.date, 10), Ljust(shown, 15);
    var r := BodyLine(o, shown);
    assert r == a + " | " + b + " | " + c + " | " + d + "\n";
    assert r[17..27] == b;
    assert r[30..40] == c;
    assert r[43..58] == d;
  }

  // ---------------------------------------------------------------- sending

  /** What the Gmail `send` request answers. */
  datatype Reply = Accepted(id: string) | HttpError(reason: string)

  /**
    What `gmail_send_message` ends with: the API's answer on success, `None` after an
    `HttpError`, or a `ValueError` from `strptime` that escapes to the caller.
   */
  datatype SendOutcome = Sent(id: string) | NotSent | Raised

  lemma RowsSnoc(os: seq<Opening>, i: nat, email: string)
    requires i < |os|
    ensures Rows(os[..i + 1], email) == Rows(os[..i], email) + [Record(os[i].date, os[i].time, os[i].level, email)]
  {
  }

  lemma BodySnoc(os: seq<Opening>, i: nat)
    requires i < |os| && Readable(os[..i]) && ReadableTime(os[i])
    ensures Readable(os[..i + 1])
    ensures Body(os[..i + 1]) == Body(os[..i]) + BodyLine(os[i], Shown(os[i]))
  {
    assert os[..i + 1] == os[..i] + [os[i]];
    assert Body([os[i]]) == BodyLine(os[i], Shown(os[i])) by {
      assert BodyLinesOf([os[i]]) == [LineOf(os[i])];
      assert Join([BodyLine(os[i], Shown(os[i]))]) == BodyLine(os[i], Shown(os[i])) + Join([]);
    }
    BodyConcat(os[..i], [os[i]]);
  }

  lemma {:induction false} FirstUnreadableAt(os: seq<Opening>, i: nat)
    requires i < |os| && Readable(os[..i]) && !ReadableTime(os[i])
    ensures FirstUnreadable(os) == i
  {
    if i > 0 {
      assert ReadableTime(os[..i][0]);
      var q := os[1..][..i - 1];
      assert Readable(q) by {
        forall j | 0 <= j < |q|
          ensures ReadableTime(q[j])
        {
          assert q[j] == os[..i][j + 1];
        }
      }
      FirstUnreadableAt(os[1..], i - 1);
    }
  }

  /**
    `gmail_send_message`: for each opening in order, format its line and save its ledger row;
    then send the body once. A time `strptime` rejects raises after the rows of the earlier
    openings were saved; an `HttpError` leaves every saved row in place.
   */
  method GmailSendMessage(ledger: seq<Record>, openings: seq<Opening>, recipient: string,
                          send: (string, string) -> Reply)
    returns (ledger': seq<Record>, outcome: SendOutcome)
    ensures ledger' == ledger + Rows(openings[..FirstUnreadable(openings)], recipient)
    ensures outcome.Raised? <==> !Readable(openings)
    ensures !outcome.Raised? ==>
      outcome == match send(recipient, Body(openings)) case Accepted(id) => Sent(id) case HttpError(_) => NotSent
  {
    var message := "";
    ledger' := ledger;
    var i := 0;
    while i < |openings|
      invariant 0 <= i <= |openings|
      invariant Readable(openings[..i])
      invariant message == Body(openings[..i])
      invariant ledger' == ledger + Rows(openings[..i], recipient)
    {
      var o := openings[i];
      var shown := Reformat12(o.time);
      if shown.None? {
        SendStopsAt(ledger, openings, i, recipient, ledger');
        outcome := Raised;
        return;
      }
      BodySnoc(openings, i);
      SaveStep(ledger, openings, i, recipient, ledger');
      message := message + BodyLine(o, shown.value);
      ledger' := SaveNotification(ledger', o.date, o.time, o.level, recipient);
      i := i + 1;
    }
    SendDone(ledger, openings, recipient, ledger');
    assert openings[..i] == openings;
    var reply := send(recipient, message);
    match reply
    case Accepted(id) => outcome := Sent(id);
    case HttpError(_) => outcome := NotSent;
  }

  /** One opening saved: the ledger holds one more of the call's rows. */
  lemma SaveStep(ledger: seq<Record>, os: seq<Opening>, i: nat, email: string, current: seq<Record>)
    requires i < |os| && current == ledger + Rows(os[..i], email)
    ensures SaveNotification(current, os[i].date, os[i].time, os[i].level, email) == ledger + Rows(os[..i + 1], email)
  {
    RowsSnoc(os, i, email);
  }

  /** An unreadable time stops the loop with the rows of the openings before it saved. */
  lemma SendStopsAt(ledger: seq<Record>, os: seq<Opening>, i: nat, email: string, current: seq<Record>)
    requires i < |os| && Readable(os[..i]) && !ReadableTime(os[i])
    requires current == ledger + Rows(os[..i], email)
    ensures current == ledger + Rows(os[..FirstUnreadable(os)], email)
    ensures !Readable(os)
  {
    FirstUnreadableAt(os, i);
  }

  /** A loop that reaches the end has saved a row for every opening. */
  lemma SendDone(ledger: seq<Record>, os: seq<Opening>, email: string, current: seq<Record>)
    requires Readable(os[..|os|]) && current == ledger + Rows(os[..|os|], email)
    ensures Readable(os) && FirstUnreadable(os) == |os|
    ensures current == ledger + Rows(os[..FirstUnreadable(os)], email) && current == ledger + Rows(os, email)
  {
    assert os[..|os|] == os;
  }

  /** When every time is readable, the loop saves a row for every opening. */
  lemma AllRowsSaved(ledger: seq<Record>, os: seq<Opening>, email: string)
    requires Readable(os)
    ensures ledger + Rows(os[..FirstUnreadable(os)], email) == ledger + Rows(os, email)
  {
    assert os[..|os|] == os;
  }

  /** After the saves, the recipient counts as notified about every opening before the first unreadable one. */
  lemma RowsRecordOpenings(ledger: seq<Record>, os: seq<Opening>, email: string)
    ensures forall i :: 0 <= i < |os| ==> WasNotified(ledger + Rows(os, email), os[i].date, os[i].time, email)
  {
    forall i | 0 <= i < |os|
      ensures WasNotified(ledger + Rows(os, email), os[i].date, os[i].time, email)
    {
      var row := Rows(os, email)[i];
      assert (ledger + Rows(os, email))[|ledger| + i] == row;
      assert row in ledger + Rows(os, email);
      assert IsRowFor(row, os[i].date, os[i].time, email);
    }
  }
}
