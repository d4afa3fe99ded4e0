# Pilates opening notifier: a Dafny model of its notification pipeline

The system checks a studio's weekly class schedule for "Flow 1" / "Flow 1.5"
classes that have open spots. It mails each registered recipient the openings
they have not yet heard about. To avoid duplicate notifications it keeps a
SQLite ledger of the (class date, class time, recipient) triples it has
already mailed.

This project models the logic between the browser and the mail service:

- `Text` (`text.dfy`) — the Python string operations the code relies on:
  `find`, `replace` of one character, slicing with negative bounds, `strip()`
  emptiness, `ljust`, zero-padded decimal fields, and code-point
  lexicographic order. Python `<` on `str` and SQLite's BINARY collation both
  compare text in that order.
- `Times` (`times.dfy`) — the `strptime`/`strftime` formats in use:
  `%I:%M%p`, `%H:%M`, `%Y-%m-%d %H:%M` and `%I:%M %p`. It holds their round
  trips and proves that zero-padded date/time text sorts chronologically.
- `Slots` (`slots.dfy`) holds the opening record and the (date, time) slot key.
  `Options` (`options.dfy`) holds an option type. `Seqs` (`seqs.dfy`) holds an
  order-preserving filter and a map over sequences.
- `Ledger` (`ledger.dfy`) — `database/db.py`:
  - `sent_notifications` is a sequence of rows that may repeat. The table has
    no uniqueness constraint.
  - `recipients` is a set.
  - Modelled: `was_notified`, `save_notification`, `process_openings`,
    `delete_class_entries`, `cleanup_old_classes` (the clock reading is a
    parameter), `add_recipient`, `remove_recipient`, `recipient_exists` and
    `get_all_recipients`.
- `Scraper` (`scraper.dfy`) — the cell loop of `check_class_openings`, as a
  pure function of:
  - the day button's date value,
  - one clock reading,
  - the day's cells, each holding title, start and status texts.

  Each cell is invalidated, emitted, skipped or raises. A day yields its
  openings and invalidation keys in cell order, or stops at the first cell
  whose `strptime` raises.
- `Email` (`email.dfy`) — the body-building loop of `gmail_send_message`.
  For each opening, in order, it does three things:
  - reads the time back with `%H:%M`;
  - appends a fixed-width line;
  - saves a ledger row before the send is attempted.

  The Gmail request is a parameter returning an id or an `HttpError`.
- `Dispatch` (`dispatch.dfy`) — `main`:
  1. The scrape, which applies its invalidations to the ledger as it goes.
  2. The roster read.
  3. The per-recipient loop, which filters and sends only non-empty lists,
     recorded as a trace of send calls.
  4. The final cleanup.

  The main results are:
  - A run's calls go to distinct recipients, each with exactly its unnotified
    openings.
  - A rerun over the same openings sends nothing.
  - Under stated conditions, a second run of `main` over the same schedule
    sends nothing.

The code behaves as follows; where a comment in the code says otherwise, the comment is cited:

- The `Waitlist` and `full` tests are case-sensitive substring tests.
- A malformed start time is not skipped. `strptime` raises `ValueError`, which escapes `check_class_openings` and ends `main` before the roster is read (`Raise`, `ScrapeRaised`).
  - The start text `9:00-9:50AM` is such a time: `Scraper.UnsuffixedStartRaises`.
  - `9:00AM-9:50AM` is read as 09:00: `Scraper.NineAm`, `Scraper.OpenFlowCell`.
- A title without `Flow` is not skipped, although the comment at scraper/scraper.py:134 says only Flow 1 and 1.5 classes are wanted. `find` returns -1 and the label is `title[-1:7]`, so `Barre 1` yields the label `1` (`Scraper.LabelWithoutFlow`). With `Flow` present, only the four characters after the first `Flow` decide the `1` test (`Scraper.LabelHasOne`), so `Flow 10` passes it too.
- The status text is stored as scraped (scraper/scraper.py:150). A status with an embedded newline (HTML whitespace inside the element, say) puts that opening's row over two lines of the mail: the one-line-per-opening layout (`Email.BodyLines`) holds only when no opening's status, label or date contains a newline.
- Rows are saved before the send, not after a successful one.
  - An `HttpError` from the send leaves them in place.
  - A `ValueError` from reading a time back keeps the rows saved before it and escapes `main`.
- The comment at scraper/scraper.py:122 says full, waitlisted and blank classes are skipped; they are in fact invalidated. The invalidation uses the raw start text (`9:00AM-9:50AM`), but rows are stored under the converted `HH:MM` text. The deletion therefore misses those rows unless the raw text happens to be five characters long (`Scraper.InvalidationKeepsConvertedRows`).
  - As a result, "deduplicated and later invalidated" implies "not notified" only when the keys match. `Dispatch.SecondRunSendsNothing` states its assumption about this explicitly.
- The comment at scraper/scraper.py:146 keeps only classes that have not started, and the cleanup (database/db.py:170-171) removes only classes that have started. This holds only for zero-padded day dates without trailing blanks. `%Y-%m-%d %H:%M` accepts a day value such as `2024-06-10 ` (trailing blank) or `2024-06- 9`, and the row keeps the text as scraped. The stamp `2024-06-10  09:00` sorts before `2024-06-10 08:00`, so a cleanup at 08:00 that day deletes the row of a class still to come (`Scraper.BlankDateExpiresEarly`).

## Model

| member | source | states |
|---|---|---|
| Ledger.WasNotified | database/db.py:79-90 | true exactly when some row matches the date, the time and the email |
| Ledger.SaveNotification | database/db.py:106-115 | appends exactly one row, keeping every earlier row; the same key saved twice gives two copies, since the table has no uniqueness constraint (database/db.py:21-30); afterwards the triple counts as notified and no other triple changes |
| Ledger.Unnotified | database/db.py:131-139 | an opening is in the result exactly when it is among the inputs and the recipient was not notified about its date and time |
| Ledger.ProcessOpenings | database/db.py:131-139 | the loop returns the order-preserving sublist of openings the recipient was not notified about |
| Ledger.ProcessOpeningsIdempotent | database/db.py:131-139 | filtering the filtered list again changes nothing |
| Ledger.WasNotifiedOtherRows | main.py:35-38 | rows for other emails do not change whether a recipient was notified |
| Ledger.UnnotifiedOtherRows | main.py:35-38 | rows saved for other recipients leave a recipient's filtered openings unchanged |
| Ledger.DeleteClassEntries | database/db.py:154-165 | removes every row of that date and time for every recipient, keeps all other rows with their multiplicity; afterwards nobody counts as notified for that slot |
| Ledger.Expired | database/db.py:183-185 | a row is expired when its `date time` text sorts strictly before the given minute |
| Ledger.CleanupOldClasses | database/db.py:179-189 | removes exactly the rows whose `date time` text sorts strictly before the current minute in `%Y-%m-%d %H:%M`; a row stamped with the current minute survives |
| Ledger.CleanupKeepsCurrent | database/db.py:183-186 | a notification whose stamp is not before the current minute is still recorded after the cleanup |
| Ledger.CleanupIsChronological | database/db.py:183-185 | for zero-padded stored dates and times, a row is removed exactly when its class minute lies before the current minute |
| Ledger.AddRecipient | database/db.py:202-212 | an email already present leaves the roster as it was and is reported; otherwise exactly that email is added (the UNIQUE column, database/db.py:36) |
| Ledger.RecipientExists | database/db.py:246-254 | the email is in the roster |
| Ledger.RemoveRecipient | database/db.py:225-254 | afterwards the email does not exist and every other recipient still does or still does not |
| Ledger.RecipientExistsAfterUpdates | database/db.py:246-254 | after adding an email it exists and no other answer changes; after removing one it no longer exists and no other answer changes |
| Ledger.GetAllRecipients | database/db.py:267-275 | returns every roster email exactly once |
| Text.Find | scraper/scraper.py:130 | -1 exactly when the pattern does not occur, otherwise the first index where it occurs |
| Text.RemoveAll | scraper/scraper.py:132 | the removed character is gone and every other character keeps its count; a text without it is unchanged, and a one-character text loses that character exactly when it is the removed one, which with `Text.RemoveAllConcat` fixes the order |
| Text.RemoveAllConcat | scraper/scraper.py:132 | removing from two joined texts is removing from each and joining the results |
| Text.Ljust | notif/email_sender.py:60-65 | the text padded on the right with spaces to the width, never truncated |
| Text.PadValue | scraper/scraper.py:138 | reading a zero-padded field back gives the number written |
| Text.LexLess | database/db.py:183-185 | the code-point text order SQLite's `<` applies to the stamps: the first differing character decides, and a proper prefix sorts first |
| Text.LexLessTotal | database/db.py:183-185 | that order is strict and total: two different texts compare one way and never both ways |
| Text.PadLexOrder | database/db.py:183-185 | zero-padded fields of equal width compare as text exactly as their numbers compare |
| Times.ReadClock12 | scraper/scraper.py:137-138 | a time `%I:%M%p` accepts has an hour 1-12 and a minute 0-59; the hour spellings it reads back are stated by `Times.ReadShow12` (one or two digits) and `Times.ReadSpacedShow12` (a space and one digit, CPython's ` [1-9]` alternative of `%I`) |
| Times.ReadClock24 | notif/email_sender.py:58 | a time `%H:%M` accepts has an hour 0-23 and a minute 0-59 |
| Times.ReadDate | scraper/scraper.py:141-143 | a date `%Y-%m-%d` accepts is a calendar date, with month lengths and leap years |
| Times.To24 | scraper/scraper.py:138 | the 24-hour clock shown by `%H:%M` maps back to the same 12-hour time: 12 AM becomes 00, 12 PM stays 12, other PM hours add 12 |
| Times.ReadFormat24 | scraper/scraper.py:138 | the stored `HH:MM` text is read back by `%H:%M` as the same clock |
| Times.ReadShow12 | scraper/scraper.py:137-138 | the schedule's `h:mmAM` spelling of a time is read by `%I:%M%p` as that time |
| Times.ReadSpacedShow12 | scraper/scraper.py:137-138 | a one-digit hour written with a leading space (` 9:00AM`) is read as the same time |
| Times.ReadFormatDate | scraper/scraper.py:141-143 | a zero-padded `YYYY-MM-DD` date is read back by `%Y-%m-%d` as the same date |
| Times.ReadBlankTailDate | scraper/scraper.py:141-143 | a zero-padded date followed by blanks is still read as the same date, since the format's space absorbs them |
| Times.RoundTrip12 | scraper/scraper.py:161-162 | converting a read time to 24-hour and reformatting with `%I:%M %p` gives the same wall-clock time with a zero-padded hour |
| Times.Format12 | notif/email_sender.py:59 | `%I:%M %p` always gives 8 characters, `hh:mm AM` or `hh:mm PM` |
| Times.Reformat12 | notif/email_sender.py:58-59 | the reformat fails exactly when `%H:%M` rejects the stored time, and otherwise gives an 8-character time |
| Times.TwelveHourCases | notif/email_sender.py:58-59 | `%I:%M %p` shows 00:xx as 12:xx AM, 12:xx as 12:xx PM, 13-23 as the hour minus 12 PM, and other hours as AM, all zero-padded |
| Times.StampOrder | database/db.py:183-185 | the text order of two `YYYY-MM-DD HH:MM` stamps is the chronological order of their minutes |
| Scraper.Label | scraper/scraper.py:130-132 | at most 8 characters with no `(`; when the title contains `Flow`, it is `Flow` followed by the (at most) four characters after the first `Flow` with `(` removed; otherwise it is the `title[-1:7]` slice |
| Scraper.LabelHasOne | scraper/scraper.py:130-135 | for a title containing `Flow`, the label passes the `1` test exactly when one of the four characters after the first `Flow` is a `1` |
| Scraper.StartClock | scraper/scraper.py:137-138 | none exactly when `%I:%M%p` rejects the first seven characters with `-` dropped; otherwise a valid 24-hour clock that maps back to the 12-hour time read from them |
| Scraper.Unavailable | scraper/scraper.py:123-127 | the status contains `Waitlist`, is blank after stripping, or contains `full`, all case-sensitive |
| Scraper.ExtractCell | scraper/scraper.py:122-155 | a cell is invalidated exactly when its status is full, waitlisted or blank, under the day's date and the raw start text; an emitted opening carries the status, the label containing `1`, the date and the converted time, and lies strictly after now; the cell raises exactly when it passes the label test and its time or date is unreadable |
| Scraper.Collect | scraper/scraper.py:120-155 | the loop completes exactly when no cell raises, otherwise stops at the first raising cell; every emitted opening and every invalidation key of a completed loop is kept, and nothing else is |
| Scraper.ExtractDay | scraper/scraper.py:120-155 | a day completes exactly when no cell raises; it invalidates every unavailable cell's slot, keeps every emitted opening, and every opening it returns is dated that day, available, labelled with a `1`, in `HH:MM` and in the future |
| Scraper.CollectConcat | scraper/scraper.py:148-155 | the outcome of a run of cells is the outcome of its first part followed by that of its second part |
| Scraper.ExtractDayConcat | scraper/scraper.py:148-155 | openings and invalidations come out in cell order |
| Scraper.ExtractSingleCell | scraper/scraper.py:122-155 | a day of one cell returns that cell's opening or invalidation, nothing, or raises at it |
| Scraper.ApplyInvalidations | scraper/scraper.py:123-128 | after the day's deletions no row of an invalidated slot is left, for any recipient, and other rows keep their multiplicity |
| Scraper.CollectDays | scraper/scraper.py:95-155 | the scrape completes exactly when every day does; every opening it returns comes from one of the days |
| Scraper.CheckClassOpenings | scraper/scraper.py:95-155 | the scrape completes exactly when no day's cell loop raises |
| Scraper.ScrapedOpenings | scraper/scraper.py:120-155 | every opening of a completed scrape belongs to one of the days and passed every test of the cell loop |
| Scraper.ScrapedTimesAreReadable | scraper/scraper.py:137-162 | every scraped time is one the later `%H:%M` read accepts |
| Scraper.EmittedTimesAreReadable | scraper/scraper.py:137-155 | every time a day yields is one the later `%H:%M` read accepts |
| Scraper.StartOfRange | scraper/scraper.py:137-138 | a start written `h:mmAM-...` is read as its first time |
| Scraper.SpacedStartOfRange | scraper/scraper.py:137-138 | a start written ` h:mmAM-...`, with a space before a one-digit hour, is read as its first time too |
| Scraper.InvalidationKeepsConvertedRows | scraper/scraper.py:128 | a full class is invalidated under its raw start text, so a row saved under the converted time survives the deletion when that text is not five characters long |
| Scraper.EmittedSurvivesCleanup | scraper/scraper.py:141-147 | for a zero-padded day date, an opening yielded at a clock reading is not removed by a cleanup run at that reading, whoever its row is for |
| Scraper.BlankDateExpiresEarly | database/db.py:179-189 | a day date with a trailing blank is read as that day, yet its rows sort before every minute of the day and are deleted by any cleanup run on it |
| Scraper.ScrapedSurviveCleanup | scraper/scraper.py:141-147 | a cleanup at the scrape's own clock reading keeps every opening of the scrape, for zero-padded day dates |
| Scraper.EmitCell | scraper/scraper.py:135-155 | an available cell whose label has a `1`, whose time and date read, and that lies in the future yields exactly its opening |
| Scraper.FlowLabel | scraper/scraper.py:130-132 | the title `Flow 1.5 (Mat)` gives the label `Flow 1.5` |
| Scraper.NineAm | scraper/scraper.py:137-138 | the start `9:00AM-9:50AM` is read as 09:00 |
| Scraper.OpenFlowCell | scraper/scraper.py:120-155 | an open `Flow 1.5` class at 9:00 AM on a future day yields one opening with time `09:00` and no invalidation |
| Scraper.WaitlistedCell | scraper/scraper.py:122-128 | the same class when waitlisted yields no opening and invalidates its raw start text |
| Scraper.UnsuffixedStartRaises | scraper/scraper.py:137-138 | a start written `9:00-9:50AM` makes `strptime` raise |
| Scraper.LabelWithoutFlow | scraper/scraper.py:130-132 | the title `Barre 1` yields the label `1`, which passes the `1` test |
| Email.BodyLine | notif/email_sender.py:60-65 | the row followed by a newline, starting with the open-spots text; it is one line of the mail only when no field contains a newline |
| Email.LineColumns | notif/email_sender.py:60-65 | for fields within their widths, the line is 59 characters with the four fields left-aligned at columns 0, 17, 30 and 43, separated by ` \| ` |
| Email.FirstUnreadable | notif/email_sender.py:57-58 | the openings before it all have times `%H:%M` reads, and the one at it does not |
| Email.Rows | notif/email_sender.py:67 | one row per opening, every one for the recipient |
| Email.Body | notif/email_sender.py:57-65 | the body the loop builds: the openings' lines joined in order |
| Email.BodyLines | notif/email_sender.py:57-65 | when no opening's status, label or date contains a newline, the body split at newlines is exactly one row per opening, in input order |
| Email.BodyConcat | notif/email_sender.py:57-65 | the body of two lists of openings is their bodies one after the other |
| Email.GmailSendMessage | notif/email_sender.py:55-89 | saves one row per opening in order before sending; raises exactly when some time is unreadable, keeping the rows saved before it; otherwise sends the full body and returns the id, or nothing after an `HttpError`, without undoing the rows |
| Email.RowsRecordOpenings | notif/email_sender.py:67 | after the rows are saved the recipient counts as notified about each opening |
| Dispatch.CallsOfSound | main.py:35-38 | at most one call per recipient entry, each to a listed recipient with exactly its non-empty filtered list |
| Dispatch.CallsComplete | main.py:35-38 | every recipient with something pending gets a call |
| Dispatch.CallsDistinct | main.py:35-38 | with distinct recipients nobody gets two calls in one run |
| Dispatch.CallsOfNone | main.py:36-40 | when nobody has anything pending no call is made |
| Dispatch.CallsConcat | main.py:35 | recipients are handled in order |
| Dispatch.Wrote | notif/email_sender.py:67 | a call saves rows only for its own recipient |
| Dispatch.WrittenEmails | main.py:35-38 | every row a run saves is for one of the recipients it called |
| Dispatch.NotifyRecipient | main.py:36-40 | filters the openings through the ledger and calls the mailer exactly when the list is non-empty; the ledger gains the call's rows, or those before the unreadable time when it raises |
| Dispatch.DispatchAll | main.py:35-40 | without a raise the trace is one call per recipient with something pending, in order, filtered against the starting ledger, which gains exactly their rows; a raise happens exactly when some call has an unreadable time and ends the loop at that call |
| Dispatch.DispatchNext | main.py:36-40 | one turn extends the trace by the next recipient's call and the ledger by its rows, or ends the loop at the call that raises |
| Dispatch.NextCall | main.py:35-38 | filtering against the ledger grown by the earlier calls gives the same list as filtering against the starting ledger |
| Dispatch.RaisedPrefix | main.py:35-40 | when a call raises, the calls made so far are a prefix of the full run ending in that call |
| Dispatch.WrittenForOthers | main.py:35-38 | the rows saved for earlier recipients are never for the next one |
| Dispatch.WrittenRecordsCalls | main.py:35-40 | after a run every call's recipient counts as notified about each of its openings |
| Dispatch.RerunSendsNothing | main.py:35-40 | rerunning the loop over the same openings against the grown ledger makes no call |
| Dispatch.NothingPending | main.py:35-40 | when everyone was notified about everything the loop makes no call |
| Dispatch.NotifiedAfterRerun | main.py:35-40 | after a run every recipient counts as notified about every opening |
| Dispatch.RerunAfterCleanupSendsNothing | main.py:35-45 | when no opening's `date time` stamp sorts before the cleanup minute as text, a rerun after the cleanup still makes no call |
| Dispatch.CallsReadable | main.py:35-38 | calls made with readable openings never raise in the mailer |
| Dispatch.InvalidationsKeep | scraper/scraper.py:128 | deleting other slots keeps a recipient's notification for this one |
| Dispatch.Run | main.py:27-45 | the roster is untouched; a scrape that raises ends the run with only its invalidations applied and no call; otherwise every recipient is read once, calls are made only when there are openings, and the cleanup runs once at the end over the ledger with the run's rows |
| Dispatch.SecondRunSendsNothing | main.py:27-45 | when the cleanup keeps the openings and the scrape invalidates none of their slots, a second run over the same schedule sends nothing, in whatever order the roster comes back |

## Left out

- Browser navigation (Selenium driver, cookie popup, next-week click, the day-button loop and its waits) and BeautifulSoup selection: a day is given as its button's date value and its cells' texts. The three element lists are taken as parallel, as the code indexes them by the status index.
- The debug print loop after the scrape (scraper/scraper.py:160-171) and every other `print`: output only. Its `%H:%M` read cannot fail on scraped times (`Scraper.ScrapedTimesAreReadable`), and its reformat is `Times.RoundTrip12`.
- `datetime.now()`: the scrape calls it once per candidate cell, that is each available cell whose label passes the `1` test and whose time and date both read. The model takes one clock reading for the whole scrape and another for the cleanup.
- The SQLite connection lifecycle, the DDL and the never-read `sent_at` column. The tables are a sequence of rows and a set of emails.
- OAuth token loading and refresh, `EmailMessage`, base64 encoding and the Gmail API. The send request is a function parameter returning an id or an `HttpError`.
- Email.GmailSendMessage: an `HttpError` from building the service (notif/email_sender.py:52) is treated like one from the send. In the code it is raised before the loop, so no rows are saved; the model saves the rows and then reports the error.
- Exceptions other than `HttpError` from the OAuth steps (notif/email_sender.py:38-49, outside the `try`) or from the send request (for example a network failure) escape `gmail_send_message` and `main` before `cleanup_old_classes` runs. The model's mailer fails only with an `HttpError` or the `ValueError` of an unreadable time.
- `database/manage_users.py`: a command-line wrapper over `add_recipient` and `remove_recipient` with no logic of its own.
- Cross-run concurrency (the check-then-insert race): the model is sequential.
- `strptime` accepts non-ASCII Unicode digits for `\d`, and `%p` is read under the C locale only. The model accepts ASCII digits and `AM`/`PM` in any letter case.
- Years below 1000. `Ledger.CleanupOldClasses` requires a four-digit current year, because `%Y` does not zero-pad smaller years.
- Scraper.CollectDays: states only that each scraped opening comes from some day. It does not state the converse for whole days; the converse is stated per day by `Scraper.ExtractDay`.
- Dispatch.SecondRunSendsNothing: requires that the scrape does not invalidate the slot of an opening it also returns. When it does, `delete_class_entries` erases that opening's rows, and the second run mails it again.
