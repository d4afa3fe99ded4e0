/**
  Per-day extraction of class openings (`scraper/scraper.py`, the cell loop of
  `check_class_openings`). The browser walk that produces each day's rendered
  page is outside the model: a day is given as its button's date value and the
  schedule cells in document order, each cell carrying the texts of its title,
  start and status elements (the source indexes the three element lists by the
  status index, so they are taken as parallel).
 */
module Scraper {
  import opened Options
  import opened Seqs
  import opened Text
  import opened Times
  import opened Slots
  import opened Ledger

  datatype Cell = Cell(title: string, start: string, status: string)

  /** A full, waitlisted or blank status: the cell's slot is invalidated instead of considered. */
  predicate Unavailable(status: string)
  {
    Contains(status, "Waitlist") || IsBlank(status) || Contains(status, "full")
  }

  /** The (at most) four characters of the title that follow its first `Flow`. */
  function FlowTail(title: string): string
    requires Contains(title, "Flow")
  {
    var k := Find(title, "Flow");
    title[k + 4..if k + 8 <= |title| then k + 8 else |title|]
  }

  /**
    The class label: the (at most) 8 characters from the first `Flow` with every `(` removed,
    that is `Flow` followed by the next (at most) four characters of the title without `(`.
    When `Flow` is missing, `find` yields -1 and the slice `title[-1:7]` is the last character
    of a title of 1 to 7 characters, and empty otherwise.
   */
  function Label(title: string): (r: string)
    ensures |r| <= 8
    ensures '(' !in r
    ensures Contains(title, "Flow") ==> r == "Flow" + RemoveAll(FlowTail(title), '(')
    ensures !Contains(title, "Flow") ==>
      r == if 1 <= |title| <= 7 && title[|title| - 1] != '(' then [title[|title| - 1]] else ""
  {
    var k := Find(title, "Flow");
    var r := RemoveAll(PySlice(title, k, k + 8), '(');
    if k != -1 then
      LabelFound(title, k);
      r
    else
      LabelMissing(title);
      r
  }

  lemma LabelFound(title: string, k: int)
    requires k != -1 && k == Find(title, "Flow")
    ensures Contains(title, "Flow")
    ensures var r := RemoveAll(PySlice(title, k, k + 8), '(');
      |r| <= 8 && r == "Flow" + RemoveAll(FlowTail(title), '(')
  {
    FlowPiece(title, k);
    RemoveAllKeepsFlow(PySlice(title, k, k + 8));
  }

  /** The slice `title[k:k + 8]` at the first `Flow`: that word and then the title's `FlowTail`. */
  lemma FlowPiece(title: string, k: int)
    requires k != -1 && k == Find(title, "Flow")
    ensures Contains(title, "Flow")
    ensures var piece := PySlice(title, k, k + 8);
      4 <= |piece| <= 8 && piece[..4] == "Flow" && piece[4..] == FlowTail(title)
  {
    var hi := if k + 8 <= |title| then k + 8 else |title|;
    assert PySlice(title, k, k + 8) == title[k..hi];
  }

  lemma RemoveAllKeepsFlow(piece: string)
    requires |piece| >= 4 && piece[..4] == "Flow"
    ensures var r := RemoveAll(piece, '('); |r| <= |piece| && r == "Flow" + RemoveAll(piece[4..], '(')
  {
    assert '(' !in piece[..4];
    RemoveAllKeepsHead(piece, 4, '(');
  }

  /** A head free of `c` is kept whole, followed by the rest without `c`. */
  lemma RemoveAllKeepsHead(piece: string, n: nat, c: char)
    requires n <= |piece| && c !in piece[..n]
    ensures var r := RemoveAll(piece, c); |r| <= |piece| && r == piece[..n] + RemoveAll(piece[n..], c)
  {
    assert piece == piece[..n] + piece[n..];
    RemoveAllConcat(piece[..n], piece[n..], c);
  }

  /**
    The level test of the loop on a title containing `Flow`: the label has a `1` exactly when
    one of the four characters after the first `Flow` is a `1`.
   */
  lemma LabelHasOne(title: string)
    requires Contains(title, "Flow")
    ensures Contains(Label(title), "1") <==> '1' in FlowTail(title)
  {
    OneAfterFlow(FlowTail(title));
  }

  /** `Flow` has no `1`, and removing `(` keeps every `1`. */
  lemma OneAfterFlow(tail: string)
    ensures Contains("Flow" + RemoveAll(tail, '('), "1") <==> '1' in tail
  {
    var rest := RemoveAll(tail, '(');
    ContainsChar("Flow" + rest, '1');
    assert "1" == ['1'];
    assert '1' in "Flow" + rest <==> '1' in rest by {
      assert '1' !in "Flow";
    }
    assert '1' in rest <==> '1' in tail by {
      assert multiset(rest)['1'] == multiset(tail)['1'];
    }
  }

  lemma LabelMissing(title: string)
    ensures RemoveAll(PySlice(title, -1, 7), '(') ==
      if 1 <= |title| <= 7 && title[|title| - 1] != '(' then [title[|title| - 1]] else ""
  {
    var piece := PySlice(title, -1, 7);
    var last := if |title| > 0 then title[|title| - 1] else '(';
    assert piece == if 1 <= |title| <= 7 then [last] else "";
    Seqs.KeepSingleton(last, Except('('));
  }

  /** The start time: the first 7 characters with `-` removed, read as `%I:%M%p`, in 24-hour form. */
  function StartClock(start: string): (r: Option<Clock>)
    ensures r.Some? ==> ValidClock(r.value)
    ensures r.Some? <==> ReadClock12(RemoveAll(Take(start, 7), '-')).Some?
    ensures r.Some? ==> From24(r.value) == ReadClock12(RemoveAll(Take(start, 7), '-')).value
  {
    var c := ReadClock12(RemoveAll(Take(start, 7), '-'));
    if c.None? then None else Some(To24(c.value))
  }

  /** What the loop does with one cell. `Raise` is an uncaught `ValueError` from `strptime`. */
  datatype CellResult = Invalidate(key: SlotKey) | Emit(opening: Opening) | Skip | Raise

  /** The opening a cell yields: raw status, label, day date and converted start time of a future class. */
  predicate IsOpeningOf(o: Opening, date: string, now: DateTime, cell: Cell)
  {
    && o.openSpots == cell.status
    && o.level == Label(cell.title)
    && o.date == date
    && StartClock(cell.start).Some?
    && o.time == Format24(StartClock(cell.start).value)
    && ReadDate(date).Some?
    && Before(now, ClassInstant(ReadDate(date).value, StartClock(cell.start).value))
  }

  /**
    One iteration of the cell loop (scraper.py:122-155). The instant is parsed from
    `date + " " + time`; since the time is always `HH:MM`, that parse succeeds exactly when
    `ReadDate` accepts the date.
   */
  function ExtractCell(date: string, now: DateTime, cell: Cell): (r: CellResult)
    ensures r.Invalidate? <==> Unavailable(cell.status)
    ensures r.Invalidate? ==> r.key == SlotKey(date, cell.start)
    ensures r.Emit? ==> IsOpeningOf(r.opening, date, now, cell)
    ensures r.Emit? ==> Contains(r.opening.level, "1") && |r.opening.level| <= 8 && '(' !in r.opening.level
    ensures r.Emit? ==> ReadClock24(r.opening.time) == StartClock(cell.start)
    ensures r.Raise? <==> (!Unavailable(cell.status) && Contains(Label(cell.title), "1")
                           && (StartClock(cell.start).None? || ReadDate(date).None?))
    ensures r.Skip? ==> !Contains(Label(cell.title), "1") || !Before(now, ClassInstant(ReadDate(date).value, StartClock(cell.start).value))
  {
    if Unavailable(cell.status) then Invalidate(SlotKey(date, cell.start))
    else
      var name := Label(cell.title);
      if !Contains(name, "1") then Skip
      else
        var clock := StartClock(cell.start);
        if clock.None? then Raise
        else
          var time := Format24(clock.value);
          ReadFormat24(clock.value);
          var day := ReadDate(date);
          if day.None? then Raise
          else if Before(now, ClassInstant(day.value, clock.value)) then Emit(Opening(cell.status, name, date, time))
          else Skip
  }

  /**
    The outcome of one day's loop. On `Raised` the exception escapes `check_class_openings`,
    the openings gathered so far are lost, but the invalidations already issued have reached
    the ledger.
   */
  datatype DayResult =
    | Completed(openings: seq<Opening>, invalidations: seq<SlotKey>)
    | Raised(cell: nat, invalidations: seq<SlotKey>)

  /** The outcome of running `first`'s cells and then `second`'s, where `first` has `n` cells. */
  function Then(first: DayResult, second: DayResult, n: nat): DayResult
  {
    match first
    case Raised(_, _) => first
    case Completed(o1, i1) =>
      match second
      case Completed(o2, i2) => Completed(o1 + o2, i1 + i2)
      case Raised(k, i2) => Raised(n + k, i1 + i2)
  }

  /** The per-cell outcomes of a day, in document order. */
  function Outcomes(date: string, now: DateTime, cells: seq<Cell>): (r: seq<CellResult>)
    ensures |r| == |cells|
    ensures forall i :: 0 <= i < |cells| ==> r[i] == ExtractCell(date, now, cells[i])
  {
    seq(|cells|, i requires 0 <= i < |cells| => ExtractCell(date, now, cells[i]))
  }

  /**
    The loop's accumulation: openings and invalidations in cell order, stopping at the first
    cell that raises.
   */
  function Collect(results: seq<CellResult>): (r: DayResult)
    decreases |results|
    ensures r.Completed? <==> forall i :: 0 <= i < |results| ==> !results[i].Raise?
    ensures r.Raised? ==> r.cell < |results| && results[r.cell].Raise?
    ensures r.Raised? ==> forall i :: 0 <= i < r.cell ==> !results[i].Raise?
    ensures r.Completed? ==> |r.openings| + |r.invalidations| <= |results|
    ensures r.Completed? ==> forall o :: o in r.openings ==> Emit(o) in results
    ensures r.Completed? ==> forall i :: 0 <= i < |results| && results[i].Emit? ==> results[i].opening in r.openings
    ensures forall k :: k in r.invalidations ==> Invalidate(k) in results
    ensures r.Completed? ==> forall i :: 0 <= i < |results| && results[i].Invalidate? ==> results[i].key in r.invalidations
  {
    if |results| == 0 then Completed([], [])
    else
      var n := |results| - 1;
      var prev := Collect(results[..n]);
      assert forall i :: 0 <= i < n ==> results[..n][i] == results[i];
      assert forall x :: x in results[..n] ==> x in results;
      if prev.Raised? then prev
      else
        match results[n]
        case Invalidate(key) => Completed(prev.openings, prev.invalidations + [key])
        case Emit(o) => Completed(prev.openings + [o], prev.invalidations)
        case Skip => prev
        case Raise => Raised(n, prev.invalidations)
  }

  /** The cell loop for one day. */
  function ExtractDay(date: string, now: DateTime, cells: seq<Cell>): (r: DayResult)
    ensures r.Completed? <==> forall i :: 0 <= i < |cells| ==> !ExtractCell(date, now, cells[i]).Raise?
    ensures r.Raised? ==> r.cell < |cells| && ExtractCell(date, now, cells[r.cell]).Raise?
    ensures r.Raised? ==> forall i :: 0 <= i < r.cell ==> !ExtractCell(date, now, cells[i]).Raise?
    ensures r.Completed? ==> forall i :: 0 <= i < |cells| && Unavailable(cells[i].status) ==>
      SlotKey(date, cells[i].start) in r.invalidations
    ensures r.Completed? ==> forall i :: 0 <= i < |cells| && ExtractCell(date, now, cells[i]).Emit? ==>
      ExtractCell(date, now, cells[i]).opening in r.openings
    ensures forall k :: k in r.invalidations ==> k.date == date
    ensures r.Completed? ==> forall o :: o in r.openings ==> YieldedOpening(o, date, now)
  {
    CollectedParts(date, now, cells);
    Collect(Outcomes(date, now, cells))
  }

  /** What the accumulation keeps of the cells' outcomes: keys of the day, and openings the loop yields. */
  lemma CollectedParts(date: string, now: DateTime, cells: seq<Cell>)
    ensures var r := Collect(Outcomes(date, now, cells));
      && (forall k :: k in r.invalidations ==> k.date == date)
      && (r.Completed? ==> forall o :: o in r.openings ==> YieldedOpening(o, date, now))
  {
    var results := Outcomes(date, now, cells);
    var r := Collect(results);
    assert forall k :: k in r.invalidations ==> k.date == date by {
      forall k | k in r.invalidations
        ensures k.date == date
      {
        var i :| 0 <= i < |results| && results[i] == Invalidate(k);
      }
    }
    assert r.Completed? ==> forall o :: o in r.openings ==> YieldedOpening(o, date, now) by {
      if r.Completed? {
        forall o | o in r.openings
          ensures YieldedOpening(o, date, now)
        {
          var i :| 0 <= i < |results| && results[i] == Emit(o);
        }
      }
    }
  }

  /**
    What every yielded opening satisfies: it belongs to the day, its status was not full,
    waitlisted or blank, its label names a level with a `1`, its time is a 24-hour `HH:MM`
    time and the class starts strictly after `now`.
   */
  predicate YieldedOpening(o: Opening, date: string, now: DateTime)
  {
    && o.date == date
    && !Unavailable(o.openSpots)
    && Contains(o.level, "1") && |o.level| <= 8 && '(' !in o.level
    && ReadClock24(o.time).Some? && o.time == Format24(ReadClock24(o.time).value)
    && ReadDate(date).Some?
    && Before(now, ClassInstant(ReadDate(date).value, ReadClock24(o.time).value))
  }

  /** Cells are processed in order: a day's outcome is its first part's followed by its second part's. */
  lemma {:induction false} CollectConcat(a: seq<CellResult>, b: seq<CellResult>)
    ensures Collect(a + b) == Then(Collect(a), Collect(b), |a|)
    decreases |b|
  {
    if |b| == 0 {
      assert a + b == a;
      var r := Collect(a);
      if r.Completed? {
        assert r.openings + [] == r.openings && r.invalidations + [] == r.invalidations;
      }
    } else {
      var n := |b| - 1;
      assert (a + b)[..|a + b| - 1] == a + b[..n];
      assert (a + b)[|a + b| - 1] == b[n];
      CollectConcat(a, b[..n]);
      var ra := Collect(a);
      var rb := Collect(b[..n]);
      if ra.Completed? && rb.Completed? {
        match b[n]
        case Invalidate(key) =>
          assert ra.invalidations + (rb.invalidations + [key]) == (ra.invalidations + rb.invalidations) + [key];
        case Emit(o) =>
          assert ra.openings + (rb.openings + [o]) == (ra.openings + rb.openings) + [o];
        case Skip =>
        case Raise =>
      }
    }
  }

  /** Openings and invalidations come out in cell order. */
  lemma ExtractDayConcat(date: string, now: DateTime, a: seq<Cell>, b: seq<Cell>)
    ensures ExtractDay(date, now, a + b) == Then(ExtractDay(date, now, a), ExtractDay(date, now, b), |a|)
  {
    var oa, ob, oab := Outcomes(date, now, a), Outcomes(date, now, b), Outcomes(date, now, a + b);
    assert oab == oa + ob by {
      forall i | 0 <= i < |oab|
        ensures oab[i] == (oa + ob)[i]
      {
        if i < |a| {
          assert (a + b)[i] == a[i];
          assert (oa + ob)[i] == oa[i];
        } else {
          assert (a + b)[i] == b[i - |a|];
          assert (oa + ob)[i] == ob[i - |a|];
        }
      }
    }
    CollectConcat(oa, ob);
  }

  /** The invalidations of a day applied one after another with `delete_class_entries`. */
  function ApplyInvalidations(ledger: seq<Record>, keys: seq<SlotKey>): (r: seq<Record>)
    decreases |keys|
    ensures forall row :: multiset(r)[row] == if SlotKey(row.date, row.time) in keys then 0 else multiset(ledger)[row]
    ensures forall k, e :: k in keys ==> !WasNotified(r, k.date, k.time, e)
  {
    if |keys| == 0 then ledger
    else
      assert keys == [keys[0]] + keys[1..];
      ApplyInvalidations(DeleteClassEntries(ledger, keys[0].date, keys[0].time), keys[1..])
  }

  // ---------------------------------------------------------------- all days

  /** One day button: its `value` date and the cells of the page rendered after clicking it. */
  datatype Day = Day(date: string, cells: seq<Cell>)

  /**
    The outcome of `check_class_openings` over its days. `ScrapeRaised` is the `ValueError` that
    escapes to `main`; in both cases the invalidations issued so far have reached the ledger.
   */
  datatype Scrape =
    | Scraped(openings: seq<Opening>, invalidations: seq<SlotKey>)
    | ScrapeRaised(invalidations: seq<SlotKey>)

  /** The outcome of each day's cell loop, in button order. */
  function DayOutcomes(days: seq<Day>, now: DateTime): (r: seq<DayResult>)
    ensures |r| == |days|
    ensures forall k :: 0 <= k < |days| ==> r[k] == ExtractDay(days[k].date, now, days[k].cells)
  {
    seq(|days|, k requires 0 <= k < |days| => ExtractDay(days[k].date, now, days[k].cells))
  }

  /** The day loop's accumulation: openings and invalidations in day order, stopping at the first day that raises. */
  function CollectDays(results: seq<DayResult>): (r: Scrape)
    decreases |results|
    ensures r.Scraped? <==> forall k :: 0 <= k < |results| ==> results[k].Completed?
    ensures r.Scraped? ==> forall o :: o in r.openings ==> exists k :: 0 <= k < |results| && o in results[k].openings
  {
    if |results| == 0 then Scraped([], [])
    else
      var n := |results| - 1;
      var prev := CollectDays(results[..n]);
      assert forall k :: 0 <= k < n ==> results[..n][k] == results[k];
      if prev.ScrapeRaised? then prev
      else
        match results[n]
        case Completed(os, ks) => Scraped(prev.openings + os, prev.invalidations + ks)
        case Raised(_, ks) => ScrapeRaised(prev.invalidations + ks)
  }

  /** The day loop of `check_class_openings`, with the browser steps that produce each page left out. */
  function CheckClassOpenings(days: seq<Day>, now: DateTime): (r: Scrape)
    ensures r.Scraped? <==> forall k :: 0 <= k < |days| ==> ExtractDay(days[k].date, now, days[k].cells).Completed?
  {
    CollectDays(DayOutcomes(days, now))
  }

  /** An opening belongs to one of the days and satisfies everything the cell loop checks. */
  predicate FromSomeDay(o: Opening, days: seq<Day>, now: DateTime)
  {
    exists k :: 0 <= k < |days| && YieldedOpening(o, days[k].date, now)
  }

  /**
    Every opening of a completed scrape was yielded by one of the days: it is available, has a
    `1` in its label, an `HH:MM` time and lies in the future.
   */
  lemma ScrapedOpenings(days: seq<Day>, now: DateTime)
    requires CheckClassOpenings(days, now).Scraped?
    ensures forall o :: o in CheckClassOpenings(days, now).openings ==> FromSomeDay(o, days, now)
  {
    var results := DayOutcomes(days, now);
    forall o | o in CheckClassOpenings(days, now).openings
      ensures FromSomeDay(o, days, now)
    {
      var k :| 0 <= k < |results| && o in results[k].openings;
      assert YieldedOpening(o, days[k].date, now);
    }
  }

  /** Every opening of a completed scrape has a time the mailer can show. */
  lemma ScrapedTimesAreReadable(days: seq<Day>, now: DateTime)
    requires CheckClassOpenings(days, now).Scraped?
    ensures forall o :: o in CheckClassOpenings(days, now).openings ==> Reformat12(o.time).Some?
  {
    ScrapedOpenings(days, now);
  }

  // ---------------------------------------------------------------- consequences

  /** A day of one cell: the cell's own outcome. */
  lemma ExtractSingleCell(date: string, now: DateTime, cell: Cell)
    ensures ExtractDay(date, now, [cell]) == match ExtractCell(date, now, cell)
      case Invalidate(key) => Completed([], [key])
      case Emit(o) => Completed([o], [])
      case Skip => Completed([], [])
      case Raise => Raised(0, [])
  {
    var results := Outcomes(date, now, [cell]);
    assert results[..0] == [];
  }

  /** The schedule's range spelling `h:mmAM-h:mmPM` is read as its start time. */
  lemma StartOfRange(c: Clock12, tail: string)
    requires ValidClock12(c)
    ensures StartClock(Show12(c) + "-" + tail) == Some(To24(c))
  {
    var s := Show12(c);
    Show12HasNoDash(c);
    assert |s| == 6 || |s| == 7;
    DropRangeTail(s, tail);
    ReadShow12(c);
  }

  /**
    A range whose one-digit start hour carries a leading space (` 9:00AM-9:50AM`) is read as
    its start time too: the first seven characters are exactly the spaced time.
   */
  lemma SpacedStartOfRange(c: Clock12, tail: string)
    requires ValidClock12(c) && c.hour < 10
    ensures StartClock(" " + Show12(c) + "-" + tail) == Some(To24(c))
  {
    var s := " " + Show12(c);
    Show12HasNoDash(c);
    assert '-' !in s by { assert s[1..] == Show12(c); }
    assert |s| == 7;
    DropRangeTail(s, tail);
    ReadSpacedShow12(c);
  }

  /** A six- or seven-character time without `-`, followed by `-` and more, is what the first seven characters leave once `-` goes. */
  lemma DropRangeTail(s: string, tail: string)
    requires (|s| == 6 || |s| == 7) && '-' !in s
    ensures RemoveAll(Take(s + "-" + tail, 7), '-') == s
  {
    var taken := Take(s + "-" + tail, 7);
    if |s| == 6 {
      assert taken == s + ['-'] + [];
      RemoveAllOne(s, [], '-');
      assert s + [] == s;
    } else {
      assert taken == s;
    }
  }

  /**
    A full cell is invalidated under its raw start text. Rows are saved under the
    converted `HH:MM` time, so when the raw text is not five characters long the
    invalidation deletes none of them and the recipient stays marked as notified.
   */
  lemma InvalidationKeepsConvertedRows(ledger: seq<Record>, date: string, now: DateTime, cell: Cell,
                                       c: Clock, level: string, email: string)
    requires Unavailable(cell.status) && |cell.start| != 5
    ensures ExtractCell(date, now, cell) == Invalidate(SlotKey(date, cell.start))
    ensures WasNotified(ApplyInvalidations(ledger + [Record(date, Format24(c), level, email)], [SlotKey(date, cell.start)]),
                        date, Format24(c), email)
  {
    var row := Record(date, Format24(c), level, email);
    var after := ApplyInvalidations(ledger + [row], [SlotKey(date, cell.start)]);
    assert row in ledger + [row];
    assert multiset(after)[row] == multiset(ledger + [row])[row];
    assert row in after;
  }

  /** Every opening a day yields has a start time that the mailer's `%H:%M` read accepts. */
  lemma EmittedTimesAreReadable(date: string, now: DateTime, cells: seq<Cell>)
    requires ExtractDay(date, now, cells).Completed?
    ensures forall o :: o in ExtractDay(date, now, cells).openings ==> Reformat12(o.time).Some?
  {
  }

  /**
    An opening yielded at time `now` for a zero-padded date is never removed by a cleanup
    run at the same `now`: the class lies after the current minute.
   */
  lemma EmittedSurvivesCleanup(o: Opening, date: string, now: DateTime)
    requires ValidDateTime(now) && 1000 <= now.date.year
    requires YieldedOpening(o, date, now)
    requires date == FormatDate(ReadDate(date).value)
    ensures forall email :: !Expired(Record(o.date, o.time, o.level, email), FormatMinute(now))
  {
    var d := ReadDate(date).value;
    var c := ReadClock24(o.time).value;
    AfterNowNotBeforeMinute(now, d, c);
    StampOrder(d, c, now.date, now.clock);
  }

  /**
    Why the cleanup results need zero-padded, blank-free dates: the date read absorbs blanks
    after the day, but the row keeps the date text as scraped, and a blank sorts before every
    digit. A row dated `FormatDate(d) + " "` is deleted by any cleanup run on day `d`, even
    when its class is still to come.
   */
  lemma BlankDateExpiresEarly(d: Date, now: DateTime, time: string, level: string, email: string)
    requires ValidDate(d) && ValidDateTime(now) && now.date == d
    ensures ReadDate(FormatDate(d) + " ") == Some(d)
    ensures Expired(Record(FormatDate(d) + " ", time, level, email), FormatMinute(now))
  {
    ReadBlankTailDate(d, " ");
    var x := FormatDate(d) + " ";
    var v := Format24(now.clock);
    assert Stamp(x, time) == x + (" " + time);
    assert FormatMinute(now) == x + v;
    LexLessConcat(x, x, " " + time, v);
    assert IsDigit(v[0]);
  }

  /**
    A cleanup run at the scrape's own clock reading keeps every opening the scrape returned,
    when the day buttons carry zero-padded dates.
   */
  lemma ScrapedSurviveCleanup(days: seq<Day>, now: DateTime)
    requires ValidDateTime(now) && 1000 <= now.date.year
    requires CheckClassOpenings(days, now).Scraped?
    requires forall k :: 0 <= k < |days| ==> ReadDate(days[k].date).Some? && days[k].date == FormatDate(ReadDate(days[k].date).value)
    ensures forall o, email :: o in CheckClassOpenings(days, now).openings ==>
      !Expired(Record(o.date, o.time, o.level, email), FormatMinute(now))
  {
    ScrapedOpenings(days, now);
    forall o, email | o in CheckClassOpenings(days, now).openings
      ensures !Expired(Record(o.date, o.time, o.level, email), FormatMinute(now))
    {
      var k :| 0 <= k < |days| && YieldedOpening(o, days[k].date, now);
      EmittedSurvivesCleanup(o, days[k].date, now);
    }
  }

  // ---------------------------------------------------------------- worked cells

  // The steps below take their text as a parameter fixed by `requires`: with the literal in the
  // `ensures`, the solver unfolds the parsers over it and runs out of resource. The cell examples
  // state their literals in the `ensures`.

  lemma OpenStatus(status: string)
    requires status == "3 spots"
    ensures !Unavailable(status)
  {
    AbsentFirst(status, "full");
    AbsentFirst(status, "Waitlist");
    assert !IsSpace(status[0]);
  }

  /** A title that opens with `Flow` and has no `(` among its next four characters is labelled by its first eight characters. */
  lemma LabelAtStart(title: string)
    requires |title| >= 8 && title[..4] == "Flow" && '(' !in title[4..8]
    ensures Label(title) == title[..8]
  {
    assert OccursAt(title, "Flow", 0);
    assert title[..8] == title[..4] + title[4..8];
  }

  /** The title `Flow 1.5 (Mat)` is labelled `Flow 1.5` (a parameter, for solver cost). */
  lemma FlowLabel(title: string)
    requires title == "Flow 1.5 (Mat)"
    ensures Label(title) == "Flow 1.5"
  {
    assert title[..8] == "Flow 1.5";
    FlowHead(title[..8]);
    assert title[..4] == title[..8][..4];
    assert title[4..8] == title[..8][4..];
    LabelAtStart(title);
  }

  /** `Flow 1.5` opens with `Flow` and has no `(`. */
  lemma FlowHead(head: string)
    requires head == "Flow 1.5"
    ensures |head| == 8 && head[..4] == "Flow" && '(' !in head[4..]
  {
  }

  lemma LevelOne(name: string)
    requires name == "Flow 1.5"
    ensures Contains(name, "1")
  {
    assert name[5..6] == "1";
    assert OccursAt(name, "1", 5);
  }

  /** A cell that is available, labelled with a `1`, readable and in the future is emitted. */
  lemma EmitCell(date: string, now: DateTime, cell: Cell, d: Date, c: Clock)
    requires !Unavailable(cell.status) && Contains(Label(cell.title), "1")
    requires StartClock(cell.start) == Some(c) && ReadDate(date) == Some(d)
    requires Before(now, ClassInstant(d, c))
    ensures ExtractCell(date, now, cell) == Emit(Opening(cell.status, Label(cell.title), date, Format24(c)))
  {
  }

  lemma NineAmShown()
    ensures Show12(Clock12(9, 0, false)) == "9:00AM"
    ensures Format24(Clock(9, 0)) == "09:00"
  {
  }

  lemma NineAmRange(start: string)
    requires start == "9:00AM-9:50AM"
    ensures start == Show12(Clock12(9, 0, false)) + "-" + "9:50AM"
  {
    NineAmShown();
  }

  /** The start `9:00AM-9:50AM` is read as 09:00 (a parameter, for solver cost). */
  lemma NineAm(start: string)
    requires start == "9:00AM-9:50AM"
    ensures StartClock(start) == Some(Clock(9, 0))
  {
    NineAmRange(start);
    StartOfRange(Clock12(9, 0, false), "9:50AM");
  }

  lemma June10(date: string)
    requires date == "2024-06-10"
    ensures ReadDate(date) == Some(Date(2024, 6, 10))
  {
    assert FormatDate(Date(2024, 6, 10)) == "2024-06-10";
    ReadFormatDate(Date(2024, 6, 10));
  }

  /** An open `Flow 1.5` class at 9:00 AM on 2024-06-10 yields one opening and no invalidation. */
  lemma OpenFlowCell(now: DateTime)
    requires Before(now, DateTime(Date(2024, 6, 10), Clock(9, 0), 0, 0))
    ensures ExtractDay("2024-06-10", now, [Cell("Flow 1.5 (Mat)", "9:00AM-9:50AM", "3 spots")])
         == Completed([Opening("3 spots", "Flow 1.5", "2024-06-10", "09:00")], [])
  {
    var cell := Cell("Flow 1.5 (Mat)", "9:00AM-9:50AM", "3 spots");
    OpenStatus(cell.status);
    FlowLabel(cell.title);
    LevelOne(Label(cell.title));
    NineAm(cell.start);
    NineAmShown();
    June10("2024-06-10");
    EmitCell("2024-06-10", now, cell, Date(2024, 6, 10), Clock(9, 0));
    ExtractSingleCell("2024-06-10", now, cell);
  }

  /** The same class when waitlisted yields no opening and invalidates its raw start text. */
  lemma WaitlistedCell(now: DateTime)
    ensures ExtractDay("2024-06-10", now, [Cell("Flow 1.5 (Mat)", "9:00AM-9:50AM", "Waitlist")])
         == Completed([], [SlotKey("2024-06-10", "9:00AM-9:50AM")])
  {
    assert OccursAt("Waitlist", "Waitlist", 0);
    ExtractSingleCell("2024-06-10", now, Cell("Flow 1.5 (Mat)", "9:00AM-9:50AM", "Waitlist"));
  }

  lemma DropDash(head: string)
    requires head == "9:00-9:"
    ensures RemoveAll(head, '-') == "9:009:"
  {
    assert head == "9:00" + ['-'] + "9:";
    RemoveAllOne("9:00", "9:", '-');
  }

  /** `9:009:` has a three-digit minute field, which `%M` rejects. */
  lemma MinuteTooLong(t: string)
    requires t == "9:009:"
    ensures ReadClock12(t).None?
  {
    assert DigitPrefixLen(t) == 1;
    var rest := t[2..];
    assert rest == "009:";
    assert DigitPrefixLen(rest) == 3;
  }

  /** `9:00-9:50AM` loses its `-` to become `9:009:`, which `%I:%M%p` rejects. */
  lemma UnsuffixedStart(start: string)
    requires start == "9:00-9:50AM"
    ensures StartClock(start).None?
  {
    assert Take(start, 7) == "9:00-9:";
    DropDash(Take(start, 7));
    MinuteTooLong(RemoveAll(Take(start, 7), '-'));
  }

  /** A start written `9:00-9:50AM` (AM/PM only at the end) makes `strptime` raise. */
  lemma UnsuffixedStartRaises(now: DateTime)
    ensures ExtractDay("2024-06-10", now, [Cell("Flow 1.5 (Mat)", "9:00-9:50AM", "3 spots")]) == Raised(0, [])
  {
    var cell := Cell("Flow 1.5 (Mat)", "9:00-9:50AM", "3 spots");
    OpenStatus(cell.status);
    FlowLabel(cell.title);
    LevelOne(Label(cell.title));
    UnsuffixedStart(cell.start);
    ExtractSingleCell("2024-06-10", now, cell);
  }

  /** A title without `Flow` of at most 7 characters keeps its last character as the label. */
  lemma LabelWithoutFlow()
    ensures Label("Barre 1") == "1"
  {
    AbsentFirst("Barre 1", "Flow");
  }
}
