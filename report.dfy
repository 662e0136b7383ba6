/**
 * The pipeline of `main` in `hello.py`, after the page has been fetched:
 * split the body into lines, parse the ones that end with `(target: next)`,
 * resolve their timestamps with the current year, keep the last 48 hours,
 * summarise per test command and rank the commands by how often they ran.
 * The current year and the current time are parameters; `soup` stands for
 * what the HTML parser reports about each line.
 */
module Report {
  import opened Wrappers
  import opened Text
  import opened Seqs
  import opened LineParser
  import opened Calendar

  /** The suffix that selects a line (hello.py:78). */
  const TargetSuffix := "(target: next)"

  /** 48 hours, in microseconds, the resolution of `datetime.now()`. */
  const WindowMicros := 48 * 3600 * 1000000

  predicate IsSelected(line: string) {
    EndsWith(line, TargetSuffix)
  }

  /** The lines `main` parses, in the order they appear. */
  function Selected(lines: seq<string>): seq<string> {
    Filter(lines, IsSelected)
  }

  /** `parse_test_line` applied to each line. */
  function ParseAll(lines: seq<string>, soup: string -> Markup): (r: seq<Record>)
    ensures |r| == |lines|
    ensures forall i :: 0 <= i < |lines| ==> r[i] == ParseLine(lines[i], soup(lines[i]))
  {
    seq(|lines|, i requires 0 <= i < |lines| => ParseLine(lines[i], soup(lines[i])))
  }

  lemma ParseAllAppend(a: seq<string>, b: seq<string>, soup: string -> Markup)
    ensures ParseAll(a + b, soup) == ParseAll(a, soup) + ParseAll(b, soup)
  {
  }

  /**
   * The selection loop (hello.py:76-79): the records are those of the
   * selected lines, parsed in order.
   */
  method ParseSelected(lines: seq<string>, soup: string -> Markup) returns (parsed: seq<Record>)
    ensures parsed == ParseAll(Selected(lines), soup)
  {
    parsed := [];
    var i := 0;
    while i < |lines|
      invariant 0 <= i <= |lines|
      invariant parsed == ParseAll(Selected(lines[..i]), soup)
    {
      assert lines[..i + 1] == lines[..i] + [lines[i]];
      FilterAppend(lines[..i], [lines[i]], IsSelected);
      ParseAllAppend(Selected(lines[..i]), Selected([lines[i]]), soup);
      if IsSelected(lines[i]) {
        parsed := parsed + [ParseLine(lines[i], soup(lines[i]))];
      }
      i := i + 1;
    }
    assert lines[..i] == lines;
  }

  /**
   * Exactly the lines ending with `(target: next)` are parsed, each as often
   * as it occurs, so there are never more records than lines.
   */
  lemma {:induction false} SelectionExact(lines: seq<string>, line: string)
    ensures multiset(Selected(lines))[line] == if IsSelected(line) then multiset(lines)[line] else 0
    ensures |Selected(lines)| <= |lines|
  {
    FilterMultiplicity(lines, IsSelected, line);
  }

  /** Selecting from a text piece by piece selects from each piece in turn. */
  lemma {:induction false} SelectionInOrder(a: seq<string>, b: seq<string>)
    ensures Selected(a + b) == Selected(a) + Selected(b)
  {
    FilterAppend(a, b, IsSelected);
  }

  /** A record with the time `parse_datetime` gave its timestamp, in seconds since 1970. */
  datatype Entry = Entry(record: Record, time: Option<int>)

  /** The `datetime` column (hello.py:98). */
  function ResolveAll(records: seq<Record>, year: int): (r: seq<Entry>)
    ensures |r| == |records|
    ensures forall i :: 0 <= i < |r| ==> r[i] == Entry(records[i], Resolve(year, records[i].dateTime))
  {
    seq(|records|, i requires 0 <= i < |records| => Entry(records[i], Resolve(year, records[i].dateTime)))
  }

  /** A timestamp the line parser accepts always has the shape the resolver reads. */
  lemma {:induction false} StampReads(line: string)
    requires StampShape(line)
    ensures ParseStamp(line[..14]).Some?
  {
    var s := line[..14];
    assert forall k :: 0 <= k < 14 ==> FitsChar(s[k], StampFormat[k]);
  }

  /**
   * A parsed line gets no time exactly when it has no timestamp, or the
   * timestamp is not a date of `year`, or pandas cannot hold the time.
   */
  lemma {:induction false} LineTime(line: string, soup: Markup, year: int)
    ensures var t := Resolve(year, ParseLine(line, soup).dateTime);
      t.None? <==> (!StampShape(line) || !Valid(year, ParseStamp(line[..14]).value)
        || !Representable(EpochSeconds(year, ParseStamp(line[..14]).value)))
  {
    if StampShape(line) {
      StampReads(line);
    }
  }

  /** `df["datetime"] >= now - timedelta(hours=48)`: a missing time never passes. */
  predicate InWindow(now: int, e: Entry) {
    e.time.Some? && e.time.value * 1000000 >= now - WindowMicros
  }

  function Window(now: int): Entry -> bool {
    (e: Entry) => InWindow(now, e)
  }

  /** `df_recent` (hello.py:101-103). */
  function Recent(entries: seq<Entry>, now: int): (r: seq<Entry>)
    ensures |r| <= |entries|
    ensures forall e :: e in r ==> e in entries && InWindow(now, e)
  {
    Filter(entries, Window(now))
  }

  /**
   * The recent entries are the entries with a time no more than 48 hours
   * before `now`, each as often as it occurs.
   */
  lemma {:induction false} RecentExact(entries: seq<Entry>, now: int, e: Entry)
    ensures multiset(Recent(entries, now))[e] ==
      if e.time.Some? && e.time.value * 1000000 >= now - WindowMicros then multiset(entries)[e] else 0
  {
    FilterMultiplicity(entries, Window(now), e);
  }

  /** Filtering by the window keeps the entries in their original order. */
  lemma {:induction false} RecentInOrder(a: seq<Entry>, b: seq<Entry>, now: int)
    ensures Recent(a + b, now) == Recent(a, now) + Recent(b, now)
  {
    FilterAppend(a, b, Window(now));
  }

  /** The window has no upper end: a time after `now` always passes. */
  lemma FutureInWindow(now: int, e: Entry)
    ensures e.time.Some? && e.time.value * 1000000 >= now ==> InWindow(now, e)
  {
  }

  /** The command of each recent entry that has one, in order. */
  function CommandsOf(entries: seq<Entry>): (r: seq<string>)
    ensures forall c :: c in r <==> exists e :: e in entries && e.record.testCommand == Some(c)
  {
    if entries == [] then []
    else
      var head := if entries[0].record.testCommand.Some? then [entries[0].record.testCommand.value] else [];
      var r := head + CommandsOf(entries[1..]);
      assert forall e :: e in entries <==> e == entries[0] || e in entries[1..];
      r
  }

  /** The group keys of `groupby("test_command")`: null commands are dropped. */
  function Keys(recent: seq<Entry>): (keys: seq<string>)
    ensures forall i, j :: 0 <= i < j < |keys| ==> keys[i] != keys[j]
    ensures forall c :: c in keys <==> exists e :: e in recent && e.record.testCommand == Some(c)
  {
    Dedup(CommandsOf(recent))
  }

  /** One row of `test_summary` (hello.py:112-131). */
  datatype Row = Row(
    command: string,
    totalRuns: nat,
    failedCount: nat,
    flakedCount: nat,
    exitCodes: seq<Option<nat>>,
    durations: seq<Option<string>>)

  function HasCommand(c: string): Entry -> bool {
    (e: Entry) => e.record.testCommand == Some(c)
  }

  predicate HasStatus(e: Entry) {
    e.record.status.Some?
  }

  function StatusIs(s: string): Entry -> bool {
    (e: Entry) => e.record.status == Some(s)
  }

  /** The entries of one group, in their original order. */
  function Members(recent: seq<Entry>, c: string): seq<Entry> {
    Filter(recent, HasCommand(c))
  }

  /** The exit codes of a group, one per entry, in order. */
  function ExitCodes(g: seq<Entry>): (r: seq<Option<nat>>)
    ensures |r| == |g| && forall i :: 0 <= i < |g| ==> r[i] == g[i].record.exitCode
  {
    seq(|g|, i requires 0 <= i < |g| => g[i].record.exitCode)
  }

  function Durations(g: seq<Entry>): (r: seq<Option<string>>)
    ensures |r| == |g| && forall i :: 0 <= i < |g| ==> r[i] == g[i].record.duration
  {
    seq(|g|, i requires 0 <= i < |g| => g[i].record.duration)
  }

  /**
   * The aggregates of one group: `count` of the statuses skips nulls, the
   * FAILED and FLAKED counts compare the whole status text, so together they
   * reach the count exactly when every status of the group is one of the
   * two; the durations are all of the group's, in order.
   */
  function Summarize(recent: seq<Entry>, c: string): (r: Row)
    ensures r.command == c
    ensures r.failedCount + r.flakedCount <= r.totalRuns <= |Members(recent, c)|
    ensures r.failedCount + r.flakedCount == r.totalRuns <==>
      forall e :: e in Members(recent, c) && e.record.status.Some? ==>
        e.record.status == Some("FAILED") || e.record.status == Some("FLAKED")
    ensures r.exitCodes == Dedup(ExitCodes(Members(recent, c)))
    ensures r.durations == Durations(Members(recent, c))
  {
    var g := Members(recent, c);
    assert forall e :: StatusIs("FAILED")(e) ==> HasStatus(e) && !StatusIs("FLAKED")(e);
    CountDisjoint(g, StatusIs("FAILED"), StatusIs("FLAKED"), HasStatus);
    Row(c, |Filter(g, HasStatus)|, |Filter(g, StatusIs("FAILED"))|, |Filter(g, StatusIs("FLAKED"))|,
        Dedup(ExitCodes(g)), Durations(g))
  }

  /**
   * `total_runs` counts the recent entries of the command that have a status
   * at all; `failed_count` and `flaked_count` count those whose status is
   * exactly "FAILED" or exactly "FLAKED".
   */
  lemma {:induction false} RowCounts(recent: seq<Entry>, c: string)
    ensures Summarize(recent, c).totalRuns ==
      |set k | 0 <= k < |recent| && recent[k].record.testCommand == Some(c) && recent[k].record.status.Some?|
    ensures Summarize(recent, c).failedCount ==
      |set k | 0 <= k < |recent| && recent[k].record.testCommand == Some(c) && recent[k].record.status == Some("FAILED")|
    ensures Summarize(recent, c).flakedCount ==
      |set k | 0 <= k < |recent| && recent[k].record.testCommand == Some(c) && recent[k].record.status == Some("FLAKED")|
  {
    StatusCount(recent, c);
    StatusIsCount(recent, c, "FAILED");
    StatusIsCount(recent, c, "FLAKED");
  }

  lemma StatusCount(recent: seq<Entry>, c: string)
    ensures |Filter(Members(recent, c), HasStatus)| ==
      |set k | 0 <= k < |recent| && recent[k].record.testCommand == Some(c) && recent[k].record.status.Some?|
  {
    var stated: Entry -> bool := HasStatus;
    GroupCount(recent, c, stated);
    assert (set k | 0 <= k < |recent| && recent[k].record.testCommand == Some(c) && stated(recent[k])) ==
      set k | 0 <= k < |recent| && recent[k].record.testCommand == Some(c) && recent[k].record.status.Some?;
  }

  lemma StatusIsCount(recent: seq<Entry>, c: string, status: string)
    ensures |Filter(Members(recent, c), StatusIs(status))| ==
      |set k | 0 <= k < |recent| && recent[k].record.testCommand == Some(c) && recent[k].record.status == Some(status)|
  {
    GroupCount(recent, c, StatusIs(status));
    assert (set k | 0 <= k < |recent| && recent[k].record.testCommand == Some(c) && StatusIs(status)(recent[k])) ==
      set k | 0 <= k < |recent| && recent[k].record.testCommand == Some(c) && recent[k].record.status == Some(status);
  }

  /** Counting what `p` accepts within a group counts the positions of its entries that `p` accepts. */
  lemma GroupCount(recent: seq<Entry>, c: string, p: Entry -> bool)
    ensures |Filter(Members(recent, c), p)| ==
      |set k | 0 <= k < |recent| && recent[k].record.testCommand == Some(c) && p(recent[k])|
  {
    var both := (e: Entry) => e.record.testCommand == Some(c) && p(e);
    FilterFilter(recent, HasCommand(c), p, both);
    FilterCount(recent, both);
    assert Positions(recent, both) ==
      set k | 0 <= k < |recent| && recent[k].record.testCommand == Some(c) && p(recent[k]);
  }

  /**
   * `list(x.unique())` of a group's exit codes: no code twice, every code of
   * the group (a missing one included), nothing else, and in the order the
   * codes first appear.
   */
  lemma {:induction false} RowExitCodes(recent: seq<Entry>, c: string)
    ensures var g, codes := Members(recent, c), Summarize(recent, c).exitCodes;
      && (forall i, j :: 0 <= i < j < |codes| ==> codes[i] != codes[j])
      && (forall e :: e in g ==> e.record.exitCode in codes)
      && (forall x :: x in codes ==> exists e :: e in g && e.record.exitCode == x)
      && (forall i, j, k :: 0 <= i < j < |codes| && 0 <= k < |g| && g[k].record.exitCode == codes[j] ==>
            codes[i] in ExitCodes(g)[..k])
  {
    var g := Members(recent, c);
    var all := ExitCodes(g);
    var codes := Summarize(recent, c).exitCodes;
    forall e | e in g
      ensures e.record.exitCode in codes
    {
      var k :| 0 <= k < |g| && g[k] == e;
      assert all[k] == e.record.exitCode;
    }
    forall x | x in codes
      ensures exists e :: e in g && e.record.exitCode == x
    {
      var k :| 0 <= k < |all| && all[k] == x;
      assert g[k] in g;
    }
  }

  /** `test_summary` before sorting: one row per group key. */
  function Summary(recent: seq<Entry>): (rows: seq<Row>)
    ensures |rows| == |Keys(recent)|
    ensures forall i :: 0 <= i < |rows| ==> rows[i] == Summarize(recent, Keys(recent)[i])
  {
    var keys := Keys(recent);
    seq(|keys|, i requires 0 <= i < |keys| => Summarize(recent, keys[i]))
  }

  /**
   * The rows are keyed by distinct commands, and a command has a row exactly
   * when some recent entry carries it.
   */
  lemma {:induction false} SummaryKeys(recent: seq<Entry>)
    ensures var rows := Summary(recent);
      forall i, j :: 0 <= i < j < |rows| ==> rows[i].command != rows[j].command
    ensures var rows := Summary(recent);
      forall c :: (exists i :: 0 <= i < |rows| && rows[i].command == c) <==>
        (exists e :: e in recent && e.record.testCommand == Some(c))
  {
    forall c
      ensures (exists i :: 0 <= i < |Summary(recent)| && Summary(recent)[i].command == c) <==>
        (exists e :: e in recent && e.record.testCommand == Some(c))
    {
      KeyHasRow(recent, c);
    }
  }

  lemma {:induction false} KeyHasRow(recent: seq<Entry>, c: string)
    ensures (exists i :: 0 <= i < |Summary(recent)| && Summary(recent)[i].command == c) <==>
      (exists e :: e in recent && e.record.testCommand == Some(c))
  {
    var rows := Summary(recent);
    var keys := Keys(recent);
    if exists e :: e in recent && e.record.testCommand == Some(c) {
      assert c in CommandsOf(recent);
      var i :| 0 <= i < |keys| && keys[i] == c;
      assert rows[i].command == c;
    }
    if exists i :: 0 <= i < |rows| && rows[i].command == c {
      var i :| 0 <= i < |rows| && rows[i].command == c;
      assert keys[i] in CommandsOf(recent);
    }
  }

  /** A record has a test command exactly when it has a duration. */
  predicate Coupled(e: Entry) {
    e.record.testCommand.Some? <==> e.record.duration.Some?
  }

  /**
   * Every entry of a group has a command, so the line parser gave it a
   * duration too: the durations list holds no null.
   */
  lemma {:induction false} DurationsPresent(recent: seq<Entry>, c: string)
    requires forall e :: e in recent ==> Coupled(e)
    ensures forall d :: d in Summarize(recent, c).durations ==> d.Some?
  {
    var g := Members(recent, c);
    var r := Summarize(recent, c);
    forall d | d in r.durations
      ensures d.Some?
    {
      var k :| 0 <= k < |r.durations| && r.durations[k] == d;
      assert g[k] in g;
    }
  }

  /** Parsed lines keep the coupling of command and duration, and resolving keeps the records. */
  lemma {:induction false} EntriesCoupled(lines: seq<string>, soup: string -> Markup, year: int)
    ensures forall e :: e in ResolveAll(ParseAll(lines, soup), year) ==> Coupled(e)
  {
    var es := ResolveAll(ParseAll(lines, soup), year);
    forall e | e in es
      ensures Coupled(e)
    {
      var k :| 0 <= k < |es| && es[k] == e;
      var line := lines[k];
      assert e.record == ParseLine(line, soup(line));
    }
  }

  predicate NonIncreasing(rows: seq<Row>) {
    forall i, j :: 0 <= i < j < |rows| ==> rows[i].totalRuns >= rows[j].totalRuns
  }

  /** Puts `r` before the first row that ran no more often than it. */
  function Insert(r: Row, rows: seq<Row>): (s: seq<Row>)
    ensures multiset(s) == multiset(rows) + multiset{r}
    ensures |s| == |rows| + 1 && (s[0] == r || (rows != [] && s[0] == rows[0]))
  {
    if rows == [] then [r]
    else if r.totalRuns >= rows[0].totalRuns then [r] + rows
    else
      assert rows == [rows[0]] + rows[1..];
      [rows[0]] + Insert(r, rows[1..])
  }

  /** Inserting into rows in non-increasing order keeps them in that order. */
  lemma {:induction false} InsertKeepsOrder(r: Row, rows: seq<Row>)
    requires NonIncreasing(rows)
    ensures NonIncreasing(Insert(r, rows))
  {
    if rows != [] && r.totalRuns < rows[0].totalRuns {
      var t := Insert(r, rows[1..]);
      InsertKeepsOrder(r, rows[1..]);
      assert rows[0].totalRuns >= t[0].totalRuns;
      var s := [rows[0]] + t;
      forall i, j | 0 <= i < j < |s|
        ensures s[i].totalRuns >= s[j].totalRuns
      {
        if i == 0 && j > 1 {
          assert t[0].totalRuns >= t[j - 1].totalRuns;
        }
      }
    }
  }

  /**
   * `sort_values("total_runs", ascending=False)` (hello.py:134): the rows
   * again, most runs first. Rows that ran equally often may come in any
   * order in the source, so only the order of the counts is promised.
   */
  function Rank(rows: seq<Row>): (s: seq<Row>)
    ensures NonIncreasing(s)
    ensures multiset(s) == multiset(rows)
  {
    if rows == [] then []
    else
      assert rows == [rows[0]] + rows[1..];
      InsertKeepsOrder(rows[0], Rank(rows[1..]));
      Insert(rows[0], Rank(rows[1..]))
  }

  /** What a run of `main` produces. */
  datatype Outcome =
    | MissingColumn
    | NoRecent(total: nat)
    | Report(total: nat, recent: seq<Entry>, ranking: seq<Row>)

  /**
   * The pipeline with the empty case handled: with nothing recent there is
   * no summary and nothing to export (hello.py:110, 161-162).
   */
  function Run(body: string, soup: string -> Markup, year: int, now: int): (out: Outcome)
    ensures out.NoRecent? || out.Report?
    ensures out.total == |Selected(Split(body))|
  {
    var entries := Entries(body, soup, year);
    var recent := Recent(entries, now);
    if |recent| > 0 then Report(|entries|, recent, Rank(Summary(recent)))
    else NoRecent(|entries|)
  }

  /**
   * The pipeline as written: a data frame built from no records has no
   * `date-time` column, so reading it raises `KeyError` (hello.py:82, 98).
   */
  function RunAsWritten(body: string, soup: string -> Markup, year: int, now: int): (out: Outcome)
    ensures out.MissingColumn? <==> Selected(Split(body)) == []
  {
    if Selected(Split(body)) == [] then MissingColumn else Run(body, soup, year, now)
  }

  /**
   * A page with no line ending in `(target: next)` crashes the pipeline as
   * written, and reports "no test failures" once the empty case is handled.
   */
  lemma NoSelectedLineCrashes(soup: string -> Markup, year: int, now: int)
    ensures RunAsWritten("", soup, year, now) == MissingColumn
    ensures Run("", soup, year, now) == NoRecent(0)
  {
    assert Split("") == [""];
    assert !EndsWith("", TargetSuffix);
    assert Selected([""]) == [];
  }

  /** Whenever some line is selected, the pipeline as written is the corrected one. */
  lemma AsWrittenAgrees(body: string, soup: string -> Markup, year: int, now: int)
    requires Selected(Split(body)) != []
    ensures RunAsWritten(body, soup, year, now) == Run(body, soup, year, now)
  {
  }

  /** The entries `Run` resolves, one per selected line. */
  function Entries(body: string, soup: string -> Markup, year: int): seq<Entry> {
    ResolveAll(ParseAll(Selected(Split(body)), soup), year)
  }

  /** As many lines are selected as there are lines ending in `(target: next)`. */
  lemma SelectedCount(lines: seq<string>)
    ensures |Selected(lines)| == |set k | 0 <= k < |lines| && IsSelected(lines[k])|
  {
    var selected: string -> bool := IsSelected;
    FilterCount(lines, selected);
    assert Positions(lines, selected) == set k | 0 <= k < |lines| && IsSelected(lines[k]);
  }

  /**
   * A report appears exactly when some selected line resolves to a time in
   * the window (hello.py:110).
   */
  lemma {:induction false} RunReportsRecent(body: string, soup: string -> Markup, year: int, now: int)
    ensures Run(body, soup, year, now).Report? <==> exists e :: e in Entries(body, soup, year) && InWindow(now, e)
    ensures Run(body, soup, year, now).Report? ==> Run(body, soup, year, now).recent == Recent(Entries(body, soup, year), now)
    ensures Run(body, soup, year, now).total ==
      |set k | 0 <= k < |Split(body)| && IsSelected(Split(body)[k])|
  {
    SelectedCount(Split(body));
    var entries := Entries(body, soup, year);
    var recent := Recent(entries, now);
    assert Run(body, soup, year, now).Report? <==> |recent| > 0;
    if exists e :: e in entries && InWindow(now, e) {
      var e :| e in entries && InWindow(now, e);
      RecentExact(entries, now, e);
      assert e in multiset(recent);
    }
    if |recent| > 0 {
      assert recent[0] in recent;
    }
  }

  /**
   * The ranking of a report holds the rows of the summary, most runs first,
   * and every row lists a duration for each run.
   */
  lemma {:induction false} RunRanking(body: string, soup: string -> Markup, year: int, now: int)
    ensures var out := Run(body, soup, year, now);
      out.Report? ==>
        && NonIncreasing(out.ranking)
        && multiset(out.ranking) == multiset(Summary(out.recent))
        && (forall r :: r in out.ranking ==> forall d :: d in r.durations ==> d.Some?)
  {
    var entries := Entries(body, soup, year);
    var recent := Recent(entries, now);
    var out := Run(body, soup, year, now);
    if out.Report? {
      assert out.recent == recent;
      EntriesCoupled(Selected(Split(body)), soup, year);
      assert forall e :: e in recent ==> Coupled(e);
      forall r | r in out.ranking
        ensures forall d :: d in r.durations ==> d.Some?
      {
        assert r in multiset(Summary(recent));
        var k :| 0 <= k < |Summary(recent)| && Summary(recent)[k] == r;
        DurationsPresent(recent, Keys(recent)[k]);
      }
    }
  }

  /**
   * The year is that of the clock, not of the line: in January, a line
   * stamped in December resolves to December of the current year, a time
   * in the future, which `FutureInWindow` then always counts as recent.
   */
  lemma DecemberInJanuary(year: int, stamp: string, now: int, t: int)
    requires now < EpochSeconds(year, Stamp(2, 1, 0, 0, 0)) * 1000000
    requires ParseStamp(stamp).Some? && ParseStamp(stamp).value.month == 12
    requires Resolve(year, Some(stamp)) == Some(t)
    ensures t * 1000000 > now
  {
    DecemberAfterFebruary(year, stamp, t);
  }

  /** A resolved December timestamp lies after the first of February of the same year. */
  lemma {:induction false} DecemberAfterFebruary(year: int, stamp: string, t: int)
    requires ParseStamp(stamp).Some? && ParseStamp(stamp).value.month == 12
    requires Resolve(year, Some(stamp)) == Some(t)
    ensures EpochSeconds(year, Stamp(2, 1, 0, 0, 0)) < t
  {
    var feb := Stamp(2, 1, 0, 0, 0);
    var st := ParseStamp(stamp).value;
    ResolvedTime(year, stamp, t);
    assert Valid(year, feb) && Earlier(year, feb, year, st);
    EpochSecondsGrow(year, feb, year, st);
  }
}
