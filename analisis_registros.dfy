/** `AnalisisRegistros`: the post-processing of the rows that grouped
    queries over the access log return. The queries themselves are not
    modelled: their result rows are the input, in the order the query
    returns them. */
module Analysis {
  import opened Utils

  /** A report, or the `{'error': ...}` dictionary the analyser answers
      instead. */
  datatype Result<T> = Ok(value: T) | Error(message: string)

  // ---------------------------------------------------------------------
  // Peak hours (`analizar_horas_pico`)
  // ---------------------------------------------------------------------

  /** One row of the per-hour query: the hour as `strftime('%H')` prints it
      and the numbers of all, resident and visitor accesses in that hour.
      The query returns the busiest hour first. */
  datatype HourRow = HourRow(hour: string, total: nat, residents: nat, visitors: nat)

  /** The entry `accesos_por_hora[h]`. */
  datatype HourCounts = HourCounts(total: nat, residents: nat, visitors: nat)

  /** `hora_pico` and `hora_valle`: the hour printed as `"<hour>:00"`. */
  datatype HourReport = HourReport(hour: string, total: nat, residents: nat, visitors: nat)

  /** The peak-hour report: the per-hour table, the first and last rows, and
      the accesses in the morning (6-12h), afternoon (12-18h), night
      (18-24h) and early morning (0-6h). */
  datatype HourAnalysis = HourAnalysis(perHour: map<int, HourCounts>, peak: HourReport, valley: HourReport,
                                       morning: int, afternoon: int, night: int, earlyMorning: int)

  const NoAccessData := "No hay datos de accesos disponibles"

  /** `int(hora)` succeeds on a non-empty run of decimal digits. */
  predicate HourParses(hour: string) {
    |hour| > 0 && AllDigits(hour)
  }

  /** The message of the `ValueError` that `int(hora)` raises otherwise. */
  function BadHourMessage(hour: string): string {
    "invalid literal for int() with base 10: '" + hour + "'"
  }

  predicate AllHoursParse(rows: seq<HourRow>) {
    forall i :: 0 <= i < |rows| ==> HourParses(rows[i].hour)
  }

  function CountsOf(row: HourRow): HourCounts {
    HourCounts(row.total, row.residents, row.visitors)
  }

  function ReportOf(row: HourRow): HourReport {
    HourReport(row.hour + ":00", row.total, row.residents, row.visitors)
  }

  /** `accesos_por_hora` after the rows have been stored in order, a later
      row of the same hour replacing an earlier one. */
  function HourMap(rows: seq<HourRow>): map<int, HourCounts>
    requires AllHoursParse(rows)
  {
    if rows == [] then map[]
    else
      var last := rows[|rows| - 1];
      HourMap(rows[..|rows| - 1])[Num(last.hour) := CountsOf(last)]
  }

  /** The table holds exactly the hours of the rows. */
  lemma {:induction false} HourMapKeys(rows: seq<HourRow>, h: int)
    requires AllHoursParse(rows)
    ensures h in HourMap(rows) <==> exists i :: 0 <= i < |rows| && Num(rows[i].hour) == h
  {
    if rows != [] {
      var init, last := rows[..|rows| - 1], rows[|rows| - 1];
      assert forall i :: 0 <= i < |init| ==> init[i] == rows[i];
      HourMapKeys(init, h);
      if h in HourMap(rows) && Num(last.hour) != h {
        var i :| 0 <= i < |init| && Num(init[i].hour) == h;
        assert Num(rows[i].hour) == h;
      }
    }
  }

  /** Each hour holds the counts of the last row of that hour. */
  lemma {:induction false} HourMapValues(rows: seq<HourRow>, i: nat)
    requires AllHoursParse(rows) && i < |rows|
    requires forall k :: i < k < |rows| ==> Num(rows[k].hour) != Num(rows[i].hour)
    ensures Num(rows[i].hour) in HourMap(rows) && HourMap(rows)[Num(rows[i].hour)] == CountsOf(rows[i])
  {
    if i < |rows| - 1 {
      var init := rows[..|rows| - 1];
      assert forall k :: 0 <= k < |init| ==> init[k] == rows[k];
      HourMapValues(init, i);
    }
  }

  /** `accesos_por_hora.get(h, {}).get('total', 0)`. */
  function TotalAt(m: map<int, HourCounts>, h: int): nat {
    if h in m then m[h].total else 0
  }

  /** `sum(... for h in range(lo, hi))`. */
  function BandSum(m: map<int, HourCounts>, lo: int, hi: int): int
    decreases hi - lo
  {
    if lo >= hi then 0 else TotalAt(m, lo) + BandSum(m, lo + 1, hi)
  }

  /** A band splits at any hour inside it. */
  lemma {:induction false} BandSplit(m: map<int, HourCounts>, a: int, b: int, c: int)
    requires a <= b <= c
    ensures BandSum(m, a, c) == BandSum(m, a, b) + BandSum(m, b, c)
    decreases b - a
  {
    if a < b {
      BandSplit(m, a + 1, b, c);
    }
  }

  /** The four bands partition the day: together they sum every hour from 0
      to 23 once. */
  lemma BandsCoverDay(m: map<int, HourCounts>)
    ensures BandSum(m, 0, 6) + BandSum(m, 6, 12) + BandSum(m, 12, 18) + BandSum(m, 18, 24) == BandSum(m, 0, 24)
  {
    BandSplit(m, 0, 6, 24);
    BandSplit(m, 6, 12, 24);
    BandSplit(m, 12, 18, 24);
  }

  /** Storing a new hour adds its total to every band that contains it. */
  lemma {:induction false} BandSumInsert(m: map<int, HourCounts>, h: int, c: HourCounts, lo: int, hi: int)
    requires h !in m
    ensures BandSum(m[h := c], lo, hi) == BandSum(m, lo, hi) + (if lo <= h < hi then c.total else 0)
    decreases hi - lo
  {
    if lo < hi {
      BandSumInsert(m, h, c, lo + 1, hi);
    }
  }

  /** The accesses of all rows. */
  function RowsTotal(rows: seq<HourRow>): int {
    if rows == [] then 0 else RowsTotal(rows[..|rows| - 1]) + rows[|rows| - 1].total
  }

  /** The query groups by hour, so its hours are distinct, and
      `strftime('%H')` yields 00 to 23. */
  predicate HoursOfADay(rows: seq<HourRow>) {
    && AllHoursParse(rows)
    && (forall i :: 0 <= i < |rows| ==> 0 <= Num(rows[i].hour) < 24)
    && (forall i, j :: 0 <= i < j < |rows| ==> Num(rows[i].hour) != Num(rows[j].hour))
  }

  /** For such rows the whole day's band sums every access exactly once. */
  lemma {:induction false} DayBandIsAllAccesses(rows: seq<HourRow>)
    requires HoursOfADay(rows)
    ensures BandSum(HourMap(rows), 0, 24) == RowsTotal(rows)
  {
    if rows != [] {
      var init, last := rows[..|rows| - 1], rows[|rows| - 1];
      assert forall i :: 0 <= i < |init| ==> init[i] == rows[i];
      assert HoursOfADay(init);
      DayBandIsAllAccesses(init);
      HourMapKeys(init, Num(last.hour));
      assert Num(last.hour) !in HourMap(init) by {
        forall i | 0 <= i < |init| ensures Num(init[i].hour) != Num(last.hour) {
          assert init[i] == rows[i];
        }
      }
      BandSumInsert(HourMap(init), Num(last.hour), CountsOf(last), 0, 24);
      assert HourMap(rows) == HourMap(init)[Num(last.hour) := CountsOf(last)];
    } else {
      BandSumEmpty(0, 24);
    }
  }

  /** With no hours stored every band is zero. */
  lemma {:induction false} BandSumEmpty(lo: int, hi: int)
    ensures BandSum(map[], lo, hi) == 0
    decreases hi - lo
  {
    if lo < hi {
      BandSumEmpty(lo + 1, hi);
    }
  }

  /** Hence the four bands of the report account for every access. */
  lemma BandsAccountForAllAccesses(rows: seq<HourRow>)
    requires HoursOfADay(rows)
    ensures var m := HourMap(rows);
      BandSum(m, 0, 6) + BandSum(m, 6, 12) + BandSum(m, 12, 18) + BandSum(m, 18, 24) == RowsTotal(rows)
  {
    BandsCoverDay(HourMap(rows));
    DayBandIsAllAccesses(rows);
  }

  /** `ORDER BY total_accesos DESC`: each row has no more accesses than the
      one before it. */
  predicate BusiestFirst(rows: seq<HourRow>) {
    forall i :: 0 < i < |rows| ==> rows[i - 1].total >= rows[i].total
  }

  /** In that order the first row is a busiest hour and the last row a
      quietest one. */
  lemma {:induction false} PeakAndValleyAreExtremes(rows: seq<HourRow>)
    requires rows != [] && BusiestFirst(rows)
    ensures forall i :: 0 <= i < |rows| ==> rows[0].total >= rows[i].total >= rows[|rows| - 1].total
  {
    forall i | 0 <= i < |rows| ensures rows[0].total >= rows[i].total {
      var k := 0;
      while k < i
        invariant k <= i && rows[0].total >= rows[k].total
      {
        k := k + 1;
      }
    }
    forall i | 0 <= i < |rows| ensures rows[i].total >= rows[|rows| - 1].total {
      var k := |rows| - 1;
      while k > i
        invariant i <= k && rows[k].total >= rows[|rows| - 1].total
      {
        k := k - 1;
      }
    }
  }

  /** The first row whose hour does not parse. */
  function FirstBadHour(rows: seq<HourRow>): (i: nat)
    requires !AllHoursParse(rows)
    ensures i < |rows| && !HourParses(rows[i].hour)
    ensures forall j :: 0 <= j < i ==> HourParses(rows[j].hour)
  {
    if !HourParses(rows[0].hour) then 0 else 1 + FirstBadHour(rows[1..])
  }

  /** The table of the first `i + 1` rows is that of the first `i` with row
      `i` stored. */
  lemma HourMapStep(rows: seq<HourRow>, i: nat)
    requires i < |rows| && AllHoursParse(rows[..i + 1])
    ensures AllHoursParse(rows[..i])
    ensures HourMap(rows[..i + 1]) == HourMap(rows[..i])[Num(rows[i].hour) := CountsOf(rows[i])]
  {
    assert rows[..i + 1][..i] == rows[..i];
  }

  /** `analizar_horas_pico`: no rows is an error, as is an hour `int` cannot
      read; otherwise the per-hour table, the first row as the peak, the
      last row as the valley, and the four band sums. */
  method AnalyzePeakHours(rows: seq<HourRow>) returns (r: Result<HourAnalysis>)
    ensures rows == [] ==> r == Error(NoAccessData)
    ensures rows != [] && !AllHoursParse(rows) ==> r == Error(BadHourMessage(rows[FirstBadHour(rows)].hour))
    ensures rows != [] && AllHoursParse(rows) ==>
      var m := HourMap(rows);
      r == Ok(HourAnalysis(m, ReportOf(rows[0]), ReportOf(rows[|rows| - 1]),
                           BandSum(m, 6, 12), BandSum(m, 12, 18), BandSum(m, 18, 24), BandSum(m, 0, 6)))
  {
    if rows == [] {
      return Error(NoAccessData);
    }
    var perHour: map<int, HourCounts> := map[];
    for i := 0 to |rows|
      invariant AllHoursParse(rows[..i])
      invariant perHour == HourMap(rows[..i])
    {
      var row := rows[i];
      if !HourParses(row.hour) {
        assert forall j :: 0 <= j < i ==> rows[..i][j] == rows[j];
        return Error(BadHourMessage(row.hour));
      }
      assert forall j :: 0 <= j <= i ==> rows[..i + 1][j] == rows[j];
      HourMapStep(rows, i);
      perHour := perHour[Num(row.hour) := HourCounts(row.total, row.residents, row.visitors)];
    }
    assert rows[..|rows|] == rows;
    var peak, valley := rows[0], rows[|rows| - 1];
    r := Ok(HourAnalysis(perHour, ReportOf(peak), ReportOf(valley), BandSum(perHour, 6, 12),
                         BandSum(perHour, 12, 18), BandSum(perHour, 18, 24), BandSum(perHour, 0, 6)));
  }

  // ---------------------------------------------------------------------
  // Visits per day (`analizar_visitas_por_dia`)
  // ---------------------------------------------------------------------

  /** One row of the per-day query: the date and the numbers of all,
      resident and visitor accesses and of distinct names that day. The
      query returns the latest day first. */
  datatype DayRow = DayRow(date: string, total: nat, residents: nat, visitors: nat, people: nat)

  /** The per-day report without its averages: the days as read, how many
      there are, the visitor and access totals, the days with any visitor,
      and a day with most and one with fewest visitors. */
  datatype DayAnalysis = DayAnalysis(daily: seq<DayRow>, daysAnalyzed: nat, totalVisits: nat, totalAccesses: nat,
                                     daysWithVisits: nat, busiest: DayRow, quietest: DayRow)

  /** `f"{n}"` for any integer. */
  function IntToString(n: int): string {
    if n < 0 then "-" + NatToString(-n) else NatToString(n)
  }

  function NoDayData(days: int): string {
    "No hay datos de los últimos " + IntToString(days) + " días"
  }

  function SumVisits(rows: seq<DayRow>): nat {
    if rows == [] then 0 else SumVisits(rows[..|rows| - 1]) + rows[|rows| - 1].visitors
  }

  function SumAccesses(rows: seq<DayRow>): nat {
    if rows == [] then 0 else SumAccesses(rows[..|rows| - 1]) + rows[|rows| - 1].total
  }

  /** The number of days with at least one visitor access. */
  function DaysWithVisits(rows: seq<DayRow>): nat {
    if rows == [] then 0 else DaysWithVisits(rows[..|rows| - 1]) + (if rows[|rows| - 1].visitors > 0 then 1 else 0)
  }

  /** No more days have visitors than were analysed. */
  lemma {:induction false} DaysWithVisitsBound(rows: seq<DayRow>)
    ensures DaysWithVisits(rows) <= |rows|
  {
    if rows != [] {
      DaysWithVisitsBound(rows[..|rows| - 1]);
    }
  }

  /** No day had a visitor exactly when there were no visitor accesses. */
  lemma {:induction false} NoVisitDaysIffNoVisits(rows: seq<DayRow>)
    ensures DaysWithVisits(rows) == 0 <==> SumVisits(rows) == 0
  {
    if rows != [] {
      NoVisitDaysIffNoVisits(rows[..|rows| - 1]);
    }
  }

  /** A day's visitor accesses are among its accesses, so over the period
      too. */
  lemma {:induction false} VisitsWithinAccesses(rows: seq<DayRow>)
    requires forall i :: 0 <= i < |rows| ==> rows[i].visitors <= rows[i].total
    ensures SumVisits(rows) <= SumAccesses(rows)
  {
    if rows != [] {
      VisitsWithinAccesses(rows[..|rows| - 1]);
    }
  }

  /** `max(..., key=visitas)`: the first day with most visitors. */
  function BusiestDay(rows: seq<DayRow>): (i: nat)
    requires rows != []
    ensures i < |rows|
    ensures forall j :: 0 <= j < |rows| ==> rows[j].visitors <= rows[i].visitors
    ensures forall j :: 0 <= j < i ==> rows[j].visitors < rows[i].visitors
  {
    if |rows| == 1 then 0
    else
      var i := BusiestDay(rows[..|rows| - 1]);
      assert forall j :: 0 <= j < |rows| - 1 ==> rows[..|rows| - 1][j] == rows[j];
      if rows[|rows| - 1].visitors > rows[i].visitors then |rows| - 1 else i
  }

  /** `min(..., key=visitas)`: the first day with fewest visitors. */
  function QuietestDay(rows: seq<DayRow>): (i: nat)
    requires rows != []
    ensures i < |rows|
    ensures forall j :: 0 <= j < |rows| ==> rows[j].visitors >= rows[i].visitors
    ensures forall j :: 0 <= j < i ==> rows[j].visitors > rows[i].visitors
  {
    if |rows| == 1 then 0
    else
      var i := QuietestDay(rows[..|rows| - 1]);
      assert forall j :: 0 <= j < |rows| - 1 ==> rows[..|rows| - 1][j] == rows[j];
      if rows[|rows| - 1].visitors < rows[i].visitors then |rows| - 1 else i
  }

  /** `analizar_visitas_por_dia`: no rows is an error naming the period;
      otherwise the rows copied in order, their number, the sums of visitor
      and of all accesses, the days with visitors, and the extreme days. */
  method AnalyzeDays(rows: seq<DayRow>, days: int) returns (r: Result<DayAnalysis>)
    ensures rows == [] ==> r == Error(NoDayData(days))
    ensures rows != [] ==>
      r == Ok(DayAnalysis(rows, |rows|, SumVisits(rows), SumAccesses(rows), DaysWithVisits(rows),
                          rows[BusiestDay(rows)], rows[QuietestDay(rows)]))
  {
    if rows == [] {
      return Error(NoDayData(days));
    }
    var daily: seq<DayRow> := [];
    var totalVisits, totalAccesses, daysWithVisits := 0, 0, 0;
    for i := 0 to |rows|
      invariant daily == rows[..i]
      invariant totalVisits == SumVisits(rows[..i])
      invariant totalAccesses == SumAccesses(rows[..i])
      invariant daysWithVisits == DaysWithVisits(rows[..i])
    {
      assert rows[..i + 1][..i] == rows[..i];
      var row := rows[i];
      daily := daily + [row];
      totalVisits := totalVisits + row.visitors;
      totalAccesses := totalAccesses + row.total;
      if row.visitors > 0 {
        daysWithVisits := daysWithVisits + 1;
      }
    }
    assert rows[..|rows|] == rows;
    var busiest, quietest := BusiestDay(daily), QuietestDay(daily);
    r := Ok(DayAnalysis(daily, |rows|, totalVisits, totalAccesses, daysWithVisits, daily[busiest], daily[quietest]));
  }

  // ---------------------------------------------------------------------
  // Most active residents (`analizar_vecinos_mas_activos`)
  // ---------------------------------------------------------------------

  /** One row of the most-active query: a resident's name, the numbers of
      all, entry and exit accesses, and the first and last access times. */
  datatype ActivityRow = ActivityRow(name: string, total: nat, entries: nat, exits: nat, first: string, last: string)

  /** The report entry of such a row, with its balance. */
  datatype ActivityRecord = ActivityRecord(name: string, total: nat, entries: nat, exits: nat,
                                           first: string, last: string, balance: int)

  /** One row of the frequency query: name, accesses, active days and the
      accesses per day the query rounds. */
  datatype FrequencyRow = FrequencyRow(name: string, total: nat, activeDays: nat, perDay: real)

  datatype ActivityAnalysis = ActivityAnalysis(mostActive: seq<ActivityRecord>, byFrequency: seq<FrequencyRow>,
                                               residentsWithAccesses: nat)

  /** A positive balance means more entries than exits. */
  function RecordOf(row: ActivityRow): (a: ActivityRecord)
    ensures a.balance == row.entries - row.exits
    ensures a.balance > 0 <==> row.entries > row.exits
  {
    ActivityRecord(row.name, row.total, row.entries, row.exits, row.first, row.last, row.entries - row.exits)
  }

  function SumBalances(records: seq<ActivityRecord>): int {
    if records == [] then 0 else SumBalances(records[..|records| - 1]) + records[|records| - 1].balance
  }

  function SumEntries(rows: seq<ActivityRow>): int {
    if rows == [] then 0 else SumEntries(rows[..|rows| - 1]) + rows[|rows| - 1].entries
  }

  function SumExits(rows: seq<ActivityRow>): int {
    if rows == [] then 0 else SumExits(rows[..|rows| - 1]) + rows[|rows| - 1].exits
  }

  /** Over the listed residents the balances add up to all entries minus all
      exits. */
  lemma {:induction false} BalancesAddUp(rows: seq<ActivityRow>, records: seq<ActivityRecord>)
    requires |records| == |rows| && forall i :: 0 <= i < |rows| ==> records[i] == RecordOf(rows[i])
    ensures SumBalances(records) == SumEntries(rows) - SumExits(rows)
  {
    if rows != [] {
      var n := |rows| - 1;
      assert forall i :: 0 <= i < n ==> records[..n][i] == records[i] && rows[..n][i] == rows[i];
      BalancesAddUp(rows[..n], records[..n]);
    }
  }

  /** `analizar_vecinos_mas_activos`: one record per row of the first query,
      in order, with its balance; the rows of the second query as read; and
      the number of residents listed. */
  method AnalyzeActive(active: seq<ActivityRow>, frequency: seq<FrequencyRow>) returns (r: ActivityAnalysis)
    ensures |r.mostActive| == |active|
    ensures forall i :: 0 <= i < |active| ==> r.mostActive[i] == RecordOf(active[i])
    ensures r.byFrequency == frequency
    ensures r.residentsWithAccesses == |active|
  {
    var records: seq<ActivityRecord> := [];
    for i := 0 to |active|
      invariant |records| == i
      invariant forall j :: 0 <= j < i ==> records[j] == RecordOf(active[j])
    {
      var row := active[i];
      records := records + [ActivityRecord(row.name, row.total, row.entries, row.exits, row.first, row.last,
                                           row.entries - row.exits)];
    }
    var byFrequency: seq<FrequencyRow> := [];
    for i := 0 to |frequency|
      invariant byFrequency == frequency[..i]
    {
      byFrequency := byFrequency + [frequency[i]];
    }
    assert frequency[..|frequency|] == frequency;
    r := ActivityAnalysis(records, byFrequency, |active|);
  }
}
