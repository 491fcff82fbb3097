/**
 * The client's month calendar of a doctor's availability: a Monday-first
 * grid of blank cells and day cells, each day cell carrying its date key,
 * the today mark and the status pill the availability rule gives it.
 */
module Calendar {

  import opened TimeDate

  /** An exception as the client receives it; an absent or empty time is "". */
  datatype ClientException = ClientException(exceptionDate: string, status: string, startTime: string, endTime: string)

  /** A weekly rule as the client receives it; `dayOfWeek` is 0 = Monday. */
  datatype ClientRule = ClientRule(dayOfWeek: int, startTime: string, endTime: string)

  datatype Cell =
    | Blank
    | DayCell(day: nat, key: string, today: bool, statusClass: string, statusText: string)

  datatype CalendarView = CalendarView(title: string, headers: seq<string>, cells: seq<Cell>)

  const MonthNames: seq<string> := ["January", "February", "March", "April", "May", "June",
                                    "July", "August", "September", "October", "November", "December"]

  const DayHeaders: seq<string> := ["Mon", "Tue", "Wed", "Thu", "Fri", "Sat", "Sun"]

  /** `s.substring(0, 5)`. */
  function Prefix5(s: string): (r: string)
    ensures |r| == if |s| < 5 then |s| else 5
    ensures r == s[..|r|]
  {
    if |s| <= 5 then s else s[..5]
  }

  /** `exceptions.find(ex => ex.exception_date === key)`. */
  function FindByDate(exceptions: seq<ClientException>, key: string): (r: nat)
    ensures r <= |exceptions|
    ensures r < |exceptions| ==> exceptions[r].exceptionDate == key
    ensures forall j :: 0 <= j < r ==> exceptions[j].exceptionDate != key
  {
    if exceptions == [] then 0
    else if exceptions[0].exceptionDate == key then 0
    else 1 + FindByDate(exceptions[1..], key)
  }

  /** `weekly.find(w => w.day_of_week === dbDay)`. */
  function FindByDay(weekly: seq<ClientRule>, dbDay: int): (r: nat)
    ensures r <= |weekly|
    ensures r < |weekly| ==> weekly[r].dayOfWeek == dbDay
    ensures forall j :: 0 <= j < r ==> weekly[j].dayOfWeek != dbDay
  {
    if weekly == [] then 0
    else if weekly[0].dayOfWeek == dbDay then 0
    else 1 + FindByDay(weekly[1..], dbDay)
  }

  /**
   * The status pill of a day: a matching exception first (Cancelled: "OFF";
   * otherwise "start-end" cut to HH:MM, or the status when there is no start),
   * then the first weekly rule of the weekday ("HH:MM - HH:MM"), then the
   * default window.
   */
  function Status(exceptions: seq<ClientException>, weekly: seq<ClientRule>, key: string, dbDay: int): (r: (string, string))
    ensures FindByDate(exceptions, key) < |exceptions| && exceptions[FindByDate(exceptions, key)].status == "Cancelled"
        ==> r == ("status-off", "OFF")
    ensures FindByDate(exceptions, key) < |exceptions| && exceptions[FindByDate(exceptions, key)].status != "Cancelled"
        ==> r.0 == "status-exception"
    ensures FindByDate(exceptions, key) == |exceptions| ==> r.0 == "status-open"
    ensures FindByDate(exceptions, key) == |exceptions| && FindByDay(weekly, dbDay) == |weekly| ==> r.1 == "08:00 - 22:00"
  {
    var i := FindByDate(exceptions, key);
    if i < |exceptions| then
      var ex := exceptions[i];
      if ex.status == "Cancelled" then ("status-off", "OFF")
      else
        var s := if ex.startTime != "" then Prefix5(ex.startTime) else "";
        var e := if ex.endTime != "" then Prefix5(ex.endTime) else "";
        ("status-exception", if s != "" then s + "-" + e else ex.status)
    else
      var j := FindByDay(weekly, dbDay);
      if j < |weekly| then ("status-open", Prefix5(weekly[j].startTime) + " - " + Prefix5(weekly[j].endTime))
      else ("status-open", "08:00 - 22:00")
  }

  /** The cell of day `day` of month `month0` (0 = January) of `year`. */
  function DayCellOf(year: nat, month0: nat, day: nat, weekly: seq<ClientRule>, exceptions: seq<ClientException>,
                     todayStr: string): Cell
    requires month0 < 12 && year >= 1 && 1 <= day <= DaysInMonth(year, month0 + 1)
  {
    var key := DateKey(Date(year, month0 + 1, day));
    var status := Status(exceptions, weekly, key, MondayFirst(JsGetDay(Date(year, month0 + 1, day))));
    DayCell(day, key, key == todayStr, status.0, status.1)
  }

  /** The leading blanks: the Monday-first weekday of the 1st. */
  function StartDay(year: nat, month0: nat): (n: nat)
    requires month0 < 12 && year >= 1
    ensures n < 7
  {
    MondayFirst(JsGetDay(Date(year, month0 + 1, 1)))
  }

  /** The grid `renderCalendar` builds for a month. */
  function MonthView(year: nat, month0: nat, weekly: seq<ClientRule>, exceptions: seq<ClientException>,
                     todayStr: string): CalendarView
    requires month0 < 12 && year >= 1
  {
    var total := DaysInMonth(year, month0 + 1);
    CalendarView(MonthNames[month0] + " " + NatToString(year), DayHeaders,
                 seq(StartDay(year, month0), _ => Blank)
                 + seq(total, k requires 0 <= k < total => DayCellOf(year, month0, k + 1, weekly, exceptions, todayStr)))
  }

  /**
   * `renderCalendar`: the title, the seven headers, the loop of blanks up to
   * the Monday-first weekday of the 1st, then the loop over the days.
   */
  method RenderCalendar(year: nat, month0: nat, weekly: seq<ClientRule>, exceptions: seq<ClientException>, todayStr: string)
    returns (view: CalendarView)
    requires month0 < 12 && year >= 1
    ensures view == MonthView(year, month0, weekly, exceptions, todayStr)
  {
    var title := MonthNames[month0] + " " + NatToString(year);
    var totalDays := DaysInMonth(year, month0 + 1);
    var startDay := JsGetDay(Date(year, month0 + 1, 1));
    startDay := if startDay == 0 then 6 else startDay - 1;
    var grid: seq<Cell> := [];
    var i := 0;
    while i < startDay
      invariant 0 <= i <= startDay
      invariant grid == seq(i, _ => Blank)
    {
      grid := grid + [Blank];
      i := i + 1;
    }
    ghost var blanks := grid;
    var day := 1;
    while day <= totalDays
      invariant 1 <= day <= totalDays + 1
      invariant grid == blanks + seq(day - 1, k requires 0 <= k < day - 1 => DayCellOf(year, month0, k + 1, weekly, exceptions, todayStr))
    {
      var cell := RenderDay(year, month0, day, weekly, exceptions, todayStr);
      DayCellsSnoc(year, month0, day, weekly, exceptions, todayStr);
      grid := grid + [cell];
      day := day + 1;
    }
    view := CalendarView(title, DayHeaders, grid);
  }

  /** One pass of the day loop: the date string, the today mark and the status of that day. */
  method RenderDay(year: nat, month0: nat, day: nat, weekly: seq<ClientRule>, exceptions: seq<ClientException>,
                   todayStr: string) returns (cell: Cell)
    requires month0 < 12 && year >= 1 && 1 <= day <= DaysInMonth(year, month0 + 1)
    ensures cell == DayCellOf(year, month0, day, weekly, exceptions, todayStr)
  {
    var cellDate := Date(year, month0 + 1, day);
    var dateStr := NatToString(cellDate.year) + "-" + Pad2(cellDate.month) + "-" + Pad2(cellDate.day);
    var isToday := dateStr == todayStr;
    var jsDay := JsGetDay(cellDate);
    var dbDay := if jsDay == 0 then 6 else jsDay - 1;
    var status := Status(exceptions, weekly, dateStr, dbDay);
    cell := DayCell(day, dateStr, isToday, status.0, status.1);
  }

  lemma DayCellsSnoc(year: nat, month0: nat, day: nat, weekly: seq<ClientRule>, exceptions: seq<ClientException>,
                     todayStr: string)
    requires month0 < 12 && year >= 1 && 1 <= day <= DaysInMonth(year, month0 + 1)
    ensures seq(day - 1, k requires 0 <= k < day - 1 => DayCellOf(year, month0, k + 1, weekly, exceptions, todayStr))
            + [DayCellOf(year, month0, day, weekly, exceptions, todayStr)]
         == seq(day, k requires 0 <= k < day => DayCellOf(year, month0, k + 1, weekly, exceptions, todayStr))
  {
  }

  /**
   * The grid holds as many blanks as the Monday-first weekday of the 1st
   * (the server's `weekday()`), then exactly one cell per day of the month, in order.
   */
  lemma GridShape(year: nat, month0: nat, weekly: seq<ClientRule>, exceptions: seq<ClientException>, todayStr: string)
    requires month0 < 12 && year >= 1
    ensures var v := MonthView(year, month0, weekly, exceptions, todayStr);
      var blanks := Weekday(Date(year, month0 + 1, 1));
      |v.cells| == blanks + DaysInMonth(year, month0 + 1)
      && (forall k :: 0 <= k < blanks ==> v.cells[k] == Blank)
      && (forall k :: blanks <= k < |v.cells| ==> v.cells[k].DayCell? && v.cells[k].day == k - blanks + 1)
      && |v.headers| == 7 && v.headers[0] == "Mon" && v.headers[6] == "Sun"
  {
    MondayFirstIsWeekday(Date(year, month0 + 1, 1));
  }

  /** A cell's key is its date zero-padded, and it is marked today exactly when the key is today's. */
  lemma TodayMark(year: nat, month0: nat, weekly: seq<ClientRule>, exceptions: seq<ClientException>, todayStr: string, k: nat)
    requires month0 < 12 && year >= 1
    requires k < |MonthView(year, month0, weekly, exceptions, todayStr).cells|
    requires MonthView(year, month0, weekly, exceptions, todayStr).cells[k].DayCell?
    ensures var c := MonthView(year, month0, weekly, exceptions, todayStr).cells[k];
      c.key == DateKey(Date(year, month0 + 1, c.day)) && (c.today <==> c.key == todayStr)
  {
  }

  /** At most one cell of the month carries the today mark. */
  lemma OneToday(year: nat, month0: nat, weekly: seq<ClientRule>, exceptions: seq<ClientException>, todayStr: string,
                 a: nat, b: nat)
    requires month0 < 12 && year >= 1
    requires a < b < |MonthView(year, month0, weekly, exceptions, todayStr).cells|
    requires MonthView(year, month0, weekly, exceptions, todayStr).cells[a].DayCell?
    requires MonthView(year, month0, weekly, exceptions, todayStr).cells[b].DayCell?
    ensures !(MonthView(year, month0, weekly, exceptions, todayStr).cells[a].today
              && MonthView(year, month0, weekly, exceptions, todayStr).cells[b].today)
  {
    var v := MonthView(year, month0, weekly, exceptions, todayStr);
    var s := StartDay(year, month0);
    var ca, cb := v.cells[a], v.cells[b];
    assert ca.day == a - s + 1 && cb.day == b - s + 1;
    if ca.today && cb.today {
      DateKeyInjective(Date(year, month0 + 1, ca.day), Date(year, month0 + 1, cb.day));
    }
  }

  /**
   * The pill follows the server's precedence: an exception for the exact date
   * decides, Cancelled showing "OFF"; an exception with a start shows its
   * HH:MM-HH:MM window; without a start, its status; only without an
   * exception does the first weekly rule for the weekday show, and without
   * that the default window.
   */
  lemma StatusPrecedence(exceptions: seq<ClientException>, weekly: seq<ClientRule>, key: string, dbDay: int)
    ensures var i := FindByDate(exceptions, key);
      var r := Status(exceptions, weekly, key, dbDay);
      ((i < |exceptions| && exceptions[i].status != "Cancelled" && exceptions[i].startTime != "")
         ==> r.1 == Prefix5(exceptions[i].startTime) + "-" + (if exceptions[i].endTime != "" then Prefix5(exceptions[i].endTime) else ""))
      && (i < |exceptions| && exceptions[i].status != "Cancelled" && exceptions[i].startTime == "" ==> r.1 == exceptions[i].status)
      && ((i == |exceptions| && FindByDay(weekly, dbDay) < |weekly|)
         ==> r == ("status-open", Prefix5(weekly[FindByDay(weekly, dbDay)].startTime) + " - "
                                  + Prefix5(weekly[FindByDay(weekly, dbDay)].endTime)))
      && (forall e :: e in exceptions && e.exceptionDate == key ==> r.0 != "status-open")
  {
    var i := FindByDate(exceptions, key);
    forall e | e in exceptions && e.exceptionDate == key ensures i < |exceptions| {
      var j :| 0 <= j < |exceptions| && exceptions[j] == e;
    }
    if i < |exceptions| && exceptions[i].startTime != "" {
      assert Prefix5(exceptions[i].startTime) != "";
    }
  }

  /** 2024-06-01 is a Saturday: June 2024 opens with five blanks and has thirty day cells. */
  lemma June2024(weekly: seq<ClientRule>, exceptions: seq<ClientException>, todayStr: string)
    ensures |MonthView(2024, 5, weekly, exceptions, todayStr).cells| == 35
    ensures MonthView(2024, 5, weekly, exceptions, todayStr).cells[4] == Blank
    ensures MonthView(2024, 5, weekly, exceptions, todayStr).cells[5].DayCell?
    ensures MonthView(2024, 5, weekly, exceptions, todayStr).title == "June 2024"
  {
    assert DayNumber(Date(2024, 6, 1)) == 739037;
    assert StartDay(2024, 5) == 5;
    assert NatToString(2024) == "2024" by {
      assert NatToString(2) == "2" && NatToString(20) == "20" && NatToString(202) == "202";
    }
  }
}
