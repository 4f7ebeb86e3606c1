/** src/shared/getHoliday.ts: the holiday dates of the current year, cached
    in the persisted store, and the "is the market closed" test.

    The holiday request is an input: `RequestFailed` stands for a request
    that fails or a reply that cannot be read, `Reply` for the decoded
    `{code, holiday}` object, whose values are given in `Object.values`
    order. Dates are compared as the text the date formatter writes for
    today; times of day are milliseconds since local midnight. */
module Holiday {
  import opened Store

  /** One value of the reply's `holiday` object. */
  datatype HolidayEntry = HolidayEntry(holiday: bool, date: string)

  datatype HolidayReply = RequestFailed | Reply(code: int, entries: seq<HolidayEntry>)

  /** The dates of the entries flagged as holidays, in entry order. */
  function HolidayFlagged(entries: seq<HolidayEntry>): seq<string>
  {
    if |entries| == 0 then []
    else (if entries[0].holiday then [entries[0].date] else []) + HolidayFlagged(entries[1..])
  }

  /** `getHolidayData()`: the flagged dates when `code` is 0, otherwise and
      on any failure the empty list. */
  function GetHolidayData(reply: HolidayReply): seq<string>
  {
    match reply
    case RequestFailed => []
    case Reply(code, entries) => if code == 0 then HolidayFlagged(entries) else []
  }

  /** Filtering distributes over concatenation, so the dates keep the order
      of their entries. */
  lemma {:induction false} HolidayFlaggedAppend(a: seq<HolidayEntry>, b: seq<HolidayEntry>)
    ensures HolidayFlagged(a + b) == HolidayFlagged(a) + HolidayFlagged(b)
  {
    if |a| == 0 {
      assert a + b == b;
    } else {
      assert (a + b)[0] == a[0];
      assert (a + b)[1..] == a[1..] + b;
      HolidayFlaggedAppend(a[1..], b);
    }
  }

  /** A date is returned exactly when the reply succeeded with code 0 and
      some entry with that date is flagged as a holiday. */
  lemma GetHolidayDataMembers(reply: HolidayReply, d: string)
    ensures d in GetHolidayData(reply) <==>
      reply.Reply? && reply.code == 0 &&
      exists i :: 0 <= i < |reply.entries| && reply.entries[i].holiday && reply.entries[i].date == d
  {
    if reply.Reply? && reply.code == 0 {
      FlaggedMembers(reply.entries, d);
    }
  }

  lemma {:induction false} FlaggedMembers(entries: seq<HolidayEntry>, d: string)
    ensures d in HolidayFlagged(entries) <==>
      exists i :: 0 <= i < |entries| && entries[i].holiday && entries[i].date == d
  {
    if |entries| > 0 {
      FlaggedMembers(entries[1..], d);
      if d in HolidayFlagged(entries[1..]) {
        var i :| 0 <= i < |entries[1..]| && entries[1..][i].holiday && entries[1..][i].date == d;
        assert entries[i + 1] == entries[1..][i];
      }
      if exists i :: 0 <= i < |entries| && entries[i].holiday && entries[i].date == d {
        var i :| 0 <= i < |entries| && entries[i].holiday && entries[i].date == d;
        if i > 0 {
          assert entries[1..][i - 1] == entries[i];
        }
      }
    }
  }

  const MinuteMs := 60 * 1000
  const HourMs := 60 * MinuteMs

  /** The two opening windows, 09:25-11:35 and 13:00-15:05. */
  const MorningOpen := 9 * HourMs + 25 * MinuteMs
  const MorningClose := 11 * HourMs + 35 * MinuteMs
  const AfternoonOpen := 13 * HourMs
  const AfternoonClose := 15 * HourMs + 5 * MinuteMs

  /** One window's test as written: `start > now || now > end`. */
  predicate OutsideWindow(now: int, start: int, end: int)
  {
    start > now || now > end
  }

  /** `openedTime.some(...)`: outside at least one of the windows. */
  predicate WindowTest(now: int)
  {
    OutsideWindow(now, MorningOpen, MorningClose) || OutsideWindow(now, AfternoonOpen, AfternoonClose)
  }

  /** The windows do not overlap, so every time of day lies outside at
      least one of them: the window test as written always holds, although
      the comment beside it describes "outside both windows". */
  lemma WindowTestAlwaysHolds(now: int)
    ensures WindowTest(now)
  {
  }

  /** `isClosed(context)` on the store, with today's date text, weekday
      (0 is Sunday) and time of day. The holiday list is fetched only when
      the stored list is empty, and the fetched list is stored back. */
  method IsClosed(store: GlobalState, today: string, weekday: int, now: int, reply: HolidayReply)
    returns (closed: bool)
    requires store.Valid()
    modifies store
    ensures store.Valid()
    ensures old(store.DatesOr(HolidayKey)) == [] ==>
      store.entries == old(store.entries)[HolidayKey := DatesValue(GetHolidayData(reply))]
    ensures old(store.DatesOr(HolidayKey)) != [] ==> store.entries == old(store.entries)
    ensures closed == (today in store.DatesOr(HolidayKey) || weekday == 0 || weekday == 6 || WindowTest(now))
    ensures closed
  {
    var holidays := store.DatesOr(HolidayKey);
    if |holidays| == 0 {
      holidays := GetHolidayData(reply);
      store.Update(HolidayKey, DatesValue(holidays));
    }
    if today in holidays {
      return true;
    }
    if weekday == 0 || weekday == 6 || WindowTest(now) {
      return true;
    }
    return false;
  }
}
