/**
  The event-selection and date-formatting core of the ICS calendar
  integration (class ICSCalendarData): choosing the one currently active
  event for the calendar entity's state, turning every event into a flat
  record for date-range queries, and rendering dates for both consumers.
  The event list and the current instant are parameters; fetching and
  parsing the ICS feed happen outside this model.
*/
module Calendar {
  import opened Optional
  import opened Dates
  import opened Selection

  /** One calendar entry as the ICS library hands it over. */
  datatype Event = Event(
    start: Moment,
    end: Moment,
    summary: string,
    location: Option<string>,
    description: Option<string>,
    allDay: bool,
    uid: Option<string>)

  /** The state record kept for the current event (dates wrapped by HassDate). */
  datatype EventState = EventState(
    summary: string,
    start: map<string, string>,
    end: map<string, string>,
    location: Option<string>,
    description: Option<string>)

  /** The flat record returned for a date-range query (dates from FormatDate). */
  datatype QueryEvent = QueryEvent(
    uid: Option<string>,
    title: string,
    start: string,
    end: string,
    location: Option<string>,
    description: Option<string>)

  // ---------------------------------------------------------------------------
  // Date rendering (get_date_formatted, get_hass_date)

  /**
    An all-day date keeps its own year, month and day: the time is zeroed and
    the zone is relabelled as local without conversion, and only `YYYY-MM-DD`
    is printed. Any other date is printed as its ISO-8601 text.
  */
  function FormatDate(t: Moment, isAllDay: bool): string {
    if isAllDay then
      DateText(t.(hour := 0, minute := 0, second := 0, microsecond := 0))
    else
      IsoFormat(t)
  }

  /**
    What FormatDate keeps: an all-day date reads back as exactly the input's
    own year, month and day, in ten characters with no time part; any other
    date reads back as the whole moment, offset and microseconds included.
  */
  lemma FormatDateReadsBack(t: Moment, isAllDay: bool)
    ensures isAllDay ==> |FormatDate(t, isAllDay)| == 10
    ensures isAllDay ==> ParseDate(FormatDate(t, isAllDay)) == Some((t.year, t.month, t.day))
    ensures !isAllDay ==> ParseIso(FormatDate(t, isAllDay)) == Some(t)
  {
    if isAllDay {
      DateTextRoundTrip(t.(hour := 0, minute := 0, second := 0, microsecond := 0));
    } else {
      IsoRoundTrip(t);
    }
  }

  /** The formatted date under the key "date" (all-day) or "dateTime". */
  function HassDate(t: Moment, isAllDay: bool): (r: map<string, string>)
    ensures r.Keys == {if isAllDay then "date" else "dateTime"}
    ensures forall k :: k in r ==> r[k] == FormatDate(t, isAllDay)
  {
    if isAllDay then map["date" := FormatDate(t, isAllDay)]
    else map["dateTime" := FormatDate(t, isAllDay)]
  }

  /** Reads a wrapped date back: its text and whether it is an all-day date. */
  function UnwrapHassDate(m: map<string, string>): Option<(string, bool)> {
    if m.Keys == {"date"} then Some((m["date"], true))
    else if m.Keys == {"dateTime"} then Some((m["dateTime"], false))
    else None
  }

  lemma HassDateRoundTrip(t: Moment, isAllDay: bool)
    ensures UnwrapHassDate(HassDate(t, isAllDay)) == Some((FormatDate(t, isAllDay), isAllDay))
  {
  }

  /** The all-day text of a moment is the date part of its ISO-8601 text. */
  lemma AllDayIsIsoDatePart(t: Moment)
    ensures FormatDate(t, false)[..10] == FormatDate(t, true)
    ensures FormatDate(t, false)[10] == 'T'
  {
  }

  /**
    All-day rendering ignores the time of day and the zone: two moments print
    alike exactly when their year, month and day agree.
  */
  lemma AllDayDependsOnlyOnDate(t1: Moment, t2: Moment)
    ensures FormatDate(t1, true) == FormatDate(t2, true) <==>
            (t1.year, t1.month, t1.day) == (t2.year, t2.month, t2.day)
  {
    var m1 := t1.(hour := 0, minute := 0, second := 0, microsecond := 0);
    var m2 := t2.(hour := 0, minute := 0, second := 0, microsecond := 0);
    DateTextInjective(m1, m2);
  }

  lemma AllDayExample()
    ensures FormatDate(DateTime(2024, 3, 1, 0, 0, 0, 0, 0), true) == "2024-03-01"
  {
  }

  /**
    A timed date prints date, 'T', time and offset; the `.ffffff` part is
    absent for zero microseconds.
  */
  lemma TimedExample()
    ensures FormatDate(DateTime(2024, 3, 1, 14, 30, 0, 0, 7200), false) == "2024-03-01" + "T" + "14:30:00" + "+02:00"
  {
    var t := DateTime(2024, 3, 1, 14, 30, 0, 0, 7200);
    DateTextExample(t);
    ClockTextExample(t);
    OffsetTextExample();
  }

  // ---------------------------------------------------------------------------
  // The two records built from an event

  /** The state record of an event, dates wrapped by HassDate. */
  function ToState(e: Event): EventState {
    EventState(e.summary, HassDate(e.start, e.allDay), HassDate(e.end, e.allDay),
               e.location, e.description)
  }

  /** The query record of an event; a missing uid stays None. */
  function ToQuery(e: Event): QueryEvent {
    QueryEvent(e.uid, e.summary, FormatDate(e.start, e.allDay), FormatDate(e.end, e.allDay),
               e.location, e.description)
  }

  /**
    The two consumers see the same event: the state record's wrapped dates
    unwrap to the query record's texts under the event's all-day flag, and the
    text fields agree.
  */
  lemma StateAgreesWithQuery(e: Event)
    ensures UnwrapHassDate(ToState(e).start) == Some((ToQuery(e).start, e.allDay))
    ensures UnwrapHassDate(ToState(e).end) == Some((ToQuery(e).end, e.allDay))
    ensures ToState(e).summary == ToQuery(e).title
    ensures ToState(e).location == ToQuery(e).location
    ensures ToState(e).description == ToQuery(e).description
  {
  }

  /**
    What a query record keeps of its event: the uid (None stays None), the
    summary as title, and dates that read back as the event's own dates (the
    calendar date alone for an all-day event).
  */
  lemma QueryReadsBack(e: Event)
    ensures ToQuery(e).uid == e.uid && ToQuery(e).title == e.summary
    ensures e.allDay ==> ParseDate(ToQuery(e).start) == Some((e.start.year, e.start.month, e.start.day))
    ensures e.allDay ==> ParseDate(ToQuery(e).end) == Some((e.end.year, e.end.month, e.end.day))
    ensures !e.allDay ==> ParseIso(ToQuery(e).start) == Some(e.start)
    ensures !e.allDay ==> ParseIso(ToQuery(e).end) == Some(e.end)
  {
    FormatDateReadsBack(e.start, e.allDay);
    FormatDateReadsBack(e.end, e.allDay);
  }

  // ---------------------------------------------------------------------------
  // Active-event selection, on the UTC instants the events cover

  function SpanOf(e: Event): Span {
    Span(Instant(e.start), Instant(e.end))
  }

  function Spans(events: seq<Event>): (r: seq<Span>)
    ensures |r| == |events| && forall i :: 0 <= i < |events| ==> r[i] == SpanOf(events[i])
  {
    seq(|events|, i requires 0 <= i < |events| => SpanOf(events[i]))
  }

  /** The event the refresh keeps for `now`, if any. */
  function SelectedEvent(events: seq<Event>, now: Moment): Option<Event> {
    match Select(Spans(events), Instant(now))
    case None => None
    case Some(k) => Some(events[k])
  }

  /** 09:00-10:00 and 09:30-09:45 at 09:40: the one ending at 09:45 is kept. */
  lemma OverlapExample()
    ensures
      var long := Event(DateTime(2024, 3, 1, 9, 0, 0, 0, 0), DateTime(2024, 3, 1, 10, 0, 0, 0, 0),
                        "long", None, None, false, None);
      var short := Event(DateTime(2024, 3, 1, 9, 30, 0, 0, 0), DateTime(2024, 3, 1, 9, 45, 0, 0, 0),
                         "short", None, None, false, None);
      SelectedEvent([long, short], DateTime(2024, 3, 1, 9, 40, 0, 0, 0)) == Some(short)
  {
  }

  // ---------------------------------------------------------------------------
  // The calendar data object

  class CalendarData {
    var name: string
    var url: string
    /** The state record of the currently active event, if any. */
    var event: Option<EventState>

    constructor (name: string, url: string)
      ensures this.name == name && this.url == url && event == None
    {
      this.name := name;
      this.url := url;
      event := None;
    }

    /**
      Refreshes `event` from `events` at instant `now`: the state record of the
      selected event, or None when no event is active. Always reports success.
    */
    method Update(events: seq<Event>, now: Moment) returns (ok: bool)
      modifies this`event
      ensures ok
      ensures event == match SelectedEvent(events, now)
                       case None => None
                       case Some(e) => Some(ToState(e))
      ensures event.None? <==> forall j :: 0 <= j < |events| ==> !Active(SpanOf(events[j]), Instant(now))
      ensures event.Some? ==> exists k :: Chosen(Spans(events), Instant(now), k) && event.value == ToState(events[k])
    {
      ghost var spans := Spans(events);
      ghost var best: Option<nat> := None;
      var temp: Option<Event> := None;
      var rightNow := Instant(now);
      for i := 0 to |events|
        invariant best == Select(spans[..i], rightNow)
        invariant best.Some? ==> best.value < i
        invariant temp == if best.None? then None else Some(events[best.value])
      {
        var e := events[i];
        SelectStep(spans, rightNow, i);
        var arStart, arEnd := Instant(e.start), Instant(e.end);
        assert spans[i] == Span(arStart, arEnd);
        if arEnd < rightNow || arStart > rightNow {
          continue;
        }
        if temp.None? {
          temp, best := Some(e), Some(i);
        } else if Instant(temp.value.end) > arEnd {
          temp, best := Some(e), Some(i);
        }
      }
      assert spans[..|events|] == spans;
      if temp.None? {
        event := None;
        return true;
      }
      event := Some(ToState(temp.value));
      return true;
    }

    /**
      One query record per event, in input order: `title` from the summary,
      `uid` when the event has one, the dates through FormatDate.
    */
    method GetEvents(items: seq<Event>) returns (list: seq<QueryEvent>)
      ensures |list| == |items|
      ensures forall i :: 0 <= i < |items| ==> list[i] == ToQuery(items[i])
    {
      list := [];
      for i := 0 to |items|
        invariant |list| == i
        invariant forall j :: 0 <= j < i ==> list[j] == ToQuery(items[j])
      {
        ghost var prev := list;
        list := list + [ToQuery(items[i])];
        forall j | 0 <= j <= i ensures list[j] == ToQuery(items[j]) {
          if j < i {
            assert list[j] == prev[j];
          }
        }
      }
    }
  }
}
