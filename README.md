# ICS calendar: active-event selection and date rendering

This project models the decision-making core of the ICS calendar integration
for a home-automation host: the `ICSCalendarData` class in
`custom_components/ics_recurring/calendar.py`. On each refresh it scans the
calendar's events against the current instant. It keeps the active event that
ends soonest and stores a state record for it, or `None` when nothing is
active. It also turns every event into a flat record for date-range queries.
Dates are rendered two ways: a `YYYY-MM-DD` date for all-day events, the
ISO-8601 text otherwise, and for the state record that text is wrapped in a
one-key map (`date` or `dateTime`).

Files:

- `optional.dfy`: `Optional.Option`, standing for Python's `None`.
- `dates.dfy`: module `Dates`. Aware datetimes as field records (`Moment` is
  the subset a Python datetime admits). `Instant` gives the UTC instant, in
  microseconds, by which aware datetimes are compared. It also holds the two
  text forms: `DateText` (`%04d-%02d-%02d`) and `IsoFormat`, the text of
  `datetime.isoformat()`. That text has a `.ffffff` part only when the
  microseconds are non-zero, and an offset `+HH:MM`, with `:SS` added only
  for an offset with seconds. Each text form has a parser and a round-trip
  lemma.
- `selection.dfy`: module `Selection`. The selection rule on closed intervals
  of instants (`Span`). `Select` is the refresh loop written as a fold. Its
  contract and lemmas say which index it picks and that the pick is unique.
- `calendar.dfy`: module `Calendar`. It holds the `Event` datatype, the state
  and query records, and `FormatDate` / `HassDate` (the two static date
  methods). It also holds the class `CalendarData`: `Update` is the refresh
  loop and assigns the `event` field; `GetEvents` is the query-list loop.

The event list is a parameter of `Update` and `GetEvents`. The current
instant (`arrow.utcnow()` in the source) is a parameter of `Update`. Both come
from outside the model.

Two points of the code shape the model. The all-day branch of
`get_date_formatted` relabels the zone (`replace(tzinfo='local')`,
calendar.py:203-204) and does not convert it, so the printed date is always
the input's own year, month and day (`AllDayDependsOnlyOnDate`); the comment
at calendar.py:198-200 gives the intent, that an all-day event carries a zero
time in the local zone. The `except:` blocks around the fetch give no
empty-list fallback (see "Left out").

## Model

| member | source | states |
|---|---|---|
| `Selection.Select` | custom_components/ics_recurring/calendar.py:163-183 | the scan yields None exactly when no event is active (start <= now <= end, both bounds inclusive); otherwise it yields an active index whose end is <= every active end, and every active event before it ends strictly later |
| `Selection.SelectIsChosen` | custom_components/ics_recurring/calendar.py:175-178 | the scan picks index k if and only if k is the soonest-ending active event and the first one among those with that end, so the pick is fully determined |
| `Selection.SoleActiveIsSelected` | custom_components/ics_recurring/calendar.py:167-178 | when exactly one event is active, that event is the one picked |
| `Selection.EarlierEndWins` | custom_components/ics_recurring/calendar.py:177-178 | of two active events, the one ending strictly later is never picked |
| `Selection.TieGoesToEarlier` | custom_components/ics_recurring/calendar.py:177-178 | among active events with equal end, a later one in list order is never picked, because replacement needs a strictly earlier end |
| `Selection.OrderMattersOnlyForTies` | custom_components/ics_recurring/calendar.py:167-178 | two span lists (the events' UTC start/end instants) holding the same spans in any order agree on whether a span is kept and on its end; if no two active spans end together, they keep the same span |
| `Selection.PickInSuperset` | custom_components/ics_recurring/calendar.py:175-178 | when every span of one list also occurs in another, the other list keeps a span too, and one ending no later |
| `Selection.BoundsAreInclusive` | custom_components/ics_recurring/calendar.py:172-173 | a span that starts exactly at now, or ends exactly at now, is not skipped: the scan keeps a span, ending no later than that one |
| `Calendar.OverlapExample` | custom_components/ics_recurring/calendar.py:167-183 | with 09:00-10:00 and 09:30-09:45 at 09:40 both are active and the 09:30-09:45 event is kept |
| `Calendar.CalendarData.constructor` | custom_components/ics_recurring/calendar.py:110-114 | a new calendar data object keeps its name and url and holds no event |
| `Calendar.CalendarData.Update` | custom_components/ics_recurring/calendar.py:163-193 | returns true on both paths; afterwards `event` is None if and only if no event is active, and otherwise it is the state record of the event the scan picks (so built from an event satisfying `Chosen`); name and url are untouched |
| `Calendar.CalendarData.GetEvents` | custom_components/ics_recurring/calendar.py:129-145 | one record per input event, same length and order, record i being the query record `ToQuery` of event i (see `QueryReadsBack` for what that record keeps) |
| `Calendar.QueryReadsBack` | custom_components/ics_recurring/calendar.py:130-139 | a query record carries the event's uid (None when it has none) and its summary as title; its start and end read back as the event's own calendar dates when all-day, and as the whole moments otherwise |
| `Calendar.FormatDateReadsBack` | custom_components/ics_recurring/calendar.py:195-207 | an all-day date gives ten characters that read back as the input's own year, month and day; any other date gives ISO-8601 text that reads back as the whole moment, offset and microseconds included |
| `Calendar.AllDayDependsOnlyOnDate` | custom_components/ics_recurring/calendar.py:201-205 | two all-day renderings are equal if and only if the inputs' year, month and day agree: time of day and zone never matter |
| `Calendar.AllDayIsIsoDatePart` | custom_components/ics_recurring/calendar.py:201-207 | the all-day text is exactly the first ten characters of the ISO-8601 text, which continues with 'T' |
| `Calendar.TimedExample` | custom_components/ics_recurring/calendar.py:207 | 2024-03-01 14:30:00 at UTC+2 renders as "2024-03-01T14:30:00+02:00": no `.ffffff` part for zero microseconds, offset as `+HH:MM` |
| `Calendar.AllDayExample` | custom_components/ics_recurring/calendar.py:201-205 | 2024-03-01T00:00:00Z rendered as an all-day date is "2024-03-01" |
| `Calendar.HassDate` | custom_components/ics_recurring/calendar.py:209-214 | a one-key map whose key is "date" if the event is all-day and "dateTime" otherwise, whose value is FormatDate of the same arguments |
| `Calendar.HassDateRoundTrip` | custom_components/ics_recurring/calendar.py:209-214 | unwrapping the map recovers both the formatted text and the all-day flag |
| `Calendar.StateAgreesWithQuery` | custom_components/ics_recurring/calendar.py:185-191 | the state record's wrapped start and end unwrap to the query record's texts under the event's all-day flag; summary/title, location and description agree |
| `Dates.PadRoundTrip` | custom_components/ics_recurring/calendar.py:205 | the zero-padded `%0Nd` text of a number below 10^N is all digits and reads back as that number |
| `Dates.DateTextRoundTrip` | custom_components/ics_recurring/calendar.py:205 | the `YYYY-MM-DD` text reads back as the year, month and day it was made from |
| `Dates.DateTextInjective` | custom_components/ics_recurring/calendar.py:205 | two moments have the same date text if and only if their year, month and day agree |
| `Dates.IsoRoundTrip` | custom_components/ics_recurring/calendar.py:207 | the ISO-8601 text reads back as the moment itself, so no field is lost |

## Left out

- Platform setup (`setup_platform`) and the configuration schema: host-framework glue.
- `ICSCalendarEventDevice`: entity wrapping around host helpers (`calculate_offset`, `is_offset_reached`, `copy.deepcopy`) that are not part of this model.
- The refresh throttle (`@Throttle`, 15 minutes): a timing gate of the host library.
- Fetching and ICS parsing (`ical.events_async`, `ical.latest_events`): network I/O in an external library. The events are a parameter instead.
- The `except:` blocks around the fetch in `update` and `async_get_events`. They are not modelled: in both methods `events_items` is a local that only the `try` assigns (`update` initialises the differently named `event_items`), so any failed `latest_events` call leaves it unbound and the loop over it raises `UnboundLocalError` instead of giving an empty list.
- Logging.
- `async_get_events` takes `start_date` and `end_date` but never uses them (the date-filtered fetch is commented out), so `GetEvents` does not take them.
- `arrow.utcnow()`: `now` is a parameter.
- Naive datetimes and date-only values: every event date is an aware datetime here. Offsets are whole seconds; sub-second offsets are not modelled.
- The zone label `'local'` that the all-day branch attaches. `YYYY-MM-DD` does not print it, and finding the host's local zone is outside the model.
- Dates.Instant: the day count is the standard proleptic-Gregorian formula. No lemma relates it to the library's own ordering of datetimes.
- The reverse direction of the ISO text: `ParseIso` is a partner for the round-trip lemma and does not reject every malformed string.
