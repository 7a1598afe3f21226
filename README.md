# Medicine reminder tracker: a verified model

This project models the logic of a browser-side medicine reminder tracker. The tracker
keeps a list of medicine entries in memory and mirrors it to browser storage. An entry has:
- an id;
- a name, form, dosage and frequency;
- a daily reminder time in `HH:MM`;
- a start date and an optional end date;
- notes;
- a status (active or completed);
- a cached next-dose text.

The user adds entries through a form and deletes them after a confirmation dialog.
A dashboard shows the next three upcoming reminders of the day, sorted by time. It also
shows two counters: the total number of entries, and the active entries whose course
starts today. A poll that runs once a minute announces every active entry whose reminder
minute is at most one minute from the current minute. "Mark as taken" and "snooze"
announce a message for the entry and change nothing else.

The model has five modules:

- `Optional`: the `Option` datatype, for an optional end date, a lookup that can miss
  and an absent stored list.
- `TimeText`: clock times. `Time` is the type of well-formed `HH:MM` texts. The module
  converts a time to its minute of the day and back. It also gives the 12-hour display
  form (`8:00 AM`) and a parser that recovers the time from it.
- `Medicines`: the entry and form records, id allocation for a new entry, and a generic
  order-keeping filter that every view is built from. It also has deletion by id and the
  lookup by id.
- `Views`: derived views of the list and the selection conditions they use. These are
  the upcoming-reminders view (filter, stable sort by reminder minute, cut to three), the
  due check, and the two counters.
- `Tracker`: the page state as a class. It holds the list and the stored copy, with
  handlers for add, confirmed delete, the reminder poll, mark-as-taken and snooze. It
  also has the sample list the page starts with when storage holds nothing.

The surroundings are passed in as parameters:
- the clock's minute of the day is an `int` argument (`now`);
- today's date is a `Date` argument;
- the answer to the confirmation dialog is a `bool` argument;
- browser storage is the `saved` field, which holds the last list written (or `None`).

## Model

| member | source | states |
|---|---|---|
| TimeText.ToMinutes | script.js:210-211 | a reminder time's minute of the day is below 1440 |
| TimeText.ToMinutesParts | script.js:210-211 | dividing the minute of the day by 60 gives back the hour, and the remainder gives back the minute |
| TimeText.FromMinutesToMinutes | script.js:276-277 | every minute of the day is the minute of exactly the time that `FromMinutes` renders for it |
| TimeText.ToMinutesFromMinutes | script.js:276-277 | rendering a time's minute of the day gives back the same `HH:MM` text |
| TimeText.ToMinutesInjective | script.js:210-211 | two times have the same minute of the day if and only if they are the same time, so sorting and windowing by minute lose nothing |
| TimeText.Hour | script.js:211 | the hour read from the text before the colon is below 24 |
| TimeText.Minute | script.js:211 | the minute read from the text after the colon is below 60 |
| TimeText.HourText | script.js:381 | the clock-face hour prints as one or two digits without a leading zero, and reads back as the same number |
| TimeText.Suffix | script.js:379 | the suffix is "PM" exactly from noon on and "AM" exactly before noon |
| TimeText.DisplayHour | script.js:380 | the 12-hour clock hour lies in 1..12 and agrees with the 24-hour hour modulo 12 |
| TimeText.FormatTime | script.js:376-382 | the display text has 7 or 8 characters and carries the time's colon and minute digits unchanged |
| TimeText.FormatTimeTwelve | script.js:379-381 | midnight shows as 12 AM and noon as 12 PM, with the minute digits unchanged |
| TimeText.FormatTimeOtherHours | script.js:379-381 | hours 13-23 show as the hour minus 12 PM, and hours 1-11 show as themselves AM |
| TimeText.FormatTimeRoundTrip | script.js:376-382 | parsing the 12-hour display of any time gives back that time |
| TimeText.FormatTimeInjective | script.js:376-382 | two times display the same if and only if they are the same time |
| TimeText.To24OfDisplay | script.js:379-380 | the clock-face hour with its AM/PM suffix determines the 24-hour hour |
| Medicines.IsToday | script.js:389-393 | two dates are the same day exactly when they are equal as day, month and year |
| Medicines.MaxId | script.js:85 | the largest id of a non-empty list is at least every id and is the id of some entry |
| Medicines.NextId | script.js:85 | the new id exceeds every existing id; it is 1 for an empty list, and otherwise it is one more than some existing id |
| Medicines.NewEntry | script.js:84-96 | a new entry gets a fresh id above all existing ones and starts active with next dose equal to its time; the other fields come from the form |
| Medicines.AddKeepsUniqueIds | script.js:84-98 | appending the new entry to a list with unique ids keeps ids unique |
| Medicines.Filter | script.js:337 | a filtered list is no longer than the list, and each of its entries is in the list and accepted |
| Medicines.FilterCount | script.js:260-263 | a filtered list keeps each accepted entry exactly as often as the list holds it, and drops every other entry |
| Medicines.FilterAppend | script.js:207-208 | filtering distributes over concatenation, so list order is kept |
| Medicines.FilterUnchanged | script.js:337 | filtering leaves a list unchanged if and only if every entry is accepted |
| Medicines.FilterIdempotent | script.js:337 | filtering twice with the same condition is filtering once |
| Medicines.RemoveId | script.js:337 | after delete, every remaining entry came from the list and carries another id |
| Medicines.RemoveIdCount | script.js:337 | delete keeps every entry with another id exactly as often as before, and removes every entry with the id; this is the meaning of the delete condition `OtherId` (script.js:337) |
| Medicines.RemoveIdAppend | script.js:337 | delete keeps the surviving entries in their original order |
| Medicines.RemoveIdAbsent | script.js:337 | delete leaves the list unchanged if and only if no entry carries the id |
| Medicines.RemoveIdTwice | script.js:337 | deleting the same id twice is deleting it once |
| Medicines.RemoveIdPresent | script.js:337 | in a list with unique ids, deleting an id that is present removes exactly one entry |
| Medicines.RemoveIdKeepsUniqueIds | script.js:337 | delete keeps ids unique |
| Medicines.RemoveIdKeepsNextDoseShown | script.js:337 | delete keeps every card's next dose consistent with its status: the reminder time while active, empty once completed |
| Medicines.Find | script.js:311 | the lookup finds an entry if and only if some entry carries the id, and then it returns the first such entry |
| Views.Key | script.js:209-216 | an entry's reminder minute is a minute of the day |
| Views.Abs | script.js:280 | the distance between two minutes is the non-negative one of the difference and its negation |
| Views.DueAt | script.js:275-280 | an entry is due exactly when it is active and its reminder minute is within one minute of now, on either side |
| Views.Candidates | script.js:207-218 | the candidates for the view are no more than the entries, and each is an entry of the list that is active and not yet past |
| Views.SortByTime | script.js:219 | the sort returns a permutation of its input, ordered by reminder minute |
| Views.CandidateCount | script.js:207-218 | an entry is a candidate for the view exactly when it is active and its reminder is not yet past, as often as the list holds it; this is the meaning of the conditions `IsActive` (script.js:208) and `NotBefore` (script.js:218) |
| Views.Upcoming | script.js:207-220 | the view shows at most three reminders |
| Views.UpcomingPrefix | script.js:219-220 | the view is the head of the sorted candidates: three of them, or all when there are fewer |
| Views.UpcomingInCandidates | script.js:220 | the view holds no entry more often than the candidates do |
| Views.UpcomingSorted | script.js:219 | the view lists its reminders soonest first |
| Views.UpcomingActive | script.js:207-218 | every reminder in the view is active and not yet past |
| Views.UpcomingSubmultiset | script.js:207-220 | every reminder in the view comes from the active entries, and no more often |
| Views.UpcomingEarliest | script.js:219-220 | every candidate the cut leaves out is no earlier than every reminder shown |
| Views.UpcomingOrdersByTime | script.js:207-220 | at 07:00 a 09:00 entry added before an 08:00 entry is shown after it |
| Views.DueEntries | script.js:274-288 | the due entries come from the list and are active |
| Views.DueCount | script.js:274-288 | the due check keeps each due entry as often as the list holds it, and drops every other entry |
| Views.DueAtEight | script.js:276-280 | an active 08:00 entry is due at 08:00 and not at 08:05 |
| Views.DueWindowStopsAtMidnight | script.js:280 | the window does not wrap at midnight: a 00:00 reminder is not due at 23:59 |
| Views.ComputeStats | script.js:259-263 | the total counts every entry, and the today counter is at most the total |
| Views.TodayCount | script.js:260-263 | the today counter counts exactly the active entries whose start date is today; this is the meaning of the condition `ActiveStartingOn` (script.js:261-262) |
| Views.StatsAfterAppend | script.js:259-263 | adding an entry raises the total by one, and raises the today counter by one exactly when the entry is active and starts today |
| Tracker.SampleData | script.js:2-42 | the sample list has three entries with unique ids and next doses consistent with their status, so the next id allocated is 4 |
| Tracker.MedicineList.constructor | script.js:2-42 | the page starts with the stored list when there is one (even an empty one), and with the sample list otherwise; the invariant (unique ids, next dose consistent with status) holds when the stored list has it |
| Tracker.MedicineList.Save | script.js:395-397 | storage receives the whole current list; the list is unchanged |
| Tracker.MedicineList.Add | script.js:81-105 | the form's new entry is appended, the list is saved and the "added" notice names the entry; the invariant is kept |
| Tracker.MedicineList.Delete | script.js:335-343 | a confirmed delete removes the id's entries, saves and shows the "deleted" notice; a declined delete changes nothing and shows nothing; the invariant is kept, and under it a confirmed delete of a present id removes exactly one entry |
| Tracker.MedicineList.CheckReminders | script.js:270-289 | the poll announces exactly the due entries, in list order, one reminder notice each naming the entry and its dosage (`ReminderNotice`, script.js:281-285), and changes nothing |
| Tracker.MedicineList.MarkAsTaken | script.js:310-320 | the "taken" notice names the first entry with the id; there is no notice if and only if no entry has the id |
| Tracker.MedicineList.Snooze | script.js:323-332 | the "snoozed for 10 minutes" notice names the first entry with the id; there is no notice if and only if no entry has the id |

## Left out

- Rendering of the entry cards, the tabs, the upcoming list and the counters: these are HTML output with no logic beyond what the views compute.
- The notification banner itself, its auto-hide timer and its close button: display only. The handlers return the notices they would show, and a later notice replacing an earlier one on screen is not modelled.
- The timers (the minute clock and the minute poll) and the live clock display: the clock is the `now` argument.
- The edit button: its handler only shows a "not implemented" message.
- Tab switching: user-interface state only.
- The date formatting for cards: it is locale-dependent display text.
- JSON serialisation of the list in browser storage: storage is an abstract snapshot (`saved`), so a JSON round trip is not modelled.
- Dates: the source parses a `YYYY-MM-DD` start date as midnight UTC and then reads it back in local time. West of UTC that gives the previous day. The model compares date triples, as if both dates were read in the same zone.
- Malformed reminder times: the time field is a browser time input, so a time is always `HH:MM`. The `Time` type excludes other texts, and the NaN minutes such text would give in the source are not modelled.
- Ids: the source's ids are floating-point numbers. The model uses unbounded integers, so precision loss above 2^53 is not modelled.
- Form field validation: the browser enforces the required fields, and the model takes any `Form`.
- Views.SortByTime: the insertion sort is stable, like the browser's sort, but no lemma states stability.
- Tracker.MedicineList.MarkAsTaken: the source records nothing about the dose and re-renders the upcoming view unchanged, even though its comment says the entry leaves the view. The model returns only the notice and changes no state.
- Tracker.MedicineList.Snooze: as for mark-as-taken. No later reminder time is stored, so the entry stays in the view.
- Tracker.MedicineList.Delete: the handler returns no result and its notice has a fixed text, so the model does not report whether an entry was removed. `RemoveIdAbsent` states when the list is unchanged. A confirmed delete saves even when no entry had the id.
- Status changes: no code path changes an entry from active to completed, and an end date in the past has no effect.
