# Subscription tracker: due dates and the per-user subscription list

The server of this subscription tracker keeps, for each signed-in user, a
list of recurring subscriptions. A subscription has an id, a name, the last
paid month (`"YYYY-MM"`), a recurrence in months and a day of the month. It
also stores the next due date (`"YYYY-MM-DD"`), which is derived from those
three fields.

This project models the two pieces of real logic in `app.js`:

- **The due-date calculator** `calculateNextDueDate`, in modules `Calendar`,
  `DueDates` and `Text`. It is a pure function. `DueDates.DueDate` gives the
  calendar date or the reason null comes out; `DueDates.CalculateNextDueDate`
  gives the string. Three JavaScript `Date` behaviours are modelled exactly,
  following the ECMA-262 operations MakeDay, DayFromYear and TimeClip
  (section 21.4.1 of ECMA-262):
  - the month carry into the year, with Euclidean division;
  - the `Date.UTC` reading of years 0 to 99 as 1900 to 1999;
  - the range limit that makes the date NaN, which the code turns into null.

  The year is written as `String` writes it, without padding. The month and
  day are padded to two digits.
- **The list logic of the POST, PUT and DELETE handlers**, in modules
  `Subscriptions` and `Handlers`. The list is the `subscriptions` field of
  the class `Handlers.UserData`. Its methods `Create`, `Update` and `Delete`
  change the list in place as the handlers do: a `push`, an index
  assignment, and a reassignment with the filtered array. Each method returns
  the response as an `Outcome`.
  - Each method is proved against specification functions:
    `NewSubscription`, `ApplyUpdate` and `RemoveId`.
  - The array helpers the handlers call are loop methods, each proved equal
    to its function: `reduce` for the largest id, `findIndex`, and `filter`.
  - Each handler keeps the list invariant `WellFormed`: ids are unique, and
    every stored due date is what the calculator gives for the record's
    fields.

Module `DueDateExamples` states concrete cases of the calculator: carry
into the next year, clamping to 28 or 29 February, the month 00 and 13
carries, two-digit years, and the last representable month.

Where the written description of the system and the code disagree, the
model follows the code:

- The month is not range-checked by the calculator or by POST.
  `"2025-13"` is carried into January 2026 and `"2025-00"` into December
  2024 (`DueDates.DueMonthIsCarry`, `DueDateExamples.MonthThirteenCarried`,
  `Subscriptions.MonthRangeCheckedOnlyOnUpdate`). Only PUT checks
  year > 1900 and month 1 to 12.
- POST accepts a name of white space only and stores it as `""`
  (`Subscriptions.BlankNameStoredEmpty`). PUT rejects a blank name.
- Ids are reused. Deleting the record with the largest id and posting
  again gives the new record the same id
  (`Subscriptions.DeletedLargestIdReused`).
- The stored due date stays consistent only for records the handlers
  wrote. A name-only PUT keeps the old due date
  (`Subscriptions.UpdateKeepsConsistent` needs the original record to be
  consistent).

Being functions, `calculateNextDueDate` and the specification functions
give identical results for identical inputs.

## Model

| member | source | states |
|---|---|---|
| Text.Decimal | app.js:86-88 | `String(n)` of a natural number has at least one digit and no leading zero |
| Text.DecimalDigits | app.js:86-88 | the decimal text of n is all digits and reads back as n |
| Text.DecimalWidth | app.js:86 | a number from 10^(w-1) to 10^w - 1 is written with exactly w digits |
| Text.PadStart | app.js:87-88 | `padStart` keeps the text as a suffix, fills the front with the fill character, and reaches the width |
| Text.TwoDigits | app.js:87-88 | a number below 100 padded to two is two digits that read back as the number |
| Text.LeadingWhiteSpace | app.js:181 | the white space that `trim` removes at the front: all white space, and followed by a non-white-space character or the end |
| Text.TrailingWhiteSpace | app.js:181 | the white space that `trim` removes at the back: all white space, and preceded by a non-white-space character or the start |
| Text.Trim | app.js:181 | `trim` gives a contiguous slice of the input, with only white space around it, and that neither starts nor ends with white space |
| Text.TrimEmptyIff | app.js:195 | `name.trim()` is empty exactly when the name is all white space |
| Text.TrimIdempotent | app.js:181 | trimming a trimmed name changes nothing |
| Calendar.DaysInMonth | app.js:82 | the last day of a Gregorian month is from 28 to 31 |
| Calendar.MakeDay | app.js:78-84 | ECMA-262 MakeDay on integers: the day number of a day of a 0-based month, any month carried into the year by Euclidean division; YearLength and LastDayOfMonth state what it counts |
| Calendar.YearLength | app.js:78-82 | DayFromYear of y+1 is DayFromYear of y plus 365 or 366, following the leap-year rule |
| Calendar.LastDayOfMonth | app.js:82 | `Date.UTC(y, m, 0)` is the last day of month m, the day DaysInMonth names |
| Calendar.DayFromYearMonotone | app.js:85 | later years start on later days, so a range check on the year bounds decides TimeClip |
| DueDates.DueDate | app.js:69-85 | invalid arguments give InvalidInput, and only they; a computed date is a real calendar date in year 100 or later; its day is the requested day, or the month's last day when the month is shorter |
| DueDates.CalculateNextDueDate | app.js:69-94 | null comes out exactly when the date calculation fails |
| DueDates.IsMonthShape | app.js:70 | the test `/^\d{4}-\d{2}$/`: seven characters, four digits, a dash and two digits, with no range check on the month (also the tests at app.js:176 and 198) |
| DueDates.UtcYear | app.js:78 | `Date.UTC` reads a year from 0 to 99 as 1900 to 1999 and keeps any other year |
| DueDates.DueMonthIndex | app.js:77-79 | the due month as a month count: the start month of `Date.UTC(year, month - 1, 1)` moved on by `recurrenceMonths` through `setUTCMonth`; DueMonthIsCarry relates it to single month steps |
| DueDates.FormatDate | app.js:86-89 | the `${yyyy}-${mm}-${dd}` template, the year unpadded and month and day padded to two digits; FormatRoundTrip proves that it reads back and FourDigitYearFormat gives its length |
| DueDates.ParseJoined | app.js:89 | the `${yyyy}-${mm}-${dd}` template can be taken apart again into its three numbers |
| DueDates.FormatRoundTrip | app.js:86-89 | parsing a formatted date gives back the same year, month and day |
| DueDates.FourDigitYearFormat | app.js:86-89 | a date in a four-digit year is written as exactly ten characters, YYYY-MM-DD |
| DueDates.NextDueDateParsesBack | app.js:77-89 | parsing the calculator's string gives back exactly the computed due date |
| DueDates.AddMonthsIndex | app.js:79-81 | advancing one month at a time with the December carry moves the month index by n and keeps the month in 1 to 12 |
| DueDates.DueMonthIsCarry | app.js:77-81 | the due year and month are the start year and month advanced by `recurrenceMonths` single months, with carry |
| DueDates.StartIsGivenMonth | app.js:77-78 | for a month from 01 to 12, the start is the given month of the year `Date.UTC` reads |
| DueDates.CalculationErrorIff | app.js:78-85 | for valid arguments, null comes out exactly when the due month is September 275760 or later |
| DueDates.LastDayInRange | app.js:82-85 | from year 100 on, the last day of a month is in the range of TimeClip exactly when the month comes before September 275760 |
| DueDates.LastDayBounds | app.js:82-85 | day 0 of a month lies within the year, between its first day and the next year's first day |
| DueDateExamples.Example | app.js:69-89 | a concrete due month, clamped day and digit string give that exact result string |
| DueDateExamples.CarryIntoNextYear | app.js:77-81 | 2024-11 plus 3 months, day 15, gives "2025-02-15" |
| DueDateExamples.ClampInLeapYear | app.js:82-84 | 2024-01 plus 1 month, day 30, gives "2024-02-29" |
| DueDateExamples.ClampInCommonYear | app.js:82-84 | 2025-01 plus 1 month, day 30, gives "2025-02-28" |
| DueDateExamples.ExactDay | app.js:82-84 | a day the month has is kept: 2025-03 plus 1, day 15, gives "2025-04-15" |
| DueDateExamples.MonthThirteenCarried | app.js:70-79 | "2025-13" passes the shape check and is carried: plus 1 month gives 15 February 2026 |
| DueDateExamples.MonthZeroCarried | app.js:70-79 | "2025-00" is December 2024: plus 1 month gives "2025-01-15" |
| DueDateExamples.TwoDigitYearRead | app.js:78 | year 0050 is read as 1950 |
| DueDateExamples.InvalidArgumentsGiveNull | app.js:70-75 | a wrong month shape, 0 months or day 32 give null |
| DueDateExamples.RangeBoundary | app.js:85 | August 275760 is the last due month that gives a date; one month more gives null |
| Subscriptions.MaxId | app.js:179 | the fold gives a value that is at least 0, at least every id (a missing id counts as 0), and equal to one of them unless it is 0 |
| Subscriptions.MaxIdOf | app.js:179 | the `reduce` loop computes MaxId |
| Subscriptions.FirstIndexOf | app.js:191 | -1 exactly when no record has the id; otherwise the index of a record with the id, with none before it |
| Subscriptions.FindIndexById | app.js:191 | the `findIndex` loop computes FirstIndexOf |
| Subscriptions.FirstIndexUnique | app.js:191-192 | any index with the properties of `findIndex`'s answer is FirstIndexOf |
| Subscriptions.RemoveId | app.js:211 | the filtered list is no longer than the original, and every record in it is in the original and has another id |
| Subscriptions.FilterOutId | app.js:211 | the `filter` loop computes RemoveId |
| Subscriptions.RemoveIdAppend | app.js:211 | filtering distributes over concatenation, so the kept records keep their order |
| Subscriptions.RemoveIdMembers | app.js:211 | a record is kept exactly when it is in the list and has another id |
| Subscriptions.RemoveIdNoMatch | app.js:211-212 | when no record has the id, the filtered list is the original |
| Subscriptions.RemoveIdSameLength | app.js:210-212 | the length is unchanged exactly when no record has the id, and then the list is unchanged |
| Subscriptions.RemoveIdAtMostOne | app.js:211-212 | with unique ids, filtering removes at most one record |
| Subscriptions.UniquePrefix | app.js:211 | dropping the last record keeps ids unique |
| Subscriptions.UniqueAppend | app.js:179-182 | appending a record with an id no record has keeps ids unique |
| Subscriptions.RemoveIdKeepsUnique | app.js:211 | filtering by id keeps ids unique |
| Subscriptions.RemoveIdKeepsWellFormed | app.js:211 | deleting keeps the list invariant: unique ids and consistent due dates |
| Subscriptions.CreateFieldsValid | app.js:176 | the POST check: a truthy name, a string month of the YYYY-MM shape (month not range-checked), months positive, a day from 1 to 31 |
| Subscriptions.NewSubscription | app.js:174-182 | failed checks give 'Invalid input.'; a null due date gives 'Could not calc next due date.'; a non-string name gives the 500 of the throwing `trim`; otherwise the record has id MaxId + 1, above every existing id, the trimmed name, the given fields and the calculator's due date |
| Subscriptions.CreatedRecord | app.js:177-181 | a valid request with a string name creates exactly the record with id MaxId + 1, the trimmed name, the given fields and the computed due date |
| Subscriptions.CreateKeepsWellFormed | app.js:179-182 | appending the created record keeps ids unique and due dates consistent |
| Subscriptions.BlankNameStoredEmpty | app.js:176-181 | a name of white space only passes the POST checks and is stored as "" |
| Subscriptions.DeletedLargestIdReused | app.js:179-180 | after the created record is filtered out again, the list is the original and the same request creates the same record with the same id |
| Subscriptions.FieldError | app.js:195-198 | no error exactly when every supplied field passes; otherwise the first failing check in the order name, months, day, month shape, month range decides the error, each of the five errors stated as an if-and-only-if |
| Subscriptions.Overlay | app.js:193-198 | the copy `{ ...original }` with the supplied fields laid over it: a supplied field takes the supplied value (the name trimmed), every other field, the id and the due date keep the stored value |
| Subscriptions.RecalcIsNull | app.js:200 | the `!newNext` test: the calculator gives null for the merged month, months and day |
| Subscriptions.ApplyUpdate | app.js:193-200 | the update fails exactly when a supplied field fails its check (with the first failure's error) or when a driving field was supplied and the merged fields give a null due date ('Err recalc due date.'); a stored record keeps its id, takes every supplied field (the name trimmed) and keeps every other one; its due date is the old one when no driving field was supplied, and the calculator's value for its own fields otherwise |
| Subscriptions.UpdateKeepsConsistent | app.js:199-200 | an updated record is consistent when the original was, or when a driving field was supplied |
| Subscriptions.UniqueReplace | app.js:201 | replacing a record by one with the same id keeps ids unique |
| Subscriptions.UpdateKeepsWellFormed | app.js:193-201 | storing a successful update at its index keeps the list invariant |
| Subscriptions.MonthRangeCheckedOnlyOnUpdate | app.js:176-198 | a month above 12 passes the POST checks but PUT rejects it with 'Invalid month/year.' |
| Handlers.MergeUpdate | app.js:193-200 | the step-by-step merge with the `recalc` flag computes ApplyUpdate |
| Handlers.UserData.Create | app.js:170-185 | the list grows by exactly the record NewSubscription gives, or stays unchanged with its rejection; the list invariant is kept |
| Handlers.UserData.Update | app.js:187-204 | a missing id gives 'Invalid ID.'; an id not in the list gives not found; otherwise the record at FirstIndexOf is replaced by ApplyUpdate's result, or the list is unchanged with its rejection; the list invariant is kept |
| Handlers.UserData.Delete | app.js:206-215 | the list becomes RemoveId; the outcome is 204 exactly when a record had the id, otherwise not found with the list unchanged; with unique ids one record goes; the list invariant is kept |

## Left out

- HTTP routing, middleware, sessions and status codes: a response is an `Outcome` or a `Rejection` value. The authentication check, `getUserData`, `GET /api/subscriptions` and the configuration and login endpoints are not part of this model.
- Google sign-in, token verification and session handling: these call a foreign library and identity provider.
- Persistence (lowdb `db.read`/`db.write`, `startServer`): file I/O and asynchronous. The list is the class field. The 500 answers for a failing write are not modelled: 'Failed add sub.' after the `push` at app.js:182, which leaves the new record in the in-memory list, and 'Failed update sub.' and 'Failed delete sub.' after the list was changed.
- Logging (`console.log`, `console.error`) and environment configuration.
- The browser code under `public/`: DOM, `fetch`, timers and wall-clock progress bars.
- `parseInt` leniency (`"12abc"` is 12): numeric body fields and the id parameter arrive already parsed, as an integer, NaN or absent.
- Concurrency between requests: each handler runs to completion on the list.
- Strings are sequences of Unicode scalar values, not of UTF-16 code units. White space for `trim` is the ECMAScript WhiteSpace and LineTerminator set over those values.
- Subscriptions.NewSubscription: a `lastPaidMonth` that is not a JSON string is rejected as 'Invalid input.'. In the source, an array whose string form has the YYYY-MM shape passes the regular expression, then fails inside the calculator, giving 'Could not calc next due date.'.
- Stored ids are integers or missing. An id of another JSON type, which `sub.id || 0` and `===` would treat differently, is not represented.
