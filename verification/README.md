# Cabanas booking calendar — a Dafny model

This project models the rules of a small booking tool for a set of
holiday cabins ("chalés"). The tool has two halves.

- A browser client (`static/script.js`):
  - It shows one month as a grid of day cells and paints a bar on a cell
    for every reservation that occupies that day.
  - It opens a reservation when a day is clicked.
  - It moves between months.
  - It masks the WhatsApp number and the amount typed into the form.
  - It checks the dates before saving.
- A Flask server on SQLite (`app.py`):
  - It lists the reservations that meet a date range.
  - It creates, partially updates, fetches and deletes a reservation.
  - It sets a reservation's status to `checkin` or `checkout`.
  - It reads the masked amount back as whole cents.

Dates are RFC 3339 section 5.6 full-dates (`YYYY-MM-DD`). Both halves
compare them as strings. The model does not assume that this is sound.
It proves, over a `(year, month, day)` triple, that for full-date strings
string order is calendar order (`Dates.FullDateOrder`). That is the
property RFC 3339 section 5.1 promises for dates written in the same
format.

Modules:

| module | models |
|---|---|
| `Wrappers`, `Strings` | Option; digits, the string order of JavaScript and SQLite, decimal text, trimming, splitting |
| `Values` | JSON payload values, with Python truthiness, `int(...)` and `.strip()` |
| `Dates` | the date triple; `formatDateISO`, `isoToDisplay`, `addDaysISO`; Python's `strptime(s, '%Y-%m-%d')` |
| `Masks` | the WhatsApp mask and the currency mask of the form |
| `Money` | `valor_to_cents` on strings |
| `Calendar` | occupancy, bars, colours, day clicks, the visible-month state (a class), the render loop, new-reservation defaults, the save check, the dialog's buttons |
| `Store` | table rows, `row_to_dict`, the listing's `WHERE` clause (with SQL NULL logic) and its `ORDER BY` |
| `Api` | the create, update, get, delete, check-in and checkout endpoints |
| `Sync` | how client and server fit: every stay the calendar paints is listed; the finding below |

Two facts about the code that the model keeps:

- A new reservation's status is `'reservado'`: the column default
  (`app.py:36`) and the value create inserts (`app.py:141`). No "none"
  status exists.
- When several reservations occupy a clicked day, the prompt lists them in
  the order they were loaded. Only the bars are sorted by cabin.

## Model

| member | source | states |
|---|---|---|
| Dates.DaysInMonth | static/script.js:140 | a month has 28 to 31 days |
| Dates.ParseFullDate | static/script.js:20-23 | a parsed full-date has the `YYYY-MM-DD` shape and is a valid calendar date; the client reads dates this way (also at static/script.js:280), and the corrected create of the finding below parses with it |
| Dates.FormatDateISOShape | static/script.js:9-14 | `formatDateISO` writes a `YYYY-MM-DD` string whose fields are the date's year, month and day |
| Dates.AddDaysISO | static/script.js:24-28 | moving a full-date forward by n days and formatting gives text that reads back as the date n days later (years 1000 to 9999) |
| Dates.FormatThenParse | static/script.js:9-14 | reading back what `formatDateISO` wrote gives the same date |
| Dates.ParseThenFormat | static/script.js:9-14 | formatting a parsed full-date gives the same string |
| Dates.FullDateOrder | static/script.js:157 | for full-date strings, `s <= t` as strings iff `t`'s date is not before `s`'s (RFC 3339 section 5.1) |
| Dates.FullDateEq | app.py:93 | two full-dates are equal strings iff their dates are equal |
| Dates.FormatOrder | static/script.js:88-91 | formatted dates compare as strings the way the dates compare in the calendar |
| Dates.NextDayIsSuccessor | static/script.js:24-28 | the next day is later than the day, and no day lies strictly between them |
| Dates.AddOneDayISO | static/script.js:24-28 | `addDaysISO(iso, 1)` is the full-date of the next calendar day, and it sorts after `iso` |
| Dates.IsoToDisplay | static/script.js:15-19 | empty iff the input is empty, and contains a `/` otherwise (on full-dates it is `DD/MM/YYYY`, see `Dates.DisplayOfFullDate`) |
| Dates.DisplayOfFullDate | static/script.js:15-19 | `isoToDisplay` turns `YYYY-MM-DD` into `DD/MM/YYYY` |
| Dates.Strptime | app.py:129-130 | a date `strptime` accepts is a valid calendar date with a year of at least 1 |
| Dates.StrptimeOfFullDate | app.py:129-130 | on a full-date, `strptime` gives the same date as the full-date parse |
| Dates.StrptimeAcceptsShortFields | app.py:129-130 | `strptime` also accepts `"2024-5-1"`, which is not a full-date |
| Values.Or | app.py:116 | `x or default` is `x` when it is truthy and otherwise the default |
| Values.PyIntOfDigits | app.py:116 | `int` of a digit string is its decimal value |
| Values.PyIntOfText | app.py:120 | `int` reads back the decimal text of a natural number |
| Masks.PhoneMask | static/script.js:368-376 | the mask is at most 15 characters, and with at most 2 digits it is the bare digits |
| Masks.PhoneMaskShape | static/script.js:368-376 | the mask keeps exactly the first min(11, n) input digits: bare with at most 2, `(DD) rest` with 3 to 7, `(DD) DDDDD-rest` with more; at most 15 characters |
| Masks.PhoneMaskIdempotent | static/script.js:369-375 | masking a masked phone changes nothing |
| Masks.PhoneMaskOfDigits | static/script.js:372-373 | with 8 to 11 digits the mask is `(DD) DDDDD-rest` |
| Masks.PhoneMaskOfShortDigits | static/script.js:370-371 | with 3 to 7 digits the mask is `(DD) rest` |
| Masks.PhoneMaskExampleFull | static/script.js:367 | `"11987654321"` becomes `"(11) 98765-4321"` |
| Masks.PhoneMaskExampleShort | static/script.js:370-371 | `"119"` becomes `"(11) 9"` |
| Masks.CanOpenWhatsApp | static/script.js:358-363 | the WhatsApp button needs at least 11 characters, and on bare digits it opens iff there are at least 11 |
| Masks.WhatsAppGuardOnMasked | static/script.js:359-360 | the WhatsApp button accepts the masked phone iff at least 11 digits were typed |
| Masks.GroupIsRegex | static/script.js:384 | the recursive thousands grouping equals the regular-expression replacement `\B(?=(\d{3})+(?!\d))` |
| Masks.GroupGroups | static/script.js:384 | the groups between the dots are the input; the first has 1 to 3 digits and every other exactly 3 |
| Masks.DigitsOfGroup | static/script.js:384 | removing the dots from the grouped digits gives the digits back |
| Masks.MaskDigitsShape | static/script.js:380-382 | the padded digits are the input's digits ("0" if there are none), left-padded with zeros: to exactly 3 characters when there are fewer than 3 digits, and not at all with 3 or more |
| Masks.MaskDigitsParts | static/script.js:383-384 | the padded digits split into a non-empty integer part and two cents digits |
| Masks.CurrencyText | static/script.js:383-385 | the text ends in a comma and two digits, and those are the last two padded digits |
| Masks.CurrencyMask | static/script.js:379-386 | the listener's loop produces the currency text of the input |
| Masks.CurrencyShape | static/script.js:380-385 | the output is `integer "," two digits`, with a grouped integer part, and its digits are the padded digits |
| Masks.CurrencyIdempotent | static/script.js:379-386 | masking a masked amount changes nothing |
| Masks.CurrencyOfDigits | static/script.js:383-385 | on 3 or more digits the mask only groups them and inserts the comma |
| Masks.CurrencyExampleFiveCents | static/script.js:381-382 | `"5"` becomes `"0,05"` |
| Masks.CurrencyExampleThousands | static/script.js:384 | `"1234567"` becomes `"12.345,67"` |
| Masks.CurrencyExampleMasked | static/script.js:379-386 | `"0,05"` stays `"0,05"` |
| Money.ValorToCents | app.py:49-63 | a missing, null or falsy amount is 0 cents |
| Money.ExampleSpaceBeforeDot | app.py:54-63 | `float` strips again after the dots are dropped: `"5 ."` reads as 500 cents |
| Money.ParseDecimal | app.py:60 | a decimal `float` accepts has digits only and at least one of them |
| Money.RoundHalfEvenNearest | app.py:63 | rounding gives the nearest integer, and the even one on a tie |
| Money.BlankIsZero | app.py:50-56 | a missing amount and a blank one are 0 cents |
| Money.NormalizeGroup | app.py:58 | dropping the dots undoes the mask's thousands grouping |
| Money.MaskedValueRoundTrip | app.py:48-63 | `valor_to_cents` of the currency mask's output is the value of the digits typed |
| Money.ReadCurrencyText | app.py:54-63 | a grouped integer part, a comma and two digits read as the value of all the digits |
| Money.ExampleThousands | app.py:48 | `"1.234,56"` is 123456 cents |
| Calendar.Matches | static/script.js:157 | the reservations kept are exactly those occupying the day, each as often as loaded |
| Calendar.MatchesAppend | static/script.js:157 | the filter keeps load order: the matches of `a + b` are the matches of `a` followed by those of `b` |
| Calendar.OccupiesChronologically | static/script.js:157 | on full-dates, the string test holds iff the day lies between check-in and check-out, both included |
| Calendar.SortByChaleSpec | static/script.js:177 | the bar order is ascending by cabin and a permutation of the matches |
| Calendar.InsertByChaleOfCabin | static/script.js:177 | inserting a reservation puts it before the others of its cabin and keeps their order |
| Calendar.SortByChaleStable | static/script.js:177 | the sort is stable: the reservations of one cabin keep their relative order |
| Calendar.BarColour | static/script.js:183-185 | a bar is green iff the reservation is checked in |
| Calendar.BarColourRule | static/script.js:183-185 | green iff checked in; otherwise note iff the observations have a non-blank character; otherwise blue |
| Calendar.Label | static/script.js:187-188 | the label starts with `C` and ends with the guest's name, or with `—` when the name is empty |
| Calendar.Bars | static/script.js:180-188 | one bar per occupant, in order, with its id, cabin, colour and label |
| Calendar.DayBarsSpec | static/script.js:175-185 | a day's bars are the occupying reservations, each as often as it was loaded, ascending by cabin, each with its colour |
| Calendar.DayBarsStable | static/script.js:175-177 | on a day, the bars of one cabin come in load order (two bars of a cabin share each turnover day) |
| Calendar.DayClick | static/script.js:156-172 | whatever a click opens for editing is a loaded reservation occupying that day |
| Calendar.DayClickDispatch | static/script.js:156-172 | no match opens a new reservation on that day; one match edits it; with several, ordinal k in 1..count edits the k-th match in load order, and any other answer does nothing |
| Calendar.NextYm | static/script.js:210-211 | the month after stays in 0..11 |
| Calendar.PrevYm | static/script.js:205-206 | the month before stays in 0..11 |
| Calendar.NavigationSteps | static/script.js:204-213 | next and prev move exactly one month, wrap the year, and undo each other |
| Calendar.CellWithinRange | static/script.js:88-91 | every day cell of the month lies between the bounds the month is loaded with |
| Calendar.CalendarState.constructor | static/script.js:35-38 | the visible month starts at today's month with nothing loaded |
| Calendar.CalendarState.NextMonth | static/script.js:209-213 | the visible month becomes the next month and stays valid |
| Calendar.CalendarState.PrevMonth | static/script.js:204-208 | the visible month becomes the previous month and stays valid |
| Calendar.CalendarState.Load | static/script.js:92-98 | the loaded list is the fetched list, or empty when the request fails |
| Calendar.CalendarState.RenderDays | static/script.js:138-150 | one cell per day of the visible month, each with its date and that day's bars |
| Calendar.CalendarState.RenderedWithinRange | static/script.js:88-91 | for years 1000 to 9999, every cell `RenderDays` returns lies within the range the visible month was loaded for (`Range`) |
| Calendar.CellsWithinRange | static/script.js:88-91 | the days 1, 2, ... of a month lie between its first and last day as strings |
| Calendar.SubmitCheck | static/script.js:276-283 | the save is refused as missing dates iff a date is empty |
| Calendar.SubmitOnFullDates | static/script.js:280-283 | on full-dates, save is refused iff check-out sorts before check-in; equal dates pass |
| Calendar.SubmitNeedsBothDates | static/script.js:276-279 | an empty date is always refused |
| Calendar.NewReservationForm | static/script.js:217-228 | a clicked day becomes the check-in, and the check-out is always `addDaysISO(checkin, 1)` |
| Calendar.NewReservationPasses | static/script.js:217-228 | the new-reservation defaults have check-out the day after check-in and pass the save check |
| Calendar.ShowCheckinButton | static/script.js:245-251 | a `reservado` reservation offers check-in |
| Calendar.ShowCheckoutButton | static/script.js:245-251 | the dialog offers checkout iff it does not offer check-in |
| Store.TextColumn | app.py:29-36 | a TEXT column stores NULL or text, and keeps text unchanged |
| Store.RowToDict | app.py:66-72 | None iff no row; the record is the row with its amount made an integer, 0 for NULL |
| Store.RowToDictRoundTrip | app.py:66-72 | None maps to None, a NULL amount reads as 0, and otherwise no column is lost |
| Store.Find | app.py:106-107 | the row fetched by id is in the table with that id; none means no row has it |
| Store.FindUnique | app.py:106-107 | with unique ids the fetch returns the one row with that id |
| Store.InRangeIff | app.py:92-93 | the `WHERE NOT (checkout < ? OR checkin > ?)` clause keeps a row iff both dates are set, `checkin <= to` and `checkout >= from` |
| Store.Where | app.py:92-95 | the rows kept are exactly the table's rows in range, each as often as it is stored |
| Store.KeyLeTotal | app.py:94 | any two rows are ordered by `(checkin, chale)` one way or the other |
| Store.KeyLeTrans | app.py:94 | the `(checkin, chale)` order is transitive |
| Store.SortByKeySpec | app.py:94 | the listing is sorted by `(checkin, chale)` and is a permutation of the selection |
| Store.Records | app.py:99 | each listed row becomes its `row_to_dict` record |
| Store.ListRowsMembers | app.py:91-97 | with both bounds the listing holds the rows in range, and without them every row |
| Store.ListReservations | app.py:86-100 | a record is listed iff it is the `row_to_dict` of a stored row that the query selects |
| Store.ListSpec | app.py:86-100 | the listing for a range holds exactly the table's rows whose stay meets the range, sorted |
| Api.ParseDay | app.py:128-132 | a parsed date comes from a string and is valid |
| Api.CheckDates | app.py:128-134 | a bad format iff a date does not parse; a check-out before the check-in iff both parse and are out of order; accepted dates both parse and are in order |
| Api.CreateReservation | app.py:113-147 | a failed create leaves the table alone; a 201 appends one row, the `StoredRow` of the body: the next id, the cabin and guest count as `int` reads them (1 and 2 when missing or falsy), the name, phone and notes stripped ("" when missing, the phone also when falsy), the dates as sent, the amount from `valor_to_cents`, status `reservado` |
| Api.CreateSpec | app.py:113-147 | the order of create's checks; a failure leaves the table alone; an integer outside 64 bits is a server error; 201 iff all fields convert, the dates are accepted and the integers fit; the row added is the `StoredRow` of the body (every column, as on `Api.CreateReservation`) and is what the 201 answers; ids stay unique |
| Api.CollectKeys | app.py:170-176 | the loop adds one `key = ?` and one value per present key, in the order of the keys |
| Api.BuildUpdate | app.py:165-184 | the SET list is the present keys in fixed order, then `valor_cents` iff an amount is sent; the parameters are the values plus the id last |
| Api.SetListMeansUpdate | app.py:170-187 | carrying out the SET list on a row is the column-by-column update |
| Api.UpdateWhereId | app.py:186-187 | the UPDATE changes exactly the rows with the id |
| Api.UpdateReservation | app.py:150-193 | the handler's steps give the column-by-column outcome |
| Api.ParamsBindable | app.py:184-187 | the parameters bind iff every known key's value and the amount and id fit 64 bits |
| Api.UpdateSpec | app.py:150-193 | when both dates are truthy a bad pair is refused with its 400, and only then are dates checked; "nenhum campo" iff no known key and no amount; an integer outside 64 bits, or a null cabin written into a row that has the id, is a server error; 400 and 500 leave the table alone; otherwise the row with the id is rewritten, other rows are kept, and 404 iff the id is absent |
| Api.UpdateRefusals | app.py:156-182 | the refusing answers of update, as in `UpdateSpec` |
| Api.UpdateWrites | app.py:184-193 | the writing answers of update, as in `UpdateSpec` |
| Api.UpdateAccepted | app.py:156-193 | an update whose dates pass, that names a field, whose integers fit and that does not null a stored row's cabin is written and answered by the fetch (200 or 404); a 500 comes only from integers that do not fit or a null cabin written into a row that has the id |
| Api.NullCabinOnAbsentId | app.py:184-192 | a null cabin for an id no row has writes nothing, so the `NOT NULL` column (app.py:28) refuses nothing: the answer is 404 and the table is unchanged |
| Api.NoFieldIff | app.py:181-182 | the empty SET list means no known key and no amount |
| Api.WriteThenFetch | app.py:187-193 | an update by id followed by the fetch answers 404 iff the id is absent, and otherwise with the updated row |
| Api.GetReservation | app.py:103-110 | the table is unchanged; 404 iff no row has the id, and 200 answers a stored row with it; an id outside 64 bits is a server error |
| Api.DeleteWhereId | app.py:199 | the DELETE keeps exactly the rows without the id, each as often as before |
| Api.DeleteReservation | app.py:196-201 | delete answers 200 success and removes exactly the rows with the id; an id outside 64 bits is a server error |
| Api.SetStatusReply | app.py:204-225 | a 200 from check-in or checkout answers the row with the id and that status (`checkin`, `checkout`) |
| Api.SetStatusSpec | app.py:204-225 | check-in or checkout sets that status on the row with the id and changes nothing else; 404 iff the id is absent; an id outside 64 bits is a server error |
| Api.CheckinThenCheckout | app.py:204-225 | check-in then checkout leaves status `checkout`, with all other columns unchanged |
| Sync.PaintedIsListed | app.py:91-95 | a stay the calendar paints on a day of the visible month is in the listing for that month |
| Sync.CheckinSwitchesButtons | static/script.js:245-251 | after a successful check-in the record is painted green and the dialog offers checkout, not check-in |
| Sync.FullDateStayMeetsMonth | app.py:93 | a full-date stay meets a month's range iff it overlaps the month in calendar order |
| Sync.UnpaddedStayNeverListed | app.py:128-129 | as written, create stores the stay `"2024-5-1"` with 201, but no month's listing returns it |
| Sync.CheckedStayListed | app.py:128-132 | when dates are parsed as full-dates, a created stay is listed for a month iff it overlaps the month |

## Left out

- The DOM, the modal, event wiring, `fetch`, `alert`, `prompt`, `confirm` and `window.open` are left out. They are browser I/O. The prompt's answer is a parameter of `Calendar.DayClick`, and a failed fetch is the `None` given to `CalendarState.Load`.
- The save, remove, check-in and checkout handlers of the client are left out. They build the payload and send requests. Only their date check (`Calendar.SubmitCheck`) is modelled.
- "Today" (`new Date()`) is a parameter.
- JavaScript `Date` leniency is left out. `new Date(...)` rolls invalid days over, and the model works on valid dates only.
- The leading blank cells before day 1 (the weekday offset) are left out. They are layout only.
- `centsToBr` is left out. It uses floating point and locale formatting.
- `valor_to_cents` on numbers is left out, along with the binary rounding error of `float`. Text amounts are read with exact decimal arithmetic and rounded half to even. The exponent, `inf` and `nan` forms of `float` are read as unparsable, giving 0.
- Non-ASCII whitespace and Unicode digits are not modelled: not for Python's `.strip()`, `int`, `float` and the `\d` of `strptime`'s `%Y`, `%m` and `%d`, and not for JavaScript's `trim()` behind the note colour of `Calendar.BarColour`, which also removes U+00A0 and U+FEFF. Strings compare by code point; this agrees with the UTF-16 order of JavaScript for the ASCII texts in question.
- Flask routing, the SQLite connection, `CREATE TABLE`, `commit` and `created_at` are left out. The table is a sequence of rows, and the create call takes the next id as a parameter instead of AUTOINCREMENT.
- SQLite's INTEGER affinity for `chale` and `pessoas` is left out. Those columns keep the JSON value bound to them. The TEXT columns (`nome`, `whatsapp`, `checkin`, `checkout`, `observacoes`, `status`) and the integer amount follow the schema's affinity.
- Values.ParseIntText: Python's `int` also accepts underscores between digits (`"1_0"` is 10); the model refuses such text.
- Calendar.Reservation: the client's record has text fields, and a JSON null in one (possible after an update with null) is read as `""`. For `nome`, `observacoes` and `status` the client treats both alike (`r.nome || '—'`, `r.observacoes && …`, `r.status === 'checkin'`). For the dates it does not: JavaScript's `null <= iso` is false while `"" <= iso` is true, so a stay with a null check-in and a set check-out is painted by the model but not by the client.
- Money.ParseDecimal: Python's `float` also accepts underscores between digits (`"1_000,00"` is 100000 cents); the model reads such text as unparsable, giving 0.
- Money.ValorToCents: amounts are exact. Where Python's `float` overflows to `inf` (hundreds of digits) and `round` raises, the model gives a huge number of cents, which create and update turn into the same 500 through the 64-bit bind check; float rounding of amounts near 2^63 cents is not modelled.
- Strings.IsSpace: Python's `strip` and `int` also drop the ASCII separators `\x1c` to `\x1f`; the model treats them as ordinary characters.
- JSON bodies that are not objects are left out, and so are float, array and object values inside them.
- Calendar.CellWithinRange, Calendar.NewReservationPasses, Dates.AddOneDayISO and the Sync lemmas hold for years 1000 to 9999 only. Outside them `formatDateISO` does not write four year digits and the strings stop sorting as dates.
- Store.SortByKeySpec: the order SQLite returns rows with equal `(checkin, chale)` is unspecified, and the model fixes one such order.

## Findings

| source | as written | input that shows it | evidently intended | confidence | as-written member | corrected member |
|---|---|---|---|---|---|---|
| app.py:128-132 | `strptime(s, '%Y-%m-%d')` also accepts one-digit months and days, so create stores such dates as sent; the listing compares them as text | create with checkin = checkout = `"2024-5-1"`: 201, but the stay is in no month's listing and never appears on the calendar | accept only `YYYY-MM-DD`, as the error message says, so every stored stay is listed for the months it overlaps | not executed | Sync.UnpaddedStayNeverListed | Sync.CheckedStayListed |
