# MissileTracker: the date/time normaliser and the row extractor

MissileTracker downloads a spreadsheet of missile tests and shows it in a Qt window. This
project models the part of `Window` (in `bookwindow.cpp`) that turns the sheet into the rows
of the window's `entireTable`:

- `storeExcelFileData` goes through the sheet row by row. It skips the rows before
  index 148. For every later row it reads columns A..O and keeps seven of them (B, D, I, K, L,
  M, O). It removes the apostrophes from the city name. It drops the row when one of the seven
  values is `"Unknown"`, and otherwise appends a five-field `Row` to `entireTable`.
- `convertDate` turns the day serial of column B into `YYYY-MM-DD`. It parses the serial with
  `stoi` and counts from 1900-01-01 as day 1. It takes away whole years and then whole months,
  and keeps exactly 366 remaining days inside a leap year. Then it prints with `%04d-%02d-%02d`
  into an 11-byte buffer.
- `convertTime` splits a second count into hours, minutes and seconds with C integer
  division. It prints them as three `setw(2)` zero-filled fields joined by `:`.
- `isLeapYear` and `daysInMonth` give the Gregorian rules.

Modules:

- `Wrappers` holds `Option`, which stands for "this call throws".
- `Text` models decimal text:
  - the numerals `printf` and an `ostream` produce;
  - `std::stoi`: white space, one sign, the longest digit run, and the 32-bit range.
- `Calendar` holds the leap-year rule, the month table and the serial numbering of days.
  - The two loops of `convertDate` appear twice: as the spec functions `YearSplit` and
    `MonthSplit`, and as the method `ConvertDate`, which keeps the source's `while` loops and
    is proved equal to them.
  - It also holds `ConvertTime` on the truncated second count.
- `Extractor` holds the datatype `Row` (the five fields of `row.h:8-17`: date and time, city,
  coordinates, landing location, distance) and the row steps. Each loop method is proved
  against a spec function:
  - `ReadCells`, the column loop, against `ReadFields`;
  - `HandleRow`, one data row, against `RowStep`;
  - `StepOfRow` and `ExtractRows`, the row loop, against `StepAt`, `Steps`, `Run` and
    `Extraction`.
  - The class `Window` holds the `entireTable` field and the method `StoreExcelFileData`.
  - Lemmas then describe the pass as a filter-map over the sheet.
- `Scenarios` holds concrete cases.

Notes on the behaviour of the code:

- A date cell that is not a number does not become `"Unknown"`. `stoi` throws, nothing catches
  the exception, and the pass ends at that row. The rows appended before it stay appended.
- A distance shorter than three characters makes `erase(length() - 3)` throw `out_of_range`,
  with the same effect.
- The converted date and time are never `"Unknown"`: they have 10 and at least 8 characters.
  So only the five texts can reject a row (`Extractor.ConvertedNeverUnknown`).
- The cut removes three characters, whatever they are: `"1234km"` gives `"123"`.
- `substr(0, 6)` of `"-127.654321"` is `"-127.6"` (`Scenarios.Coordinates`).
- `storeExcelFileData` appends to the member `entireTable`; it does not rebuild it. Two calls on
  one sheet leave the rows twice (`Extractor.Window.StoreExcelFileData`).
- There is no 1900-02-29: serial 60 is 1900-03-01. From serial 61 on, every day is one day later
  than in spreadsheet programs that count that fictitious day.

## Model

| member | source | states |
|---|---|---|
| Calendar.IsLeapYear | bookwindow.cpp:117-119 | the Gregorian rule: a year is a leap year when it is divisible by 4 and not by 100, or divisible by 400 |
| Calendar.LeapYearCycle | bookwindow.cpp:117-119 | the leap-year pattern repeats every 400 years |
| Scenarios.LeapYears | bookwindow.cpp:117-127 | 2000 and 2024 are leap years, 1900 and 2023 are not; February has 29 days in 2024 and 28 in 1900 |
| Calendar.DaysInMonth | bookwindow.cpp:121-127 | every month of 1..12 has 28 to 31 days |
| Calendar.DaysInMonthRule | bookwindow.cpp:121-127 | February has 29 days exactly in leap years and 28 otherwise; April, June, September and November have 30 days, the other months 31 |
| Calendar.DaysBeforeMonthStep | bookwindow.cpp:122-126 | the cumulative month table grows by each month's length, from 0 before January to the year's length after December |
| Calendar.YearSplit | bookwindow.cpp:134-145 | the year loop as a recursion: while more than 365 days remain, except exactly 366 in a leap year, a year's days are taken away and the year advances; gives the days left and the year reached |
| Calendar.YearSplitFacts | bookwindow.cpp:134-145 | the year loop stops in a year at or after 1900, with at most 365 days left or exactly 366 in a leap year; the days it took away are exactly those of the years it passed; a positive serial leaves a positive count; a serial of at most 365 is left alone |
| Calendar.MonthSplit | bookwindow.cpp:146-149 | the month loop as a recursion: while the days left exceed the current month's length, that month's days are taken away and the month advances; gives the day and the month reached |
| Calendar.MonthSplitFacts | bookwindow.cpp:146-149 | the month loop stops in a month between the start and December on a day within that month's length; the days it took away are those of the months it passed |
| Calendar.MonthLoopStep | bookwindow.cpp:146-149 | the month loop never runs past December: each pass keeps the remaining days within the rest of the year |
| Calendar.CalendarOf | bookwindow.cpp:130-149 | the two loops together: the year loop from 1900, then the month loop from January on the days it leaves; gives the calendar day (its properties are `CalendarOfFacts`, `SerialOfInjective` and `CalendarOfSerialOf`) |
| Calendar.CalendarOfFacts | bookwindow.cpp:130-149 | every serial from 1 on lands on a real calendar day (month 1..12, day 1..days of that month) whose serial is the input; a serial of 0 or less stays in January 1900 with that day number |
| Calendar.SerialOfInjective | bookwindow.cpp:130-149 | two valid days with the same serial are the same day |
| Calendar.CalendarOfSerialOf | bookwindow.cpp:130-149 | the loops invert the serial numbering: every valid day from 1900 on is found again from its serial |
| Calendar.FormatDate | bookwindow.cpp:150-152 | the 11-byte buffer holds exactly ten characters |
| Calendar.FormatDateRoundTrip | bookwindow.cpp:150-152 | for a valid day of a four-digit year the text is `YYYY-MM-DD` with zero-padded fields that read back to year, month and day |
| Calendar.DateText | bookwindow.cpp:129-153 | `convertDate` as a function: None exactly when `stoi` throws on the cell, otherwise a ten-character text, the formatted calendar day of the serial |
| Calendar.ConvertDate | bookwindow.cpp:129-153 | the two loops compute the calendar day of the serial; the result is None exactly when `stoi` throws, and otherwise ten characters long |
| Calendar.CQuot | bookwindow.cpp:158-160 | C's `/` on `int`: quotient times divisor plus the C remainder gives back the dividend, and the quotient has the dividend's sign (truncation toward zero) |
| Calendar.CRem | bookwindow.cpp:158-160 | C's `%` on `int`: the remainder is smaller than the divisor in size and has the sign of the dividend |
| Calendar.ClockOf | bookwindow.cpp:157-160 | hours*3600 + minutes*60 + seconds is the second count; minutes and seconds are within (-60, 60); all three are non-negative for a non-negative count and non-positive for a non-positive one; below 86400 the hours are below 24 |
| Calendar.ConvertTime | bookwindow.cpp:155-167 | the clock text has at least eight characters |
| Calendar.ConvertTimeRoundTrip | bookwindow.cpp:157-166 | for a count within one day the text is `HH:MM:SS`: eight characters whose three two-digit fields read back to exactly the hours, minutes and seconds `ClockOf` computes (so each is in range and they add up to the count) |
| Text.DigitsFacts | bookwindow.cpp:151 | a numeral is made of digits, has no leading zero and has the value of the number |
| Text.PrintfZeroPad | bookwindow.cpp:151 | `printf` `%0Nd` gives at least N characters (zeros after the sign of a negative number) |
| Text.StreamZeroPad | bookwindow.cpp:163-165 | `setfill('0') << setw(N)` gives at least N characters (zeros before the sign of a negative number) |
| Text.ZeroPaddedRoundTrip | bookwindow.cpp:151-165 | a number below 10^width is printed in exactly `width` digits, the same by `printf` `%0Nd` and by `setfill('0') << setw(N)`, and reads back as that number |
| Text.StoI | bookwindow.cpp:130 | a parsed value is within the 32-bit `int` range |
| Text.SkipSpaces | bookwindow.cpp:130 | the white-space skipping `stoi` starts with (its properties are `SkipSpacesFacts`) |
| Text.DigitRun | bookwindow.cpp:130 | the run of digits `stoi` converts (its properties are `DigitRunFacts`) |
| Text.SkipSpacesFacts | bookwindow.cpp:130 | `stoi` starts at a suffix of the text that does not begin with white space |
| Text.DigitRunFacts | bookwindow.cpp:130 | the converted digits are the longest run of digits at the start of the text |
| Text.StoIRoundTrip | bookwindow.cpp:130 | `stoi` reads every 32-bit integer back from its numeral, whatever non-digit text follows |
| Scenarios.Serials | bookwindow.cpp:129-149 | serials 1, 59, 60, 61, 366 and 1826 give 1900-01-01, 1900-02-28, 1900-03-01, 1900-03-02, 1901-01-01 and 1904-12-31 |
| Scenarios.Parsed | bookwindow.cpp:130 | `stoi("61")` is 61, and `stoi("Unknown")` throws |
| Scenarios.FormattedDay | bookwindow.cpp:150-152 | the day 1900-03-02 is printed as `1900-03-02` |
| Scenarios.DateTexts | bookwindow.cpp:129-153 | the date cell `"61"` becomes `1900-03-02`; the cell `"Unknown"` throws |
| Scenarios.Noon | bookwindow.cpp:155-167 | 43200 seconds give `12:00:00` |
| Scenarios.Midnight | bookwindow.cpp:155-167 | 0 seconds give `00:00:00` |
| Scenarios.LastSecond | bookwindow.cpp:155-167 | 86399 seconds give `23:59:59` |
| Extractor.StripApostrophes | bookwindow.cpp:78-79 | the city cell with every apostrophe removed and the other characters kept in order (its properties are the four lemmas below) |
| Extractor.StripApostrophesCount | bookwindow.cpp:79 | the city keeps every character other than the apostrophe as often as it occurs, and no apostrophe |
| Extractor.StripApostrophesMembers | bookwindow.cpp:79 | a character is in the stripped city exactly when it is in the cell and is not an apostrophe |
| Extractor.StripApostrophesNone | bookwindow.cpp:79 | a city without apostrophes is left unchanged |
| Extractor.StripApostrophesAppend | bookwindow.cpp:79 | stripping works piece by piece, so the kept characters stay in their order |
| Extractor.Prefix | bookwindow.cpp:105 | `substr(0, n)` is a prefix of the text, of length min(length, n) |
| Extractor.DropLast3 | bookwindow.cpp:107 | `erase(length() - 3)` throws exactly for texts shorter than three characters, and otherwise leaves three characters fewer |
| Extractor.DropLast3Suffix | bookwindow.cpp:107 | the kept text followed by the last three characters is the whole distance cell |
| Extractor.Row | row.h:8-17 | the five text fields of a table row: date and time, city, coordinates, landing location and distance |
| Extractor.Complete | bookwindow.cpp:94-100 | the acceptance test: a row is accepted exactly when none of date, time, city, latitude, longitude, landing location and distance equals `"Unknown"` |
| Extractor.BuildRow | bookwindow.cpp:102-107 | building a row throws exactly when the distance has fewer than three characters |
| Extractor.ReadColumnsAfterDate | bookwindow.cpp:68-93 | from column C on, the column loop cannot throw; it sets the time from D, the city from I and the four texts from K, L, M and O |
| Extractor.ReadFields | bookwindow.cpp:68-93 | the column loop from column A on empty fields (its rule is `ReadFieldsRule`) |
| Extractor.ReadColumns | bookwindow.cpp:68-93 | the loop test: past column O the fields are done, otherwise one more column is read (its properties are `ReadColumnsAfterDate` and `ReadFieldsRule`) |
| Extractor.ReadColumn | bookwindow.cpp:70-92 | one pass of the column loop: D becomes the time, I the stripped city, K, L, M and O are kept, the other columns change nothing; B goes to `ReadDateColumn` |
| Extractor.ReadDateColumn | bookwindow.cpp:71-72 | column B: the pass ends with the exception when `convertDate` throws, otherwise the date is set and the loop goes on at C |
| Extractor.ReadFieldsRule | bookwindow.cpp:68-93 | the column loop throws exactly when `convertDate` throws on column B; otherwise it yields the date from B, the time from D, the stripped city from I, and K, L, M, O unchanged |
| Extractor.ConvertedNeverUnknown | bookwindow.cpp:94-95 | a converted date or time never equals `"Unknown"` |
| Extractor.RowStepRule | bookwindow.cpp:68-109 | a data row throws when its date is not a number; it is rejected when the city, latitude, longitude, landing location or distance is `"Unknown"`; it throws when the distance is shorter than three characters; otherwise it appends the row built from date + " " + time, the stripped city, lat.substr(0,5) + ", " + lon.substr(0,6), the landing location and the cut distance |
| Extractor.RowStep | bookwindow.cpp:68-109 | one data row: throw, reject or append (its rule is `RowStepRule`) |
| Extractor.ReadCells | bookwindow.cpp:68-93 | the column loop over 'A'..'O' computes the values the column rule gives, or stops when `convertDate` throws |
| Extractor.HandleRow | bookwindow.cpp:60-109 | one data row's column loop and acceptance test give the row's step |
| Extractor.StepAt | bookwindow.cpp:59-110 | row `i`: skipped unread below index 148, otherwise the data-row step |
| Extractor.Steps | bookwindow.cpp:58-112 | one step per row of the sheet, in order |
| Extractor.Run | bookwindow.cpp:58-112 | the pass after the first n steps: skipped and rejected rows change nothing, an appended row goes at the end, the first throw ends the pass (its properties are `RunAdvance` to `RunIsFilterMap`) |
| Extractor.Extraction | bookwindow.cpp:58-112 | the pass over the whole sheet (its properties are `ExtractionIsFilterMap` and `HeaderIgnored`) |
| Extractor.StepOfRow | bookwindow.cpp:59-110 | row `i` of the sheet is skipped unread below index 148 and handled from 148 on |
| Extractor.ExtractRows | bookwindow.cpp:58-112 | the row loop appends the rows of the pass in order, and reports the index of the row whose exception ended it |
| Extractor.Window.StoreExcelFileData | bookwindow.cpp:50-115 | `entireTable` becomes its old contents followed by the rows of this pass; the result is the row whose exception ended the pass, if any |
| Extractor.RunAdvance | bookwindow.cpp:94-109 | a row that does not throw appends its row or nothing |
| Extractor.RunThrows | bookwindow.cpp:58-112 | a row that throws ends the pass with the rows appended before it |
| Extractor.RunStaysThrown | bookwindow.cpp:58-112 | after an exception has ended the pass, later rows change nothing |
| Extractor.RunGrows | bookwindow.cpp:108 | the table only grows during a pass: an earlier table is a prefix of a later one |
| Extractor.KeptRows | bookwindow.cpp:108 | a row is in the table exactly when one of the handled rows appends it |
| Extractor.FirstThrow | bookwindow.cpp:58-112 | the first row that throws: no earlier row throws, and the row at that index does |
| Extractor.RunIsFilterMap | bookwindow.cpp:58-112 | the pass is the filter-map of its rows up to the first row that throws: the appended rows in order, and that row's index |
| Extractor.ExtractionIsFilterMap | bookwindow.cpp:58-112 | the whole sheet's pass is the filter-map of its row steps up to the first throw |
| Extractor.HeaderIgnored | bookwindow.cpp:59 | the rows before index 148 are never read: sheets that differ only there give the same pass |
| Scenarios.Distances | bookwindow.cpp:107 | `"1234 km"` gives `"1234"`, `"1234km"` gives `"123"`, and `"km"` throws |
| Scenarios.Coordinates | bookwindow.cpp:105 | `"37.12345"` and `"-127.654321"` give `"37.12, -127.6"`; a short longitude is kept whole |

## Left out

- The spreadsheet reader (bookwindow.cpp:52-53, 58, 69, 113-114) is replaced by the rows it
  delivers. Each row is a sequence of cell texts, with empty rows already skipped by
  `XLSXIOREAD_SKIP_EMPTY_ROWS`.
- A cell text is modelled as its byte sequence, one Dafny `char` per byte of the UTF-8 text the
  reader delivers. So `Prefix` and `DropLast3` count bytes, as `substr(0, n)` and
  `erase(length() - 3)` do. The model does not decode UTF-8: a cut inside a multi-byte
  character leaves a partial byte sequence, as in the source.
- NULL cells (a data row with fewer than 15 cells) are undefined behaviour when assigned to
  `std::string`. `WellFormedSheet` requires 15 cells in every data row instead.
- The floating-point step of `convertTime` (`atof(cell) * 86400`, truncated to `int`,
  bookwindow.cpp:156-157) is the parameter `secondsOf`. A product outside the `int` range is
  undefined behaviour and is not modelled.
- What happens after an exception leaves `storeExcelFileData` (`std::terminate`, since nothing
  catches it) is not modelled. The model ends the pass and reports the row index.
- Extractor.Window.StoreExcelFileData: collects the rows of the pass and appends them once
  at the end instead of calling `push_back` per row. Nothing reads `entireTable` during the pass,
  so the final state is the same.
- Extractor.StripApostrophes: the in-place `erase(remove(...))` is modelled on values. The
  source calls the library algorithm and has no loop of its own.
- The window constructor, `setUp_temp_folder`, `downloadExcelFile_and_storeItsData`,
  `pathToTempFolder` and `wideToNarrow` (bookwindow.cpp:3-48) are file system and network
  I/O.
- `createTable_and_displayIt` (bookwindow.cpp:169-211) is the SQLite table and the Qt view.
- `src/bookwindow.cpp` is not part of this model: it is a Qt demo whose `storeExcelFileData`
  is commented out. `mycustomdelegate.h` (painting) is not part of this model either.
- Text.DigitValue: total, with 0 for a non-digit; it is only applied to digits.
- Fixed-width integers: after `stoi`, every value `convertDate` and `convertTime` compute fits in
  an `int`, so none wraps around.
