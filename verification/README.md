# meniOS library, shell and lock model

A Dafny model of the parts of meniOS whose correctness is hardest to see by reading: the calendar
arithmetic, buffered streams and number formatting of its C library, its word-at-a-time memory
primitives, the path, environment, expansion, history, search and job logic of the `mosh` shell, and
two kernel locks. Every module states what the code computes, in the code's own form (loops over
buffers, objects updated in place, interleaved steps), and proves it for all inputs or all runs.

`dafny verify dfyconfig.toml` checks the whole project.

## What is proved

- `Calendar`, `BrokenDownTime`: the era formulas of `src/libc/time.c` agree in both directions with a
  calendar that steps one day at a time, for every day; `mktime` carries and normalises.
- `Descriptor`, `Stream`: a `FILE` that switches between reading and writing over one buffer is, for
  every interleaving of calls and every pattern of short transfers, an unbuffered file.
- `CText`, `NumberText`, `FormatNumber`, `Scan`, `Printf`, `Strftime`: formatted output is the same text for
  every capacity; scanning undoes formatting; `strftime` is all or nothing.
- `PrintfText`, `TimeText`: what is printed is read back. Every directive of `printf` is parsed as written
  and prints its argument; every directive of `strftime` gives its field, and a printed date and time
  count to the second they were made from.
- `Memory`: `memmove` is right for every overlap and alignment although it forwards overlapping
  ranges to a word-copying `memcpy`.
- `PathText`, `Realpath`, `ShellPath`: editing a path in place is a fold over a stack of names.
- `EnvironmentList`, `Ownership`, `Environment`: a growing array with ownership flags is a finite map
  that frees each owned string exactly once.
- `Expansion`, `History`, `ReverseSearch`, `WaitStatus`, `JobLog`, `Jobs`: the shell, and the status words
  it has from the kernel.
- `Spinlock`, `RwLock`: mutual exclusion for any number of threads and any interleaving; the
  readers-writer lock prefers writers and loses no wake-up; a free lock can be taken.

## Where the code does less than it promises

Each of these is modelled as the code does it, with the exact condition under which the promise holds.

- `mktime` reports the time one second before 1970 as a failure (`MinusOneIsATime`), cuts a year that
  months carry past `int` (`CarriedYearIsCut`), and reads `tm_year + 1900` with an `int` addition that
  overflows in the last 1900 years it can store (`TopYearOverflows`). The count is the linear one
  exactly without that overflow (`CountIsLinear`), the round trip holds exactly when the calendar year
  is an `int` (`CountOfFields`), which is a range of seconds (`YearFitsRange`), and the fields are
  normalised, and stay the same, exactly for the dates that keep their calendar in the year they are
  stored and read back as (`NormalisedExactly`, `MktimeTwice`; `CutYearIsNotIdempotent` is one that does
  not). `mktime` ignores the time zone that `localtime_r` applies (`LocalRoundTrip`).
- `strlen` counts in 16 bits and never returns on a string of 65536 characters or more (`Strlen`):
  `strftime` hangs exactly when a `%R`, `%T` or `%F` that fits ends there (`StrftimeInto`,
  `LongTextHangs`), `printf` exactly when it prints such a string with `%s` (`Vsnprintf`), `setenv` and
  `unsetenv` on such a name, `setenv` on such a value, and the first change of the environment on such
  an entry (`Setenv`, `Unsetenv`, `EnsureCapacity`, `LongValueHangs`, `LongEntryHangs`). The model
  reports a hang as an outcome.
- A `write` that returns 0 in the middle of a flush leaves the bytes already written in the buffer
  (`FlushWrite`: they are kept a second time exactly when that flush had made progress), and `fflush` on a
  reading stream moves the position exactly when bytes were left unread (`Fflush`).
- `sprintf` renders the whole text exactly when its length fits an `int` (`Svprintf`).
- The shell's `canonicalize_path` can leave an extra slash (`ExtraSlash`, `CanonicalExactlyWhenTidy`);
  the list of components is right.
- `unsetenv` removes a name exactly when it is listed at most once (`UnsetRemovesExactlyWhenSingle`).
- `putenv` of a string that the environment itself allocated frees the string and keeps it listed
  (`Putenv`).
- `realpath` relative to a 255-character directory can succeed with a path that `realpath` itself then
  refuses (`ResultIsCanonical`), and `canonicalize_path` with capacity 1 writes one byte beyond it.
- `history_add` compares a new line with the stored, cut form of the last one, so a line over 255
  characters is kept twice (`KeptHasNoRepeats`, `LongLineIsKeptTwice`). The command loop cuts its lines
  first, so this does not happen in the shell (`ShortLinesAreKeptOnce`).
- A wait answered with ECHILD leaves its slot live, so a job all of whose waits are answered so is
  never reported (`PollBlocking`, `NoChildrenAreSilent`).
- A continued process is always seen as stopped (`ContinuedLooksStopped`), so the branch that reports
  a continued job never runs and is not in the model.

## What the model assumes

- Integers are unbounded except where the width matters; there C division, `unsigned` and `int`
  narrowing and 64-bit wrap-around are written out. Signed overflow wraps. The environment has fewer
  than 2^31 entries.
- `read`, `write`, `lseek`, `waitpid`, `kill`, `stat` and `getcwd` are arbitrary results within their
  contracts; failed and zero-length transfers are counted on the descriptor. Memory allocation
  succeeds. Offsets do not exceed `off_t`.
- A printf format does not end inside a directive, and widths and precisions fit an `int`.
- A string given to `putenv` has not been freed.
- A job has at most 8 segments. The job id counter goes from `INT_MAX` to 1.
- Shell variables, positional parameters and the environment are one lookup for the expansion.
- Kernel threads unlock only what they hold. A stretch of `krwlock` code between taking and dropping
  its mutex is one step; a signal may wake any sleeper.

## Model

| member | source | states |
|---|---|---|
| `CArith.ToInt32` | src/libc/time.c:356 | narrowing to a 32-bit int returns the value exactly when it fits and otherwise differs from it by at least 2^32 |
| `CArith.FloorDiv` | src/libc/time.c:233-240 | with a positive or a negative divisor the quotient is the floor: multiplying back brackets the dividend |
| `CArith.FloorMod` | src/libc/time.c:242-248 | the remainder completes the floor quotient and has the sign of the divisor |
| `CArith.CModZero` | src/libc/time.c:218-223 | a truncating remainder is zero exactly when the Euclidean one is, for negative years too |
| `CArith.FloorIsEuclidean` | src/libc/time.c:233-248 | for a positive divisor the floor pair is Euclidean division, on every dividend |
| `Calendar.PreviousDay` | src/libc/time.c:192-231 | in the day-by-day reference calendar, stepping forward undoes stepping back for every date |
| `Calendar.DaysClosedForm` | src/libc/time.c:192-199 | on calendar dates none of the unsigned wrap-arounds or truncations of days_from_civil changes the result: it is the plain floor formula |
| `Calendar.EraShift` | src/libc/time.c:194-197 | the era and year-of-era split counts the leap days of all years since year 0, negative years included |
| `Calendar.MarchStep` | src/libc/time.c:197 | a year counted from March is as long as the Gregorian leap rule says |
| `Calendar.MonthTable` | src/libc/time.c:196 | the (153 m + 2) / 5 month formula equals the table of month lengths |
| `Calendar.DaysFromMarch` | src/libc/time.c:192-199 | days_from_civil of any date is the start of its March year plus the month table plus the day |
| `Calendar.DaysWithinYear` | src/libc/time.c:216-226 | a date lies as many days after its 1 January as the month table and the leap rule say |
| `Calendar.YearStartStep` | src/libc/time.c:192-199 | consecutive 1 Januaries are 365 or 366 days apart by the leap rule |
| `Calendar.NextDayIsOneMore` | src/libc/time.c:192-199 | the day after any date has the next day number |
| `Calendar.DaysOfDateOf` | src/libc/time.c:192-199 | stepping n days from 1970-01-01 and converting gives n, for every n, negative ones included |
| `Calendar.DaysInjective` | src/libc/time.c:192-199 | two calendar dates have the same day number exactly when they are the same date |
| `Calendar.DateOfDays` | src/libc/time.c:192-199 | converting any calendar date and stepping that many days from 1970-01-01 gives the date back |
| `Calendar.YearOfEra` | src/libc/time.c:208-211 | the corrected division by 365 always lands in the year of the era whose days contain the given day, and a 366th day only in a leap year |
| `Calendar.MonthOfDay` | src/libc/time.c:212-214 | the inverse month formula gives a day within the month, with 29 February only on day 365 |
| `Calendar.EraOfDay` | src/libc/time.c:206-208 | the biased truncating division finds the era of negative days too |
| `Calendar.CivilFromDays` | src/libc/time.c:201-231 | for every day number the closed form returns the date the stepping calendar reaches, days_from_civil takes it back to that number, and yday is the distance from 1 January |
| `BrokenDownTime.WeekdayClosedForm` | src/libc/time.c:345-349 | a weekday that advances by one per day from Thursday 1970-01-01 is (n + 4) mod 7 for every n |
| `BrokenDownTime.CountOfCalendar` | src/libc/time.c:307-361 | without any bound on the year, the linear count undoes the calendar fields of every time |
| `BrokenDownTime.CalendarOfCount` | src/libc/time.c:307-361 | and the calendar fields undo the linear count of every normalised time |
| `BrokenDownTime.CountTellsYears` | src/libc/time.c:307-333 | no month, day or clock makes up for a year: counts that differ in the year alone differ |
| `BrokenDownTime.CountIsLinear` | src/libc/time.c:308 | the count is the linear carried one exactly when tm_year + 1900 does not overflow an int |
| `BrokenDownTime.CountOfFields` | src/libc/time.c:307-361 | tm_to_seconds undoes seconds_to_tm exactly when the calendar year is an int: the narrowing of the stored year and the wrapping addition of 1900 cancel below that, not above |
| `BrokenDownTime.FieldsOfCount` | src/libc/time.c:307-361 | seconds_to_tm undoes tm_to_seconds on a normalised struct tm exactly when its date keeps its calendar in the year it is read as, and always when tm_year + 1900 does not overflow |
| `BrokenDownTime.NormalisedExactly` | src/libc/time.c:335-361 | for every time, cut years included, the stored fields are in range and consistent exactly when the date keeps its calendar, weekdays and leap days that matter, in the year the narrowing leaves it |
| `BrokenDownTime.StoredIsNormalised` | src/libc/time.c:335-361 | every time whose tm_year fits an int is stored with all fields in range and consistent |
| `BrokenDownTime.YearFitsRange` | src/libc/time.c:356 | a calendar year that is an int, and a tm_year that is one, are two ranges of seconds a caller can test |
| `BrokenDownTime.NormalisationIsIdempotent` | src/libc/time.c:599-615 | normalising a second time gives the same fields exactly for the dates that keep their calendar in the year they are read back as, and the same count exactly in the range where that year is their own |
| `BrokenDownTime.CountStaysInYear` | src/libc/time.c:307-333 | the fields of any time, even with a 29 February that does not exist, count to a time in the year they are read as |
| `BrokenDownTime.MinusOneIsATime` | src/libc/time.c:606-612 | one second before 1970 is a proper time whose count is the failure value of mktime |
| `BrokenDownTime.TopYearOverflows` | src/libc/time.c:308 | the second after the last good one is stored correctly and read back as the first second of the smallest year |
| `BrokenDownTime.CarriedYearIsCut` | src/libc/time.c:356 | a struct tm of plain ints whose months carry the year past INT_MAX: mktime stores INT_MIN |
| `BrokenDownTime.CutYearIsNotIdempotent` | src/libc/time.c:599-615 | a struct tm of plain ints whose cut year changes again when the result of mktime is normalised once more |
| `BrokenDownTime.CountFitsInt64` | src/libc/time.c:307-333 | no struct tm of ints carries beyond 64 bits, so the overflow branch never fires |
| `BrokenDownTime.Tm.ToSeconds` | src/libc/time.c:307-333 | returns the carried count of any fields, linear exactly when tm_year + 1900 does not overflow |
| `BrokenDownTime.Tm.FromSeconds` | src/libc/time.c:335-361 | stores the calendar fields the stepping calendar gives, floor-divided for negative times |
| `BrokenDownTime.Mktime` | src/libc/time.c:599-615 | returns the count, the linear carried one exactly when tm_year + 1900 does not overflow, and stores its fields, normalised exactly when the date keeps its calendar, as every date does whose tm_year fits; a count of -1 is reported as failure and leaves the struct alone |
| `BrokenDownTime.ThereAndBack` | src/libc/time.c:307-361 | storing and counting again gives the time exactly on the range of seconds |
| `BrokenDownTime.MktimeTwice` | src/libc/time.c:599-615 | mktime on its own result gives the same count exactly on the range of seconds, and the same fields exactly for the dates that keep their calendar, unless the second call fails |
| `BrokenDownTime.LocaltimeR` | src/libc/time.c:567-590 | succeeds exactly when time plus offset is a 64-bit value and then stores the fields of that sum; failure leaves the struct alone |
| `BrokenDownTime.LocalRoundTrip` | src/libc/time.c:567-615 | mktime after localtime_r returns the time plus the offset exactly when that is in the range of seconds, and there the time itself exactly at offset zero |
| `NumberText.DigitCount` | user/libc/stdio.c:812-823 | a number below base^k has at most k digits |
| `FormatNumber.FormatBuffer.constructor` | user/libc/stdio.c:893-899 | an empty buffer, possibly with no storage at all |
| `FormatNumber.FormatBuffer.Putc` | user/libc/stdio.c:785-791 | appends one character to the text and keeps the storage equal to the longest prefix that fits, touching nothing beyond the capacity |
| `FormatNumber.FormatBuffer.Puts` | user/libc/stdio.c:793-797 | appends the whole text under the same invariant |
| `FormatNumber.DigitsFit` | user/libc/stdio.c:812-823 | every 64-bit magnitude in bases 8 to 16 fits the digit buffer |
| `FormatNumber.BackwardDigits` | user/libc/stdio.c:812-823 | the backward digit loop yields the reversed numeral of every 64-bit magnitude |
| `FormatNumber.FieldLength` | user/libc/stdio.c:799-891 | the field is exactly max(width, sign + prefix + max(precision, digits)) long for every mix of flags |
| `FormatNumber.Layout` | user/libc/stdio.c:829-862 | sign, zero count and padding for every mix of width, precision, zero and left flags |
| `FormatNumber.PutNumber` | user/libc/stdio.c:799-891 | emits exactly the specified number field |
| `Strftime.AppendBuffer` | src/libc/time.c:387-401 | appends exactly when text and terminator fit below max, and changes nothing outside the destination |
| `Strftime.AppendChar` | src/libc/time.c:403-411 | the same for one character |
| `Strftime.AppendSignedNumber` | src/libc/time.c:442-471 | appends the signed decimal numeral of any 64-bit value that can be negated |
| `Strftime.AppendTwoDigits` | src/libc/time.c:413-420 | two digits, or failure outside 0..99 |
| `Strftime.AppendThreeDigits` | src/libc/time.c:422-431 | three digits, or failure outside 0..999 |
| `Strftime.AppendWeekday` | src/libc/time.c:710-723 | the weekday name from its table, or failure outside 0..6 |
| `Strftime.AppendMonth` | src/libc/time.c:724-737 | the month name from its table, or failure outside 0..11 |
| `Strftime.AppendDay` | src/libc/time.c:744-757 | the day with a blank for a missing tens digit, or failure outside 0..31 |
| `Strftime.AppendZone` | src/libc/time.c:867-886 | sign, hours and minutes of the zone offset |
| `Strftime.AppendDirective` | src/libc/time.c:703-899 | each simple directive appends its rendering or fails as a whole |
| `Strftime.RenderHasNoNul` | src/libc/time.c:673-903 | no rendering contains a terminator, so lengths and strings agree |
| `Strftime.CompositeIsNotEmpty` | src/libc/time.c:817-866 | the rendering of %R, %T or %F is never empty, so a zero from the nested call means failure |
| `CText.Strlen` | src/libc/string.c:47-55 | returns the length of every string below 65536 characters; on a longer one it hangs, and every character it ever reads is not the terminator |
| `Strftime.AppendComposite` | src/libc/time.c:817-866 | %R, %T and %F append the rendering of their expansion, through the nested call and the length measured afterwards; the call hangs exactly when the text fits but reaches 65536 characters |
| `Strftime.NoComposite` | src/libc/time.c:684-903 | a format without composite directives never measures its text |
| `Strftime.SmallIsCounted` | src/libc/time.c:817-866 | a destination of at most 64 KiB never makes the call hang |
| `Strftime.LongTextHangs` | src/libc/time.c:817-823 | plain text and %R that fit: the call hangs exactly when together they reach 65536 characters |
| `Strftime.StrftimeInto` | src/libc/time.c:684-903 | for every format and size it hangs exactly when some composite directive that fits ends beyond 65535 characters, and otherwise is all or nothing: the exact rendering with its length, or 0 and an empty string, never beyond max |
| `Strftime.Strftime` | src/libc/time.c:673-903 | the same with the argument checks: a missing argument or no room gives 0 and an empty string where there is a place for one |
| `TimeText.NumbersReadBack` | src/libc/time.c:738-853 | %m, %d, %H, %M, %S, %y and %j have two or three digits that read back as their field, or no text exactly outside the range |
| `TimeText.TwelveHoursReadBack` | src/libc/time.c:764-816 | %I and %p together give the hour back, and both fail exactly outside 0..23 |
| `TimeText.DayReadsBack` | src/libc/time.c:744-757 | %e is %d with a blank for a leading zero |
| `TimeText.MonthsReadBack` | src/libc/time.c:723-737 | %b is the first three letters of %B and tells the month |
| `TimeText.WeekdaysReadBack` | src/libc/time.c:710-722 | %a is the first three letters of %A and tells the weekday |
| `TimeText.OffsetReadsBack` | src/libc/time.c:867-886 | %z gives the zone offset back to the minute, with its sign |
| `TimeText.YearReadsBack` | src/libc/time.c:854-859 | %Y is read back by the integer scanner as the year, sign included |
| `TimeText.EscapedTextIsLiteral` | src/libc/time.c:703-709 | text with its percent signs doubled renders as itself |
| `TimeText.SpelledOut` | src/libc/time.c:798-895 | %n, %t and %Z render as what they stand for, written out |
| `TimeText.RenderConcat` | src/libc/time.c:684-899 | a format put together renders to the texts put together, and fails exactly when a part fails |
| `TimeText.ClockWithSeconds` | src/libc/time.c:817-842 | %T is %R with the seconds |
| `TimeText.StampReadsBack` | src/libc/time.c:836-866 | "%F %T" of any fields that two digits hold is a text from which exactly these six numbers are read |
| `TimeText.ReadOnce` | src/libc/time.c:836-866 | such a text is read in one way only |
| `TimeText.PrintedSecondReadsBack` | src/libc/time.c:307-361 | for every second, the six numbers read from its "%F %T" count to that second exactly when its year fits the structure, and tm_to_seconds agrees on the range of seconds |
| `TimeText.PrintSecond` | src/libc/time.c:674-905 | the same of the code: fields stored by seconds_to_tm, printed by strftime into a buffer |
| `Descriptor.OverlayTwice` | user/libc/stdio.c:168-205 | writing a piece and then the next one where it ended is one write of both |
| `Descriptor.OverlayAt` | user/libc/stdio.c:168-205 | what each byte of a file is after a write, gap and extension included |
| `Stream.Stream.constructor` | user/libc/stdio.c:371-389 | a new stream shows the contents and position of its descriptor |
| `Stream.Stream.FlushWrite` | user/libc/stdio.c:168-205 | a successful or failed flush keeps logical contents, position and the order of accepted bytes; after a write that returns 0 the whole buffer is pending behind the part already delivered, which keeps the books exactly when that part is empty |
| `Stream.Stream.PrepareForRead` | user/libc/stdio.c:207-232 | switching to reading keeps contents, position and the bytes to come |
| `Stream.Stream.PrepareForWrite` | user/libc/stdio.c:234-264 | switching to writing gives back the unread bytes and keeps contents and position |
| `Stream.Stream.ReadBytes` | user/libc/stdio.c:570-604 | the bytes to come before the call are the delivered bytes followed by the bytes to come after it, for any pattern of short reads; a short result without a fault is the end of file |
| `Stream.Stream.Refill` | user/libc/stdio.c:588-600 | a read into the empty buffer changes nothing a reader can see |
| `Stream.Stream.Fread` | user/libc/stdio.c:553-604 | whole items of the delivered bytes; a product that overflows reads nothing and sets the error flag, and so does a stream not opened for reading read nothing |
| `Stream.Stream.Ftell` | user/libc/stdio.c:495-512 | returns the logical position in every mode |
| `Stream.Stream.Fseek` | user/libc/stdio.c:514-543 | moves the logical position to the target counted from start, logical position or logical end, or leaves it; fails without a fault only for a negative target |
| `Stream.Stream.WriteThrough` | user/libc/stdio.c:642-656 | a large write past the empty buffer overlays the bytes taken and advances by them |
| `Stream.Stream.WriteStep` | user/libc/stdio.c:630-662 | one turn of the write loop accepts a non-empty prefix of the rest or fails with the file unmoved |
| `Stream.Stream.WriteBytes` | user/libc/stdio.c:623-665 | the logical contents are overlaid with the accepted bytes for any pattern of short and failed writes; without a fault all are accepted |
| `Stream.Stream.Fwrite` | user/libc/stdio.c:606-665 | whole items of the accepted bytes; accepted bytes are delivered bytes followed by pending ones, in order, none lost or repeated |
| `Stream.Stream.Fflush` | user/libc/stdio.c:475-493 | keeps contents; keeps the position exactly unless unread bytes are dropped from a reading stream |
| `Stream.Stream.Ungetc` | user/libc/stdio.c:1320-1338 | pushes the low byte in front of the bytes to come exactly when reading with room before the read point; the stream still mirrors the file exactly when the byte is the one in the file |
| `Stream.Stream.Perform` | user/libc/stdio.c:495-665 | each fread, fwrite, fseek or ftell is the step of an unbuffered file opened the same way, with the same observation; a direction it was not opened for does nothing |
| `Stream.Stream.Run` | user/libc/stdio.c:495-665 | every interleaving of these calls on a stream opened for reading, writing or both, with arbitrary positive short reads and writes, gives the contents, position and observations of an unbuffered file |
| `Stream.Stream.RunAny` | user/libc/stdio.c:475-665 | every run in which no write returns 0, going on through failed calls, shows and leaves what a plain file does whose reads and writes may come up short and whose seeks may fail |
| `Stream.Stream.RunOutput` | user/libc/stdio.c:168-205 | over any run of fwrite and fflush, going on after failed writes, the bytes taken by the calls in order are the bytes delivered followed by the bytes still in the buffer |
| `Scan.SkipInputWhitespace` | user/libc/stdio.c:1392-1396 | stops at the first character that is not white space |
| `Scan.ParseInteger` | user/libc/stdio.c:1411-1496 | parses sign, optional base prefix and digits within the width, wrapping at 64 bits |
| `Scan.ScanDigits` | user/libc/stdio.c:1469-1496 | the digit loop computes the value of the longest digit run that fits the width, modulo 2^64 |
| `Scan.ValueOfDigits` | user/libc/stdio.c:1398-1409 | reading the digits of a number gives the number back, in every base up to 16 and either letter case |
| `Scan.LeadingZeros` | user/libc/stdio.c:1473-1486 | leading zeros do not change the value |
| `Scan.ShapeScan` | user/libc/stdio.c:1411-1496 | white space of any kind, sign, prefix and digits in this order are scanned to the value of the digits, with the cursor after the last digit, exactly when they fit the width and nothing continues them |
| `Scan.ScanUndoesFormat` | user/libc/stdio.c:799-891 | scanning what the formatter printed returns the same magnitude and sign and stops right after it, for every 64-bit magnitude, bases 8, 10 and 16 and every mix of width, padding, alignment, sign, prefix and precision that leaves a digit: exactly when the width admits it and what follows is no digit and no x after a lone hexadecimal 0 |
| `Scan.ScanFindsBase` | user/libc/stdio.c:1411-1496 | with no base given, %#x, %#o and plain %d output is read back under exactly the same condition |
| `Printf.ParseFlags` | user/libc/stdio.c:910-926 | the flag loop collects exactly the leading flag characters |
| `Printf.ParseNumber` | user/libc/stdio.c:937-940 | the decimal loop reads the longest run of digits |
| `Printf.ParseDirective` | user/libc/stdio.c:908-974 | flags, width, precision and length of a directive, with arguments taken for each star in order |
| `Printf.PutConversion` | user/libc/stdio.c:976-1113 | every conversion emits its specified text; %s hangs exactly on a string of 65536 characters or more |
| `Printf.Vsnprintf` | user/libc/stdio.c:893-1122 | hangs exactly when some printed string has 65536 characters or more; otherwise the returned length depends only on format and arguments, the buffer holds the longest terminated prefix of the full text, and nothing beyond its size is touched; the size may exceed a destination that has room for the text |
| `Printf.Vsprintf` | user/libc/stdio.c:1150-1156 | with the largest size there is, the whole text on a destination with room for it |
| `Printf.Svprintf` | user/libc/stdio.c:1124-1140 | measure, then render: the whole text is produced exactly when its length fits an int |
| `Printf.WriteFormatted` | user/libc/stdio.c:1174-1205 | measure, render and write: through any failed writes the stream receives exactly a prefix of the text at its position, and the result is the length exactly when it received all of it |
| `Printf.LongRoundTrip` | user/libc/stdio.c:1547-1640 | what %ld prints with any flags, %ld reads back as the same 64-bit value, the smallest included |
| `PrintfText.FlagsParse` | user/libc/stdio.c:917-927 | a run of flag characters sets exactly the flags in it |
| `PrintfText.NumberParse` | user/libc/stdio.c:936-943 | a run of digits is read as the number it denotes |
| `PrintfText.DirectiveParses` | user/libc/stdio.c:912-975 | a directive written from flags, width, precision and length is parsed to exactly these: a star takes the next argument, a negative width is the - flag, - overrides 0, a negative precision is none |
| `PrintfText.ValueOfWord` | user/libc/stdio.c:978-1056 | an argument word is read modulo 2^32 or 2^64 into the range of the type that letter and length name |
| `PrintfText.NumberShape` | user/libc/stdio.c:799-891 | every number letter prints the value of its word as blanks, sign, prefix, zeros, digits of the right base and case, blanks, each as letter, flags, width and precision say |
| `PrintfText.NumberReadsBack` | user/libc/stdio.c:978-1059 | what d, i, u, o, x, X and p print for a word, the scanner reads back in the base of the letter as the value of the word |
| `PrintfText.TextShape` | user/libc/stdio.c:1061-1103 | %s and %c fill a field as wide as text and width require, with the text cut to the precision on the side the - flag says |
| `PrintfText.DirectiveRenders` | user/libc/stdio.c:902-1114 | a directive anywhere in a format prints its conversion of the next argument, and the rest follows with the arguments after it |
| `PrintfText.PrintedNumberReadsBack` | user/libc/stdio.c:902-1114 | a format of one directive with any flags, sizes and stars prints a number that the scanner reads back as the argument behind those of the stars |
| `PrintfText.EscapedTextIsLiteral` | user/libc/stdio.c:902-911 | text with its percent signs doubled prints as itself and takes no argument |
| `PrintfText.UnknownLetter` | user/libc/stdio.c:1109-1113 | an unknown letter is printed behind its percent sign and takes no argument |
| `Memory.WordRoundTrip` | src/libc/string.c:559-562 | storing the word loaded from eight bytes restores them |
| `Memory.PatternBytes` | src/libc/string.c:496-499 | the shifted pattern holds the byte in every position |
| `Memory.AlignedDistance` | src/libc/string.c:550-564 | two different aligned pointers are at least a word apart, so a word never overlaps the word it is copied to |
| `Memory.Memory.Memset` | src/libc/string.c:489-520 | fills the range with the byte and nothing else, for every alignment and count |
| `Memory.Memory.CopyWords` | src/libc/string.c:549-567 | the byte and word loops copy original source bytes for every permitted overlap and alignment |
| `Memory.Memory.Memcpy` | src/libc/string.c:522-574 | exact copy for disjoint ranges and for every overlap with the destination below the source |
| `Memory.Memory.Memmove` | src/libc/string.c:576-595 | the original source bytes arrive for every overlap, alignment and count, and every other byte is unchanged |
| `PathText.ComponentsSplit` | user/libc/realpath.c:132-172 | components of two texts joined by a slash are the components of both |
| `PathText.ComponentsOfPath` | user/libc/realpath.c:132-189 | the components of a canonical path are the names it was built from |
| `PathText.ResolveNames` | user/libc/realpath.c:154-167 | resolution never leaves a ".", a ".." or an empty component |
| `PathText.ResolveConcat` | user/libc/realpath.c:132-172 | resolving two lists of components one after the other resolves the whole |
| `PathText.DotVanishes` | user/libc/realpath.c:155-156 | a "." anywhere changes nothing |
| `PathText.UpTakesBack` | user/libc/realpath.c:157-158 | a ".." anywhere takes back the name before it |
| `PathText.UpAtRoot` | user/libc/realpath.c:157-158 | a ".." at the root changes nothing |
| `Realpath.PathBuffer.TrimTrailingSlashes` | user/libc/realpath.c:14-22 | removes exactly the trailing slashes, keeping the root |
| `Realpath.PathBuffer.PopComponent` | user/libc/realpath.c:24-49 | the buffer holding a list of names holds it without the last one, the root staying the root |
| `Realpath.PathBuffer.AppendComponent` | user/libc/realpath.c:51-88 | succeeds exactly when the longer path fits and then holds the longer list; otherwise the buffer is unchanged |
| `Realpath.PathBuffer.EnterComponent` | user/libc/realpath.c:154-167 | one component is one step of the stack fold |
| `Realpath.WalkComponents` | user/libc/realpath.c:139-172 | the in-place loop holds the stack fold of the components, or reports the first step that does not fit |
| `Realpath.Realpath` | user/libc/realpath.c:90-209 | the result is "/" plus the join of the stack fold, or the error of the first cause that applies |
| `Realpath.FittingIsResolve` | user/libc/realpath.c:132-189 | whenever no step overflows the fold is plain lexical resolution |
| `Realpath.Idempotent` | user/libc/realpath.c:132-189 | resolving a canonical path that fits gives it back |
| `Realpath.ResultIsCanonical` | user/libc/realpath.c:90-209 | every successful result, from the root or a current directory, is the list of names of the lexical resolution, and resolves to itself exactly when it leaves one spare byte, which only a 255-character directory addressed as "here" does not |
| `ShellPath.RunSpells` | app/mosh/mosh.c:2524-2591 | the recorded start positions always spell the stack of components |
| `ShellPath.ShellAgreesWithRealpath` | app/mosh/mosh.c:2524-2591 | the shell and realpath yield the same list of non-empty components whenever both succeed |
| `ShellPath.RoomEnough` | app/mosh/mosh.c:2524-2591 | every input whose components with their slashes fit the capacity and the depth table succeeds |
| `ShellPath.CanonicalExactlyWhenTidy` | app/mosh/mosh.c:2558-2582 | the shell output is the canonical text exactly when the path has no ".." or its last ".." was taken at depth at most one |
| `ShellPath.ExtraSlash` | app/mosh/mosh.c:2558-2582 | down two directories and up one succeeds, at every capacity with room for the input, with a text that is not the canonical one |
| `ShellPath.CanonicalizePath` | app/mosh/mosh.c:2524-2591 | the buffer loop succeeds exactly when the fold does and writes exactly its text; nothing beyond the capacity is touched, except the terminator of the root at capacity 1 |
| `ShellPath.EnterSegment` | app/mosh/mosh.c:2551-2582 | one segment is one step of the fold, in place |
| `ShellPath.AppendSegment` | app/mosh/mosh.c:2566-2582 | a separator and the segment are written exactly when they fit and the depth table has room |
| `EnvironmentList.LookupWithEntry` | user/libc/environ.c:68-92 | after setting a name, that name reads the new value and every other name reads as before |
| `EnvironmentList.LookupWithoutOther` | user/libc/environ.c:292-323 | unsetting a name changes no other name |
| `EnvironmentList.UnsetRemovesExactlyWhenSingle` | user/libc/environ.c:303-320 | unsetting removes the name exactly when it was listed at most once |
| `EnvironmentList.UnsetUncoversSecond` | user/libc/environ.c:303-320 | with a name listed twice, unsetting it uncovers the second value |
| `EnvironmentList.UniqueWithEntry` | user/libc/environ.c:220-290 | setenv and putenv keep names unique |
| `EnvironmentList.UniqueWithout` | user/libc/environ.c:292-323 | unsetenv keeps names unique |
| `EnvironmentList.ApplyRefinesMap` | user/libc/environ.c:220-339 | each call is the corresponding update of a finite map, invalid names changing nothing |
| `EnvironmentList.RunRefinesMap` | user/libc/environ.c:68-339 | every run of calls refines the run on a finite map, with names staying unique |
| `EnvironmentList.ShortRunReturns` | user/libc/environ.c:121-323 | a run never hangs if its names and values, and the entries it starts from unless copied before, are below 65536 characters |
| `EnvironmentList.LongValueHangs` | user/libc/environ.c:122 | setting a variable hangs exactly on a value of 65536 characters or more, once the entries are copied |
| `EnvironmentList.LongEntryHangs` | user/libc/environ.c:153-158 | one entry of 65536 characters or more makes clearenv hang as the first change, and not later |
| `Ownership.InsertBalanced` | user/libc/environ.c:138-183 | adding a slot keeps the owned strings distinct, live and flagged |
| `Ownership.RemoveBalanced` | user/libc/environ.c:214-218 | dropping a slot frees its string exactly when it is owned |
| `Ownership.ReplaceBalanced` | user/libc/environ.c:243-248 | replacing a slot frees the old string exactly when it was owned |
| `Ownership.AllFreed` | user/libc/environ.c:49-66 | with no slot left every string ever allocated has been freed exactly once and no other string at all |
| `Environment.Environment.constructor` | user/libc/environ.c:25-47 | the environment borrows the given array: no string is owned |
| `Environment.Environment.FindIndex` | user/libc/environ.c:94-107 | the index of the first entry for the name, or -1 |
| `Environment.Environment.Getenv` | user/libc/environ.c:68-92 | the value of the first entry for a valid name, nothing for an invalid one |
| `Environment.Environment.CloneIntoOwned` | user/libc/environ.c:138-183 | hangs exactly on an entry of 65536 characters or more; otherwise cloning keeps the listing as fresh strings with balanced ownership, leaving the room asked for and a NULL after the last |
| `Environment.Environment.EnsureCapacity` | user/libc/environ.c:185-212 | hangs exactly when the first change meets such an entry; otherwise the listing is kept and the room asked for is there |
| `Environment.Environment.Setenv` | user/libc/environ.c:220-256 | hangs exactly when a valid name is too long for strlen, or an update meets an entry too long to copy or a value too long; otherwise the listing changes as specified, the terminator stays, ownership stays balanced |
| `Environment.Environment.Putenv` | user/libc/environ.c:258-290 | hangs exactly when the first change meets an entry too long to copy; otherwise the listing changes as specified with the string borrowed, and ownership stays balanced exactly for strings the environment did not allocate, one it did allocate being, with unique names, freed while it stays listed |
| `Environment.Environment.Unsetenv` | user/libc/environ.c:292-323 | hangs exactly on a valid name too long for strlen or, at the first change, an entry too long to copy; otherwise the first entry for the name is removed and its string freed if owned |
| `Environment.Environment.Clearenv` | user/libc/environ.c:325-339 | hangs exactly when the first change meets an entry too long to copy; otherwise empties the listing and frees every owned string |
| `Environment.Environment.Run` | user/libc/environ.c:220-339 | any sequence of calls in place, with any strings of the caller's own and the same one repeatedly, hangs exactly where one of its calls does and otherwise gives the specified listing with the array invariants intact; only strings allocated on the way are ever owned |
| `Environment.Environment.RunThenGet` | user/libc/environ.c:68-339 | after any sequence of calls that returned, getenv returns what the same calls leave in a finite map; the sequence hangs exactly where one of its calls does |
| `Environment.Environment.Fini` | user/libc/environ.c:49-66 | at the end every string the environment allocated has been freed exactly once and borrowed strings never |
| `Expansion.PlainTextIsCopied` | app/mosh/mosh.c:1347-1458 | text without dollar and backslash expands to itself |
| `Expansion.ExpandShift` | app/mosh/mosh.c:1347-1458 | expansion of a line from any position depends only on the text from there on |
| `Expansion.BracedName` | app/mosh/mosh.c:1278-1307 | a braced name is replaced by its value, which is not scanned again; a name over 31 characters leaves the dollar literal |
| `Expansion.BareName` | app/mosh/mosh.c:1318-1344 | the same for a bare identifier up to the first character that cannot continue it |
| `Expansion.NumericName` | app/mosh/mosh.c:1309-1344 | a dollar and all the digits behind it stand for the positional parameter, or for themselves when over 31 digits |
| `Expansion.DoubleDollar` | app/mosh/mosh.c:1269-1276 | two dollars are one |
| `Expansion.LoneDollar` | app/mosh/mosh.c:1264-1330 | a dollar at the end, or before a character that starts no name, stays |
| `Expansion.EmptyBrace` | app/mosh/mosh.c:1278-1307 | a dollar before an empty brace stays |
| `Expansion.UnclosedBrace` | app/mosh/mosh.c:1278-1307 | a dollar before a brace that is never closed stays |
| `Expansion.AssignedValueStands` | app/mosh/mosh.c:1278-1307 | an assigned variable stands for exactly its value, an unset one for nothing |
| `Expansion.OrdinaryChar` | app/mosh/mosh.c:1441-1450 | any other character, and a backslash at the end, stands for itself |
| `Expansion.QuotedTextIsLiteral` | app/mosh/mosh.c:1441-1450 | a backslash before every character protects any text from expansion |
| `Expansion.AppendText` | app/mosh/mosh.c:1195-1207 | appends exactly when text and terminator fit, in place |
| `Expansion.ScanName` | app/mosh/mosh.c:1278-1326 | collects the name and reports exactly those over 31 characters |
| `Expansion.ExpandDollar` | app/mosh/mosh.c:1224-1345 | produces the specified piece for every text after a dollar sign |
| `Expansion.ExpandVariables` | app/mosh/mosh.c:1347-1458 | terminates on every line, succeeds exactly when the expansion is shorter than the capacity, and then holds exactly that expansion |
| `History.RingAdd` | app/mosh/mosh.c:3890-3923 | overwriting the next slot of the ring is appending to the list it holds and keeping the last sixteen |
| `History.WindowKeep` | app/mosh/mosh.c:3906-3923 | deciding and adding within the window of sixteen is the same as over the whole history |
| `History.History.Add` | app/mosh/mosh.c:3906-3923 | an empty line or a repeat of the last line changes nothing, any other is appended to the window |
| `History.History.AddAll` | app/mosh/mosh.c:3906-3923 | after any run the logical indices read exactly the last sixteen kept lines of the input stream |
| `History.KeptHasNoRepeats` | app/mosh/mosh.c:3906-3923 | consecutive kept lines differ exactly when no line over 255 characters repeats the stored form of the non-empty line before it |
| `History.ShortLinesAreKeptOnce` | app/mosh/mosh.c:5497-5499 | lines cut to 255 characters, as the command loop does, are never kept twice in a row |
| `History.LongLineIsKeptTwice` | app/mosh/mosh.c:3906-3923 | a longer line added twice is kept twice |
| `ReverseSearch.FindSubstring` | app/mosh/mosh.c:5587-5604 | the first position at which the needle occurs, or nothing exactly when it does not occur |
| `ReverseSearch.HitsBelowIsAll` | app/mosh/mosh.c:3986-4002 | the list of hits holds every entry containing the query, newest first, each once |
| `ReverseSearch.NextOfHit` | app/mosh/mosh.c:4033-4061 | the step from one hit is the next older hit, and from the oldest the newest |
| `ReverseSearch.VisitsCycle` | app/mosh/mosh.c:4084-4093 | n presses visit hit n modulo the number of hits |
| `ReverseSearch.TypingSearches` | app/mosh/mosh.c:4095-4105 | typing a text appends it to the query and finds the newest entry that contains the whole |
| `ReverseSearch.ErasingUndoes` | app/mosh/mosh.c:4107-4117 | as many erasing keys give the old query and its newest entry back |
| `ReverseSearch.RepeatedPresses` | app/mosh/mosh.c:4084-4093 | repeated Ctrl-R keeps the query and walks its hits |
| `ReverseSearch.SearchedFor` | app/mosh/mosh.c:4084-4117 | a typed text and n more Ctrl-R end on hit n, counted cyclically, of the entries that contain the text, or on none |
| `ReverseSearch.Search.Scan` | app/mosh/mosh.c:3986-4002 | the newest hit below the starting point, or none |
| `ReverseSearch.Search.Apply` | app/mosh/mosh.c:4033-4061 | moves to the specified hit and shows it; without a hit the line is left alone |
| `ReverseSearch.Search.Start` | app/mosh/mosh.c:4063-4082 | saves line, length and cursor and shows the newest entry; on a search under way it is one more step |
| `ReverseSearch.Search.Next` | app/mosh/mosh.c:4084-4093 | starts a search, or moves a match to the next older hit cyclically; without a match it searches from the newest entry |
| `ReverseSearch.Search.AppendChar` | app/mosh/mosh.c:4095-4105 | extends the query up to its limit and finds the newest hit of the new query |
| `ReverseSearch.Search.Backspace` | app/mosh/mosh.c:4107-4117 | shortens the query and finds the newest hit of the new query |
| `ReverseSearch.Search.RestoreSaved` | app/mosh/mosh.c:4137-4156 | puts the saved line and cursor back, cut to the buffer |
| `ReverseSearch.Search.HandleChar` | app/mosh/mosh.c:4166-4194 | exactly the search keys keep the search going, with the saved line intact: a printable key extends the query up to 255, an erasing key shortens it, either shows the newest hit, Ctrl-R goes to the next; Ctrl-G restores the line, any other key accepts |
| `ReverseSearch.Search.PressKeys` | app/mosh/mosh.c:4166-4194 | over any sequence of search keys query and match are the fold of the keys, and the line shows the match whenever there is one |
| `ReverseSearch.Search.SearchFor` | app/mosh/mosh.c:4063-4194 | Ctrl-R, a text and n more Ctrl-R, through the key handler, show the entries that contain the text, newest to oldest and round again, or report none |
| `ReverseSearch.Search.SearchAndCancel` | app/mosh/mosh.c:4063-4194 | Ctrl-G after any sequence of search keys restores line, length and cursor exactly |
| `ReverseSearch.Search.PressRepeatedly` | app/mosh/mosh.c:4166-4171 | repeated Ctrl-R, through the key handler, shows exactly the entries containing the query, newest to oldest, then wraps |
| `WaitStatus.ContinuedLooksStopped` | include/sys/wait.h:17-19 | every continued status also looks stopped, and the stopped test comes first |
| `WaitStatus.DecodeUndoesEncode` | src/kernel/proc/proc.c:2113-2119 | each wait macro recognises the status the kernel builds for its kind of event, for every int given as code or signal, and gives code or signal back modulo the bits that hold it; the only confusions are named exactly |
| `WaitStatus.LowBitsDecide` | include/sys/wait.h:14-19 | whatever stands above the low seven bits, a status is stopped exactly when they are 127 and exited exactly when they are 0 |
| `WaitStatus.EndIsNotStopped` | src/kernel/proc/proc.c:2113-2119 | no status the kernel builds for an exit or a kill looks stopped |
| `JobLog.AnswerDecides` | app/mosh/mosh.c:2951-2974 | a wait answered with an exit or a kill reaps its slot, one answered with a stop leaves it live and stops the job |
| `JobLog.OtherAnswers` | app/mosh/mosh.c:2976-2987 | a wait that fails with anything but ECHILD reaps, one that reports on no change does nothing |
| `JobLog.EndedReaps` | app/mosh/mosh.c:2951-2974 | so every answer the kernel gives for a process that is gone reaps |
| `JobLog.AppendEvent` | app/mosh/mosh.c:2945-2988 | a wait or signal on a live slot extends a well-formed record and flips the slot exactly when it reaps |
| `JobLog.SlotFlipsAtMostOnce` | app/mosh/mosh.c:2945-2988 | over every sequence of results a pid slot holds -p exactly when some wait reaped it, and p otherwise |
| `JobLog.ReapedIsLeftAlone` | app/mosh/mosh.c:2945-2988 | after a reaping wait nothing is waited for or signalled in that slot again |
| `JobLog.ReapedStatusIsFinal` | app/mosh/mosh.c:2945-2988 | the status kept for a reaped segment is that of the wait that reaped it, whatever came after |
| `JobLog.NoChildIsSilent` | app/mosh/mosh.c:2982 | a wait answered with ECHILD neither reaps nor stops, so its slot stays live |
| `Jobs.Job.SendSignal` | app/mosh/mosh.c:324-334 | signals every live process exactly once, in order, and nothing else |
| `Jobs.Job.WaitSlot` | app/mosh/mosh.c:2951-2987 | one wait with any result: the slot flips exactly when reaped, the job stops exactly when the process did |
| `Jobs.Job.WaitRound` | app/mosh/mosh.c:2945-2988 | waits for each live process in order, stopping exactly at the first stopped one |
| `Jobs.Job.PollPass` | app/mosh/mosh.c:2914-2997 | a job is reported exited exactly when the pass starts with no live process, and stopped exactly when one of its waits finds a stopped process; a pass whose waits are all answered with an exit or a kill leaves no live process |
| `Jobs.Job.PollBlocking` | app/mosh/mosh.c:2907-3019 | an exit report means no live process is left, a stop report names the status of the stopped one; a poll that goes on has changed its pid slots in at most as many passes as there were live processes; a job whose waits neither reap nor stop anything is never reported, and one whose waits are all answered with an exit or a kill is reported exited by the second pass |
| `Jobs.NoChildrenAreSilent` | app/mosh/mosh.c:2982 | waits that are all answered with ECHILD neither reap nor stop anything |
| `Jobs.Job.AwaitForeground` | app/mosh/mosh.c:429-461 | the status returned is that of the last segment for an ended job and that of the stopped process for a stopped one; a job whose processes all end is reported by the second pass |
| `Jobs.Job.WaitInForeground` | app/mosh/mosh.c:429-461 | an ended job gives its slot back, with every process reaped and the status of its last one; a stopped one leaves the foreground with a live process; a job whose processes all end does end |
| `Jobs.JobTable.Allocate` | app/mosh/mosh.c:255-303 | fails exactly when all slots are in use; otherwise the first free slot gets the processes and the next id, different from every id in use until the counter wraps |
| `Jobs.JobTable.constructor` | app/mosh/mosh.c:149-150 | an empty table with ids from 1 |
| `Jobs.JobTable.PollUpdates` | app/mosh/mosh.c:3021-3049 | a job outside the foreground leaves the table exactly when it had no live process; every other job keeps its identity and its past |
| `Jobs.JobTable.WaitForeground` | app/mosh/mosh.c:429-474 | the same for a job of the table, after the other jobs have been polled: an ended job is gone, a stopped one is still there with its identity |
| `Spinlock.StepKeepsInvariant` | include/kernel/spinlock.h:16-53 | every atomic step of any thread keeps the word, holder and history invariant |
| `Spinlock.RunKeepsInvariant` | include/kernel/spinlock.h:16-53 | so does every run of any number of threads |
| `Spinlock.MutualExclusion` | include/kernel/spinlock.h:36-53 | in every run at most one thread holds the lock, and the word is 1 exactly while one does |
| `Spinlock.NoOverlap` | include/kernel/spinlock.h:36-53 | between two acquisitions the first owner has released the lock |
| `Spinlock.TakenExactlyWhenFree` | include/kernel/spinlock.h:36-49 | in every run an exchange, of a lock or of a try, takes the lock exactly when nobody holds it |
| `Spinlock.FreeLockIsTaken` | include/kernel/spinlock.h:36-45 | from any state of a run with the word 0, a spinning thread holds the lock after its next two steps if it takes them alone |
| `Spinlock.WaiterCanAcquire` | include/kernel/spinlock.h:36-53 | no state of a run is a dead end: a locking or spinning thread can hold the lock within three steps, of which only the holder takes one |
| `RwLock.MoveCounts` | src/kernel/proc/krwlock.c:20-107 | a thread changing place moves one from one count to another |
| `RwLock.SignalKeeps` | src/kernel/proc/krwlock.c:58-60 | a signal keeps the counters and leaves a woken writer |
| `RwLock.UnlockKeeps` | src/kernel/proc/krwlock.c:48-107 | both unlocks keep the counters exact and lose no wake-up |
| `RwLock.LockKeeps` | src/kernel/proc/krwlock.c:20-92 | every lock, try-lock and resumed wait does too |
| `RwLock.RunKeepsInvariant` | src/kernel/proc/krwlock.c:20-107 | over every run the three fields count readers, waiting writers and the active writer, and no wake-up is lost |
| `RwLock.WritersExclude` | src/kernel/proc/krwlock.c:20-107 | in every run a writer never holds the lock together with a reader or another writer |
| `RwLock.SleepersAreNotStranded` | src/kernel/proc/krwlock.c:20-107 | while a thread sleeps on the lock, some thread holds it or a woken writer is about to take it |
| `RwLock.LockedExactlyWhenFree` | src/kernel/proc/krwlock.c:20-92 | in every run a call takes the lock at once exactly when it may: for reading while no thread writes or waits to write, for writing while no thread holds the lock |
| `RwLock.WritersComeFirst` | src/kernel/proc/krwlock.c:20-46 | over any stretch of a run in which a writer waits throughout, no thread starts to read |

## Left out

- Kernel memory management, scheduler, file systems, drivers, system calls: not modelled.
- `kmutex`, `kcondvar` and `ksemaphore`: taken as given by `RwLock`, whose counters are unbounded where the code has 32 bits.
- Memory ordering of the spinlock's atomics and its interrupt-saving variants: steps are sequentially consistent.
- `freopen`, append mode, `setvbuf`, `fclose`, and the character and line functions over `fread` and `fwrite`: not modelled.
- The kernel-build guards of `memcpy`, and `memcmp` and the string functions other than `strlen`: not modelled.
- Floating-point conversions and the string and character directives of `scanf`: not modelled.
- Time zone parsing, `asctime`, the sleep, clock and timer calls: not modelled; the zone is a parameter.
- Shell control flow, pipelines, completion, rendering, printed notifications and job-control built-ins: not modelled.
- Stream.Stream.FlushWrite: the state after a zero-length write is stated in full, but when bytes had been delivered before it nothing is claimed about later calls.
- Environment.Environment.constructor: the given array holds no entry at an address below 0x1000, where the code stops counting.
- Jobs.Job.PollBlocking: followed for any given number of passes; that it ends depends on the kernel, and only the passes that reap are bounded.
- Jobs.Job.WaitInForeground: followed for a number of passes in the same way.
- Jobs.Job.AwaitForeground: followed for a number of passes in the same way.
- Jobs.JobTable.WaitForeground: followed for a number of passes in the same way; which other jobs the final poll removes is stated by PollUpdates.
