# Patient intake: validation and storage

This project models the one handler of a small Flask application that
takes in patients. The handler, `submit()` in `app.py`, reads four form
values: first name, last name, date of birth and therapist. It strips
surrounding whitespace from each one and builds an ordered list of error
messages. If the list is non-empty, it shows the form again with the
errors. Otherwise it appends one row to the SQLite table `patients` and
shows a confirmation.

The model has six modules, one file each:

- `Wrappers` (wrappers.dfy): `Option` and `Result`.
- `PyText` (text.dfy): Python's whitespace class and `str.strip()`.
  Python uses the same whitespace class for `str.isspace()` and for `\s`
  in a `str` pattern. The model lists those characters exactly, as CPython
  defines them.
- `PyDate` (dates.dfy): the proleptic Gregorian `date`, how dates compare,
  and `datetime.strptime(text, "%Y-%m-%d")`. The model follows the regular
  expression that CPython's `_strptime` builds for that format:
  - `%Y` is exactly four digits.
  - `%m` is `1[0-2]|0[1-9]|[1-9]`.
  - `%d` is `3[01]|[12]\d|0[1-9]|[1-9]| [1-9]`, so a space-padded day is accepted.
  - Alternatives are tried in order, with backtracking into the month group.

  After the match, leftover text raises "unconverted data remains". Then the
  `date` constructor checks the range: year 1 to 9999, and a day that exists
  in its month. All of these failures are one `ValueError`, and they reach
  the form as "Invalid date format.".
- `Validation` (validation.dfy): the three name checks and the
  date-of-birth check. This module has the specification functions
  (`NameErrors`, `DobErrors`, `ValidationErrors`), the imperative `Validate`
  method that appends messages the way the source does, and the lemmas that
  explain each message.
- `PatientStore` (store.dfy): the `patients` table as a class with three
  parts:
  - a flag saying whether the table exists,
  - the rows in insertion order,
  - the largest id ever assigned, which is what SQLite keeps for an
    `AUTOINCREMENT` key.
- `Intake` (intake.dfy): `Submit` strips the four values and then calls
  `Decide`, which validates and then either echoes the errors or inserts
  and confirms.

"Today" is a parameter, and the form values come in as plain strings.

Three behaviours of the code worth stating:

- The stored `dob` is the stripped text as typed, not a normalized ISO
  date. For example, `1990-5- 7` passes validation and is stored as it is
  (`Intake.StoredDobKeepsSpelling`).
- `form_data` echoes the stripped values, not the raw submission.
- Errors always come in the fixed order first name, last name, therapist,
  date of birth.

## Model

| member | source | states |
|---|---|---|
| PyText.StripLeft | app.py:33-36 | The leading-whitespace removal inside `.strip()`: the result is a suffix of the input, everything dropped is whitespace, and the result does not start with whitespace. |
| PyText.StripRight | app.py:33-36 | The trailing-whitespace removal: the result is a prefix, everything dropped is whitespace, and the result does not end with whitespace. |
| PyText.Strip | app.py:33-36 | `.strip()` returns the empty string exactly when the input is all whitespace; any other result neither starts nor ends with whitespace. |
| PyText.StripIsTrimmedSlice | app.py:33-36 | The stripped value is one contiguous slice of the raw value, with only whitespace on either side of it. |
| PyText.StripIdempotent | app.py:33-36 | Stripping a stripped value changes nothing. |
| PyText.StripPadded | app.py:33-36 | Whitespace added around a value that is already stripped is removed again, so padding never changes what gets validated. |
| PyDate.DaysInMonth | app.py:61 | Month lengths are between 28 and 31 days, and February has 29 days exactly in Gregorian leap years. |
| PyDate.Before | app.py:63 | `dob_date >= today` is the negation of this predicate: Python's `<` on dates compares (year, month, day) lexicographically. `PyDate.BeforeIsEarlierDay` proves that this is calendar order. |
| PyDate.Strptime | app.py:60-61 | When the parse succeeds, it always yields a real calendar date. |
| PyDate.StrptimeExact | app.py:61 | `strptime(s, "%Y-%m-%d")` yields a date d exactly when s is a spelling of the real date d: four digits, `-`, the month with or without a leading zero, `-`, then the day with a leading zero, without one, or with a leading space. |
| PyDate.StrptimeAcceptsSpelling | app.py:61 | Every accepted spelling of a real date parses back to that date. |
| PyDate.StrptimeOnlySpellings | app.py:61 | Whatever the parse accepts is one of those spellings of the date it returns, with nothing left over. |
| PyDate.IsoRoundTrip | app.py:61 | The parse reads back the RFC 3339 `full-date` text of every real date. |
| PyDate.StrptimeAcceptsExamples | app.py:61 | `1990-05-10` and the leap day `2020-02-29` parse to the dates they name. |
| PyDate.StrptimeAcceptsShortExamples | app.py:61 | `2020-5-7` (no leading zeros) and `2020-05- 7` (space-padded day) both parse to 2020-05-07. |
| PyDate.StrptimeNoMatchExamples | app.py:61 | `13/02/2020`, `not-a-date`, month 13, month 0 and a two-digit year do not match the format. |
| PyDate.StrptimeUnconvertedExamples | app.py:61 | With trailing characters, or with day 32 (the day group reads only `3`), the text fails with "unconverted data remains". |
| PyDate.StrptimeFebruaryExamples | app.py:61 | February 30, and February 29 of the common year 2021, are rejected by the date constructor. |
| PyDate.StrptimeOutOfRangeExamples | app.py:61 | February 29 of 1900 (a century that is not a leap year) and year 0000 are rejected by the date constructor. |
| PyDate.BeforeIsEarlierDay | app.py:63 | Comparing dates as (year, month, day) triples gives the same answer as comparing their day numbers, so "before today" means an earlier calendar day. |
| Validation.NamePatternExact | app.py:40 | `re.match("^[A-Za-z\s'\-]+$", s)` succeeds exactly when s is non-empty and every character is an ASCII letter, whitespace, an apostrophe or a hyphen. `$` may also match before a final newline, but that changes nothing here. |
| Validation.NameErrors | app.py:42-55 | Each name field adds at most one message. |
| Validation.NameVerdict | app.py:42-55 | A name field adds "X is required." exactly when it is empty, the invalid-characters message exactly when it is non-empty and the pattern rejects it, and nothing exactly when the pattern accepts it, so never both messages. |
| Validation.DobErrors | app.py:57-66 | The date of birth adds at most one message. |
| Validation.DobVerdict | app.py:57-66 | Four cases: "required" exactly when dob is empty; "Invalid date format." exactly when it is non-empty and spells no real date; "must be in the past" exactly when it spells a date on or after today; no message exactly when it spells a date before today. |
| Validation.TodayIsRejected | app.py:63-64 | Today's own date is refused as not in the past. |
| Validation.EarlierDateAccepted | app.py:61-64 | A date before today, in any accepted spelling, gives no date-of-birth error. |
| Validation.ValidationErrors | app.py:39-66 | The list has at most four entries: one for each invalid name field, plus the date-of-birth message if there is one. |
| Validation.CheckName | app.py:42-55 | One `if not x: ... elif not name_pattern.match(x): ...` block appends exactly that field's verdict to the list so far. |
| Validation.CheckDob | app.py:57-66 | The date-of-birth block (`try`, `strptime`, `except ValueError`, then the comparison with today) appends exactly the date-of-birth verdict to the list so far. |
| Validation.Validate | app.py:39-66 | The successive `errors.append(...)` calls build exactly the field-by-field list. |
| Validation.NoErrorsIffAcceptable | app.py:39-68 | The list is empty exactly when all three names match the pattern and the date of birth spells a real date before today. |
| Validation.ErrorsInFieldOrder | app.py:39-66 | The list is the first-name verdict, then the last-name, therapist and date-of-birth verdicts, each decided on its own field alone, so every violation is collected. |
| Validation.TherapistWithPeriodRejected | app.py:52-55 | `Dr. Smith` is refused with the therapist invalid-characters message, and that is the only message. |
| Validation.TherapistWithoutPeriodAccepted | app.py:39-66 | `Anne-Marie`, `O'Neil`, `1990-05-10`, `Dr Smith` produce no errors when today is after 1990-05-10. |
| PatientStore.PatientsDb.constructor | app.py:14 | A newly created database file has no `patients` table and no rows. |
| PatientStore.PatientsDb.InitDb | app.py:13-25 | `CREATE TABLE IF NOT EXISTS` leaves the store holding the table. An existing table keeps its rows and id counter. |
| PatientStore.PatientsDb.Insert | app.py:18 | The insert either fails and changes nothing (no table, or the largest rowid is already used) or appends exactly one row. That row holds the given values and an id one above every id assigned before. |
| Intake.Normalize | app.py:33-36 | Each of the four values is stripped: it is no longer than the raw value, empty exactly when the raw value is all whitespace, and otherwise starts and ends with non-whitespace. |
| Intake.Decide | app.py:68-94 | With errors, the response echoes them with the stripped values and the store is unchanged. Without errors, exactly one row holding the four stripped values is appended under a fresh, larger id and the confirmation shows the same values, unless the insert fails. A row is appended only when the whole error list, including the past-date check, is empty. If every stored row passed validation as of `today`, they all still do afterwards. |
| Intake.Submit | app.py:32-94 | The whole handler: `Decide` applied to the stripped form values. |
| Intake.AcceptedRowAdmitted | app.py:68-88 | A submission with no errors makes a row whose names are valid and whose date of birth parses to a date before `today`. |
| Intake.AdmittedLater | app.py:63-64 | Rows that passed validation as of one day still pass as of any later day. So over submissions with a clock that does not go back, every stored row has passed validation in full, past-date check included. |
| Intake.StoredDobKeepsSpelling | app.py:35 | A date of birth typed as `1990-5- 7` passes and is stored in that form, not as `1990-05-07`. |

## Left out

- Flask routing, `request.form.get(..., '')` and `render_template`: the handler is modelled on the four form values, and its response is a datatype holding the data passed to the templates. The templates are not part of this model.
- The SQLite engine, connections, `commit()` and the context managers: the table is an in-memory sequence of rows with a flag for whether it exists and a counter of the largest id. Disk, lock and I/O errors are not modelled; the only insert failures are a missing table and an exhausted rowid space.
- Startup: the `os.path.exists` test before `init_db()`, `app.run` and `secret_key`.
- The clock: `datetime.today()` is the parameter `today`.
- PyDate.Strptime: accepts ASCII digits only. In CPython, `\d` in `%Y` and in the `[12]\d` day alternative also matches non-ASCII decimal digits, and `int()` converts them.
- Concurrent submissions racing at the database; the source leaves them entirely to SQLite.
