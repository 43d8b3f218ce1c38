# fast-member organizer core in Dafny

This project models the organizer side of the fast-member orienteering app
(`Admin.py`). It covers:

- the PIN dialog that guards the organizer panel;
- the race form, which trims a name and a `DD-MM-YYYY` date, checks them in
  order and saves the race;
- the add-checkpoint form, which trims five fields, checks them in order,
  validates the coordinates and appends one checkpoint record to the stored
  list;
- the choice between the two panel screens, made by whether a race is
  stored.

The app's JSON store is a map from key (`race`, `checkpoints`) to record.
Python's own behaviour is modelled where the forms rely on it:

- `str.strip`, using the exact `str.isspace` set;
- `str.replace` for single characters;
- `float()` on text: digit-group underscores, sign, `inf`/`infinity`/`nan`,
  decimal and exponent forms;
- IEEE comparison of NaN and the infinities with the integer bounds;
- `datetime.strptime(text, '%d-%m-%Y')`, including the Gregorian calendar
  check.

Modules, one per file:

| module | file | models |
|---|---|---|
| `Results` | results.dfy | `Option` and `Result` |
| `Text` | text.dfy | `str.strip`, single-character `str.replace` |
| `Decimal` | decimal.dfy | ASCII digit strings and their values |
| `PyFloat` | pyfloat.dfy | `float()` applied to text |
| `Calendar` | calendar.dfy | `strptime(text, '%d-%m-%Y')` |
| `Coords` | coords.dfy | `validate_coords` |
| `AccessGate` | accessgate.dfy | `request_admin_access`: `check_pin`, `cancel` and the Enter key |
| `EventStore` | eventstore.dfy | the key-value store: `put`, `get` |
| `Organizer` | organizer.dfy | `_on_create_race`, `save_cp`, the screen choice, sessions of form submissions |

The coordinate fields advertise the format `xx,xxxxx°` and `yy,yyyyy°`
(Admin.py:508 and 513). The hint under them adds that a point or a comma
may be used (Admin.py:531). `validate_coords` (Admin.py:572-573) accepts
more than that format suggests: it removes *every* degree sign and turns
*every* comma into a point, then strips. So `5°5` reads as `55`, and
`1,2,3` reads as `1.2.3`, which `float` then refuses. `DegreeIgnored` and
`CommaAsPoint` state this for any position.

## Model

| member | source | states |
|---|---|---|
| AccessGate.Step | Admin.py:89-104 | After the dialog is dismissed, events change nothing and fire nothing; each event fires at most one callback |
| AccessGate.StepCallbacks | Admin.py:89-104 | The success callback fires exactly when the dialog moves to granted. The failure callback fires only on a submit, and only when it was supplied. Only a submitted PIN grants; only cancel closes |
| AccessGate.SubmitGrantsIff | Admin.py:91-95 | A submit grants access iff the field is the PIN `1` surrounded by whitespace only (both directions) |
| AccessGate.WrongPinStaysOpen | Admin.py:96-100 | A wrong PIN keeps the dialog open, clears the field and shows the error. It fires the failure callback exactly when one was supplied |
| AccessGate.CancelFiresNothing | Admin.py:102-104 | Cancel closes the dialog and fires no callback |
| AccessGate.DismissedIsFinal | Admin.py:132-138 | Once granted or closed, any further events leave the dialog as it is and fire nothing, since the popup cannot be dismissed another way |
| AccessGate.SuccessOnceIffGranted | Admin.py:89-104 | Over any event sequence, the success callback fires once iff the run ends granted, and then it is the last callback; otherwise it never fires |
| AccessGate.NoFailureCallbackNoFailures | Admin.py:96-100 | Without a failure callback, no event sequence ever fires one |
| AccessGate.WrongAttemptsKeepAsking | Admin.py:96-100 | Any number of wrong typed-and-submitted attempts keeps the dialog asking, and fires one failure callback per attempt when one was supplied |
| AccessGate.OneRightAttempt | Admin.py:146-150 | Typing the PIN and submitting it, by button or Enter, grants access and fires the success callback |
| AccessGate.GrantedAfterRetries | Admin.py:89-100 | Wrong attempts followed by the right one end granted, with the failure callbacks before the single success callback |
| Text.Strip | Admin.py:591-595 | `str.strip()` leaves text with no whitespace at either end |
| Text.ReplaceChar | Admin.py:572-573 | `str.replace(',', '.')` keeps the length, puts `.` wherever there was `,` and leaves every other character in place |
| Text.RemoveChar | Admin.py:572-573 | `str.replace('°', '')` leaves no degree sign, keeps every other character present, and changes nothing when there is none |
| Text.StripFacts | Admin.py:591-595 | `strip` removes exactly the leading and trailing whitespace. The result is empty iff the text is all whitespace |
| Text.StripFramed | Admin.py:591-595 | Stripping whitespace around a trimmed core yields exactly that core |
| PyFloat.ParseFloat | Admin.py:576-577 | `float()` of blank text raises `ValueError` |
| PyFloat.InfoSeparatorRefused | Admin.py:576-577 | A character U+001C..U+001F anywhere, even at either end, makes `float()` raise, since `float` strips only ASCII whitespace |
| PyFloat.FiniteAlphabet | Admin.py:576-577 | Text that `float` reads as a finite number contains only numeral characters, `_` and whitespace. So a comma or a degree sign is never accepted without normalisation |
| PyFloat.ParsePointNumeral | Admin.py:576-577 | A decimal numeral with a point, with no sign, `+` or `-`, and at least one digit in all (so `.5` and `5.` too), reads as exactly the number it denotes |
| PyFloat.ParseIntegerNumeral | Admin.py:576-577 | An integer numeral with no sign, `+` or `-` reads as exactly that integer |
| PyFloat.NanText | Admin.py:576-577 | `float("nan")` is NaN, not an error |
| Coords.Normalise | Admin.py:572-573 | The text handed to `float` never holds a comma or a degree sign |
| Coords.ValidateCoords | Admin.py:569-583 | Accepted iff both texts, once normalised, read as finite numbers within ±90 and ±180. Then exactly those values are returned; otherwise neither is (all-or-nothing) |
| Coords.WithinMeansFinite | Admin.py:579-580 | The chained range test passes exactly for finite values in range; NaN and the infinities fail it |
| Coords.CommaAsPoint | Admin.py:572-573 | A comma anywhere reads exactly as a point |
| Coords.DegreeIgnored | Admin.py:572-573 | A degree sign anywhere is ignored |
| Coords.NormaliseAfterStrip | Admin.py:572-573 | The strip `save_cp` applies to the coordinate fields (Admin.py:593-594) never changes the text `validate_coords` hands to `float`, although `validate_coords` strips only after its replacements |
| Coords.NormalisePlain | Admin.py:572-573 | Text without commas, degree signs or surrounding whitespace is handed to `float` unchanged |
| Coords.LatitudeCommaIgnored | Admin.py:569-583 | Writing the latitude with a comma instead of a point does not change the outcome |
| Coords.LongitudeCommaIgnored | Admin.py:569-583 | The same for the longitude |
| Coords.LatitudeDegreeIgnored | Admin.py:569-583 | A degree sign in the latitude does not change the outcome |
| Coords.LongitudeDegreeIgnored | Admin.py:569-583 | The same for the longitude |
| Coords.ReadsAdvertisedFormat | Admin.py:572-577 | The advertised spelling `dd,ddddd°`, with no sign, `+` or `-`, and either part of the number, but not both, possibly empty, reads as the decimal number it denotes |
| Coords.AdvertisedFormatAccepted | Admin.py:569-583 | Coordinates in the advertised format are accepted with their signed decimal values whenever those values are in range |
| Coords.HintExampleAccepted | Admin.py:531 | An example in the hint's format, `55,75222°` and `37,61556°`, is accepted as (55.75222, 37.61556) |
| Coords.LatitudeNinetyOneRejected | Admin.py:579-582 | A latitude of `91` is refused, whatever the longitude |
| Coords.NanRejected | Admin.py:576-582 | `nan` parses but fails the range test, so it is refused |
| Calendar.YearLength | Admin.py:369 | The month lengths `strptime` checks days against add up to 366 in a Gregorian leap year and 365 otherwise |
| Calendar.ParseDate | Admin.py:369 | Every date `strptime` accepts exists in the calendar |
| Calendar.ParseDateSound | Admin.py:369 | Accepted text is one of the spellings of the date it denotes: a 1-2 digit day, a 1-2 digit month and a 4-digit year, separated by dashes |
| Calendar.ParseDateComplete | Admin.py:369 | Every such spelling of a valid date is accepted as that date |
| Calendar.ParseDateCharacterised | Admin.py:369 | `strptime` accepts exactly the spellings of valid dates (both directions) |
| Calendar.FormatDateRoundTrip | Admin.py:369 | The zero-padded `DD-MM-YYYY` spelling of any valid date is read back as that date |
| Calendar.ParsePadded | Admin.py:369 | Zero-padded fields, valid or not, are accepted exactly when they name a valid date |
| Calendar.NoThirtyFirstOfFebruary | Admin.py:368-372 | `31-02-2025` is refused |
| Calendar.NoThirtyFirstOfApril | Admin.py:368-372 | `31-04-2025` is refused |
| Calendar.LeapDayIn2024 | Admin.py:368-372 | `29-02-2024` is accepted |
| Calendar.NoLeapDayIn2025 | Admin.py:368-372 | `29-02-2025` is refused |
| Calendar.NoLeapDayIn1900 | Admin.py:368-372 | `29-02-1900` is refused |
| Calendar.LeapDayIn2000 | Admin.py:368-372 | `29-02-2000` is accepted |
| Calendar.NoYearZero | Admin.py:368-372 | Year `0000` is refused |
| Calendar.OneDigitFields | Admin.py:368-372 | `1-1-2025` is accepted as 1 January 2025 |
| Calendar.YearFirstRefused | Admin.py:368-372 | The year-first order `2025-01-15` is refused |
| EventStore.Put | Admin.py:375 | `put` replaces the record under its key as a whole and leaves every other key as it was |
| EventStore.Get | Admin.py:620 | `get` returns the stored record, or the missing-key error exactly when the key is absent |
| EventStore.GetAfterPut | Admin.py:617-620 | Reading a key just written gives back exactly the record written |
| EventStore.GetAfterPutOther | Admin.py:375 | Writing one key leaves every other key reading as it did, present or missing |
| EventStore.PutOverwrites | Admin.py:628 | A second `put` to a key replaces the first record as a whole rather than merging with it |
| Organizer.CreateRace | Admin.py:354-375 | Refused iff the name or date is blank or the date is not a valid `DD-MM-YYYY` date, and the first failing check is the one reported. On success, the race record holds exactly the trimmed name and date and the creation time, and every other record is kept |
| Organizer.EmptyNameRejected | Admin.py:359-361 | An empty name is refused with the name message |
| Organizer.ImpossibleDateRejected | Admin.py:367-372 | A well-formed but non-existent date (`31-02-2025`) is refused with the date-format message |
| Organizer.SavedRaceIsValid | Admin.py:354-375 | A saved race has a non-blank trimmed name and a date that spells a real calendar date |
| Organizer.CreateRaceResubmitted | Admin.py:375 | Calling the create-race handler a second time with the same form, at a later time, succeeds again and overwrites the whole record: the store is as if only the second call, with its own creation time, had happened. The panel itself never offers the form again (`RaceScreenStays`) |
| Organizer.CreateRaceKeepsWellFormed | Admin.py:354-375 | Creating a race keeps a well-formed store well formed |
| Organizer.CheckCheckpoint | Admin.py:589-616 | A record that passes the checks has a latitude within ±90 and a longitude within ±180, so an out-of-range position is never saved |
| Organizer.CheckCheckpointSpec | Admin.py:589-616 | The checks of `save_cp`: refused iff the number, code or a coordinate is blank or the coordinates are rejected, with the first failing check reported. On success the name is `КП ` plus the trimmed number, the code and hint are trimmed, and the position is the accepted one |
| Organizer.AddCheckpoint | Admin.py:589-628 | On refusal the check's error is returned and nothing is written. On success the checkpoint list is the old list plus exactly the new record at its end, and every other record, the race included, is unchanged |
| Organizer.FirstCheckpoint | Admin.py:617-628 | With no list stored yet, a successful save creates it holding exactly the new record |
| Organizer.SaveOneAppends | Admin.py:589-628 | One press of save appends the form's record if it passes and nothing otherwise; no other key changes |
| Organizer.SaveAllAppends | Admin.py:589-628 | A run of saves appends exactly the accepted records, in submission order |
| Organizer.AllAcceptedAppendsAll | Admin.py:589-628 | When all `n` forms pass, `n` records are appended, the `i`-th being the `i`-th form's record |
| Organizer.SaveAllKeepsOthers | Admin.py:614-628 | A run of saves leaves every record but the checkpoint list, the race included, unchanged |
| Organizer.CheckedCheckpointIsValid | Admin.py:589-626 | A checkpoint that passes the checks has a prefixed non-blank trimmed number, a non-blank trimmed code, a trimmed hint and a position in range |
| Organizer.AddCheckpointKeepsWellFormed | Admin.py:589-628 | Adding a checkpoint keeps a well-formed store well formed |
| Organizer.Perform | Admin.py:218-225 | While the race screen is shown, no form changes the race record; while the race form is shown, nothing but the race record is written |
| Organizer.CreateRaceShowsRace | Admin.py:374-379 | A successful race form rebuilds the panel onto the race screen |
| Organizer.RefusedRaceKeepsForm | Admin.py:359-372 | A refused race form leaves the store as it was, so the race form stays shown |
| Organizer.RaceScreenStays | Admin.py:218-225 | Once the race screen is shown, no sequence of form submissions switches back or changes the race record |
| Organizer.SessionRaceFirst | Admin.py:218-225 | Through the panel, checkpoints are saved only once a race exists, and a stored race is never replaced |
| Organizer.SessionKeepsWellFormed | Admin.py:218-225 | Any sequence of form submissions keeps the store well formed |

## Left out

- The Kivy widgets, layouts, colours, popups and focus handling are left
  out. Error messages are kept as constants (`WrongPinMessage`,
  `RaceErrorMessage`, `CheckpointErrorMessage`), but showing them is not
  modelled.
- Callbacks are modelled as the sequence of callbacks fired. What the
  caller in `FAST_member.py` does with them is not part of this model.
- The store's JSON file I/O is left out: the store is a map, and `put`
  and `get` work on it.
- The creation timestamp (`datetime.now().isoformat()`) is a parameter,
  because the clock is outside the model.
- The GPS stub (`get_gps_coords`), QR scanning, the back button and the
  rebuilding of the panel after a save are left out. They are UI only.
- Coords.ValidateCoords: does not model IEEE rounding. Numbers are exact
  reals, so a text that rounds onto a bound (such as `90.00000000000000001`)
  is accepted by Python but rejected here. Texts whose values overflow to
  infinity are rejected in both.
- PyFloat.ParseFloat: covers ASCII digits only. Python's `float` also
  accepts other Unicode decimal digits, which the model refuses.
- Coords.ValidateCoords: for the same reason, coordinates typed with
  non-ASCII decimal digits are refused here and accepted by the app.
- Calendar.ParseDate: `%d`, `%m` and `%Y` match any Unicode decimal digit
  in Python. The model accepts ASCII digits only.
- Calendar.ParseDate: the `%d` alternative with a leading space is not
  modelled. It can only match at the start of the text, and the date is
  stripped before parsing.
