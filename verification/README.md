# Pixelman DSC reader in Dafny

This project models `DscFile` from `dscreader.py`. `DscFile` reads the `.dsc` metadata file that Pixelman writes next to each Timepix frame. The model covers:

- the frame size, read from line 2;
- one forward pass over the lines, where the first label found on line `i` (in the order of the `if`/`elif` chain) decides how line `i + 2` is read;
- the per-field checks;
- the chipboard-ID pattern;
- the Timepix clock table;
- the derived data file name;
- the Pixelman start-time string;
- the start-time ordering of `__lt__`.

The model is pure: the file's lines are an input, and a read returns `Result<DscRecord, DscError>`. The first error aborts the read.

Modules:

- `Wrappers`: `Option` and `Result`.
- `Text`: the Python 2 byte-string operations the reader uses: `strip()`, `lower()`, `in`, `split(c)` and base-10 `int()`.
- `Floats`: IEEE doubles as `Finite | Infinite | NaN` with IEEE `<`. Float parsing and printing are a parameter, `FloatLib`.
- `Chipboard`: `isChipIdValid`, as `re.match` of a fixed-repetition pattern.
- `Calendar`: the UTC breakdown behind `time.gmtime` (proleptic Gregorian, days rounded down) and its inverse.
- `PixelmanTime`: `getPixelmanTimeString`, plus a reader for the timestamp layout that shows the layout is unambiguous.
- `Dsc`: the record, the error kinds, the label chain, the branch of each field, the scan and `Parse`.
- `DscProperties`: the properties of the reader, stated over `Dsc.Parse`, `Dsc.Scan` and `Dsc.ReadValue`.

Design choices:

- The label chain is a sequence of `Field`s, and `LabelOf` picks the first field whose label a line carries.
- `Scan` takes the labeller and the branch reader as parameters. The properties of the scan (last occurrence wins, first failure aborts) are proved for any reader that only yields checked values. `Parse` instantiates them with the reader's own.
- A record holds a `map<Field, Value>`. A field with no entry is one the getter reports as `None`.
- Errors have one case per message the reader raises, plus `Unhandled` for the Python exceptions it lets escape. These are:
  - a missing line;
  - a size line with fewer than three tokens (no width) or four tokens (no height);
  - a size token with no `=` in it;
  - a width, height, DAC or clock-code token that is no integer (only `TypeError` is caught around the size tokens);
  - fewer than fourteen DAC values;
  - a `double[1]` clock value that is no float;
  - a start time whose text does not split as expected.

Behaviour of dscreader.py that is easy to miss:

- A width or height token that is no integer makes `int` raise `ValueError`. The handlers at dscreader.py:295 and dscreader.py:303 catch only `TypeError`, so the error escapes as `Unhandled` rather than `BadWidth` or `BadHeight`.
- The DAC branch (dscreader.py:337-352) needs at least fourteen values and keeps any extra ones.
- A NaN bias voltage passes the range check at dscreader.py:365, because `hv < 0.0 or hv > 100.0` is false for NaN.
- The errors raised carry no field name beyond their kind.

## Model

| member | source | states |
|---|---|---|
| Dsc.LabelOf | dscreader.py:314-438 | the branch a line takes carries its label and no field earlier in the chain matches; no branch means no label matches |
| DscProperties.LabelOfIff | dscreader.py:314-438 | a line takes the branch of `f` if and only if it carries `f`'s label and no earlier field's label |
| DscProperties.TpxClockLabelAnyCase | dscreader.py:422 | the Timepix-clock label is found in upper case and in mixed case, wherever it sits in the line |
| DscProperties.BiasVoltageLabelAnyCase | dscreader.py:359 | the bias-voltage label is found in all lower case and all upper case, wherever it sits in the line |
| Text.LowerFoldsCase | dscreader.py:359 | `lower()` keeps the length, leaves no upper-case ASCII letter, changes no other character, and is idempotent |
| Dsc.Set | dscreader.py:317 | storing a field's value changes that field only and keeps the file names and frame size |
| Dsc.DataFilename | dscreader.py:167 | the data file name is a prefix of the DSC name, four characters shorter (empty for a shorter name) |
| DscProperties.DataFilenameDropsExtension | dscreader.py:167 | a name ending in a four-character extension gives back the name without it |
| Dsc.Initial | dscreader.py:104-167 | before the scan every labelled field is `None` and the two names are set |
| Dsc.ReadDimensions | dscreader.py:291-307 | a successful size read yields a width and a height both in [256, 1024] |
| DscProperties.SizeValueOf | dscreader.py:294 | a `key=n` token whose key holds no `=` reads as `n` |
| DscProperties.DimensionsRoundTrip | dscreader.py:291-307 | a size line with `key=w` and `key=h` as tokens 2 and 3 reads back `(w, h)` when both are in range; otherwise `BadWidth`, or `BadHeight` once the width is good |
| DscProperties.SizeTokenNotInteger | dscreader.py:291-296 | a width token `key=s` whose `s` is no integer fails as `Unhandled`, not `BadWidth` |
| DscProperties.HeightTokenNotInteger | dscreader.py:302-304 | with a good width, a height token `key=s` whose `s` is no integer fails as `Unhandled`, not `BadHeight` |
| Dsc.ParseAllIff | dscreader.py:337 | the list comprehension of `int` succeeds exactly when every token is an integer, and keeps every value in order |
| Dsc.DacBlockOf | dscreader.py:339-352 | the fourteen named DACs are values 0 to 13 in the order dscreader.py:339-352 assigns them, and all values are kept |
| Dsc.ParseDacs | dscreader.py:337-352 | a DAC line that parses gives a block whose names match the first fourteen values |
| DscProperties.ShownDacsParse | dscreader.py:337-352 | values written out and joined by single spaces form a stripped line that parses back to their block when there are at least fourteen, and fails otherwise |
| Dsc.ReadBranch | dscreader.py:314-439 | a value a branch yields passes that field's checks: polarity in {0, 1}, Medipix type in {1, 2, 3}, bias voltage in range, a chip ID that matches, fourteen named DACs, stripped text |
| Dsc.BranchReader | dscreader.py:311-439 | the reader's branches only ever yield checked values |
| Dsc.Step | dscreader.py:311-439 | one line keeps the file names and frame size and keeps every stored value checked |
| Dsc.Scan | dscreader.py:311-439 | the scan keeps the file names and frame size and only stores checked values |
| Dsc.Parse | dscreader.py:278-439 | a successful read is well formed: names set, size in range and read from line 2, every field checked; a size failure is the read's failure |
| DscProperties.MissingValueLine | dscreader.py:317 | a label without a line two below fails: `BadStartTime` for the start time (bare `except`), `Unhandled` for the others; the Timepix clock fails so when line `i + 1` is missing or carries a `byte[1]` or `double[1]` marker (dscreader.py:424-434) |
| DscProperties.ReadValueLocal | dscreader.py:317 | a branch on line `i` depends only on lines `i + 1` and `i + 2` |
| DscProperties.StepEffect | dscreader.py:311-439 | a line fails exactly when its branch fails, with that branch's error; otherwise it stores the branch's value, or changes nothing when it carries no label |
| DscProperties.LastLabelled | dscreader.py:311-439 | finds the last line at or after a position that takes a field's branch, or reports that none does |
| DscProperties.ScanKeepsLastValue | dscreader.py:311-439 | after a successful scan a field holds the value read at the last line taking its branch, and keeps its old value if no line does |
| DscProperties.ScanFailsAtFirstError | dscreader.py:311-439 | the scan succeeds exactly when no line's branch fails, and a failed scan reports the error of the first failing line |
| DscProperties.ParseOutcome | dscreader.py:291-439 | a read succeeds exactly when the size is good and no line fails; with a good size the first failing line's error is the read's |
| DscProperties.ParseKeepsLastValue | dscreader.py:311-439 | each field of a successful read is the value read at the last line that takes its branch, or `None` when no line does |
| DscProperties.AbsentLabelLeavesNone | dscreader.py:107-162 | a field whose label no line carries stays `None` after a successful read |
| DscProperties.IntFieldRoundTrip | dscreader.py:315-405 | an integer on the value line of acq mode, HW timer, Medipix type or polarity is stored when the field accepts it, else the field's own error |
| DscProperties.IntFieldRejects | dscreader.py:315-405 | a value line that is no integer fails with the field's own error |
| DscProperties.FloatFieldReads | dscreader.py:321-384 | acq time and Medipix clock succeed exactly when `float()` does, store its value, and otherwise fail with their own error |
| DscProperties.BiasInRangeIff | dscreader.py:365-366 | the bias-voltage check passes exactly [0, 100] and NaN |
| DscProperties.BiasVoltageReads | dscreader.py:359-368 | the bias voltage succeeds exactly when it parses into [0, 100] or is NaN, stores the parsed value, and otherwise fails with `BadHvValue` |
| DscProperties.NaNBiasVoltageAccepted | dscreader.py:365-368 | a NaN bias voltage is stored |
| DscProperties.TextFieldReads | dscreader.py:355-439 | firmware, interface, Pixelman version and name+SN store the value line without surrounding whitespace |
| DscProperties.ChipIdFieldReads | dscreader.py:327-332 | the chip ID is stored when it matches the pattern, else `InvalidChipId` |
| Chipboard.MatchClassesIff | dscreader.py:69 | an anchored fixed-width match is a character-by-character test of the first characters |
| Chipboard.ChipIdValidIff | dscreader.py:63-72 | a chip ID is valid exactly when it starts with upper-case letter, two digits, `-`, upper-case letter, four digits |
| Chipboard.ChipIdIgnoresSuffix | dscreader.py:67-69 | text after a valid ID keeps it valid, because `re.match` anchors only at the start |
| Chipboard.ChipIdExamples | dscreader.py:63-72 | `U12-W3456` (also with a suffix) passes; `u12-w3456`, `U1-W345`, `1234567` and `U12-W345` fail |
| DscProperties.DacsRoundTrip | dscreader.py:334-352 | integers written with single spaces are read back in order with the first fourteen under their names; fewer than fourteen fail |
| DscProperties.DacsRejectBadToken | dscreader.py:337 | a DAC token that is no integer fails the read |
| DscProperties.TpxClockTableDoubles | dscreader.py:51-56 | the clock table has four entries starting at 10 MHz, each double the one before |
| DscProperties.TpxClockCode | dscreader.py:424-431 | with a `byte[1]` marker a code 0 to 3 gives its table entry, and any other code `BadTpxClockMode` |
| DscProperties.TpxClockCodeNotInteger | dscreader.py:424-426 | with a `byte[1]` marker, a value line that is no integer makes `int` raise, which escapes as `Unhandled` |
| DscProperties.TpxClockDouble | dscreader.py:433-434 | with a `double[1]` marker the value line is stored as the float it parses to, and a non-float fails |
| DscProperties.TpxClockBadMarker | dscreader.py:435-436 | any other marker fails with `BadTpxClock`, whatever the value line holds |
| DscProperties.StartTimeReads | dscreader.py:407-420 | a parsed start time is stored with the whole seconds of `str(st)` and the fraction of `"%.6f"`, and its string is their timestamp |
| DscProperties.StartTimeRejects | dscreader.py:409-416 | a start time that does not parse, or a missing value line, is `BadStartTime` |
| DscProperties.StartTimeAtEpoch | dscreader.py:407-420 | a start time of `0.0` gets `Thu Jan 01 00:00:00.000000 1970` |
| PixelmanTime.TimeStringOf | dscreader.py:75-92 | when `str(st)` is `n.frac` and `"%.6f"` gives `ip.sub`, the parts are `(n, sub)` and the string is the breakdown of `n` with `sub` |
| PixelmanTime.WholeSecondsOf | dscreader.py:79 | the integer before the first dot of `str(n) + "." + frac` is `n` |
| PixelmanTime.SubSecondsOf | dscreader.py:83 | the piece after the dot of `ip + "." + sub` is `sub` |
| PixelmanTime.ReadFormatRoundTrip | dscreader.py:86-90 | every calendar field and the sub-second text can be read back from the timestamp |
| PixelmanTime.FormatEpoch | dscreader.py:86-90 | second 0 prints as `Thu Jan 01 00:00:00.<sub> 1970` |
| PixelmanTime.FormatBillennium | dscreader.py:86-90 | second 1000000000 with fraction `123456` prints as `Sun Sep 09 01:46:40.123456 2001` |
| Calendar.Gmtime | dscreader.py:86 | the breakdown of a second count is a valid calendar time that counts back to it |
| Calendar.GmtimeInverse | dscreader.py:86 | every valid calendar time is the breakdown of its own second count |
| Calendar.CivilFromDays | dscreader.py:86 | the date of a day count is a real date that counts back to it |
| Calendar.CivilFromDaysInverse | dscreader.py:86 | every date is the date of its own day count |
| Calendar.DaysFromCivilInjective | dscreader.py:86 | two dates with the same day count are equal |
| Calendar.YearStartClosedForm | dscreader.py:86 | the first day of a year is 365 days per year plus the leap days since 1970 |
| Calendar.LeapsStep | dscreader.py:86 | the leap-year count grows by one exactly at leap years |
| Calendar.GmtimeEpoch | dscreader.py:86 | second 0 is Thursday 1 January 1970, 00:00:00 |
| Calendar.GmtimeBillennium | dscreader.py:86 | second 1000000000 is Sunday 9 September 2001, 01:46:40 |
| Floats.LessIsStrictOrder | dscreader.py:172-173 | float `<` is irreflexive, asymmetric and transitive, and total away from NaN |
| DscProperties.StartsBeforeIsStrictOrder | dscreader.py:172-173 | `a < b` is a strict order on records; a record without a start time comes before one with; records with non-NaN start times are comparable |
| Text.StripPadded | dscreader.py:291 | `strip()` removes exactly the whitespace around a stripped string |
| Text.JoinSplit | dscreader.py:291 | joining the pieces of `split(c)` with `c` gives back the string |
| Text.SplitJoin | dscreader.py:291 | splitting a join of separator-free pieces gives back the pieces |
| Text.ContainsIff | dscreader.py:315 | `p in s` holds exactly when `p` occurs at some position of `s` |
| Text.ParseIntRoundTrip | dscreader.py:317 | `int()` of `str(n)` with whitespace around it is `n` |
| Text.NatToStringDigits | dscreader.py:317 | the decimal spelling of `n` is all digits, has no leading zero, and has value `n` |

## Left out

- File I/O: the `open`/`readlines`/`close` of `processDscFile` become the `lines` parameter. Line terminators are whitespace that `strip()` removes, so they are not modelled separately.
- Float parsing and printing: `float()`, `str()` of a float and `"%.6f" %` are the parameter `FloatLib`. In particular the model does not know which strings `float()` accepts, or that `str(st)` may print in scientific notation. `StartTimeReads` and `TimeStringOf` state their results for the shapes `n.frac` and `ip.sub` only.
- `time.strftime` and locale: the C-locale names and `%d`/`%H`/`%M`/`%S` padding are modelled. Platform limits are not: the `time_t` range, and Python 2's refusal of years before 1900 in `strftime`.
- Exception classes: each raised message is one error case, and every escaping exception is `Unhandled`. `raise("BAD_TPX_CLOCK_MODE")` actually raises a `TypeError` (a string is no exception), but it is modelled as the error `BadTpxClockMode` that it evidently names.
- Text.ParseInt: does not accept whitespace between the sign and the digits, which Python 2's `int()` allows. Nor does it accept digits outside ASCII, which cannot occur in a byte string.
- The getters (`getFrameWidth` and so on) only expose fields. `Dsc.Get` stands for all of them.
- The BiasLVDS initialisation to `None` and the other private DAC aliases are the named fields of `DacBlock`, present exactly when the DAC line was read.
- `DSC_START_TIME_S_STRING` is declared but never tested by the reader, so it has no field.
- `startTime` is stored before `getPixelmanTimeString` runs. The model stores it together with the timestamp, because when the timestamp fails the exception escapes and no record is returned.
- `run.py` (job submission and interactive menus) and `analyse.py` (orchestration over an external clustering library) are not part of this model.
