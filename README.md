# android-fhir data capture: date patterns, response display, date-time picker

A Dafny model of three self-contained pieces of the Android FHIR SDK's data-capture
library (Kotlin). Each gets its own module.

- **MoreLocalDates** (`more_local_dates.dfy`) covers date-pattern normalisation.
  - `getDateSeparator` picks the first non-letter of a locale's short date pattern.
  - `generateAcceptableDateFormat` rewrites a pattern such as `d/M/yy` into the fixed-width `dd/MM/yyyy`. It is a loop appending to a builder, modelled as a method proved against the function `AcceptableFormat`.
  - `parseDate` puts a four-digit-year gate on top of the platform's date parse.
- **ResponseDisplay** (`response_display.dfy`) flattens a QuestionnaireResponse against its Questionnaire for read-only display.
  - Each level is walked with one forward-only cursor over the questionnaire items, matching by `linkId`.
  - (questionnaire item, response item) pairs are appended in pre-order to one shared mutable list.
  - The two mutually recursive walkers are methods over a `ViewItemList` class. They are proved against the value-level functions `FlattenList` and `FlattenItem`, whose properties are lemmas.
- **DateTimePicker** (`date_time_picker.dfy`) holds the date-time picker item's logic, with the widgets reduced to state.
  - It has the `DateTimeType` getters, the answer encoding, `generateLocalDateTime` and `isTextUpdateRequired`.
  - The delegate is a class. Its fields are the picked date and time, the acceptable format, the inputs' texts, enabled flags and errors, the stored answers, and the text watcher's `isDeleting` flag.
  - Its handlers (`bind`, text changes, picker confirmations, read-only, validation display) are methods. Each states every field it changes. Where `updateDateTimeInput` decides whether to rewrite the date text, the new text is stated through `IsTextUpdateRequired`.

Shared modules: `Wrappers` (Option, Result) and `JavaTime` (the `java.time` value types).

Modelling choices:
- Exceptions are `Option`/`Result` values.
- The platform's non-lenient date parse is a function-valued parameter (`DateParser`). It returns `None` where the platform raises a ParseException.
- Localized renderings and messages are function-valued fields of a `Platform` value.

## Model

| member | source | states |
|---|---|---|
| MoreLocalDates.DateSeparator | datacapture/src/main/java/com/google/android/fhir/datacapture/utilities/MoreLocalDates.kt:40-41 | The result is absent (NoSuchElementException) iff every character is a letter. Otherwise it is a non-letter occurring in the pattern, with only letters before its first occurrence. |
| MoreLocalDates.AcceptableFormat | datacapture/src/main/java/com/google/android/fhir/datacapture/utilities/MoreLocalDates.kt:47-73 | The reference definition of the rewrite. Its properties are `AcceptableFormatShape`, `AcceptableFormatIdempotent` and `AcceptableFormatExample`; `GenerateAcceptableDateFormat` is proved against it. |
| MoreLocalDates.Render | datacapture/src/main/java/com/google/android/fhir/datacapture/utilities/MoreLocalDates.kt:48-72 | The rewrite given the fields already written. Its properties are `RenderAppend` and `RenderIdempotent`. |
| MoreLocalDates.GenerateAcceptableDateFormat | datacapture/src/main/java/com/google/android/fhir/datacapture/utilities/MoreLocalDates.kt:47-73 | The builder loop over the lower-cased pattern produces exactly `AcceptableFormat(datePattern, separator)`: a d/m/y block is appended only if the builder does not already contain it, and the separator is appended for each occurrence. |
| MoreLocalDates.AcceptableFormatShape | datacapture/src/main/java/com/google/android/fhir/datacapture/utilities/MoreLocalDates.kt:49-70 | For a non-letter separator, the output contains "dd", "MM" and "yyyy" once each iff the pattern has that field (in either case), and no such character otherwise. It has one separator per input separator, no other character, and length 2·[d]+2·[m]+4·[y]+#separators. |
| MoreLocalDates.RenderAppend | datacapture/src/main/java/com/google/android/fhir/datacapture/utilities/MoreLocalDates.kt:48-72 | The rewrite goes left to right: the output for `a + b` is the output for `a` followed by that of `b` given the fields already written. So separators keep their positions relative to the blocks. |
| MoreLocalDates.AcceptableFormatIdempotent | datacapture/src/main/java/com/google/android/fhir/datacapture/utilities/MoreLocalDates.kt:47-73 | Feeding an acceptable format back in with the same separator returns it unchanged. |
| MoreLocalDates.AcceptableFormatExample | datacapture/src/main/java/com/google/android/fhir/datacapture/utilities/MoreLocalDates.kt:43-47 | "d/M/yy" with '/' becomes "dd/MM/yyyy". |
| MoreLocalDates.FormatFor | datacapture/src/main/java/com/google/android/fhir/datacapture/utilities/MoreLocalDates.kt:77-82 | The default short format is used iff the acceptable format is null or empty. Otherwise the given pattern is used. |
| MoreLocalDates.DigitCountAtMost | datacapture/src/main/java/com/google/android/fhir/datacapture/utilities/MoreLocalDates.kt:84-95 | A magnitude has at most k decimal digits iff it is below 10^k. This links the digit-count checks to year bounds. |
| MoreLocalDates.ParseDate | datacapture/src/main/java/com/google/android/fhir/datacapture/utilities/MoreLocalDates.kt:76-97 | A parse failure is an error. A year with fewer than 4 digits raises "less than 4", one with more raises "more than 4", both carrying the digit count. Otherwise the parsed date is returned, so every returned year has exactly four digits. |
| ResponseDisplay.FlattenList | datacapture/src/main/java/com/google/android/fhir/datacapture/QuestionnaireResponseDisplayViewModel.kt:129-146 | The reference definition of one level's walk: its rows and exception. Its properties are `FlattenListRows`, `LevelExhausted`, `LevelMatched`, `CompletedLevelIsOrdered` and `AbsentLinkIdRaises`; `CollectList` is proved against it. |
| ResponseDisplay.SkipTo | datacapture/src/main/java/com/google/android/fhir/datacapture/QuestionnaireResponseDisplayViewModel.kt:139-141 | The do-while stops at the first remaining item with the linkId. It runs out (None) exactly when no remaining item has it. |
| ResponseDisplay.FlattenItem | datacapture/src/main/java/com/google/android/fhir/datacapture/QuestionnaireResponseDisplayViewModel.kt:148-171 | An untyped item raises "must have type". An answerable item is emitted first, before its nested items (pre-order). With no answers it contributes just itself. |
| ResponseDisplay.ViewItemList.Add | datacapture/src/main/java/com/google/android/fhir/datacapture/QuestionnaireResponseDisplayViewModel.kt:162 | Appends one pair to the end of the shared list. |
| ResponseDisplay.CollectList | datacapture/src/main/java/com/google/android/fhir/datacapture/QuestionnaireResponseDisplayViewModel.kt:129-146 | The iterator loops leave the list as its old contents followed by `FlattenList(qs, rs).emitted`, so earlier entries stay a prefix, also when an exception ends the walk. The exception raised is `FlattenList`'s. |
| ResponseDisplay.AdvancePast | datacapture/src/main/java/com/google/android/fhir/datacapture/QuestionnaireResponseDisplayViewModel.kt:139-141 | The do-while calling `next()` stops just past the first item with the linkId and skips only items with other linkIds. It runs out only when none remains. |
| ResponseDisplay.CollectItem | datacapture/src/main/java/com/google/android/fhir/datacapture/QuestionnaireResponseDisplayViewModel.kt:148-171 | The `when` on the item type appends exactly `FlattenItem(q, r).emitted` to the list and raises `FlattenItem`'s exception. |
| ResponseDisplay.ViewItems | datacapture/src/main/java/com/google/android/fhir/datacapture/QuestionnaireResponseDisplayViewModel.kt:118-127 | The list for the top-level items is produced iff the walk raises nothing. Every row then pairs items with equal linkIds whose questionnaire item has a type other than DISPLAY, NULL and GROUP. |
| ResponseDisplay.FlattenListRows | datacapture/src/main/java/com/google/android/fhir/datacapture/QuestionnaireResponseDisplayViewModel.kt:139-143 | Every emitted pair at any depth has equal linkIds, a typed questionnaire item, and a type that is not DISPLAY, NULL or GROUP. Groups contribute only their descendants. |
| ResponseDisplay.FlattenItemRows | datacapture/src/main/java/com/google/android/fhir/datacapture/QuestionnaireResponseDisplayViewModel.kt:153-168 | The same holds for one matched pair and everything nested under it. |
| ResponseDisplay.LevelExhausted | datacapture/src/main/java/com/google/android/fhir/datacapture/QuestionnaireResponseDisplayViewModel.kt:139-141 | When no remaining questionnaire item has the next response linkId, the level raises NoSuchElement with nothing more emitted. |
| ResponseDisplay.LevelMatched | datacapture/src/main/java/com/google/android/fhir/datacapture/QuestionnaireResponseDisplayViewModel.kt:136-143 | When the cursor stops at m, the level is that pair's walk followed by the rest of the level from m+1. Skipped items are never revisited. |
| ResponseDisplay.CompletedLevelIsOrdered | datacapture/src/main/java/com/google/android/fhir/datacapture/QuestionnaireResponseDisplayViewModel.kt:134-141 | A level walked without an exception has its response linkIds occurring, in order, among its questionnaire linkIds. |
| ResponseDisplay.AbsentLinkIdRaises | datacapture/src/main/java/com/google/android/fhir/datacapture/QuestionnaireResponseDisplayViewModel.kt:139-141 | A response item whose linkId no questionnaire item of its level has makes the walk raise; it is never silently skipped. |
| ResponseDisplay.TypedLevelNeverMissingType | datacapture/src/main/java/com/google/android/fhir/datacapture/QuestionnaireResponseDisplayViewModel.kt:153-168 | When every questionnaire item at every depth has a type, the walk of a level never raises "must have type". |
| ResponseDisplay.TypedItemNeverMissingType | datacapture/src/main/java/com/google/android/fhir/datacapture/QuestionnaireResponseDisplayViewModel.kt:153-168 | The same for one matched pair and everything nested under it. |
| ResponseDisplay.AbsentLinkIdRaisesNoSuchElement | datacapture/src/main/java/com/google/android/fhir/datacapture/QuestionnaireResponseDisplayViewModel.kt:139-141 | With every questionnaire item typed, a response linkId the level lacks raises exactly NoSuchElement, from the exhausted iterator. |
| ResponseDisplay.LaterAnswersIgnored | datacapture/src/main/java/com/google/android/fhir/datacapture/QuestionnaireResponseDisplayViewModel.kt:163-168 | Only the first answer's nested items are walked: adding later answers changes no emitted row after the item's own. |
| DateTimePicker.LocalDateOf | datacapture/src/main/java/com/google/android/fhir/datacapture/views/QuestionnaireItemDateTimePickerViewHolderFactory.kt:403-409 | The `localDate` getter undoes the year−1900 and month−1 offsets: recording its date with the value's own time gives back the value. |
| DateTimePicker.LocalTimeOf | datacapture/src/main/java/com/google/android/fhir/datacapture/views/QuestionnaireItemDateTimePickerViewHolderFactory.kt:411-417 | The `localTime` getter, combined with the date getter, gives back the recorded value. |
| DateTimePicker.LocalDateTimeOf | datacapture/src/main/java/com/google/android/fhir/datacapture/views/QuestionnaireItemDateTimePickerViewHolderFactory.kt:403-428 | The separately written `localDateTime` getter agrees with the `localDate` and `localTime` getters. |
| DateTimePicker.AnswerValue | datacapture/src/main/java/com/google/android/fhir/datacapture/views/QuestionnaireItemDateTimePickerViewHolderFactory.kt:223-239 | The value stored with year−1900 and month−1 reads back through the getters (year, month+1) as the same local date-time. |
| DateTimePicker.StoredValueRoundTrip | datacapture/src/main/java/com/google/android/fhir/datacapture/views/QuestionnaireItemDateTimePickerViewHolderFactory.kt:403-428 | A stored value read through the getters and recorded again is unchanged: the two offsets are mutual inverses. |
| DateTimePicker.GenerateLocalDateTime | datacapture/src/main/java/com/google/android/fhir/datacapture/views/QuestionnaireItemDateTimePickerViewHolderFactory.kt:241-256 | Date and time give their combination. A date alone takes the time of the single answer, or nothing unless there is exactly one answer. No date gives nothing. The date is always the given one. |
| DateTimePicker.IsTextUpdateRequired | datacapture/src/main/java/com/google/android/fhir/datacapture/views/QuestionnaireItemDateTimePickerViewHolderFactory.kt:279-292 | No update iff there is an answer and the text parses to the answer's calendar date with a time available. It is true when the answer is absent or the text does not parse. |
| DateTimePicker.TextUpdateIgnoresTime | datacapture/src/main/java/com/google/android/fhir/datacapture/views/QuestionnaireItemDateTimePickerViewHolderFactory.kt:290-291 | Answers on the same day with different times need the same update decision. |
| DateTimePicker.TypedDateKeepsText | datacapture/src/main/java/com/google/android/fhir/datacapture/views/QuestionnaireItemDateTimePickerViewHolderFactory.kt:333-339 | A typed text that parses and yields a date-time is not rewritten when that date-time is written back. |
| DateTimePicker.DateTimePickerDelegate.constructor | datacapture/src/main/java/com/google/android/fhir/datacapture/views/QuestionnaireItemDateTimePickerViewHolderFactory.kt:69-72 | Starts with no date, time, separator or format (lateinit), and is not deleting. |
| DateTimePicker.DateTimePickerDelegate.SetReadOnlyInternal | datacapture/src/main/java/com/google/android/fhir/datacapture/views/QuestionnaireItemDateTimePickerViewHolderFactory.kt:196-201 | All four inputs are enabled exactly when not read-only. |
| DateTimePicker.DateTimePickerDelegate.SetReadOnly | datacapture/src/main/java/com/google/android/fhir/datacapture/views/QuestionnaireItemDateTimePickerViewHolderFactory.kt:188-194 | `true` disables all four inputs. `false` changes nothing. |
| DateTimePicker.DateTimePickerDelegate.ClearPreviousState | datacapture/src/main/java/com/google/android/fhir/datacapture/views/QuestionnaireItemDateTimePickerViewHolderFactory.kt:269-273 | No date, no time, and all four inputs enabled. |
| DateTimePicker.DateTimePickerDelegate.EnableOrDisableTimePicker | datacapture/src/main/java/com/google/android/fhir/datacapture/views/QuestionnaireItemDateTimePickerViewHolderFactory.kt:275-277 | The time picker's enabled flag becomes the argument. |
| DateTimePicker.DateTimePickerDelegate.DisplayDateValidationError | datacapture/src/main/java/com/google/android/fhir/datacapture/views/QuestionnaireItemDateTimePickerViewHolderFactory.kt:160-167 | There is a date error iff the result is Invalid, and it is that result's message. |
| DateTimePicker.DateTimePickerDelegate.DisplayTimeValidationError | datacapture/src/main/java/com/google/android/fhir/datacapture/views/QuestionnaireItemDateTimePickerViewHolderFactory.kt:169-181 | There is a time error iff the result is Invalid and the time input is enabled. |
| DateTimePicker.DateTimePickerDelegate.DisplayValidationResult | datacapture/src/main/java/com/google/android/fhir/datacapture/views/QuestionnaireItemDateTimePickerViewHolderFactory.kt:183-186 | Both of the above. |
| DateTimePicker.DateTimePickerDelegate.UpdateDateTimeInput | datacapture/src/main/java/com/google/android/fhir/datacapture/views/QuestionnaireItemDateTimePickerViewHolderFactory.kt:204-220 | The time picker is enabled iff there is a date-time. The date text is rewritten only when `IsTextUpdateRequired` says so. The time text always shows the time, or is empty. |
| DateTimePicker.DateTimePickerDelegate.UpdateDateTimeAnswer | datacapture/src/main/java/com/google/android/fhir/datacapture/views/QuestionnaireItemDateTimePickerViewHolderFactory.kt:223-239 | The single answer becomes the encoded date-time, which reads back as that date-time. One change notification. |
| DateTimePicker.DateTimePickerDelegate.UpdateAnswerAfterTextChanged | datacapture/src/main/java/com/google/android/fhir/datacapture/views/QuestionnaireItemDateTimePickerViewHolderFactory.kt:327-364 | Empty or null text clears the answer and changes nothing else. A parsed date becomes the date, clears the date error, enables the time picker, and replaces answer and texts only when a date-time can be formed. A parse failure sets the date error, forgets the date, disables the time picker, clears a disabled time input's error, and clears the answer only if one existed. The time-picker/date consistency is preserved. |
| DateTimePicker.DateTimePickerDelegate.BeforeTextChanged | datacapture/src/main/java/com/google/android/fhir/datacapture/views/QuestionnaireItemDateTimePickerViewHolderFactory.kt:368-377 | `isDeleting` iff the edit replaces more characters than it inserts. |
| DateTimePicker.DateTimePickerDelegate.AfterTextChanged | datacapture/src/main/java/com/google/android/fhir/datacapture/views/QuestionnaireItemDateTimePickerViewHolderFactory.kt:386-396 | The typed text is never rewritten. Empty text clears the answer and changes nothing else. A text that fails the parse forgets the date, sets the date error, disables the time picker, clears a disabled time input's error, and clears the answer only if one existed. A parsed date becomes the date, clears the date error and enables the time picker; a formed date-time becomes the answer, reads back as itself, and fills the time text. |
| DateTimePicker.DateTimePickerDelegate.OnDatePicked | datacapture/src/main/java/com/google/android/fhir/datacapture/views/QuestionnaireItemDateTimePickerViewHolderFactory.kt:95-104 | The picked date is kept and shown, and the time picker is enabled. When a date-time can be formed it is stored (with the picked date) and written to the inputs. |
| DateTimePicker.DateTimePickerDelegate.OnTimePicked | datacapture/src/main/java/com/google/android/fhir/datacapture/views/QuestionnaireItemDateTimePickerViewHolderFactory.kt:312-321 | The time is the picked hour and minute at second 0. With a date it becomes the answer and fills the inputs. Without one only the time text changes. |
| DateTimePicker.DateTimePickerDelegate.Bind | datacapture/src/main/java/com/google/android/fhir/datacapture/views/QuestionnaireItemDateTimePickerViewHolderFactory.kt:129-158 | Clears the state and re-enables the inputs. It fails iff the pattern has no separator. Otherwise the hint is the acceptable format, the date and time are the single answer's (else none), the time picker is enabled iff there is a single answer, and the time picker is consistent with the date. The date text is rewritten to the answer's date (or emptied) exactly when `IsTextUpdateRequired` says so, and kept otherwise. |

## Left out

- The engine files (`FhirEngine.kt`, `SyncJobImpl.kt`) are not part of this model. One is an interface without bodies; the other is WorkManager, Flow and Gson plumbing.
- The `localizedString` properties and `getDefaultDatePattern` are not modelled. They are locale and ICU formatting wrappers; their results enter as `Platform` functions or as the `localeDatePattern` argument.
- The platform parse (`SimpleDateFormat`, the default short `DateFormat`, non-lenient) is a parameter returning `None` for a ParseException. An invalid pattern that makes `SimpleDateFormat` throw IllegalArgumentException is not distinguished from a parse failure.
- MoreLocalDates.IsLetter: `isLetter` and `lowercase` are modelled on ASCII only. Non-ASCII letters are treated as separators.
- MoreLocalDates.YearDigits: the `Int.length()` helper is not part of this model. It is taken as the decimal digit count of the year's magnitude, with 0 having one digit.
- The doc comment of `generateAcceptableDateFormat` gives "dd/mm/yyyy", but the code appends "MM". The model follows the code.
- Writing a text into the date input while the text watcher is attached fires the watcher again, synchronously. This re-entrancy is not modelled; each handler runs to completion on its own. `bind` detaches the watcher while it writes the inputs, so it has no re-entry to leave out.
- DateTimePicker.DateTimePickerDelegate.OnDatePicked: the picker's `setText` of the localized date re-enters the watcher before the time picker is enabled. When that text fails the non-lenient parse with the acceptable format, that first re-entry leaves no date (`localDate` null), a date error and a cleared answer. If no date-time is then formed, the source ends so, with the time picker enabled. If one is formed, `updateDateTimeInput` finds a date text that does not parse, rewrites it and re-enters the watcher a second time. If that text also fails the parse, the source ends with the time picker disabled, no date, a date error and the newly stored answer. If it parses, the date becomes the parsed date, the date error is cleared and the time picker stays enabled. The model's `localDate == Some(date)` and its time-picker/date consistency hold only without that re-entry.
- DateTimePicker.DateTimePickerDelegate.OnTimePicked: its `updateDateTimeInput` may rewrite the date text, which re-enters the watcher the same way. The model states the state without that re-entry.
- `handleDateFormatAfterTextChange` is not part of this model. `AfterTextChanged` takes the text as that helper leaves it.
- Material date and time dialogs, focus and keyboard handling are not modelled. The epoch-milliseconds/UTC conversion of the picked date enters `OnDatePicked` as a `LocalDate`. The default time `LocalTime.now()` and the picker's initial selection are not modelled.
- Localized date and time strings and the date-format error message are `Platform` functions. This includes its example text built by replacing "dd", "MM" and "yyyy".
- DateTimePicker.DateTimeType: `java.util.Date` normalisation of out-of-range fields, time zones and `LocalDate.of`/`LocalTime.of` range checks are not modelled. Answers whose value is not a dateTime (`valueDateTimeType` raising) are not modelled either.
- The questionnaire item view item is reduced to its answers. `setAnswer`/`clearAnswer` callbacks are counted in `answerChanges`; the answer component's other fields are not modelled.
- The ViewModel's construction is not modelled: JSON parsing, content-resolver I/O, Flow emission and `checkQuestionnaireResponse`.
- Only linkId, type, nested items and answers' nested items of the FHIR items are modelled.
