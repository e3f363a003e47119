/**
 * The date-time picker item of the questionnaire form
 * (QuestionnaireItemDateTimePickerViewHolderFactory.kt), with the widgets stripped away.
 * What remains are the pure helpers that combine a date, a time and the stored answer,
 * the `DateTimeType` getters with their month offset, and the delegate's state: the
 * picked date and time, the enabled flags and texts of the two inputs, their errors and
 * the answer recorded for the item.
 */
module DateTimePicker {
  import opened Wrappers
  import opened JavaTime
  import opened MoreLocalDates

  // ----------------------------------------------------------------------------------
  // The stored answer value

  /**
   * org.hl7.fhir.r4.model.DateTimeType as read through its calendar getters: `month`
   * is 0-based, as in java.util.Calendar; the other fields are as written.
   */
  datatype DateTimeType = DateTimeType(year: int, month: int, day: int, hour: int, minute: int, second: int)

  /**
   * The `DateTimeType.localDate` getter: the month shifted to 1-based. It undoes the
   * year and month offsets of the `Date` an answer is recorded with.
   */
  function LocalDateOf(d: DateTimeType): (r: LocalDate)
    ensures DateTimeTypeOf(ToJavaDate(LocalDateTime(r, LocalTime(d.hour, d.minute, d.second)))) == d
  {
    LocalDate(d.year, d.month + 1, d.day)
  }

  /** The `DateTimeType.localTime` getter: with the date getter, it reads back the recorded value. */
  function LocalTimeOf(d: DateTimeType): (r: LocalTime)
    ensures DateTimeTypeOf(ToJavaDate(LocalDateTime(LocalDateOf(d), r))) == d
  {
    LocalTime(d.hour, d.minute, d.second)
  }

  /** The `DateTimeType.localDateTime` getter, written out on its own in the source. */
  function LocalDateTimeOf(d: DateTimeType): (r: LocalDateTime)
    ensures r.date == LocalDateOf(d) && r.time == LocalTimeOf(d)
  {
    LocalDateTime(LocalDate(d.year, d.month + 1, d.day), LocalTime(d.hour, d.minute, d.second))
  }

  /**
   * The arguments of the deprecated `java.util.Date(year, month, date, hrs, min, sec)`
   * constructor: years counted from 1900 and a 0-based month.
   */
  datatype JavaDate = JavaDate(yearsSince1900: int, month: int, date: int, hrs: int, min: int, sec: int)

  /** The `Date` that `updateDateTimeAnswer` builds from a local date-time. */
  function ToJavaDate(ldt: LocalDateTime): JavaDate {
    JavaDate(ldt.date.year - 1900, ldt.date.month - 1, ldt.date.dayOfMonth,
             ldt.time.hour, ldt.time.minute, ldt.time.second)
  }

  /** `DateTimeType(Date)`: the calendar fields of the date, at second precision. */
  function DateTimeTypeOf(d: JavaDate): DateTimeType {
    DateTimeType(d.yearsSince1900 + 1900, d.month, d.date, d.hrs, d.min, d.sec)
  }

  /**
   * The answer value `updateDateTimeAnswer` records: the two offsets it applies are
   * undone by the getters, so the answer reads back as the date-time it was made from.
   */
  function AnswerValue(ldt: LocalDateTime): (v: DateTimeType)
    ensures LocalDateTimeOf(v) == ldt
    ensures LocalDateOf(v) == ldt.date && LocalTimeOf(v) == ldt.time
  {
    DateTimeTypeOf(ToJavaDate(ldt))
  }

  /** The other direction: a stored value, read and recorded again, is the same value. */
  lemma StoredValueRoundTrip(d: DateTimeType)
    ensures AnswerValue(LocalDateTimeOf(d)) == d
  {
  }

  /** Kotlin's `singleOrNull()`. */
  function SingleOrNull<T>(s: seq<T>): (r: Option<T>)
    ensures r.Some? <==> |s| == 1
    ensures r.Some? ==> r.value == s[0]
  {
    if |s| == 1 then Some(s[0]) else None
  }

  // ----------------------------------------------------------------------------------
  // Pure helpers

  /**
   * `generateLocalDateTime`: the picked date with the picked time; with no picked time,
   * the picked date with the time of the single stored answer; nothing without a date,
   * or without a time when there is not exactly one answer. The date always comes from
   * the picked date.
   */
  function GenerateLocalDateTime(localDate: Option<LocalDate>, localTime: Option<LocalTime>,
                                 answers: seq<DateTimeType>): (r: Option<LocalDateTime>)
    ensures localDate.None? ==> r.None?
    ensures r.Some? ==> r.value.date == localDate.value
    ensures localDate.Some? && localTime.Some? ==> r == Some(LocalDateTime(localDate.value, localTime.value))
    ensures localDate.Some? && localTime.None? ==>
              (r.Some? <==> |answers| == 1) && (r.Some? ==> r.value.time == LocalTimeOf(answers[0]))
  {
    if localDate.Some? && localTime.Some? then
      Some(LocalDateTime(localDate.value, localTime.value))
    else if localDate.Some? then
      match SingleOrNull(answers)
      case None => None
      case Some(answer) => Some(LocalDateTime(localDate.value, LocalTimeOf(answer)))
    else
      None
  }

  /**
   * `isTextUpdateRequired`: the date text must be rewritten unless there is an answer
   * and the text parses to the answer's calendar date, with a time to go with it (a
   * picked one, or the single stored answer's). The time of day never matters.
   */
  function IsTextUpdateRequired(answer: Option<LocalDateTime>, inputText: Option<string>,
                                acceptableDateFormat: Option<string>, localTime: Option<LocalTime>,
                                answers: seq<DateTimeType>, parse: DateParser): (r: bool)
    ensures var parsed := ParseDate(inputText, acceptableDateFormat, parse);
      !r <==> && answer.Some?
              && parsed.Ok?
              && answer.value.date == parsed.value
              && (localTime.Some? || |answers| == 1)
  {
    var parsed := ParseDate(inputText, acceptableDateFormat, parse);
    var inputDate := if parsed.Ok? then GenerateLocalDateTime(Some(parsed.value), localTime, answers) else None;
    if answer.None? || inputDate.None? then true
    else answer.value.date != inputDate.value.date
  }

  /** Two answers on the same day need the same text update, whatever their times. */
  lemma TextUpdateIgnoresTime(date: LocalDate, t1: LocalTime, t2: LocalTime, inputText: Option<string>,
                              acceptableDateFormat: Option<string>, localTime: Option<LocalTime>,
                              answers: seq<DateTimeType>, parse: DateParser)
    ensures IsTextUpdateRequired(Some(LocalDateTime(date, t1)), inputText, acceptableDateFormat, localTime, answers, parse)
         == IsTextUpdateRequired(Some(LocalDateTime(date, t2)), inputText, acceptableDateFormat, localTime, answers, parse)
  {
  }

  /**
   * A typed text that parses, and yields a date-time, is never rewritten when that
   * date-time is written back to the inputs.
   */
  lemma TypedDateKeepsText(text: string, acceptableDateFormat: Option<string>, localTime: Option<LocalTime>,
                           answers: seq<DateTimeType>, parse: DateParser)
    requires ParseDate(Some(text), acceptableDateFormat, parse).Ok?
    requires GenerateLocalDateTime(Some(ParseDate(Some(text), acceptableDateFormat, parse).value), localTime, answers).Some?
    ensures var ldt := GenerateLocalDateTime(Some(ParseDate(Some(text), acceptableDateFormat, parse).value), localTime, answers);
      !IsTextUpdateRequired(ldt, Some(text), acceptableDateFormat, localTime, answers, parse)
  {
  }

  // ----------------------------------------------------------------------------------
  // The delegate

  /** ValidationResult: NotValidated, Valid, or Invalid with its single-string message. */
  datatype ValidationResult = NotValidated | Valid | Invalid(message: string)

  /**
   * What the platform supplies: the non-lenient date parse, the localized renderings
   * of dates and times, and the localized date-format error message for a format.
   */
  datatype Platform = Platform(
    parse: DateParser,
    dateText: LocalDateTime -> string,      // localizedDateString
    timeText: LocalDateTime -> string,      // toLocalizedTimeString
    pickedDateText: LocalDate -> string,    // LocalDate.localizedString
    pickedTimeText: LocalTime -> string,    // LocalTime.toLocalizedString
    dateFormatError: string -> string)      // date_format_validation_error_msg

  /**
   * The view holder delegate. The two text inputs and their layouts are reduced to
   * their texts, enabled flags, hint and error; the bound item to its answers, with
   * `answerChanges` counting the setAnswer/clearAnswer notifications it receives.
   */
  class DateTimePickerDelegate {
    const platform: Platform

    var answers: seq<DateTimeType>
    var answerChanges: nat

    var localDate: Option<LocalDate>
    var localTime: Option<LocalTime>
    var acceptableDateFormat: Option<string>  // lateinit: `None` until first bound
    var dateFormatSeparator: Option<char>

    var dateHint: Option<string>
    var dateText: string
    var timeText: string
    var dateLayoutEnabled: bool
    var dateEditEnabled: bool
    var timeLayoutEnabled: bool  // the time picker
    var timeEditEnabled: bool
    var dateError: Option<string>
    var timeError: Option<string>

    var isDeleting: bool  // the text watcher's own state

    /** `acceptableDateFormat` has been initialised by a bind. */
    predicate Bound()
      reads this
    {
      acceptableDateFormat.Some?
    }

    /** The time picker is only offered once there is a date to attach the time to. */
    predicate TimePickerConsistent()
      reads this
    {
      timeLayoutEnabled ==> localDate.Some?
    }

    /** All four inputs are disabled. */
    predicate ReadOnly()
      reads this
    {
      !dateLayoutEnabled && !dateEditEnabled && !timeLayoutEnabled && !timeEditEnabled
    }

    constructor (platform: Platform)
      ensures this.platform == platform
      ensures answers == [] && answerChanges == 0
      ensures localDate.None? && localTime.None? && acceptableDateFormat.None? && dateFormatSeparator.None?
      ensures dateHint.None? && dateText == [] && timeText == []
      ensures dateLayoutEnabled && dateEditEnabled && timeLayoutEnabled && timeEditEnabled
      ensures dateError.None? && timeError.None? && !isDeleting
    {
      this.platform := platform;
      answers, answerChanges := [], 0;
      localDate, localTime, acceptableDateFormat, dateFormatSeparator := None, None, None, None;
      dateHint, dateText, timeText := None, [], [];
      dateLayoutEnabled, dateEditEnabled, timeLayoutEnabled, timeEditEnabled := true, true, true, true;
      dateError, timeError := None, None;
      isDeleting := false;
    }

    /** `setReadOnlyInternal`: every input enabled exactly when not read-only. */
    method SetReadOnlyInternal(isReadOnly: bool)
      modifies this`dateLayoutEnabled, this`dateEditEnabled, this`timeLayoutEnabled, this`timeEditEnabled
      ensures dateLayoutEnabled == dateEditEnabled == timeLayoutEnabled == timeEditEnabled == !isReadOnly
    {
      timeEditEnabled := !isReadOnly;
      dateEditEnabled := !isReadOnly;
      timeLayoutEnabled := !isReadOnly;
      dateLayoutEnabled := !isReadOnly;
    }

    /** `setReadOnly`: from outside, an item can only be made read-only, never writable again. */
    method SetReadOnly(isReadOnly: bool)
      modifies this`dateLayoutEnabled, this`dateEditEnabled, this`timeLayoutEnabled, this`timeEditEnabled
      ensures isReadOnly ==> ReadOnly()
      ensures !isReadOnly ==>
                && dateLayoutEnabled == old(dateLayoutEnabled) && dateEditEnabled == old(dateEditEnabled)
                && timeLayoutEnabled == old(timeLayoutEnabled) && timeEditEnabled == old(timeEditEnabled)
      ensures old(TimePickerConsistent()) ==> TimePickerConsistent()
    {
      if isReadOnly {
        SetReadOnlyInternal(true);
      }
    }

    /** `clearPreviousState`: no picked date or time, and all inputs enabled. */
    method ClearPreviousState()
      modifies this`localDate, this`localTime
      modifies this`dateLayoutEnabled, this`dateEditEnabled, this`timeLayoutEnabled, this`timeEditEnabled
      ensures localDate.None? && localTime.None?
      ensures dateLayoutEnabled && dateEditEnabled && timeLayoutEnabled && timeEditEnabled
    {
      localDate := None;
      localTime := None;
      SetReadOnlyInternal(false);
    }

    method EnableOrDisableTimePicker(enableIt: bool)
      modifies this`timeLayoutEnabled
      ensures timeLayoutEnabled == enableIt
    {
      timeLayoutEnabled := enableIt;
    }

    /** `displayDateValidationError`: the message of an invalid result, no error otherwise. */
    method DisplayDateValidationError(validationResult: ValidationResult)
      modifies this`dateError
      ensures dateError.Some? <==> validationResult.Invalid?
      ensures validationResult.Invalid? ==> dateError == Some(validationResult.message)
    {
      match validationResult
      case NotValidated => dateError := None;
      case Valid => dateError := None;
      case Invalid(message) => dateError := Some(message);
    }

    /** `displayTimeValidationError`: as for the date, but a disabled time input shows no error. */
    method DisplayTimeValidationError(validationResult: ValidationResult)
      modifies this`timeError
      ensures timeError.Some? <==> validationResult.Invalid? && timeLayoutEnabled
      ensures timeError.Some? ==> timeError == Some(validationResult.message)
    {
      match validationResult
      case NotValidated => timeError := None;
      case Valid => timeError := None;
      case Invalid(message) =>
        if timeLayoutEnabled {
          timeError := Some(message);
        } else {
          timeError := None;
        }
    }

    method DisplayValidationResult(validationResult: ValidationResult)
      modifies this`dateError, this`timeError
      ensures dateError.Some? <==> validationResult.Invalid?
      ensures timeError.Some? <==> validationResult.Invalid? && timeLayoutEnabled
      ensures validationResult.Invalid? ==> dateError == Some(validationResult.message)
      ensures timeError.Some? ==> timeError == Some(validationResult.message)
    {
      DisplayDateValidationError(validationResult);
      DisplayTimeValidationError(validationResult);
    }

    /**
     * `updateDateTimeInput`: the time picker is enabled exactly when there is a
     * date-time; the date text is rewritten only when it does not already show that
     * date; the time text always shows the time, or nothing.
     */
    method UpdateDateTimeInput(localDateTime: Option<LocalDateTime>, acceptableDateFormat: Option<string>)
      modifies this`timeLayoutEnabled, this`dateText, this`timeText
      ensures timeLayoutEnabled == localDateTime.Some?
      ensures dateText ==
                if IsTextUpdateRequired(localDateTime, Some(old(dateText)), acceptableDateFormat, localTime, answers, platform.parse)
                then (if localDateTime.Some? then platform.dateText(localDateTime.value) else [])
                else old(dateText)
      ensures timeText == if localDateTime.Some? then platform.timeText(localDateTime.value) else []
    {
      EnableOrDisableTimePicker(localDateTime.Some?);
      if IsTextUpdateRequired(localDateTime, Some(dateText), acceptableDateFormat, localTime, answers, platform.parse) {
        dateText := if localDateTime.Some? then platform.dateText(localDateTime.value) else [];
      }
      timeText := if localDateTime.Some? then platform.timeText(localDateTime.value) else [];
    }

    /** `updateDateTimeAnswer`: the single answer becomes the date-time, which it reads back as. */
    method UpdateDateTimeAnswer(localDateTime: LocalDateTime)
      modifies this`answers, this`answerChanges
      ensures answers == [AnswerValue(localDateTime)] && answerChanges == old(answerChanges) + 1
      ensures LocalDateTimeOf(answers[0]) == localDateTime
    {
      answers := [DateTimeTypeOf(ToJavaDate(localDateTime))];
      answerChanges := answerChanges + 1;
    }

    /** The bound item's `clearAnswer`. */
    method ClearAnswer()
      modifies this`answers, this`answerChanges
      ensures answers == [] && answerChanges == old(answerChanges) + 1
    {
      answers := [];
      answerChanges := answerChanges + 1;
    }

    /**
     * `updateAnswerAfterTextChanged`. An empty text clears the answer and nothing else.
     * A text that parses becomes the picked date, clears the date error, enables the
     * time picker and, when a date-time can be formed, writes it to the inputs and the
     * answer. A text that does not parse sets the date error, clears the time error of a
     * disabled time input, clears the answer if there was one, and forgets the date.
     */
    method UpdateAnswerAfterTextChanged(text: Option<string>)
      requires Bound()
      modifies this`answers, this`answerChanges, this`localDate, this`timeLayoutEnabled
      modifies this`dateText, this`timeText, this`dateError, this`timeError
      ensures localTime == old(localTime)
      ensures text.None? || text.value == [] ==>
                && answers == [] && answerChanges == old(answerChanges) + 1
                && localDate == old(localDate) && timeLayoutEnabled == old(timeLayoutEnabled)
                && dateError == old(dateError) && timeError == old(timeError)
                && dateText == old(dateText) && timeText == old(timeText)
      ensures var parsed := ParseDate(text, acceptableDateFormat, platform.parse);
              text.Some? && text.value != [] && parsed.Err? ==>
                && localDate.None? && !timeLayoutEnabled
                && dateError == Some(platform.dateFormatError(acceptableDateFormat.value))
                && timeError == (if old(timeLayoutEnabled) then old(timeError) else None)
                && answers == []
                && answerChanges == old(answerChanges) + (if old(answers) == [] then 0 else 1)
                && dateText == old(dateText) && timeText == old(timeText)
      ensures var parsed := ParseDate(text, acceptableDateFormat, platform.parse);
              text.Some? && text.value != [] && parsed.Ok? ==>
                && localDate == Some(parsed.value) && dateError.None? && timeLayoutEnabled
                && timeError == old(timeError)
                && var ldt := GenerateLocalDateTime(Some(parsed.value), old(localTime), old(answers));
                   && (ldt.None? ==>
                         && answers == old(answers) && answerChanges == old(answerChanges)
                         && dateText == old(dateText) && timeText == old(timeText))
                   && (ldt.Some? ==>
                         && answers == [AnswerValue(ldt.value)] && answerChanges == old(answerChanges) + 1
                         && timeText == platform.timeText(ldt.value)
                         && dateText ==
                              if IsTextUpdateRequired(ldt, Some(old(dateText)), acceptableDateFormat,
                                                      old(localTime), old(answers), platform.parse)
                              then platform.dateText(ldt.value) else old(dateText))
      ensures old(TimePickerConsistent()) ==> TimePickerConsistent()
    {
      if text.None? || text.value == [] {
        ClearAnswer();
        return;
      }
      var parsed := ParseDate(text, acceptableDateFormat, platform.parse);
      if parsed.Ok? {
        localDate := Some(parsed.value);
        DisplayDateValidationError(Valid);
        EnableOrDisableTimePicker(true);
        var ldt := GenerateLocalDateTime(localDate, localTime, answers);
        if ldt.Some? {
          UpdateDateTimeInput(ldt, acceptableDateFormat);
          UpdateDateTimeAnswer(ldt.value);
        }
      } else {
        DisplayDateValidationError(Invalid(platform.dateFormatError(acceptableDateFormat.value)));
        if !timeLayoutEnabled {
          DisplayTimeValidationError(Valid);
        }
        if answers != [] {
          ClearAnswer();
        }
        localDate := None;
        EnableOrDisableTimePicker(false);
      }
    }

    /** The watcher's `beforeTextChanged`: the edit deletes when it replaces more than it inserts. */
    method BeforeTextChanged(count: int, after: int)
      modifies this`isDeleting
      ensures isDeleting <==> count > after
    {
      isDeleting := count > after;
    }

    /**
     * The watcher's `afterTextChanged`, given the text as the separator helper left it.
     * Whatever the text, it is not rewritten: a text that parses already shows the date
     * that is written back.
     */
    method AfterTextChanged(edited: string)
      requires Bound()
      modifies this`answers, this`answerChanges, this`localDate, this`timeLayoutEnabled
      modifies this`dateText, this`timeText, this`dateError, this`timeError
      ensures dateText == edited
      ensures localTime == old(localTime)
      ensures edited == [] ==>
                && answers == [] && answerChanges == old(answerChanges) + 1
                && localDate == old(localDate) && timeLayoutEnabled == old(timeLayoutEnabled)
                && dateError == old(dateError) && timeError == old(timeError) && timeText == old(timeText)
      ensures var parsed := ParseDate(Some(edited), acceptableDateFormat, platform.parse);
              edited != [] && parsed.Err? ==>
                && localDate.None? && !timeLayoutEnabled
                && dateError == Some(platform.dateFormatError(acceptableDateFormat.value))
                && timeError == (if old(timeLayoutEnabled) then old(timeError) else None)
                && answers == []
                && answerChanges == old(answerChanges) + (if old(answers) == [] then 0 else 1)
                && timeText == old(timeText)
      ensures var parsed := ParseDate(Some(edited), acceptableDateFormat, platform.parse);
              edited != [] && parsed.Ok? ==>
                && localDate == Some(parsed.value) && dateError.None? && timeLayoutEnabled
                && timeError == old(timeError)
                && var ldt := GenerateLocalDateTime(Some(parsed.value), old(localTime), old(answers));
                   && (ldt.None? ==>
                         answers == old(answers) && answerChanges == old(answerChanges) && timeText == old(timeText))
                   && (ldt.Some? ==>
                         && answers == [AnswerValue(ldt.value)] && answerChanges == old(answerChanges) + 1
                         && LocalDateTimeOf(answers[0]) == ldt.value
                         && timeText == platform.timeText(ldt.value))
      ensures old(TimePickerConsistent()) ==> TimePickerConsistent()
    {
      dateText := edited;
      if edited != [] && ParseDate(Some(edited), acceptableDateFormat, platform.parse).Ok? {
        var date := ParseDate(Some(edited), acceptableDateFormat, platform.parse).value;
        if GenerateLocalDateTime(Some(date), localTime, answers).Some? {
          TypedDateKeepsText(edited, acceptableDateFormat, localTime, answers, platform.parse);
        }
      }
      UpdateAnswerAfterTextChanged(Some(edited));
    }

    /**
     * The date picker's confirmation: the picked date is shown and kept, the time
     * picker is enabled, and a date-time is written when one can be formed.
     */
    method OnDatePicked(date: LocalDate)
      requires Bound()
      modifies this`answers, this`answerChanges, this`localDate, this`timeLayoutEnabled
      modifies this`dateText, this`timeText
      ensures localDate == Some(date) && localTime == old(localTime) && timeLayoutEnabled
      ensures var ldt := GenerateLocalDateTime(Some(date), old(localTime), old(answers));
              && (ldt.None? ==>
                    && answers == old(answers) && answerChanges == old(answerChanges)
                    && dateText == platform.pickedDateText(date) && timeText == old(timeText))
              && (ldt.Some? ==>
                    && answers == [AnswerValue(ldt.value)] && answerChanges == old(answerChanges) + 1
                    && LocalDateTimeOf(answers[0]).date == date
                    && timeText == platform.timeText(ldt.value)
                    && dateText ==
                         if IsTextUpdateRequired(ldt, Some(platform.pickedDateText(date)), acceptableDateFormat,
                                                 old(localTime), old(answers), platform.parse)
                         then platform.dateText(ldt.value) else platform.pickedDateText(date))
      ensures TimePickerConsistent()
    {
      localDate := Some(date);
      dateText := platform.pickedDateText(date);
      EnableOrDisableTimePicker(true);
      var ldt := GenerateLocalDateTime(localDate, localTime, answers);
      if ldt.Some? {
        UpdateDateTimeInput(ldt, acceptableDateFormat);
        UpdateDateTimeAnswer(ldt.value);
      }
    }

    /**
     * The time picker's confirmation: the picked hour and minute, at second 0, become
     * the time; with a picked date, the date-time is written to the inputs and the answer.
     */
    method OnTimePicked(hour: int, minute: int)
      requires Bound()
      modifies this`answers, this`answerChanges, this`localTime, this`timeLayoutEnabled
      modifies this`dateText, this`timeText
      ensures localTime == Some(LocalTime(hour, minute, 0)) && localDate == old(localDate)
      ensures old(localDate).None? ==>
                && answers == old(answers) && answerChanges == old(answerChanges)
                && timeLayoutEnabled == old(timeLayoutEnabled) && dateText == old(dateText)
                && timeText == platform.pickedTimeText(LocalTime(hour, minute, 0))
      ensures old(localDate).Some? ==>
                var ldt := LocalDateTime(old(localDate).value, LocalTime(hour, minute, 0));
                && answers == [AnswerValue(ldt)] && answerChanges == old(answerChanges) + 1
                && LocalDateTimeOf(answers[0]).time.second == 0
                && timeLayoutEnabled
                && timeText == platform.timeText(ldt)
                && dateText ==
                     if IsTextUpdateRequired(Some(ldt), Some(old(dateText)), acceptableDateFormat,
                                             localTime, old(answers), platform.parse)
                     then platform.dateText(ldt) else old(dateText)
      ensures old(TimePickerConsistent()) ==> TimePickerConsistent()
    {
      var time := LocalTime(hour, minute, 0);
      localTime := Some(time);
      timeText := platform.pickedTimeText(time);
      var ldt := GenerateLocalDateTime(localDate, localTime, answers);
      if ldt.Some? {
        UpdateDateTimeInput(ldt, acceptableDateFormat);
        UpdateDateTimeAnswer(ldt.value);
      }
    }

    /**
     * `bind`: clears the previous state, derives the separator and the acceptable format
     * from the locale's short date pattern (raising when the pattern has no separator),
     * shows the format as the hint, and loads the single stored answer, if any, into the
     * picked date and time and the two inputs. `ok` is false where the source raises.
     */
    method Bind(itemAnswers: seq<DateTimeType>, localeDatePattern: string) returns (ok: bool)
      modifies this`answers, this`localDate, this`localTime, this`acceptableDateFormat
      modifies this`dateFormatSeparator, this`dateHint, this`dateText, this`timeText
      modifies this`dateLayoutEnabled, this`dateEditEnabled, this`timeLayoutEnabled, this`timeEditEnabled
      ensures ok <==> DateSeparator(localeDatePattern).Some?
      ensures answers == itemAnswers
      ensures dateLayoutEnabled && dateEditEnabled && timeEditEnabled
      ensures !ok ==>
                && localDate.None? && localTime.None? && timeLayoutEnabled
                && acceptableDateFormat == old(acceptableDateFormat) && dateFormatSeparator == old(dateFormatSeparator)
                && dateHint == old(dateHint) && dateText == old(dateText) && timeText == old(timeText)
      ensures ok ==>
                && dateFormatSeparator == DateSeparator(localeDatePattern)
                && acceptableDateFormat == Some(AcceptableFormat(localeDatePattern, dateFormatSeparator.value))
                && dateHint == acceptableDateFormat
                && localDate == (if |itemAnswers| == 1 then Some(LocalDateOf(itemAnswers[0])) else None)
                && localTime == (if |itemAnswers| == 1 then Some(LocalTimeOf(itemAnswers[0])) else None)
                && timeLayoutEnabled == (|itemAnswers| == 1)
                && timeText == (if |itemAnswers| == 1 then platform.timeText(LocalDateTimeOf(itemAnswers[0])) else [])
                && TimePickerConsistent()
      ensures ok ==>
                var dateTime := if |itemAnswers| == 1 then Some(LocalDateTimeOf(itemAnswers[0])) else None;
                dateText ==
                  if IsTextUpdateRequired(dateTime, Some(old(dateText)), acceptableDateFormat, localTime, answers, platform.parse)
                  then (if dateTime.Some? then platform.dateText(dateTime.value) else [])
                  else old(dateText)
    {
      answers := itemAnswers;
      ClearPreviousState();
      var separator := DateSeparator(localeDatePattern);
      if separator.None? {
        // getDateSeparator raises NoSuchElementException
        return false;
      }
      dateFormatSeparator := separator;
      var format := GenerateAcceptableDateFormat(localeDatePattern, separator.value);
      acceptableDateFormat := Some(format);
      dateHint := acceptableDateFormat;
      var dateTime: Option<LocalDateTime> := None;
      var answer := SingleOrNull(answers);
      if answer.Some? {
        dateTime := Some(LocalDateTimeOf(answer.value));
        localDate := Some(dateTime.value.date);
        localTime := Some(dateTime.value.time);
      }
      UpdateDateTimeInput(dateTime, acceptableDateFormat);
      ok := true;
    }
  }
}
