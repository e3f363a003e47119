/**
 * The `java.time` value types the data-capture code works with. Field values are kept as
 * the library exposes them: months are 1-based, years are proleptic ISO years.
 */
module JavaTime {

  datatype LocalDate = LocalDate(year: int, month: int, dayOfMonth: int)

  datatype LocalTime = LocalTime(hour: int, minute: int, second: int)

  datatype LocalDateTime = LocalDateTime(date: LocalDate, time: LocalTime)
}
