/**
 * The commit record the pipeline reads from the repository, and the calendar
 * day values it compares. The conversion of an author timestamp to a local
 * date in the author's own time zone is not modelled: each commit carries the
 * resulting day, counted in days since 1970-01-01 (java.time's epoch day).
 */
module Commits {

  /** Epoch day of LocalDate.MIN (-999999999-01-01). */
  const MinEpochDay: int := -365_243_219_162

  /** Epoch day of LocalDate.MAX (+999999999-12-31). */
  const MaxEpochDay: int := 365_241_780_471

  /** Any value of java.time.LocalDate, as an epoch day. */
  type LocalDay = d: int | MinEpochDay <= d <= MaxEpochDay

  /** LocalDate.MIN, the cutoff `main` uses. */
  const LocalDateMin: LocalDay := MinEpochDay

  /**
   * An author timestamp is a java.util.Date, a signed 64-bit count of
   * milliseconds: at most 106751991168 days either side of the epoch. The
   * author's zone offset (at most 18 hours) moves the local date by at most
   * one more day.
   */
  const AuthoredDayBound: int := 106_751_991_169

  /** The local date of a commit's author timestamp, in the author's zone. */
  type AuthoredDay = d: int | -AuthoredDayBound <= d <= AuthoredDayBound

  /** One commit as the repository's log returns it. */
  datatype Commit = Commit(id: string, authoredDay: AuthoredDay, message: string)

  /** LocalDate.isAfter: strictly later. */
  predicate IsAfter(day: int, since: LocalDay) {
    day > since
  }
}
