/** The loan-renewal form: its one field is the new due date, and cleaning
    that field accepts only a day in the closed window [today, today + 4 weeks]. */
module Forms {
  import opened Models

  /** timedelta(weeks=4): how far ahead a loan may be renewed. */
  const RenewalWindowDays: int := 4 * 7

  /** The two validation errors the clean step can raise. */
  datatype RenewalError = DateInPast | DateTooFar
  {
    function Message(): string {
      match this
      case DateInPast => "Invalid date - cannot choose before today"
      case DateTooFar => "Invalid date - cannot choose date more than 4 weeks"
    }
  }

  /** What cleaning the field yields: the date to store, or the one error raised. */
  datatype Cleaned = Accepted(date: Date) | Rejected(error: RenewalError)

  /** Cleans the submitted (already parsed) renewal date on the day `today`.
      The past check runs first, so a rejected date carries exactly one error. */
  function CleanRenewalDate(submitted: Date, today: Date): (r: Cleaned)
    ensures r.Accepted? <==> today <= submitted <= today + RenewalWindowDays
    ensures r.Accepted? ==> r.date == submitted
    ensures r == Rejected(DateInPast) <==> submitted < today
    ensures r == Rejected(DateTooFar) <==> submitted > today + RenewalWindowDays
  {
    if submitted < today then Rejected(DateInPast)
    else if submitted > today + RenewalWindowDays then Rejected(DateTooFar)
    else Accepted(submitted)
  }

  /** Both ends of the window are accepted: the comparisons are strict. */
  lemma WindowEndsAccepted(today: Date)
    ensures CleanRenewalDate(today, today) == Accepted(today)
    ensures CleanRenewalDate(today + 28, today) == Accepted(today + 28)
    ensures CleanRenewalDate(today - 1, today) == Rejected(DateInPast)
    ensures CleanRenewalDate(today + 29, today) == Rejected(DateTooFar)
  {
  }

  /** Day 738886 is 1 January 2024: 31 December 2023 is in the past,
      29 January 2024 is exactly four weeks on, 30 January 2024 is too far. */
  lemma NewYear2024Example()
    ensures CleanRenewalDate(738885, 738886) == Rejected(DateInPast)
    ensures CleanRenewalDate(738914, 738886) == Accepted(738914)
    ensures CleanRenewalDate(738915, 738886) == Rejected(DateTooFar)
  {
  }
}
