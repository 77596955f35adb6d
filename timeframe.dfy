/**
 * The two timeframe checks of the code base. Dates are day numbers and
 * `today` is passed in.
 *
 *  - `StrictTimeframe` (src/kpi/utils/is_valid_timeframe.rs) is the one the
 *    evaluator and the suggestion ranker use: every bound that is present
 *    must hold.
 *  - `ExtendedTimeframe` (src/kpi/is_valid_timeframe.rs) is used by the older
 *    single-suggestion scan: an extended end date rescues an entry whose
 *    end-of-life has passed.
 */
module StrictTimeframe {
  import opened Wrappers
  import opened Roadmap

  /** Valid exactly when every present bound holds: released, not past end-of-life, not past the extended date. */
  function IsValidTimeframe(releaseDate: Option<int>, eol: Option<int>, extendedEndDate: Option<int>, today: int): (valid: bool)
    ensures valid <==> NotBefore(releaseDate, today) && NotAfter(eol, today) && NotAfter(extendedEndDate, today)
  {
    if releaseDate.Some? && today < releaseDate.value then false
    else if eol.Some? && today > eol.value then false
    else if extendedEndDate.Some? && today > extendedEndDate.value then false
    else true
  }

  /** An extended date never rescues an entry whose end-of-life has passed. */
  lemma NoRescuePastEol(releaseDate: Option<int>, eol: int, extendedEndDate: Option<int>, today: int)
    requires today > eol
    ensures !IsValidTimeframe(releaseDate, Some(eol), extendedEndDate, today)
  {
  }

  /** An extended date already passed invalidates the entry even while its end-of-life is ahead. */
  lemma PassedExtensionInvalidates(releaseDate: Option<int>, eol: int, extendedEndDate: int, today: int)
    requires today <= eol && extendedEndDate < today
    ensures !IsValidTimeframe(releaseDate, Some(eol), Some(extendedEndDate), today)
  {
  }

  /** An entry without dates is always valid. */
  lemma NoDatesAlwaysValid(today: int)
    ensures IsValidTimeframe(None, None, None, today)
  {
  }
}

module ExtendedTimeframe {
  import opened Wrappers
  import opened Roadmap

  /** Valid exactly when released and either not past end-of-life or within a present extended date. */
  function IsValidTimeframe(releaseDate: Option<int>, eol: Option<int>, extendedEndDate: Option<int>, today: int): (valid: bool)
    ensures valid <==> NotBefore(releaseDate, today) && (NotAfter(eol, today) || (extendedEndDate.Some? && today <= extendedEndDate.value))
  {
    if releaseDate.Some? && today < releaseDate.value then false
    else if eol.Some? && today > eol.value then
      (if extendedEndDate.Some? then today <= extendedEndDate.value else false)
    else true
  }

  /** Not valid before the release date. */
  lemma NotYetReleased(releaseDate: int, eol: Option<int>, extendedEndDate: Option<int>, today: int)
    requires today < releaseDate
    ensures !IsValidTimeframe(Some(releaseDate), eol, extendedEndDate, today)
  {
  }

  /** The end-of-life day itself is still valid, whatever the extended date says. */
  lemma EolDayIsValid(releaseDate: Option<int>, eol: int, extendedEndDate: Option<int>)
    requires releaseDate.None? || releaseDate.value <= eol
    ensures IsValidTimeframe(releaseDate, Some(eol), extendedEndDate, eol)
  {
  }

  /** Up to end-of-life the extended date is not consulted, even when it lies before today. */
  lemma ExtensionIgnoredBeforeEol(releaseDate: Option<int>, eol: int, extendedEndDate: Option<int>, today: int)
    requires releaseDate.None? || releaseDate.value <= today
    requires today <= eol
    ensures IsValidTimeframe(releaseDate, Some(eol), extendedEndDate, today)
  {
  }

  /** Past end-of-life, validity is exactly "within the extended date", and false without one. */
  lemma PastEolNeedsExtension(releaseDate: Option<int>, eol: int, extendedEndDate: Option<int>, today: int)
    requires releaseDate.None? || releaseDate.value <= today
    requires today > eol
    ensures IsValidTimeframe(releaseDate, Some(eol), extendedEndDate, today)
        <==> extendedEndDate.Some? && today <= extendedEndDate.value
  {
  }

  /** Without release date and end-of-life every day is valid. */
  lemma NoBoundsAlwaysValid(extendedEndDate: Option<int>, today: int)
    ensures IsValidTimeframe(None, None, extendedEndDate, today)
  {
  }
}

/** How the two checks relate. */
module TimeframeComparison {
  import opened Wrappers
  import opened Roadmap
  import StrictTimeframe
  import ExtendedTimeframe

  /** Whatever the strict check accepts, the rescuing check accepts too. */
  lemma StrictImpliesExtended(releaseDate: Option<int>, eol: Option<int>, extendedEndDate: Option<int>, today: int)
    ensures StrictTimeframe.IsValidTimeframe(releaseDate, eol, extendedEndDate, today)
        ==> ExtendedTimeframe.IsValidTimeframe(releaseDate, eol, extendedEndDate, today)
  {
  }

  /**
   * The two disagree only on released entries that carry an extended date:
   * past end-of-life but within the extension (rescued), or not past
   * end-of-life but past the extension (only the strict check refuses).
   */
  lemma WhereTheyDisagree(releaseDate: Option<int>, eol: Option<int>, extendedEndDate: Option<int>, today: int)
    ensures ExtendedTimeframe.IsValidTimeframe(releaseDate, eol, extendedEndDate, today)
            && !StrictTimeframe.IsValidTimeframe(releaseDate, eol, extendedEndDate, today)
        <==> && NotBefore(releaseDate, today)
             && extendedEndDate.Some?
             && (|| (eol.Some? && eol.value < today <= extendedEndDate.value)
                 || (NotAfter(eol, today) && extendedEndDate.value < today))
  {
  }

  /** Released at day 0, end-of-life at day 100, extended to day 200: day 150 is rescued only by the older check. */
  lemma RescueExample()
    ensures ExtendedTimeframe.IsValidTimeframe(Some(0), Some(100), Some(200), 150)
    ensures !StrictTimeframe.IsValidTimeframe(Some(0), Some(100), Some(200), 150)
  {
  }
}
