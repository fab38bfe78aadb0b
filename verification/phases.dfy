/**
  Temporal phase predicates of a contest (hydro/model/contest.js:287-306) and the
  status texts `statusText`/`getStatusText` (hydro/model/contest.js:374-387).
  The clock reading `new Date()` is the parameter `now`, in milliseconds.
*/
module Phases {
  import opened ContestDoc

  /** One day in milliseconds, `24 * 3600 * 1000`. */
  const DayMillis: int := 24 * 3600 * 1000

  /** `isNew(tdoc, days)`: more than `days` days before the begin time. */
  predicate IsNew(c: Contest, now: int, days: int) {
    now < c.beginAt - days * DayMillis
  }

  /** `isUpcoming(tdoc, days)`: strictly inside the last `days` days before the begin time. */
  predicate IsUpcoming(c: Contest, now: int, days: int) {
    now > c.beginAt - days * DayMillis && now < c.beginAt
  }

  predicate IsNotStarted(c: Contest, now: int) {
    now < c.beginAt
  }

  predicate IsOngoing(c: Contest, now: int) {
    c.beginAt <= now && now < c.endAt
  }

  predicate IsDone(c: Contest, now: int) {
    c.endAt <= now
  }

  /** The lead-time windows are disjoint sub-phases of "not started". */
  lemma NewAndUpcomingWithinNotStarted(c: Contest, now: int, days: int)
    requires days >= 0
    ensures !(IsNew(c, now, days) && IsUpcoming(c, now, days))
    ensures IsNew(c, now, days) ==> IsNotStarted(c, now)
    ensures IsUpcoming(c, now, days) ==> IsNotStarted(c, now)
  {
  }

  /** When the contest does not end before it begins, exactly one main phase holds. */
  lemma ExactlyOnePhase(c: Contest, now: int)
    requires c.beginAt <= c.endAt
    ensures IsNotStarted(c, now) || IsOngoing(c, now) || IsDone(c, now)
    ensures !(IsNotStarted(c, now) && IsOngoing(c, now))
    ensures !(IsNotStarted(c, now) && IsDone(c, now))
    ensures !(IsOngoing(c, now) && IsDone(c, now))
  {
  }

  /**
    `getStatusText(tdoc)`: the name of the current main phase. A contest stored
    with its end before its begin is "finished" once it has begun.
  */
  function GetStatusText(c: Contest, now: int): (t: string)
    ensures t == "not_started" <==> IsNotStarted(c, now)
    ensures t == "ongoing" <==> IsOngoing(c, now)
    ensures t == "finished" <==> !IsNotStarted(c, now) && !IsOngoing(c, now)
    ensures c.beginAt <= c.endAt ==> (t == "finished" <==> IsDone(c, now))
  {
    if IsNotStarted(c, now) then "not_started"
    else if IsOngoing(c, now) then "ongoing"
    else "finished"
  }

  /** The four texts of `statusText`. */
  const NewText: string := "New"
  const ReadyText: string := "Ready (\U{2606}\U{25BD}\U{2606})"
  const LiveText: string := "Live..."
  const DoneText: string := "Done"

  /**
    `statusText(tdoc)` as written, with the default one-day lead time. Because
    `isUpcoming` is strict at its lower end, the instant exactly one day before the
    begin time is neither new nor upcoming and falls through to "Done".
  */
  function StatusTextAsWritten(c: Contest, now: int): (t: string)
    ensures t == NewText <==> IsNew(c, now, 1)
    ensures t == ReadyText <==> IsUpcoming(c, now, 1)
    ensures t == LiveText <==> IsOngoing(c, now)
    ensures t == DoneText <==> !IsNew(c, now, 1) && !IsUpcoming(c, now, 1) && !IsOngoing(c, now)
  {
    if IsNew(c, now, 1) then NewText
    else if IsUpcoming(c, now, 1) then ReadyText
    else if IsOngoing(c, now) then LiveText
    else DoneText
  }

  /** A contest that has not started is reported as "Done" exactly one day before it begins. */
  lemma StatusTextGapBeforeStart(c: Contest)
    ensures IsNotStarted(c, c.beginAt - DayMillis)
    ensures StatusTextAsWritten(c, c.beginAt - DayMillis) == DoneText
  {
  }

  /**
    `statusText(tdoc)` as intended: "New" before the lead time, "Ready" for the rest
    of the time before the begin, "Live..." while ongoing, "Done" afterwards.
  */
  function StatusText(c: Contest, now: int): (t: string)
    ensures IsNew(c, now, 1) ==> t == NewText
    ensures IsUpcoming(c, now, 1) ==> t == ReadyText
    ensures t == ReadyText <==> IsNotStarted(c, now) && !IsNew(c, now, 1)
    ensures t == LiveText <==> IsOngoing(c, now)
    ensures t == DoneText <==> !IsNotStarted(c, now) && !IsOngoing(c, now)
  {
    if IsNew(c, now, 1) then NewText
    else if IsNotStarted(c, now) then ReadyText
    else if IsOngoing(c, now) then LiveText
    else DoneText
  }

  /** Where the written text is not in the gap, it agrees with the intended one. */
  lemma StatusTextAgreesOutsideGap(c: Contest, now: int)
    requires now != c.beginAt - DayMillis
    ensures StatusTextAsWritten(c, now) == StatusText(c, now)
  {
  }

  /** The intended text refines the main phase of `getStatusText`. */
  lemma StatusTextMatchesPhase(c: Contest, now: int)
    ensures StatusText(c, now) in {NewText, ReadyText} <==> GetStatusText(c, now) == "not_started"
    ensures StatusText(c, now) == LiveText <==> GetStatusText(c, now) == "ongoing"
    ensures StatusText(c, now) == DoneText <==> GetStatusText(c, now) == "finished"
  {
  }
}
