/**
  Visibility gates: the per-rule `showScoreboard`/`showRecord`
  (hydro/model/contest.js:15-16, 138-143) and the handler mixin's
  `canShowScoreboard`/`canShowRecord` (hydro/model/contest.js:313-323).
  The clock reading `new Date()` is the parameter `now` (milliseconds), and the
  caller's permission check `canViewHiddenScoreboard` is the parameter `hasPerm`.
*/
module Visibility {
  import opened Wrappers
  import opened ContestDoc

  /** `RULES[rule].showScoreboard(tdoc, now)`. */
  function ShowScoreboard(rule: Rule, c: Contest, now: int): (r: bool)
    ensures rule == Acm ==> r
    ensures rule == Oi ==> (r <==> now > c.endAt)
  {
    match rule
    case Acm => true
    case Oi => now > c.endAt
  }

  /** `RULES[rule].showRecord(tdoc, now)`: the same after-the-end gate for both rules. */
  function ShowRecord(rule: Rule, c: Contest, now: int): (r: bool)
    ensures r <==> now > c.endAt
  {
    match rule
    case Acm => now > c.endAt
    case Oi => now > c.endAt
  }

  /**
    `canShowScoreboard(tdoc, allowPermOverride)`. The rule's gate is read first, so
    a contest on an unregistered rule fails whatever the permission.
  */
  function CanShowScoreboard(c: Contest, now: int, hasPerm: bool, allowOverride: bool): (r: Result<bool, Error>)
    ensures r.Failure? <==> !Registered(c)
    ensures r.Failure? ==> r.error == RuleNotRegistered(c.rule)
    ensures r.Success? ==> (r.value <==> RuleOf(c) == Acm || now > c.endAt || (allowOverride && hasPerm))
  {
    match LookupRule(c.rule)
    case None => Failure(RuleNotRegistered(c.rule))
    case Some(rule) => Success(ShowScoreboard(rule, c, now) || (allowOverride && hasPerm))
  }

  /** `canShowRecord(tdoc, allowPermOverride)`, failing the same way on an unregistered rule. */
  function CanShowRecord(c: Contest, now: int, hasPerm: bool, allowOverride: bool): (r: Result<bool, Error>)
    ensures r.Failure? <==> !Registered(c)
    ensures r.Failure? ==> r.error == RuleNotRegistered(c.rule)
    ensures r.Success? ==> (r.value <==> now > c.endAt || (allowOverride && hasPerm))
  {
    match LookupRule(c.rule)
    case None => Failure(RuleNotRegistered(c.rule))
    case Some(rule) => Success(ShowRecord(rule, c, now) || (allowOverride && hasPerm))
  }

  /** Under every rule, whenever records are shown the scoreboard is shown too. */
  lemma RecordImpliesScoreboard(c: Contest, now: int, hasPerm: bool, allowOverride: bool)
    ensures CanShowRecord(c, now, hasPerm, allowOverride) == Success(true)
            ==> CanShowScoreboard(c, now, hasPerm, allowOverride) == Success(true)
  {
  }

  /** The gates only open as time passes: what is visible at `now` stays visible later. */
  lemma GatesMonotoneInTime(c: Contest, now: int, later: int, hasPerm: bool, allowOverride: bool)
    requires now <= later
    ensures CanShowScoreboard(c, now, hasPerm, allowOverride) == Success(true)
            ==> CanShowScoreboard(c, later, hasPerm, allowOverride) == Success(true)
    ensures CanShowRecord(c, now, hasPerm, allowOverride) == Success(true)
            ==> CanShowRecord(c, later, hasPerm, allowOverride) == Success(true)
  {
  }

  /** The permission counts only when the override is allowed. */
  lemma PermissionNeedsOverride(c: Contest, now: int)
    ensures CanShowScoreboard(c, now, true, false) == CanShowScoreboard(c, now, false, false)
    ensures CanShowRecord(c, now, true, false) == CanShowRecord(c, now, false, false)
  {
  }
}
