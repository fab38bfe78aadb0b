/**
  The contest document (`tdoc`), the closed rule registry `RULES = {acm, oi}`
  (hydro/model/contest.js:187-189) and the errors the contest model throws.
*/
module ContestDoc {
  import opened Wrappers
  import opened Journal

  /** The two registered contest rules. */
  datatype Rule = Acm | Oi

  /** `RULES[name]`: the registered rule of that name, if any. */
  function LookupRule(name: string): (r: Option<Rule>)
    ensures r == Some(Acm) <==> name == "acm"
    ensures r == Some(Oi) <==> name == "oi"
    ensures r.None? <==> name != "acm" && name != "oi"
  {
    if name == "acm" then Some(Acm)
    else if name == "oi" then Some(Oi)
    else None
  }

  /** The name under which a rule is registered; `LookupRule` inverts it. */
  function RuleName(r: Rule): (name: string)
    ensures LookupRule(name) == Some(r)
  {
    match r
    case Acm => "acm"
    case Oi => "oi"
  }

  /**
    A stored contest. Times are milliseconds since the epoch; `rule` is kept as the
    string the document holds, so a document may name an unregistered rule.
  */
  datatype Contest = Contest(
    title: string,
    content: string,
    owner: Uid,
    rule: string,
    beginAt: int,
    endAt: int,
    pids: seq<Pid>,
    attend: nat)

  predicate Registered(c: Contest) {
    LookupRule(c.rule).Some?
  }

  /** The registered rule of a contest. */
  function RuleOf(c: Contest): Rule
    requires Registered(c)
  {
    LookupRule(c.rule).value
  }

  /** The contest's begin time in whole seconds: `Math.floor(beginAt / 1000)`. */
  function BeginSeconds(c: Contest): int {
    c.beginAt / 1000
  }

  /**
    The errors thrown by the contest model (hydro/model/contest.js:3-6), plus
    `RuleNotRegistered`: the `TypeError` raised when `RULES[name]` is undefined and
    one of its members (`check`, `showScoreboard`, `showRecord`) is read.
  */
  datatype Error =
    | ValidationError(fields: seq<string>)
    | ContestNotFound(tid: Tid)
    | ContestAlreadyAttended(tid: Tid, uid: Uid)
    | ContestNotAttended(tid: Tid, uid: Uid)
    | ProblemNotFound(pid: Pid)
    | ContestScoreboardHidden(tid: Tid)
    | RuleNotRegistered(rule: string)
}
