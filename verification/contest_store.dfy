/**
  The contest store operations of hydro/model/contest.js: `add` (208-221),
  `edit` (229-242), `get` (249-253), `updateStatus` (254-260), `attend` (273-281)
  and the visibility gate at the head of `getScoreboard` (325-327).

  The document store is a value: contest documents by id, and status documents
  by (contest id, user id). Its primitives become map updates: `revPushStatus`
  appends to a status document's journal (creating the document if needed),
  `cappedIncStatus` raises a status document's `attend` from 0 to 1 or throws,
  and `inc` raises a contest's `attend` counter (a no-op on a missing contest).
*/
module ContestStore {
  import opened Wrappers
  import opened Journal
  import opened ContestDoc
  import Visibility

  /** A status document: the attendance flag and the journal. */
  datatype Status = Status(attend: nat, journal: seq<Entry>)

  /** The document store; `nextTid` is the id the next added contest receives. */
  datatype Store = Store(contests: map<Tid, Contest>, statuses: map<(Tid, Uid), Status>, nextTid: Tid)

  /** The title, content and intro checks of `lib/validator`, supplied by the caller. */
  datatype Validators = Validators(checkTitle: string -> bool, checkContent: string -> bool, checkIntro: string -> bool)

  /** Every stored contest has an id below `nextTid`, so `nextTid` is fresh. */
  predicate IdsBelowNext(s: Store) {
    forall t :: t in s.contests ==> t < s.nextTid
  }

  /** Fresh ids, and every stored contest names a registered rule. */
  predicate Valid(s: Store) {
    IdsBelowNext(s) && forall t :: t in s.contests ==> Registered(s.contests[t])
  }

  /** The status document of a pair; a missing one reads as not attended with an empty journal. */
  function StatusOf(s: Store, tid: Tid, uid: Uid): Status {
    if (tid, uid) in s.statuses then s.statuses[(tid, uid)] else Status(0, [])
  }

  const TimeOrderError: Error := ValidationError(["beginAt", "endAt"])

  /** `get(domainId, tid)`. */
  function Get(s: Store, tid: Tid): (r: Result<Contest, Error>)
    ensures r.Success? <==> tid in s.contests
    ensures r.Success? ==> r.value == s.contests[tid]
    ensures r.Failure? ==> r.error == ContestNotFound(tid)
  {
    if tid in s.contests then Success(s.contests[tid]) else Failure(ContestNotFound(tid))
  }

  /**
    `add(domainId, title, content, owner, rule, beginAt, endAt, pids)`: validates
    title, content, rule and time order, in that order, then stores the contest
    under a fresh id with an attendance count of 0.
  */
  function Add(s: Store, v: Validators, title: string, content: string, owner: Uid, rule: string,
               beginAt: int, endAt: int, pids: seq<Pid>): (r: Result<(Store, Tid), Error>)
    requires IdsBelowNext(s)
    ensures !v.checkTitle(title) ==> r == Failure(ValidationError(["title"]))
    ensures v.checkTitle(title) && !v.checkContent(content) ==> r == Failure(ValidationError(["content"]))
    ensures v.checkTitle(title) && v.checkContent(content) && LookupRule(rule).None?
            ==> r == Failure(ValidationError(["rule"]))
    ensures v.checkTitle(title) && v.checkContent(content) && LookupRule(rule).Some? && beginAt >= endAt
            ==> r == Failure(TimeOrderError)
    ensures r.Success? <==>
            v.checkTitle(title) && v.checkContent(content) && LookupRule(rule).Some? && beginAt < endAt
    ensures r.Success? ==>
              var (s', tid) := r.value;
              tid !in s.contests && tid in s'.contests
              && s'.contests[tid] == Contest(title, content, owner, rule, beginAt, endAt, pids, 0)
              && (forall t :: t in s.contests ==> t in s'.contests && s'.contests[t] == s.contests[t])
              && s'.contests.Keys == s.contests.Keys + {tid}
              && s'.statuses == s.statuses
              && IdsBelowNext(s')
              && (Valid(s) ==> Valid(s'))
  {
    if !v.checkTitle(title) then Failure(ValidationError(["title"]))
    else if !v.checkContent(content) then Failure(ValidationError(["content"]))
    else if LookupRule(rule).None? then Failure(ValidationError(["rule"]))
    else if beginAt >= endAt then Failure(TimeOrderError)
    else
      var tid := s.nextTid;
      var c := Contest(title, content, owner, rule, beginAt, endAt, pids, 0);
      Success((Store(s.contests[tid := c], s.statuses, tid + 1), tid))
  }

  // ---------------------------------------------------------------------------
  // edit

  /** The `$set` of `edit`: the fields present in the update. */
  datatype ContestUpdate = ContestUpdate(
    title: Option<string>,
    content: Option<string>,
    rule: Option<string>,
    beginAt: Option<int>,
    endAt: Option<int>,
    pids: Option<seq<Pid>>)

  /** JavaScript truthiness of an optional string: present and non-empty. */
  predicate Truthy(o: Option<string>) {
    o.Some? && o.value != ""
  }

  function Pick<T>(o: Option<T>, d: T): T {
    if o.Some? then o.value else d
  }

  /** The contest after `document.set` with the update: present fields replace, the rest stay. */
  function Apply(c: Contest, u: ContestUpdate): (c': Contest)
    ensures c'.owner == c.owner && c'.attend == c.attend
    ensures c'.title == Pick(u.title, c.title) && c'.content == Pick(u.content, c.content)
    ensures c'.rule == Pick(u.rule, c.rule) && c'.pids == Pick(u.pids, c.pids)
    ensures c'.beginAt == Pick(u.beginAt, c.beginAt) && c'.endAt == Pick(u.endAt, c.endAt)
  {
    Contest(Pick(u.title, c.title), Pick(u.content, c.content), c.owner, Pick(u.rule, c.rule),
            Pick(u.beginAt, c.beginAt), Pick(u.endAt, c.endAt), Pick(u.pids, c.pids), c.attend)
  }

  /** A truthy title must pass `checkTitle`. */
  predicate TitleAccepted(v: Validators, u: ContestUpdate) {
    Truthy(u.title) ==> v.checkTitle(u.title.value)
  }

  /** A truthy content must pass `checkIntro`. */
  predicate ContentAccepted(v: Validators, u: ContestUpdate) {
    Truthy(u.content) ==> v.checkIntro(u.content.value)
  }

  /** A rule that is checked (truthy, or present when `ruleCheckedWhenEmpty`) must be registered. */
  predicate RuleAccepted(u: ContestUpdate, ruleCheckedWhenEmpty: bool) {
    (if ruleCheckedWhenEmpty then u.rule.Some? else Truthy(u.rule)) ==> LookupRule(u.rule.value).Some?
  }

  /** Both times are in the update and the begin time is not before the end time. */
  predicate TimesOutOfOrder(u: ContestUpdate) {
    u.beginAt.Some? && u.endAt.Some? && u.beginAt.value >= u.endAt.value
  }

  /** The rule name line 240 looks up: `$set.rule || tdoc.rule`. */
  function RuleInEffect(c: Contest, u: ContestUpdate): string {
    if Truthy(u.rule) then u.rule.value else c.rule
  }

  /**
    The checks `edit` runs before it loads the contest, in order. A present but
    empty title or content is falsy and skips its check; the time order is checked
    only when both times are in the update. `ruleCheckedWhenEmpty` chooses between
    the source's truthiness test on the rule (false) and a test for presence (true).
  */
  function ValidateUpdate(v: Validators, u: ContestUpdate, ruleCheckedWhenEmpty: bool): (r: Outcome<Error>)
    ensures r == Pass <==>
              TitleAccepted(v, u) && ContentAccepted(v, u)
              && RuleAccepted(u, ruleCheckedWhenEmpty) && !TimesOutOfOrder(u)
    ensures !TitleAccepted(v, u) ==> r == Fail(ValidationError(["title"]))
    ensures TitleAccepted(v, u) && !ContentAccepted(v, u) ==> r == Fail(ValidationError(["content"]))
    ensures TitleAccepted(v, u) && ContentAccepted(v, u) && !RuleAccepted(u, ruleCheckedWhenEmpty)
            ==> r == Fail(ValidationError(["rule"]))
    ensures r == Fail(TimeOrderError) <==>
              TitleAccepted(v, u) && ContentAccepted(v, u) && RuleAccepted(u, ruleCheckedWhenEmpty)
              && TimesOutOfOrder(u)
    ensures r.Fail? ==> r.error.ValidationError?
  {
    if Truthy(u.title) && !v.checkTitle(u.title.value) then Fail(ValidationError(["title"]))
    else if Truthy(u.content) && !v.checkIntro(u.content.value) then Fail(ValidationError(["content"]))
    else if (if ruleCheckedWhenEmpty then u.rule.Some? else Truthy(u.rule)) && LookupRule(u.rule.value).None?
    then Fail(ValidationError(["rule"]))
    else if u.beginAt.Some? && u.endAt.Some? && u.beginAt.value >= u.endAt.value then Fail(TimeOrderError)
    else Pass
  }

  /**
    `edit` once the checks pass: a missing contest fails; then `RULES[$set.rule ||
    tdoc.rule].check` throws when that name is not registered; otherwise the present
    fields are written.
  */
  function EditWith(s: Store, v: Validators, tid: Tid, u: ContestUpdate, ruleCheckedWhenEmpty: bool): (r: Result<Store, Error>)
    ensures ValidateUpdate(v, u, ruleCheckedWhenEmpty).Fail? ==> r == Failure(ValidateUpdate(v, u, ruleCheckedWhenEmpty).error)
    ensures ValidateUpdate(v, u, ruleCheckedWhenEmpty).Pass? && tid !in s.contests ==> r == Failure(ContestNotFound(tid))
    ensures ValidateUpdate(v, u, ruleCheckedWhenEmpty).Pass? && tid in s.contests
            && LookupRule(RuleInEffect(s.contests[tid], u)).None?
            ==> r == Failure(RuleNotRegistered(RuleInEffect(s.contests[tid], u)))
    ensures r.Success? <==>
              ValidateUpdate(v, u, ruleCheckedWhenEmpty).Pass? && tid in s.contests
              && LookupRule(RuleInEffect(s.contests[tid], u)).Some?
    ensures r.Success? ==>
              r.value.contests.Keys == s.contests.Keys
              && r.value.contests[tid] == Apply(s.contests[tid], u)
              && (forall t :: t in s.contests && t != tid ==> r.value.contests[t] == s.contests[t])
              && r.value.statuses == s.statuses && r.value.nextTid == s.nextTid
  {
    var check := ValidateUpdate(v, u, ruleCheckedWhenEmpty);
    if check.Fail? then Failure(check.error)
    else if tid !in s.contests then Failure(ContestNotFound(tid))
    else if LookupRule(RuleInEffect(s.contests[tid], u)).None?
    then Failure(RuleNotRegistered(RuleInEffect(s.contests[tid], u)))
    else Success(s.(contests := s.contests[tid := Apply(s.contests[tid], u)]))
  }

  /** `edit(domainId, tid, $set)` as written: a rule given as the empty string skips the registry check. */
  function EditAsWritten(s: Store, v: Validators, tid: Tid, u: ContestUpdate): (r: Result<Store, Error>)
    ensures Truthy(u.rule) && LookupRule(u.rule.value).None? ==> r.Failure? && r.error.ValidationError?
    ensures r.Success? ==> tid in s.contests && tid in r.value.contests
                           && r.value.contests[tid] == Apply(s.contests[tid], u)
  {
    EditWith(s, v, tid, u, false)
  }

  /**
    On a contest with a registered rule, an edit that sets the rule to the empty
    string succeeds and stores a contest whose rule is not registered.
  */
  lemma EditAsWrittenStoresEmptyRule(s: Store, v: Validators, tid: Tid)
    requires tid in s.contests && Registered(s.contests[tid])
    ensures var u := ContestUpdate(None, None, Some(""), None, None, None);
            var r := EditAsWritten(s, v, tid, u);
            r.Success? && !Registered(r.value.contests[tid])
  {
  }

  /**
    After that edit, every later edit that names no rule throws at the registry
    lookup, so the contest can no longer be edited without setting a rule.
  */
  lemma EditAfterEmptyRuleThrows(s: Store, v: Validators, tid: Tid, u: ContestUpdate)
    requires tid in s.contests && Registered(s.contests[tid])
    requires ValidateUpdate(v, u, false).Pass? && !Truthy(u.rule)
    ensures var s1 := EditAsWritten(s, v, tid, ContestUpdate(None, None, Some(""), None, None, None)).value;
            EditAsWritten(s1, v, tid, u) == Failure(RuleNotRegistered(""))
  {
  }

  /** `edit(domainId, tid, $set)` as intended: any rule present in the update must be registered. */
  function Edit(s: Store, v: Validators, tid: Tid, u: ContestUpdate): (r: Result<Store, Error>)
    ensures u.rule.Some? && LookupRule(u.rule.value).None? ==> r.Failure? && r.error.ValidationError?
    ensures r.Success? ==> (u.rule.Some? ==> LookupRule(u.rule.value).Some?)
  {
    EditWith(s, v, tid, u, true)
  }

  /** The intended edit keeps every stored contest on a registered rule. */
  lemma EditPreservesValid(s: Store, v: Validators, tid: Tid, u: ContestUpdate)
    requires Valid(s)
    ensures Edit(s, v, tid, u).Success? ==> Valid(Edit(s, v, tid, u).value)
  {
  }

  /**
    The time order is not re-checked against the stored contest: an update that
    gives only a begin time at or after the stored end time succeeds.
  */
  lemma EditBeginOnlyUnchecked(s: Store, v: Validators, tid: Tid, b: int)
    requires tid in s.contests && Registered(s.contests[tid]) && b >= s.contests[tid].endAt
    ensures var r := Edit(s, v, tid, ContestUpdate(None, None, None, Some(b), None, None));
            r.Success? && r.value.contests[tid].beginAt >= r.value.contests[tid].endAt
  {
  }

  /** The same holds of `edit` as written: an absent rule is not truthy either. */
  lemma EditAsWrittenBeginOnlyUnchecked(s: Store, v: Validators, tid: Tid, b: int)
    requires tid in s.contests && Registered(s.contests[tid]) && b >= s.contests[tid].endAt
    ensures var r := EditAsWritten(s, v, tid, ContestUpdate(None, None, None, Some(b), None, None));
            r.Success? && r.value.contests[tid].beginAt >= r.value.contests[tid].endAt
  {
  }

  // ---------------------------------------------------------------------------
  // attend and updateStatus

  /**
    `attend(domainId, tid, uid)`: raises the pair's attendance flag from 0 to 1 and
    the contest's attendance counter by one; a pair that already attended fails and
    nothing changes. The contest's existence is not checked.
  */
  function Attend(s: Store, tid: Tid, uid: Uid): (r: Result<Store, Error>)
    ensures r.Success? <==> StatusOf(s, tid, uid).attend == 0
    ensures r.Failure? ==> r.error == ContestAlreadyAttended(tid, uid)
    ensures r.Success? ==>
              StatusOf(r.value, tid, uid) == Status(1, StatusOf(s, tid, uid).journal)
              && (forall t, u :: (t, u) != (tid, uid) ==> StatusOf(r.value, t, u) == StatusOf(s, t, u))
              && r.value.contests.Keys == s.contests.Keys
              && (tid in s.contests ==>
                    r.value.contests[tid] == s.contests[tid].(attend := s.contests[tid].attend + 1))
              && (forall t :: t in s.contests && t != tid ==> r.value.contests[t] == s.contests[t])
              && r.value.nextTid == s.nextTid
  {
    var st := StatusOf(s, tid, uid);
    if st.attend + 1 > 1 then Failure(ContestAlreadyAttended(tid, uid))
    else
      var statuses := s.statuses[(tid, uid) := st.(attend := st.attend + 1)];
      var contests := if tid in s.contests
                      then s.contests[tid := s.contests[tid].(attend := s.contests[tid].attend + 1)]
                      else s.contests;
      Success(Store(contests, statuses, s.nextTid))
  }

  /**
    `updateStatus(domainId, tid, uid, rid, pid, accept, score)`: a missing contest
    fails and nothing changes; otherwise the entry is appended to the pair's journal
    first, and only then does a pair that has not attended fail, keeping the entry.
  */
  function UpdateStatus(s: Store, tid: Tid, uid: Uid, rid: Rid, pid: Pid, accept: bool, score: int)
    : (r: (Store, Outcome<Error>))
    ensures tid !in s.contests ==> r == (s, Fail(ContestNotFound(tid)))
    ensures tid in s.contests ==>
              StatusOf(r.0, tid, uid)
                == Status(StatusOf(s, tid, uid).attend, StatusOf(s, tid, uid).journal + [Entry(rid, pid, accept, score)])
              && (forall t, u :: (t, u) != (tid, uid) ==> StatusOf(r.0, t, u) == StatusOf(s, t, u))
              && r.0.contests == s.contests && r.0.nextTid == s.nextTid
    ensures tid in s.contests ==>
              (r.1 == Pass <==> StatusOf(s, tid, uid).attend != 0)
              && (r.1.Fail? ==> r.1.error == ContestNotAttended(tid, uid))
  {
    match Get(s, tid)
    case Failure(e) => (s, Fail(e))
    case Success(_) =>
      var st := StatusOf(s, tid, uid);
      var st' := st.(journal := st.journal + [Entry(rid, pid, accept, score)]);
      var s' := s.(statuses := s.statuses[(tid, uid) := st']);
      if st'.attend == 0 then (s', Fail(ContestNotAttended(tid, uid))) else (s', Pass)
  }

  /** A second `attend` for a pair fails, whatever happened in between to other pairs. */
  lemma AttendExactlyOnce(s: Store, tid: Tid, uid: Uid)
    requires Attend(s, tid, uid).Success?
    ensures Attend(Attend(s, tid, uid).value, tid, uid) == Failure(ContestAlreadyAttended(tid, uid))
  {
  }

  /** `n` calls of `attend` for one pair, in sequence: the final store and the number of successes. */
  function AttendRepeatedly(s: Store, tid: Tid, uid: Uid, n: nat): (Store, nat) {
    if n == 0 then (s, 0)
    else
      var (s', k) := AttendRepeatedly(s, tid, uid, n - 1);
      match Attend(s', tid, uid)
      case Success(s'') => (s'', k + 1)
      case Failure(_) => (s', k)
  }

  /**
    Of any number of `attend` calls for a pair that has not attended, exactly one
    succeeds: the flag ends at 1 and the contest's counter rises by exactly one.
  */
  lemma {:induction false} AttendRepeatedlyOnce(s: Store, tid: Tid, uid: Uid, n: nat)
    requires n >= 1 && StatusOf(s, tid, uid).attend == 0
    ensures AttendRepeatedly(s, tid, uid, n).1 == 1
    ensures StatusOf(AttendRepeatedly(s, tid, uid, n).0, tid, uid).attend == 1
    ensures AttendRepeatedly(s, tid, uid, n).0 == Attend(s, tid, uid).value
  {
    if n > 1 {
      AttendRepeatedlyOnce(s, tid, uid, n - 1);
    }
  }

  /** Once the pair has attended an existing contest, every `updateStatus` succeeds. */
  lemma UpdateAfterAttendSucceeds(s: Store, tid: Tid, uid: Uid, rid: Rid, pid: Pid, accept: bool, score: int)
    requires tid in s.contests && Attend(s, tid, uid).Success?
    ensures UpdateStatus(Attend(s, tid, uid).value, tid, uid, rid, pid, accept, score).1 == Pass
  {
  }

  /** `updateStatus` never changes attendance, so without an `attend` it keeps failing. */
  lemma UpdatesWithoutAttendFail(s: Store, tid: Tid, uid: Uid, rid: Rid, pid: Pid, accept: bool, score: int)
    requires tid in s.contests && StatusOf(s, tid, uid).attend == 0
    ensures var (s', o) := UpdateStatus(s, tid, uid, rid, pid, accept, score);
            o == Fail(ContestNotAttended(tid, uid)) && StatusOf(s', tid, uid).attend == 0
            && UpdateStatus(s', tid, uid, rid, pid, accept, score).1 == Fail(ContestNotAttended(tid, uid))
  {
  }

  lemma AttendPreservesValid(s: Store, tid: Tid, uid: Uid)
    requires Valid(s)
    ensures Attend(s, tid, uid).Success? ==> Valid(Attend(s, tid, uid).value)
  {
  }

  lemma UpdateStatusPreservesValid(s: Store, tid: Tid, uid: Uid, rid: Rid, pid: Pid, accept: bool, score: int)
    requires Valid(s)
    ensures Valid(UpdateStatus(s, tid, uid, rid, pid, accept, score).0)
  {
  }

  // ---------------------------------------------------------------------------
  // getScoreboard's visibility gate

  /**
    The gate at the head of `getScoreboard`: a missing contest fails, a contest on
    an unregistered rule throws at the rule lookup, then a hidden scoreboard fails
    unless the viewer holds the permission (the override is allowed by default).
  */
  function ScoreboardGate(s: Store, tid: Tid, now: int, hasPerm: bool): (r: Result<Contest, Error>)
    ensures tid !in s.contests ==> r == Failure(ContestNotFound(tid))
    ensures tid in s.contests && !Registered(s.contests[tid])
            ==> r == Failure(RuleNotRegistered(s.contests[tid].rule))
    ensures tid in s.contests && Registered(s.contests[tid]) ==>
              (r.Success? <==> RuleOf(s.contests[tid]) == Acm || now > s.contests[tid].endAt || hasPerm)
              && (r.Failure? ==> r.error == ContestScoreboardHidden(tid))
    ensures r.Success? ==> r.value == s.contests[tid]
  {
    match Get(s, tid)
    case Failure(e) => Failure(e)
    case Success(c) =>
      match Visibility.CanShowScoreboard(c, now, hasPerm, true)
      case Failure(e) => Failure(e)
      case Success(shown) => if shown then Success(c) else Failure(ContestScoreboardHidden(tid))
  }
}
