/**
  The ACM/ICPC statistic `acm.stat` (hydro/model/contest.js:17-41).

  The source loop is read with its evident intent: it walks the journal's entries
  in order, `effective` is a per-pid dictionary (membership is "pid is a key"),
  `naccept[pid]` is a counter starting at 0, and the detail list is built from
  `effective`'s values in key-insertion order. Everything else is kept as written:
  rejections are counted for every non-accepted entry of a pid (in or out of the
  contest, before or after its acceptance), and an accepted entry, once effective,
  is never replaced.
*/
module AcmRule {
  import opened Wrappers
  import opened Journal
  import opened ContestDoc

  /** The penalty per rejected submission, `20 * 60` seconds. */
  const PenaltySeconds: int := 20 * 60

  /** The loop state: `effective`, its key-insertion order, and `naccept`. */
  datatype Scan = Scan(effective: map<Pid, Entry>, order: seq<Pid>, naccept: map<Pid, nat>)

  /** One element of `detail`: the effective entry, its pid's rejection count and its time. */
  datatype Detail = Detail(entry: Entry, naccept: nat, time: int)

  datatype Stats = Stats(accept: nat, time: int, detail: seq<Detail>)

  /** `naccept[pid]`, reading a missing counter as 0. */
  function Count(m: map<Pid, nat>, p: Pid): nat {
    if p in m then m[p] else 0
  }

  /** One iteration of the loop at lines 23-29. */
  function Step(pids: seq<Pid>, s: Scan, e: Entry): Scan {
    var replace := e.pid in pids && !(e.pid in s.effective && s.effective[e.pid].accept);
    var effective := if replace then s.effective[e.pid := e] else s.effective;
    var order := if replace && e.pid !in s.effective then s.order + [e.pid] else s.order;
    var naccept := if !e.accept then s.naccept[e.pid := Count(s.naccept, e.pid) + 1] else s.naccept;
    Scan(effective, order, naccept)
  }

  /** The loop state after the whole journal; `order` lists exactly the keys of `effective`. */
  function ScanJournal(pids: seq<Pid>, j: seq<Entry>): (s: Scan)
    ensures forall p :: p in s.order <==> p in s.effective
    decreases |j|
  {
    if j == [] then Scan(map[], [], map[])
    else Step(pids, ScanJournal(pids, j[..|j| - 1]), j[|j| - 1])
  }

  /** The entry the rule intends to count for `p`: its first accepted entry, else its last entry. */
  function EffectiveEntry(j: seq<Entry>, p: Pid): Option<Entry> {
    if HasAccepted(j, p) then FirstAccepted(j, p) else LastEntryFor(j, p)
  }

  /** The time an accepted problem contributes: elapsed seconds plus the rejection penalty. */
  function Elapsed(j: seq<Entry>, begin: int, p: Pid): int {
    match FirstAccepted(j, p)
    case Some(e) => e.rid.generationTime - begin + PenaltySeconds * Rejections(j, p)
    case None => 0
  }

  /** Sum of `Elapsed` over the given problems. */
  function TotalElapsed(j: seq<Entry>, begin: int, ps: seq<Pid>): int {
    if ps == [] then 0 else Elapsed(j, begin, ps[0]) + TotalElapsed(j, begin, ps[1..])
  }

  /** The contest problems a participant has solved at least once. */
  function AcceptedPids(pids: seq<Pid>, j: seq<Entry>): set<Pid> {
    set p | p in pids && HasAccepted(j, p)
  }

  /** The effective entry for `p` is accepted exactly when some entry for `p` is. */
  lemma EffectiveAccepted(j: seq<Entry>, p: Pid)
    requires HasEntry(j, p)
    ensures EffectiveEntry(j, p).Some?
    ensures EffectiveEntry(j, p).value.pid == p
    ensures EffectiveEntry(j, p).value.accept <==> HasAccepted(j, p)
  {
    if !HasAccepted(j, p) {
      var e := LastEntryFor(j, p).value;
      var k :| 0 <= k < |j| && j[k] == e && forall i :: k < i < |j| ==> j[i].pid != p;
      assert !(j[k].pid == p && j[k].accept);
    }
  }

  /**
    The loop state agrees with the reference definitions: `effective[p]` is the
    effective entry of every contest problem that occurs, `order` is the order of
    first occurrence, and `naccept[p]` counts all rejections of `p`.
  */
  lemma {:induction false} ScanMatchesSpec(pids: seq<Pid>, j: seq<Entry>)
    ensures ScanJournal(pids, j).order == InScopeOrder(pids, j)
    ensures forall p :: p in ScanJournal(pids, j).effective <==> p in pids && HasEntry(j, p)
    ensures forall p :: p in ScanJournal(pids, j).effective
                        ==> Some(ScanJournal(pids, j).effective[p]) == EffectiveEntry(j, p)
    ensures forall p :: Count(ScanJournal(pids, j).naccept, p) == Rejections(j, p)
    ensures FirstOccurrenceOrder(ScanJournal(pids, j).order, j)
    decreases |j|
  {
    InScopeOrderIsFirstOccurrence(pids, j);
    if j != [] {
      var j0 := j[..|j| - 1];
      var e := j[|j| - 1];
      assert j0 + [e] == j;
      ScanMatchesSpec(pids, j0);
      var s0 := ScanJournal(pids, j0);
      var s := ScanJournal(pids, j);
      assert s == Step(pids, s0, e);
      forall p
        ensures p in s.effective <==> p in pids && HasEntry(j, p)
        ensures p in s.effective ==> Some(s.effective[p]) == EffectiveEntry(j, p)
        ensures Count(s.naccept, p) == Rejections(j, p)
      {
        SnocFacts(j0, e, p);
        FirstAcceptedSnoc(j0, e, p);
        if p == e.pid && p in s0.effective {
          EffectiveAccepted(j0, p);
        }
      }
    }
  }

  /** The detail list, built from `effective`'s values in key-insertion order (line 35). */
  function Details(s: Scan, begin: int, ps: seq<Pid>): (ds: seq<Detail>)
    requires forall i :: 0 <= i < |ps| ==> ps[i] in s.effective
    ensures |ds| == |ps|
    ensures forall i :: 0 <= i < |ds| ==>
              ds[i].time == ds[i].entry.rid.generationTime - begin + PenaltySeconds * ds[i].naccept
  {
    if ps == [] then []
    else
      var e := s.effective[ps[0]];
      var n := Count(s.naccept, ps[0]);
      [Detail(e, n, e.rid.generationTime - begin + PenaltySeconds * n)] + Details(s, begin, ps[1..])
  }

  /** `accept += d.accept` over the details (line 37). */
  function AcceptTotal(ds: seq<Detail>): nat {
    if ds == [] then 0 else (if ds[0].entry.accept then 1 else 0) + AcceptTotal(ds[1..])
  }

  /** `if (d.accept) time += d.time` over the details (line 38). */
  function TimeTotal(ds: seq<Detail>): int {
    if ds == [] then 0 else (if ds[0].entry.accept then ds[0].time else 0) + TimeTotal(ds[1..])
  }

  /** Number of the given problems that lie in `solved`. */
  function CountIn(ps: seq<Pid>, solved: set<Pid>): nat {
    if ps == [] then 0 else (if ps[0] in solved then 1 else 0) + CountIn(ps[1..], solved)
  }

  /** Each detail element carries its problem's effective entry and rejection count. */
  lemma {:induction false} DetailsPointwise(s: Scan, j: seq<Entry>, begin: int, ps: seq<Pid>)
    requires forall i :: 0 <= i < |ps| ==> ps[i] in s.effective && HasEntry(j, ps[i])
    requires forall p :: p in s.effective ==> Some(s.effective[p]) == EffectiveEntry(j, p)
    requires forall p :: Count(s.naccept, p) == Rejections(j, p)
    ensures |Details(s, begin, ps)| == |ps|
    ensures forall i :: 0 <= i < |ps| ==>
              Details(s, begin, ps)[i].entry.pid == ps[i]
              && Some(Details(s, begin, ps)[i].entry) == EffectiveEntry(j, ps[i])
              && Details(s, begin, ps)[i].naccept == Rejections(j, ps[i])
  {
    if ps != [] {
      DetailsPointwise(s, j, begin, ps[1..]);
      var ds := Details(s, begin, ps);
      forall i | 0 <= i < |ps|
        ensures ds[i].entry.pid == ps[i]
        ensures Some(ds[i].entry) == EffectiveEntry(j, ps[i]) && ds[i].naccept == Rejections(j, ps[i])
      {
        if i > 0 {
          assert ds[i] == Details(s, begin, ps[1..])[i - 1];
        } else {
          EffectiveAccepted(j, ps[0]);
        }
      }
    }
  }
  /** An accepted detail's time is the reference `Elapsed` of its problem. */
  lemma DetailsElapsed(s: Scan, j: seq<Entry>, begin: int, ps: seq<Pid>)
    requires forall i :: 0 <= i < |ps| ==> ps[i] in s.effective && HasEntry(j, ps[i])
    requires forall p :: p in s.effective ==> Some(s.effective[p]) == EffectiveEntry(j, p)
    requires forall p :: Count(s.naccept, p) == Rejections(j, p)
    ensures forall i :: 0 <= i < |ps| && Details(s, begin, ps)[i].entry.accept ==>
              Details(s, begin, ps)[i].time == Elapsed(j, begin, ps[i])
  {
    DetailsPointwise(s, j, begin, ps);
    var ds := Details(s, begin, ps);
    forall i | 0 <= i < |ps| && ds[i].entry.accept
      ensures ds[i].time == Elapsed(j, begin, ps[i])
    {
      EffectiveAccepted(j, ps[i]);
    }
  }


  /** Summing over the details gives the reference counts and times. */
  lemma {:induction false} DetailsSums(s: Scan, j: seq<Entry>, begin: int, ps: seq<Pid>, solved: set<Pid>)
    requires forall i :: 0 <= i < |ps| ==> ps[i] in s.effective && HasEntry(j, ps[i])
    requires forall i :: 0 <= i < |ps| ==> (ps[i] in solved <==> HasAccepted(j, ps[i]))
    requires forall p :: p in s.effective ==> Some(s.effective[p]) == EffectiveEntry(j, p)
    requires forall p :: Count(s.naccept, p) == Rejections(j, p)
    ensures AcceptTotal(Details(s, begin, ps)) == CountIn(ps, solved)
    ensures TimeTotal(Details(s, begin, ps)) == TotalElapsed(j, begin, ps)
  {
    if ps != [] {
      DetailsSums(s, j, begin, ps[1..], solved);
      EffectiveAccepted(j, ps[0]);
      if HasAccepted(j, ps[0]) {
        assert s.effective[ps[0]] == FirstAccepted(j, ps[0]).value;
      }
    }
  }

  lemma DistinctTail(ps: seq<Pid>)
    requires Distinct(ps) && ps != []
    ensures Distinct(ps[1..]) && ps[0] !in ps[1..]
  {
    var rest := ps[1..];
    forall i, k | 0 <= i < k < |rest| ensures rest[i] != rest[k] {
      assert rest[i] == ps[i + 1] && rest[k] == ps[k + 1];
    }
  }

  /** The set of elements of a sequence. */
  function Elements(ps: seq<Pid>): (e: set<Pid>)
    ensures forall p :: p in e <==> p in ps
  {
    if ps == [] then {} else {ps[0]} + Elements(ps[1..])
  }

  lemma CardinalityOfAdded(x: Pid, rest: set<Pid>, solved: set<Pid>)
    requires x !in rest
    ensures |({x} + rest) * solved| == (if x in solved then 1 else 0) + |rest * solved|
  {
    if x in solved {
      assert ({x} + rest) * solved == (rest * solved) + {x};
    } else {
      assert ({x} + rest) * solved == rest * solved;
    }
  }

  /** Over distinct problems, counting those in a set gives the size of the set's part among them. */
  lemma {:induction false} CountInIsCardinality(ps: seq<Pid>, solved: set<Pid>)
    requires Distinct(ps)
    ensures CountIn(ps, solved) == |Elements(ps) * solved|
  {
    if ps != [] {
      DistinctTail(ps);
      CountInIsCardinality(ps[1..], solved);
      CardinalityOfAdded(ps[0], Elements(ps[1..]), solved);
    }
  }

  /** Counting the solved problems along the first-occurrence order gives the size of the solved set. */
  lemma SolvedInOrder(pids: seq<Pid>, j: seq<Entry>)
    ensures CountIn(InScopeOrder(pids, j), AcceptedPids(pids, j)) == |AcceptedPids(pids, j)|
  {
    var ps := InScopeOrder(pids, j);
    var solved := AcceptedPids(pids, j);
    CountInIsCardinality(ps, solved);
    forall p | p in solved ensures p in ps {
      var i :| 0 <= i < |j| && j[i].pid == p && j[i].accept;
    }
    assert Elements(ps) * solved == solved;
  }

  /**
    `acm.stat(tdoc, journal)`. `accept` is the number of contest problems with an
    accepted entry; `time` sums, over those problems only, the seconds from the
    contest's begin to the first acceptance plus 1200 seconds per rejection of
    that problem anywhere in the journal; `detail` holds one element per contest
    problem that occurs, in order of first occurrence, carrying its effective entry.
  */
  function AcmStat(c: Contest, j: seq<Entry>): (st: Stats)
    ensures st.accept == |AcceptedPids(c.pids, j)|
    ensures st.time == TotalElapsed(j, BeginSeconds(c), InScopeOrder(c.pids, j))
    ensures |st.detail| == |InScopeOrder(c.pids, j)|
    ensures forall i :: 0 <= i < |st.detail| ==>
              st.detail[i].entry.pid == InScopeOrder(c.pids, j)[i]
              && Some(st.detail[i].entry) == EffectiveEntry(j, InScopeOrder(c.pids, j)[i])
              && st.detail[i].naccept == Rejections(j, InScopeOrder(c.pids, j)[i])
    ensures forall i :: 0 <= i < |st.detail| ==>
              st.detail[i].time
                == st.detail[i].entry.rid.generationTime - BeginSeconds(c) + PenaltySeconds * st.detail[i].naccept
    ensures forall i :: 0 <= i < |st.detail| && st.detail[i].entry.accept ==>
              st.detail[i].time == Elapsed(j, BeginSeconds(c), InScopeOrder(c.pids, j)[i])
  {
    var s := ScanJournal(c.pids, j);
    ScanMatchesSpec(c.pids, j);
    var ds := Details(s, BeginSeconds(c), s.order);
    DetailsPointwise(s, j, BeginSeconds(c), s.order);
    DetailsElapsed(s, j, BeginSeconds(c), s.order);
    DetailsSums(s, j, BeginSeconds(c), s.order, AcceptedPids(c.pids, j));
    SolvedInOrder(c.pids, j);
    Stats(AcceptTotal(ds), TimeTotal(ds), ds)
  }

  /**
    Once an accepted entry is effective for a problem after some prefix of the
    journal, no later entry replaces it.
  */
  lemma {:induction false} AcceptedStaysEffective(pids: seq<Pid>, j: seq<Entry>, k: nat, p: Pid)
    requires k <= |j|
    requires p in ScanJournal(pids, j[..k]).effective
    requires ScanJournal(pids, j[..k]).effective[p].accept
    ensures p in ScanJournal(pids, j).effective
    ensures ScanJournal(pids, j).effective[p] == ScanJournal(pids, j[..k]).effective[p]
    decreases |j|
  {
    if k < |j| {
      var j0 := j[..|j| - 1];
      assert j0[..k] == j[..k];
      AcceptedStaysEffective(pids, j0, k, p);
    } else {
      assert j[..k] == j;
    }
  }

  /** A rejection appended after the journal changes only its own problem's counts. */
  lemma RejectionSnoc(j: seq<Entry>, r: Entry, q: Pid)
    requires !r.accept
    ensures FirstAccepted(j + [r], q) == FirstAccepted(j, q)
    ensures Rejections(j + [r], q) == Rejections(j, q) + (if q == r.pid then 1 else 0)
  {
    FirstAcceptedSnoc(j, r, q);
    assert (j + [r])[..|j|] == j;
  }

  lemma ElapsedAfterRejection(j: seq<Entry>, r: Entry, begin: int, q: Pid)
    requires !r.accept && HasAccepted(j, r.pid)
    ensures Elapsed(j + [r], begin, q) == Elapsed(j, begin, q) + (if q == r.pid then PenaltySeconds else 0)
  {
    RejectionSnoc(j, r, q);
  }

  lemma {:induction false} TotalElapsedAfterRejection(j: seq<Entry>, r: Entry, begin: int, ps: seq<Pid>)
    requires !r.accept && HasAccepted(j, r.pid)
    requires Distinct(ps)
    ensures TotalElapsed(j + [r], begin, ps)
         == TotalElapsed(j, begin, ps) + (if r.pid in ps then PenaltySeconds else 0)
  {
    if ps != [] {
      DistinctTail(ps);
      TotalElapsedAfterRejection(j, r, begin, ps[1..]);
      ElapsedAfterRejection(j, r, begin, ps[0]);
      assert r.pid in ps <==> r.pid == ps[0] || r.pid in ps[1..];
    }
  }

  /**
    A rejection submitted after a problem was already solved still adds the
    20-minute penalty: the rejection counter is not gated on acceptance.
  */
  lemma LateRejectionPenalized(c: Contest, j: seq<Entry>, r: Entry)
    requires r.pid in c.pids && !r.accept && HasAccepted(j, r.pid)
    ensures AcmStat(c, j + [r]).accept == AcmStat(c, j).accept
    ensures AcmStat(c, j + [r]).time == AcmStat(c, j).time + PenaltySeconds
  {
    var j' := j + [r];
    assert j'[..|j'| - 1] == j;
    SnocFacts(j, r, r.pid);
    assert InScopeOrder(c.pids, j') == InScopeOrder(c.pids, j);
    forall p ensures HasAccepted(j', p) <==> HasAccepted(j, p) {
      SnocFacts(j, r, p);
    }
    assert AcceptedPids(c.pids, j') == AcceptedPids(c.pids, j);
    TotalElapsedAfterRejection(j, r, BeginSeconds(c), InScopeOrder(c.pids, j));
  }

  /** When no contest entry predates the begin time, the total time is non-negative. */
  lemma {:induction false} TotalElapsedNonNegative(j: seq<Entry>, begin: int, ps: seq<Pid>)
    requires forall i :: 0 <= i < |j| ==> j[i].rid.generationTime >= begin
    ensures TotalElapsed(j, begin, ps) >= 0
  {
    if ps != [] {
      TotalElapsedNonNegative(j, begin, ps[1..]);
      var fa := FirstAccepted(j, ps[0]);
      if fa.Some? {
        var k :| 0 <= k < |j| && j[k] == fa.value;
        assert fa.value.rid.generationTime >= begin;
      }
    }
  }

  lemma AcmTimeNonNegative(c: Contest, j: seq<Entry>)
    requires forall i :: 0 <= i < |j| ==> j[i].rid.generationTime >= BeginSeconds(c)
    ensures AcmStat(c, j).time >= 0
  {
    TotalElapsedNonNegative(j, BeginSeconds(c), InScopeOrder(c.pids, j));
  }

  /**
    The worked example: a contest beginning at second 1000, one rejection ten
    minutes in and an acceptance at fifteen minutes give `accept = 1` and
    `time = 900 + 1200`.
  */
  lemma AcmExample()
    ensures var c := Contest("t", "c", 1, "acm", 1000 * 1000, 2000 * 1000, [7], 0);
            var j := [Entry(Rid(1, 1000 + 600), 7, false, 0), Entry(Rid(2, 1000 + 900), 7, true, 0)];
            AcmStat(c, j).accept == 1 && AcmStat(c, j).time == 2100
  {
    var c := Contest("t", "c", 1, "acm", 1000 * 1000, 2000 * 1000, [7], 0);
    var j := [Entry(Rid(1, 1000 + 600), 7, false, 0), Entry(Rid(2, 1000 + 900), 7, true, 0)];
    var j1 := [j[0]];
    assert j[..1] == j1 && j1[..0] == [];
    assert HasAccepted(j, 7) by { assert j[1].pid == 7 && j[1].accept; }
    assert AcceptedPids(c.pids, j) == {7};
    assert InScopeOrder(c.pids, j) == [7];
    assert FirstAccepted(j, 7) == Some(j[1]) by {
      assert j[1..] == [j[1]];
    }
    assert Rejections(j, 7) == 1;
    assert Elapsed(j, 1000, 7) == 2100;
    assert TotalElapsed(j, 1000, [7]) == 2100;
  }
}
