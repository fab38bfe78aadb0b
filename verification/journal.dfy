/**
  Journal entries of a contest status document and the reference definitions
  (independent of any scoring rule) that the rule statistics are measured against.
  A journal is the ordered, append-only list of `{rid, pid, accept, score}` records
  pushed by `updateStatus` (hydro/model/contest.js:254-260).
*/
module Journal {
  import opened Wrappers

  type Pid = int
  type Uid = int
  type Tid = int

  /** A record (submission) id; `generationTime` is its creation instant in whole seconds. */
  datatype Rid = Rid(id: int, generationTime: int)

  datatype Entry = Entry(rid: Rid, pid: Pid, accept: bool, score: int)

  predicate HasEntry(j: seq<Entry>, p: Pid) {
    exists i :: 0 <= i < |j| && j[i].pid == p
  }

  predicate HasAccepted(j: seq<Entry>, p: Pid) {
    exists i :: 0 <= i < |j| && j[i].pid == p && j[i].accept
  }

  predicate Distinct<T(==)>(s: seq<T>) {
    forall i, k :: 0 <= i < k < |s| ==> s[i] != s[k]
  }

  /** Facts about a journal extended by one entry at the end. */
  lemma SnocFacts(j: seq<Entry>, e: Entry, p: Pid)
    ensures HasEntry(j + [e], p) <==> HasEntry(j, p) || e.pid == p
    ensures HasAccepted(j + [e], p) <==> HasAccepted(j, p) || (e.pid == p && e.accept)
    ensures (j + [e])[..|j|] == j
  {
    if HasEntry(j, p) {
      var i :| 0 <= i < |j| && j[i].pid == p;
      assert (j + [e])[i] == j[i];
    }
    if HasAccepted(j, p) {
      var i :| 0 <= i < |j| && j[i].pid == p && j[i].accept;
      assert (j + [e])[i] == j[i];
    }
    if e.pid == p {
      assert (j + [e])[|j|] == e;
    }
  }

  /** Extending a journal by one entry adds that entry's problem to those that occur. */
  lemma HasEntrySnoc(j: seq<Entry>, e: Entry)
    ensures forall p :: HasEntry(j + [e], p) <==> HasEntry(j, p) || e.pid == p
  {
    forall p ensures HasEntry(j + [e], p) <==> HasEntry(j, p) || e.pid == p {
      SnocFacts(j, e, p);
    }
  }

  /** The first accepted entry for `p`, scanning the journal from its start. */
  function FirstAccepted(j: seq<Entry>, p: Pid): (r: Option<Entry>)
    ensures r.Some? <==> HasAccepted(j, p)
    ensures r.Some? ==> r.value.pid == p && r.value.accept && r.value in j
  {
    if j == [] then None
    else if j[0].pid == p && j[0].accept then Some(j[0])
    else
      assert HasAccepted(j, p) ==> HasAccepted(j[1..], p) by {
        if HasAccepted(j, p) {
          var i :| 0 <= i < |j| && j[i].pid == p && j[i].accept;
          assert j[1..][i - 1] == j[i];
        }
      }
      FirstAccepted(j[1..], p)
  }

  /** No entry before the one `FirstAccepted` returns is an accepted entry for `p`. */
  lemma {:induction false} FirstAcceptedIsFirst(j: seq<Entry>, p: Pid)
    requires HasAccepted(j, p)
    ensures exists k :: 0 <= k < |j| && j[k] == FirstAccepted(j, p).value
                        && forall i :: 0 <= i < k ==> !(j[i].pid == p && j[i].accept)
  {
    if j[0].pid == p && j[0].accept {
      assert j[0] == FirstAccepted(j, p).value;
    } else {
      assert HasAccepted(j[1..], p) by {
        var i :| 0 <= i < |j| && j[i].pid == p && j[i].accept;
        assert j[1..][i - 1] == j[i];
      }
      FirstAcceptedIsFirst(j[1..], p);
      var k :| 0 <= k < |j[1..]| && j[1..][k] == FirstAccepted(j[1..], p).value
               && forall i :: 0 <= i < k ==> !(j[1..][i].pid == p && j[1..][i].accept);
      assert j[k + 1] == FirstAccepted(j, p).value;
      forall i | 0 <= i < k + 1
        ensures !(j[i].pid == p && j[i].accept)
      {
        if i > 0 { assert j[i] == j[1..][i - 1]; }
      }
    }
  }

  /** Appending an entry never changes an existing first acceptance. */
  lemma {:induction false} FirstAcceptedSnoc(j: seq<Entry>, e: Entry, p: Pid)
    ensures FirstAccepted(j + [e], p)
         == if FirstAccepted(j, p).Some? then FirstAccepted(j, p)
            else if e.pid == p && e.accept then Some(e) else None
  {
    if j == [] {
      assert j + [e] == [e];
      assert [e][1..] == [];
    } else {
      assert (j + [e])[0] == j[0];
      assert (j + [e])[1..] == j[1..] + [e];
      FirstAcceptedSnoc(j[1..], e, p);
    }
  }

  /** The last entry for `p`: the one a later write into a per-pid dictionary leaves behind. */
  function LastEntryFor(j: seq<Entry>, p: Pid): (r: Option<Entry>)
    ensures r.Some? <==> HasEntry(j, p)
    ensures r.Some? ==> r.value.pid == p
    ensures r.Some? ==> exists k :: 0 <= k < |j| && j[k] == r.value
                                    && forall i :: k < i < |j| ==> j[i].pid != p
    decreases |j|
  {
    if j == [] then None
    else if j[|j| - 1].pid == p then Some(j[|j| - 1])
    else
      var r := LastEntryFor(j[..|j| - 1], p);
      SnocFacts(j[..|j| - 1], j[|j| - 1], p);
      assert j[..|j| - 1] + [j[|j| - 1]] == j;
      r
  }

  /** Number of non-accepted entries for `p` in the whole journal. */
  function Rejections(j: seq<Entry>, p: Pid): nat
    decreases |j|
  {
    if j == [] then 0
    else Rejections(j[..|j| - 1], p) + (if j[|j| - 1].pid == p && !j[|j| - 1].accept then 1 else 0)
  }

  /**
    The distinct problem ids of `pids` that occur in the journal, in the order of
    their first occurrence.
  */
  function InScopeOrder(pids: seq<Pid>, j: seq<Entry>): (r: seq<Pid>)
    ensures forall p :: p in r <==> p in pids && HasEntry(j, p)
    ensures Distinct(r)
    decreases |j|
  {
    if j == [] then []
    else
      var prev := InScopeOrder(pids, j[..|j| - 1]);
      var e := j[|j| - 1];
      assert j[..|j| - 1] + [e] == j;
      assert forall p :: HasEntry(j, p) <==> HasEntry(j[..|j| - 1], p) || e.pid == p by {
        forall p ensures HasEntry(j, p) <==> HasEntry(j[..|j| - 1], p) || e.pid == p {
          SnocFacts(j[..|j| - 1], e, p);
        }
      }
      if e.pid in pids && e.pid !in prev then prev + [e.pid] else prev
  }
  /**
    `r` lists problems in the order of their first entries in `j`: before any
    entry for `r[b]`, the journal holds an entry for every `r[a]` with `a < b`.
  */
  predicate FirstOccurrenceOrder(r: seq<Pid>, j: seq<Entry>) {
    forall a, b, k :: 0 <= a < b < |r| && 0 <= k < |j| && j[k].pid == r[b] ==>
      exists i :: 0 <= i < k && j[i].pid == r[a]
  }

  /**
    `InScopeOrder` lists problems by first occurrence: wherever the journal holds
    an entry for a later-listed problem, an entry for each earlier-listed one
    comes before it.
  */
  lemma {:induction false} InScopeOrderIsFirstOccurrence(pids: seq<Pid>, j: seq<Entry>)
    ensures FirstOccurrenceOrder(InScopeOrder(pids, j), j)
    decreases |j|
  {
    if j != [] {
      var j0 := j[..|j| - 1];
      var e := j[|j| - 1];
      assert j0 + [e] == j;
      InScopeOrderIsFirstOccurrence(pids, j0);
      var prev := InScopeOrder(pids, j0);
      var r := InScopeOrder(pids, j);
      assert r == if e.pid in pids && e.pid !in prev then prev + [e.pid] else prev;
      forall a, b, k | 0 <= a < b < |r| && 0 <= k < |j| && j[k].pid == r[b]
        ensures exists i :: 0 <= i < k && j[i].pid == r[a]
      {
        assert r[a] == prev[a];
        if k < |j0| {
          assert j0[k] == j[k];
          if b < |prev| {
            assert r[b] == prev[b];
            assert 0 <= a < b < |prev| && 0 <= k < |j0| && j0[k].pid == prev[b];
            var i :| 0 <= i < k && j0[i].pid == prev[a];
            assert j[i] == j0[i];
          } else {
            assert HasEntry(j0, e.pid);
            assert false;
          }
        } else {
          assert HasEntry(j0, prev[a]);
          var i :| 0 <= i < |j0| && j0[i].pid == prev[a];
          assert j[i] == j0[i];
        }
      }
    }
  }

}
