/**
  The OI statistic `oi.stat` (hydro/model/contest.js:127-137) and the shape of the
  OI scoreboard table `oi.scoreboard` (hydro/model/contest.js:144-182).

  `for (const j in journal)` is read as a walk over the entries in order. The
  statistic sums the score of every entry for a contest problem, resubmissions
  included, and keeps the last such entry per problem as `detail`.
*/
module OiRule {
  import opened Wrappers
  import opened Journal
  import opened ContestDoc

  datatype Stats = Stats(score: int, detail: map<Pid, Entry>)

  /** One iteration of the loop at lines 130-135. */
  function Step(pids: seq<Pid>, st: Stats, e: Entry): Stats {
    if e.pid in pids then Stats(st.score + e.score, st.detail[e.pid := e]) else st
  }

  /** The entries of the journal that belong to a contest problem, in order. */
  function InScope(pids: seq<Pid>, j: seq<Entry>): seq<Entry> {
    if j == [] then [] else (if j[0].pid in pids then [j[0]] else []) + InScope(pids, j[1..])
  }

  function ScoreSum(es: seq<Entry>): int {
    if es == [] then 0 else es[0].score + ScoreSum(es[1..])
  }

  lemma {:induction false} ScoreSumAppend(a: seq<Entry>, b: seq<Entry>)
    ensures ScoreSum(a + b) == ScoreSum(a) + ScoreSum(b)
  {
    if a != [] {
      assert (a + b)[1..] == a[1..] + b;
      ScoreSumAppend(a[1..], b);
    } else {
      assert a + b == b;
    }
  }

  lemma {:induction false} InScopeAppend(pids: seq<Pid>, a: seq<Entry>, b: seq<Entry>)
    ensures InScope(pids, a + b) == InScope(pids, a) + InScope(pids, b)
  {
    if a != [] {
      assert (a + b)[1..] == a[1..] + b;
      assert (a + b)[0] == a[0];
      InScopeAppend(pids, a[1..], b);
    } else {
      assert a + b == b;
    }
  }

  /** The in-scope score of a journal extended by one entry. */
  lemma ScoreSnoc(pids: seq<Pid>, j: seq<Entry>, e: Entry)
    ensures ScoreSum(InScope(pids, j + [e])) == ScoreSum(InScope(pids, j)) + (if e.pid in pids then e.score else 0)
  {
    InScopeAppend(pids, j, [e]);
    assert InScope(pids, [e]) == (if e.pid in pids then [e] else []) by {
      assert [e][1..] == [];
    }
    ScoreSumAppend(InScope(pids, j), InScope(pids, [e]));
  }

  /**
    `oi.stat(tdoc, journal)`: `score` is the sum of the scores of all entries for a
    contest problem; `detail` maps each contest problem that occurs to its last entry.
  */
  function OiStat(c: Contest, j: seq<Entry>): (st: Stats)
    ensures st.score == ScoreSum(InScope(c.pids, j))
    ensures forall p :: p in st.detail <==> p in c.pids && HasEntry(j, p)
    ensures forall p :: p in st.detail ==> Some(st.detail[p]) == LastEntryFor(j, p)
    decreases |j|
  {
    if j == [] then Stats(0, map[])
    else
      var j0 := j[..|j| - 1];
      var e := j[|j| - 1];
      assert j0 + [e] == j;
      ScoreSnoc(c.pids, j0, e);
      HasEntrySnoc(j0, e);
      Step(c.pids, OiStat(c, j0), e)
  }

  /** The score of a concatenated journal is the sum of the parts' scores: nothing is deduplicated. */
  lemma ScoreAdditive(c: Contest, a: seq<Entry>, b: seq<Entry>)
    ensures OiStat(c, a + b).score == OiStat(c, a).score + OiStat(c, b).score
  {
    InScopeAppend(c.pids, a, b);
    ScoreSumAppend(InScope(c.pids, a), InScope(c.pids, b));
  }

  /** An entry for a problem outside the contest, anywhere in the journal, changes neither score nor detail. */
  lemma OutOfScopeIgnored(c: Contest, a: seq<Entry>, e: Entry, b: seq<Entry>)
    requires e.pid !in c.pids
    ensures OiStat(c, a + [e] + b) == OiStat(c, a + b)
  {
    var x := OiStat(c, a + [e] + b);
    var y := OiStat(c, a + b);
    OutOfScopeScore(c.pids, a, e, b);
    assert x.score == y.score;
    forall p
      ensures (p in x.detail <==> p in y.detail) && (p in x.detail ==> x.detail[p] == y.detail[p])
    {
      if p in c.pids {
        LastEntrySkip(a, e, b, p);
        assert HasEntry(a + [e] + b, p) <==> HasEntry(a + b, p);
      }
    }
    assert x.detail == y.detail;
  }

  lemma OutOfScopeScore(pids: seq<Pid>, a: seq<Entry>, e: Entry, b: seq<Entry>)
    requires e.pid !in pids
    ensures InScope(pids, a + [e] + b) == InScope(pids, a + b)
  {
    InScopeAppend(pids, a + [e], b);
    InScopeAppend(pids, a, [e]);
    InScopeAppend(pids, a, b);
    assert [e][1..] == [];
    assert InScope(pids, a) + [] == InScope(pids, a);
  }

  lemma {:induction false} LastEntrySkip(a: seq<Entry>, e: Entry, b: seq<Entry>, p: Pid)
    requires e.pid != p
    ensures LastEntryFor(a + [e] + b, p) == LastEntryFor(a + b, p)
    decreases |b|
  {
    if b == [] {
      assert a + [e] + b == a + [e];
      assert (a + [e])[..|a|] == a;
      assert a + b == a;
    } else {
      var b0 := b[..|b| - 1];
      assert (a + [e] + b)[..|a + [e] + b| - 1] == a + [e] + b0;
      assert (a + b)[..|a + b| - 1] == a + b0;
      LastEntrySkip(a, e, b0, p);
    }
  }

  /**
    The worked example with problems [1, 2] and entries (1, 40), (1, 70), (2, 30):
    the resubmission is summed too, so the score is 140 and the detail for
    problem 1 is the 70-point entry.
  */
  lemma OiExample()
    ensures var c := Contest("t", "c", 1, "oi", 0, 1000, [1, 2], 0);
            var j := [Entry(Rid(1, 0), 1, false, 40), Entry(Rid(2, 0), 1, false, 70), Entry(Rid(3, 0), 2, true, 30)];
            OiStat(c, j).score == 140 && OiStat(c, j).detail[1].score == 70
  {
    var c := Contest("t", "c", 1, "oi", 0, 1000, [1, 2], 0);
    var j := [Entry(Rid(1, 0), 1, false, 40), Entry(Rid(2, 0), 1, false, 70), Entry(Rid(3, 0), 2, true, 30)];
    assert j[1..] == [j[1], j[2]] && j[1..][1..] == [j[2]] && [j[2]][1..] == [];
    assert HasEntry(j, 1) by { assert j[0].pid == 1; }
    assert LastEntryFor(j, 1) == Some(j[1]) by {
      assert j[..2] == [j[0], j[1]];
    }
  }

  // ---------------------------------------------------------------------------
  // Scoreboard table shape (lines 144-182)

  /** The kinds of header column. */
  datatype ColumnKind = RankColumn | UserColumn | TotalScoreColumn | ProblemScoreColumn | ProblemDetailColumn

  /** A header column: a fixed column with its translated caption, or the column of one problem. */
  datatype Column = Fixed(kind: ColumnKind, caption: string) | Problem(kind: ColumnKind, pid: Pid)

  datatype CellKind = StringCell | UserCell | RecordCell

  /** A displayed value: a rank, a user, a score, or the `'-'` placeholder. */
  datatype CellValue = RankValue(rank: nat) | UserValue(uid: Uid) | ScoreValue(score: int) | Dash

  /** A table cell; `raw` is the record id it links to, if any. */
  datatype Cell = Cell(kind: CellKind, value: CellValue, raw: Option<Rid>)

  /** One element of `rankedTsdocs`: a rank and the ranked participant's status document. */
  datatype RankedStatus = RankedStatus(rank: nat, uid: Uid, score: int, journal: seq<Entry>)

  datatype Table = Table(header: seq<Column>, rows: seq<seq<Cell>>)

  function HeaderColumns(isExport: bool, tr: string -> string, pids: seq<Pid>): (cols: seq<Column>)
    ensures |cols| == 3 + |pids|
    ensures cols[0] == Fixed(RankColumn, tr("Rank"))
    ensures cols[1] == Fixed(UserColumn, tr("User"))
    ensures cols[2] == Fixed(TotalScoreColumn, tr("Total Score"))
    ensures forall i :: 0 <= i < |pids| ==>
              cols[3 + i] == Problem(if isExport then ProblemScoreColumn else ProblemDetailColumn, pids[i])
  {
    [Fixed(RankColumn, tr("Rank")), Fixed(UserColumn, tr("User")), Fixed(TotalScoreColumn, tr("Total Score"))]
      + seq(|pids|, i requires 0 <= i < |pids| =>
              Problem(if isExport then ProblemScoreColumn else ProblemDetailColumn, pids[i]))
  }

  /** The cell of one problem: the score of the participant's last entry for it, `'-'` when that is missing or 0. */
  function ProblemCell(j: seq<Entry>, p: Pid): (cell: Cell)
    ensures cell.kind == RecordCell
    ensures cell.value == Dash <==> !HasEntry(j, p) || LastEntryFor(j, p).value.score == 0
    ensures cell.value != Dash ==> cell.value == ScoreValue(LastEntryFor(j, p).value.score)
    ensures cell.raw.Some? <==> HasEntry(j, p)
    ensures HasEntry(j, p) ==> cell.raw == Some(LastEntryFor(j, p).value.rid)
  {
    var last := LastEntryFor(j, p);
    Cell(RecordCell,
         if last.None? || last.value.score == 0 then Dash else ScoreValue(last.value.score),
         if last.Some? then Some(last.value.rid) else None)
  }

  /** The row of one ranked participant: rank, user, total score, then one cell per contest problem. */
  function Row(pids: seq<Pid>, r: RankedStatus): (row: seq<Cell>)
    ensures |row| == 3 + |pids|
    ensures row[0].value == RankValue(r.rank) && row[1].value == UserValue(r.uid)
    ensures row[2].value == ScoreValue(r.score)
    ensures forall i :: 0 <= i < |pids| ==> row[3 + i] == ProblemCell(r.journal, pids[i])
  {
    [Cell(StringCell, RankValue(r.rank), None),
     Cell(UserCell, UserValue(r.uid), None),
     Cell(StringCell, ScoreValue(r.score), None)]
      + seq(|pids|, i requires 0 <= i < |pids| => ProblemCell(r.journal, pids[i]))
  }

  /**
    `oi.scoreboard`: a header of 3 + |pids| columns, then one row of 3 + |pids|
    cells per ranked participant, in ranked order.
  */
  function Scoreboard(isExport: bool, tr: string -> string, c: Contest, ranked: seq<RankedStatus>): (t: Table)
    ensures |t.header| == 3 + |c.pids|
    ensures |t.rows| == |ranked|
    ensures forall k :: 0 <= k < |t.rows| ==> |t.rows[k]| == 3 + |c.pids|
    ensures forall k :: 0 <= k < |t.rows| ==> t.rows[k] == Row(c.pids, ranked[k])
  {
    Table(HeaderColumns(isExport, tr, c.pids),
          seq(|ranked|, k requires 0 <= k < |ranked| => Row(c.pids, ranked[k])))
  }

  /**
    The cell of a contest problem links to the record of that problem's `detail`
    entry in the participant's OI statistic, and shows `'-'` exactly when that
    entry scored 0.
  */
  lemma CellAgreesWithDetail(c: Contest, r: RankedStatus, i: nat)
    requires i < |c.pids|
    requires c.pids[i] in OiStat(c, r.journal).detail
    ensures ProblemCell(r.journal, c.pids[i]).raw == Some(OiStat(c, r.journal).detail[c.pids[i]].rid)
    ensures ProblemCell(r.journal, c.pids[i]).value == Dash
            <==> OiStat(c, r.journal).detail[c.pids[i]].score == 0
  {
  }
}
