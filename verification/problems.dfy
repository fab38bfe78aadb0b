/**
  `verifyProblems(domainId, pids)` (hydro/model/contest.js:341-349): resolves each
  problem id through the problem directory, in order, and collects the documents'
  ids; the first id that does not resolve throws. The directory lookup
  `problem.get` is the map `directory`.
*/
module Problems {
  import opened Wrappers
  import opened Journal
  import opened ContestDoc

  /** The part of a problem document `verifyProblems` reads. */
  datatype ProblemDoc = ProblemDoc(docId: int)

  method VerifyProblems(directory: map<Pid, ProblemDoc>, pids: seq<Pid>) returns (r: Result<seq<int>, Error>)
    ensures r.Success? <==> forall i :: 0 <= i < |pids| ==> pids[i] in directory
    ensures r.Success? ==>
              |r.value| == |pids|
              && forall i :: 0 <= i < |pids| ==> pids[i] in directory && r.value[i] == directory[pids[i]].docId
    ensures r.Failure? ==>
              exists k :: 0 <= k < |pids| && pids[k] !in directory
                          && r.error == ProblemNotFound(pids[k])
                          && forall i :: 0 <= i < k ==> pids[i] in directory
  {
    var ids: seq<int> := [];
    var n := 0;
    while n < |pids|
      invariant 0 <= n <= |pids|
      invariant |ids| == n
      invariant forall i :: 0 <= i < n ==> pids[i] in directory && ids[i] == directory[pids[i]].docId
    {
      if pids[n] in directory {
        ids := ids + [directory[pids[n]].docId];
      } else {
        return Failure(ProblemNotFound(pids[n]));
      }
      n := n + 1;
    }
    return Success(ids);
  }
}
