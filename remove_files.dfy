/**
 * The remove script: collect the candidates, ask once for confirmation, then
 * try to delete each candidate, counting the deletions that succeed and
 * carrying on past failures.
 */
module Remove {
  import opened Wrappers
  import opened Paths
  import opened Walk
  import opened Selection
  import opened Files

  /**
   * `remove_files`. Candidates are collected from the walk; with none, nothing
   * is asked and nothing deleted. Otherwise nothing is deleted unless the answer
   * confirms; then every candidate is tried in turn, and `deleted` records, in
   * order, the paths whose removal succeeded. Exactly those paths are gone
   * afterwards; every other file, and so every non-candidate, is still there.
   */
  method RemoveFiles(fs: FileSystem, w: Walk, c: Criteria, answer: string)
    returns (out: Outcome, ghost deleted: seq<Path>)
    modifies fs
    ensures out == NoMatches <==> Candidates(w, c) == []
    ensures c == Criteria(None, None, None) ==> out == NoMatches && fs.files == old(fs.files)
    ensures out.Aborted? <==> Candidates(w, c) != [] && !Confirms(answer)
    ensures out.Aborted? ==> out.found == |Candidates(w, c)|
    ensures out.Completed? ==> out.found == |Candidates(w, c)| && out.succeeded == |deleted| <= out.found
    ensures !out.Completed? ==> deleted == []
    ensures forall k :: 0 <= k < |deleted| ==> deleted[k] in Candidates(w, c) && deleted[k] in old(fs.files)
    ensures forall k, l :: 0 <= k < l < |deleted| ==> deleted[k] != deleted[l]
    ensures fs.files == old(fs.files) - (set q | q in deleted)
    ensures forall q :: q in old(fs.files) && q !in Candidates(w, c) ==> q in fs.files
  {
    var filesToDelete := CollectMatching(w, Matcher(c));
    var numFiles := |filesToDelete|;
    deleted := [];
    if numFiles == 0 {
      return NoMatches, deleted;
    }
    assert c != Criteria(None, None, None) by {
      if c == Criteria(None, None, None) {
        NoCriteriaNoCandidates(w);
      }
    }
    if !Confirms(answer) {
      return Aborted(numFiles), deleted;
    }
    var filesDeleted := 0;
    for i := 0 to numFiles
      invariant filesDeleted == |deleted| <= i
      invariant forall k :: 0 <= k < |deleted| ==> deleted[k] in filesToDelete[..i] && deleted[k] in old(fs.files)
      invariant forall k, l :: 0 <= k < l < |deleted| ==> deleted[k] != deleted[l]
      invariant fs.files == old(fs.files) - (set q | q in deleted)
    {
      var filePath := filesToDelete[i];
      assert filesToDelete[..i + 1] == filesToDelete[..i] + [filePath];
      var ok := fs.Remove(filePath);
      if ok {
        assert (set q | q in deleted + [filePath]) == (set q | q in deleted) + {filePath};
        deleted := deleted + [filePath];
        filesDeleted := filesDeleted + 1;
      }
    }
    assert filesToDelete[..numFiles] == filesToDelete;
    out := Completed(numFiles, filesDeleted);
  }
}
