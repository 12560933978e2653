/**
 * What the rename and remove scripts share: the choice of candidate files by
 * three optional criteria, the "y" confirmation, and the shape of their
 * summary.
 */
module Selection {
  import opened Wrappers
  import opened Strings
  import opened Paths
  import opened Walk

  /** The three optional criteria: an exact file name, a suffix, a prefix. */
  datatype Criteria = Criteria(filename: Option<string>, extension: Option<string>, startName: Option<string>)

  /** A file name is a candidate when it meets any criterion that is given. */
  predicate Matches(c: Criteria, name: string)
  {
    || (c.filename.Some? && name == c.filename.value)
    || (c.extension.Some? && EndsWith(name, c.extension.value))
    || (c.startName.Some? && StartsWith(name, c.startName.value))
  }

  function Matcher(c: Criteria): string -> bool
  {
    name => Matches(c, name)
  }

  /** The candidate paths, in walk order. */
  function Candidates(w: Walk, c: Criteria): seq<Path>
  {
    Select(w, Matcher(c))
  }

  /**
   * A path is a candidate exactly when the walk yields a file of that path whose
   * name equals the given file name, ends with the given suffix or starts with the
   * given prefix, each tested only when given.
   */
  lemma CandidatesExactly(w: Walk, c: Criteria, p: Path)
    ensures p in Candidates(w, c) <==>
            exists i, k :: 0 <= i < |w| && 0 <= k < |w[i].files| && Join(w[i].root, w[i].files[k]) == p &&
                           ((c.filename.Some? && w[i].files[k] == c.filename.value) ||
                            (c.extension.Some? && EndsWith(w[i].files[k], c.extension.value)) ||
                            (c.startName.Some? && StartsWith(w[i].files[k], c.startName.value)))
  {
    SelectMembership(w, Matcher(c), p);
    if exists i, k :: SelectedAt(w, Matcher(c), p, i, k) {
      var i, k :| SelectedAt(w, Matcher(c), p, i, k);
      assert Matches(c, w[i].files[k]);
    }
    if exists i, k :: 0 <= i < |w| && 0 <= k < |w[i].files| && Join(w[i].root, w[i].files[k]) == p &&
                      Matches(c, w[i].files[k]) {
      var i, k :| 0 <= i < |w| && 0 <= k < |w[i].files| && Join(w[i].root, w[i].files[k]) == p &&
                  Matches(c, w[i].files[k]);
      assert SelectedAt(w, Matcher(c), p, i, k);
    }
  }

  lemma {:induction false} NothingSelectedIn(root: Path, names: seq<string>)
    ensures SelectIn(root, names, Matcher(Criteria(None, None, None))) == []
  {
    if names != [] {
      NothingSelectedIn(root, names[..|names| - 1]);
    }
  }

  /** With no criterion given, no walked file is a candidate. */
  lemma {:induction false} NoCriteriaNoCandidates(w: Walk)
    ensures Candidates(w, Criteria(None, None, None)) == []
  {
    if w != [] {
      var last := w[|w| - 1];
      NoCriteriaNoCandidates(w[..|w| - 1]);
      NothingSelectedIn(last.root, last.files);
    }
  }

  /** There are never more candidates than walked files. */
  lemma CandidatesNoMoreThanFiles(w: Walk, c: Criteria)
    ensures |Candidates(w, c)| <= |WalkPaths(w)|
  {
    SelectNoLonger(w, Matcher(c));
  }

  /** `input(...).lower() == "y"`. */
  predicate Confirms(answer: string)
  {
    Lower(answer) == "y"
  }

  /** The answers that confirm are exactly "y" and "Y". */
  lemma ConfirmsIff(answer: string)
    ensures Confirms(answer) <==> answer == "y" || answer == "Y"
  {
    if Lower(answer) == "y" {
      assert |answer| == 1;
      assert Lower(answer)[0] == LowerChar(answer[0]);
      assert answer == [answer[0]];
    }
  }

  /**
   * How a run ends: no candidate (no prompt), aborted at the prompt, or completed
   * with the number of candidates and the number of them the loop got through.
   */
  datatype Outcome = NoMatches | Aborted(found: nat) | Completed(found: nat, succeeded: nat)
}
