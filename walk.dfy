/**
 * The directory tree walk, taken as input: the sequence of `(root, files)` pairs
 * that `os.walk` yields, in the order it yields them. Every script walks the tree
 * the same way, keeping `os.path.join(root, file)` for the names it wants.
 */
module Walk {
  import opened Paths

  /** One step of the walk: a directory and the names of the files directly inside it. */
  datatype Listing = Listing(root: Path, files: seq<string>)

  type Walk = seq<Listing>

  /** The joined paths of those `names` in `root` that `keep` accepts, in order. */
  function SelectIn(root: Path, names: seq<string>, keep: string -> bool): seq<Path>
  {
    if names == [] then []
    else
      var name := names[|names| - 1];
      SelectIn(root, names[..|names| - 1], keep) + (if keep(name) then [Join(root, name)] else [])
  }

  /** The joined paths of the walked files whose names `keep` accepts, in walk order. */
  function Select(w: Walk, keep: string -> bool): seq<Path>
  {
    if w == [] then []
    else
      var last := w[|w| - 1];
      Select(w[..|w| - 1], keep) + SelectIn(last.root, last.files, keep)
  }

  predicate AnyName(name: string)
  {
    true
  }

  /** Every walked file path, in walk order. */
  function WalkPaths(w: Walk): seq<Path>
  {
    Select(w, AnyName)
  }

  /** The walk's `i`-th directory holds, as its `k`-th file, a file that `keep` accepts and whose joined path is `p`. */
  ghost predicate SelectedAt(w: Walk, keep: string -> bool, p: Path, i: int, k: int)
  {
    0 <= i < |w| && 0 <= k < |w[i].files| && keep(w[i].files[k]) && Join(w[i].root, w[i].files[k]) == p
  }

  lemma {:induction false} SelectInMembership(root: Path, names: seq<string>, keep: string -> bool, p: Path)
    ensures p in SelectIn(root, names, keep) <==>
            exists k :: 0 <= k < |names| && keep(names[k]) && Join(root, names[k]) == p
  {
    if names != [] {
      var init := names[..|names| - 1];
      SelectInMembership(root, init, keep, p);
      if exists k :: 0 <= k < |names| && keep(names[k]) && Join(root, names[k]) == p {
        var k :| 0 <= k < |names| && keep(names[k]) && Join(root, names[k]) == p;
        if k < |init| { assert init[k] == names[k]; }
      }
      if exists k :: 0 <= k < |init| && keep(init[k]) && Join(root, init[k]) == p {
        var k :| 0 <= k < |init| && keep(init[k]) && Join(root, init[k]) == p;
        assert names[k] == init[k];
      }
    }
  }

  /** Every selected path comes from a walked file that `keep` accepts. */
  lemma {:induction false} SelectedComesFromWalk(w: Walk, keep: string -> bool, p: Path)
    requires p in Select(w, keep)
    ensures exists i, k :: SelectedAt(w, keep, p, i, k)
  {
    var init, last := w[..|w| - 1], w[|w| - 1];
    if p in Select(init, keep) {
      SelectedComesFromWalk(init, keep, p);
      var i, k :| SelectedAt(init, keep, p, i, k);
      assert w[i] == init[i];
      assert SelectedAt(w, keep, p, i, k);
    } else {
      SelectInMembership(last.root, last.files, keep, p);
      var k :| 0 <= k < |last.files| && keep(last.files[k]) && Join(last.root, last.files[k]) == p;
      assert SelectedAt(w, keep, p, |w| - 1, k);
    }
  }

  /** Every walked file that `keep` accepts is selected. */
  lemma {:induction false} WalkedIsSelected(w: Walk, keep: string -> bool, p: Path, i: int, k: int)
    requires SelectedAt(w, keep, p, i, k)
    ensures p in Select(w, keep)
  {
    var init, last := w[..|w| - 1], w[|w| - 1];
    if i < |w| - 1 {
      assert init[i] == w[i];
      WalkedIsSelected(init, keep, p, i, k);
    } else {
      SelectInMembership(last.root, last.files, keep, p);
    }
  }

  /**
   * A path is selected exactly when the walk yields a file, in some directory,
   * whose name `keep` accepts and whose joined path is that path.
   */
  lemma SelectMembership(w: Walk, keep: string -> bool, p: Path)
    ensures p in Select(w, keep) <==> exists i, k :: SelectedAt(w, keep, p, i, k)
  {
    if p in Select(w, keep) {
      SelectedComesFromWalk(w, keep, p);
    }
    if exists i, k :: SelectedAt(w, keep, p, i, k) {
      var i, k :| SelectedAt(w, keep, p, i, k);
      WalkedIsSelected(w, keep, p, i, k);
    }
  }

  lemma {:induction false} SelectInNoLonger(root: Path, names: seq<string>, keep: string -> bool)
    ensures |SelectIn(root, names, keep)| <= |SelectIn(root, names, AnyName)|
  {
    if names != [] {
      SelectInNoLonger(root, names[..|names| - 1], keep);
    }
  }

  /** Selecting by any criterion yields no more paths than the walk has files; a walk with no file selects nothing. */
  lemma {:induction false} SelectNoLonger(w: Walk, keep: string -> bool)
    ensures |Select(w, keep)| <= |WalkPaths(w)|
  {
    if w != [] {
      var last := w[|w| - 1];
      SelectNoLonger(w[..|w| - 1], keep);
      SelectInNoLonger(last.root, last.files, keep);
    }
  }

  lemma SelectStep(w: Walk, i: nat, keep: string -> bool)
    requires i < |w|
    ensures Select(w[..i + 1], keep) == Select(w[..i], keep) + SelectIn(w[i].root, w[i].files, keep)
  {
    assert w[..i + 1][..i] == w[..i];
  }

  lemma SelectInStep(root: Path, names: seq<string>, j: nat, keep: string -> bool)
    requires j < |names|
    ensures SelectIn(root, names[..j + 1], keep) ==
            SelectIn(root, names[..j], keep) + (if keep(names[j]) then [Join(root, names[j])] else [])
  {
    assert names[..j + 1][..j] == names[..j];
  }

  /** The paths selected from the first `j` names start the paths selected from all of them. */
  lemma {:induction false} SelectInIsPrefix(root: Path, names: seq<string>, j: nat, keep: string -> bool)
    requires j <= |names|
    ensures SelectIn(root, names[..j], keep) <= SelectIn(root, names, keep)
  {
    if j < |names| {
      var init := names[..|names| - 1];
      assert names[..j] == init[..j];
      SelectInIsPrefix(root, init, j, keep);
    } else {
      assert names[..j] == names;
    }
  }

  /** The paths selected from the first `i` listings start the paths selected from the whole walk. */
  lemma {:induction false} SelectIsPrefix(w: Walk, i: nat, keep: string -> bool)
    requires i <= |w|
    ensures Select(w[..i], keep) <= Select(w, keep)
  {
    if i < |w| {
      var init := w[..|w| - 1];
      assert w[..i] == init[..i];
      SelectIsPrefix(init, i, keep);
    } else {
      assert w[..i] == w;
    }
  }

  /** One more file of listing `i` appends its joined path to every walked path so far. */
  lemma WalkStep(w: Walk, i: nat, j: nat)
    requires i < |w| && j < |w[i].files|
    ensures Select(w[..i], AnyName) + SelectIn(w[i].root, w[i].files[..j + 1], AnyName) ==
            Select(w[..i], AnyName) + SelectIn(w[i].root, w[i].files[..j], AnyName) + [Join(w[i].root, w[i].files[j])]
  {
    SelectInStep(w[i].root, w[i].files, j, AnyName);
  }

  /**
   * The walk loop shared by the scripts: for each `(root, files)` and each file,
   * append `os.path.join(root, file)` to the result when the file's name is wanted.
   */
  method CollectMatching(w: Walk, keep: string -> bool) returns (paths: seq<Path>)
    ensures paths == Select(w, keep)
  {
    paths := [];
    for i := 0 to |w|
      invariant paths == Select(w[..i], keep)
    {
      var root, files := w[i].root, w[i].files;
      for j := 0 to |files|
        invariant paths == Select(w[..i], keep) + SelectIn(root, files[..j], keep)
      {
        SelectInStep(root, files, j, keep);
        if keep(files[j]) {
          paths := paths + [Join(root, files[j])];
        }
      }
      assert files[..|files|] == files;
      SelectStep(w, i, keep);
    }
    assert w[..|w|] == w;
  }
}
