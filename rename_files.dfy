/**
 * The rename script: collect the candidates, ask once for confirmation, then
 * try to rename each candidate to `new_name` plus its own extension in its own
 * directory, counting the renames that succeed and carrying on past failures.
 */
module Rename {
  import opened Wrappers
  import opened Strings
  import opened Paths
  import opened Walk
  import opened Selection
  import opened Files

  /** `os.path.join(os.path.dirname(p), new_name + os.path.splitext(p)[1])`. */
  function NewFilePath(p: Path, newName: string): Path
  {
    Join(Dirname(p), newName + Ext(p))
  }

  /** Joining a directory with a plain stem and an extension gives a path ending in both, with that extension. */
  lemma JoinedExt(d: Path, stem: string, e: string)
    requires IsPlainStem(stem) && IsExtension(e)
    ensures Ext(Join(d, stem + e)) == e
    ensures EndsWith(Join(d, stem + e), stem + e)
  {
    var name := stem + e;
    assert name[0] == stem[0];
    JoinRelative(d, name);
    var pre := if d == [] || d[|d| - 1] == Sep then d else d + [Sep];
    assert Join(d, name) == pre + name;
    assert pre + stem + e == pre + name;
    ExtOfStemAndExt(pre, stem, e);
    assert (pre + name)[|pre + name| - |name|..] == name;
  }

  /** Joining a directory name with a plain stem and an extension, then taking `dirname`, gives back the directory. */
  lemma JoinedDir(d: Path, stem: string, e: string)
    requires IsDirname(d) && IsPlainStem(stem) && IsExtension(e)
    ensures Dirname(Join(d, stem + e)) == d
  {
    StemAndExtChars(stem, e);
    assert (stem + e)[0] == stem[0];
    DirnameOfJoin(d, stem + e);
  }

  /**
   * The new path stays in the directory of the old one and keeps its extension;
   * it ends with `newName` followed by that extension (for a plain new name: no
   * dot, no separator).
   */
  lemma NewFilePathKeepsDirAndExt(p: Path, newName: string)
    requires IsPlainStem(newName)
    ensures Dirname(NewFilePath(p, newName)) == Dirname(p)
    ensures Ext(NewFilePath(p, newName)) == Ext(p)
    ensures EndsWith(NewFilePath(p, newName), newName + Ext(p))
  {
    DirnameIsPrefix(p);
    ExtIsSuffix(p);
    JoinedDir(Dirname(p), newName, Ext(p));
    JoinedExt(Dirname(p), newName, Ext(p));
  }

  /** The files left after the successful renames in `log`, applied in order to `files`. */
  function ApplyRenames(files: set<Path>, log: seq<(Path, Path)>): set<Path>
  {
    if log == [] then files
    else
      var (src, dst) := log[|log| - 1];
      ApplyRenames(files, log[..|log| - 1]) - {src} + {dst}
  }

  lemma ApplyRenamesStep(files: set<Path>, log: seq<(Path, Path)>, src: Path, dst: Path)
    ensures ApplyRenames(files, log + [(src, dst)]) == ApplyRenames(files, log) - {src} + {dst}
  {
    assert (log + [(src, dst)])[..|log|] == log;
  }

  /** Each rename in `log` found its source present, in the files left by the renames before it. */
  predicate SourcesPresent(files: set<Path>, log: seq<(Path, Path)>)
  {
    log == [] ||
    (SourcesPresent(files, log[..|log| - 1]) && log[|log| - 1].0 in ApplyRenames(files, log[..|log| - 1]))
  }

  lemma SourcesPresentStep(files: set<Path>, log: seq<(Path, Path)>, src: Path, dst: Path)
    ensures SourcesPresent(files, log + [(src, dst)]) <==>
            SourcesPresent(files, log) && src in ApplyRenames(files, log)
  {
    assert (log + [(src, dst)])[..|log|] == log;
  }

  /** Renames that each found their source never add a file: the tree does not grow. */
  lemma {:induction false} RenamesNeverGrow(files: set<Path>, log: seq<(Path, Path)>)
    requires SourcesPresent(files, log)
    ensures |ApplyRenames(files, log)| <= |files|
  {
    if log != [] {
      var init := log[..|log| - 1];
      var (src, dst) := log[|log| - 1];
      RenamesNeverGrow(files, init);
      var before := ApplyRenames(files, init);
      assert before == (before - {src}) + {src};
      assert |before - {src} + {dst}| <= |before - {src}| + 1;
    }
  }

  /** A path that is neither the source nor the target of any rename is present afterwards exactly when it was before. */
  lemma {:induction false} RenamesTouchOnlyTheirPaths(files: set<Path>, log: seq<(Path, Path)>, q: Path)
    requires forall k :: 0 <= k < |log| ==> q != log[k].0 && q != log[k].1
    ensures q in ApplyRenames(files, log) <==> q in files
  {
    if log != [] {
      RenamesTouchOnlyTheirPaths(files, log[..|log| - 1], q);
    }
  }

  /** Taking two members out of a set and putting one element in leaves it smaller. */
  lemma TwoOutOneIn(files: set<Path>, a: Path, b: Path, t: Path)
    requires a != b && a in files && b in files
    ensures |files - {a, b} + {t}| < |files|
  {
    var rest := files - {a, b};
    assert files == rest + {a, b};
    assert |files| == |rest| + 2;
    assert |rest + {t}| <= |rest| + 1;
  }

  /** Renaming two different existing files to one target leaves one file fewer. */
  lemma TwoRenamesToOneTarget(files: set<Path>, a: Path, b: Path, t: Path)
    requires a != b && a in files && b in files
    ensures ApplyRenames(files, [(a, t), (b, t)]) == files - {a, b} + {t}
    ensures |ApplyRenames(files, [(a, t), (b, t)])| < |files|
  {
    var log := [(a, t), (b, t)];
    assert log[..1] == [(a, t)] && log[..1][..0] == [];
    assert ApplyRenames(files, log[..1]) == files - {a} + {t};
    assert ApplyRenames(files, log) == files - {a} + {t} - {b} + {t};
    assert files - {a} + {t} - {b} + {t} == files - {a, b} + {t};
    TwoOutOneIn(files, a, b, t);
  }

  /**
   * Two different files in one directory with one extension get the same
   * target, so renaming both leaves one file fewer than before: `os.rename`
   * replaces an existing target on POSIX.
   */
  lemma SiblingsCollide(files: set<Path>, a: Path, b: Path, newName: string)
    requires a != b && a in files && b in files
    requires Dirname(a) == Dirname(b) && Ext(a) == Ext(b)
    ensures NewFilePath(a, newName) == NewFilePath(b, newName)
    ensures |ApplyRenames(files, [(a, NewFilePath(a, newName)), (b, NewFilePath(b, newName))])| < |files|
  {
    var t := NewFilePath(a, newName);
    assert NewFilePath(b, newName) == t;
    TwoRenamesToOneTarget(files, a, b, t);
  }

  /** Every logged rename moved one of `sources` to its new path under `newName`. */
  predicate RenamedFrom(log: seq<(Path, Path)>, sources: seq<Path>, newName: string)
  {
    log == [] ||
    (var (src, dst) := log[|log| - 1];
     RenamedFrom(log[..|log| - 1], sources, newName) && src in sources && dst == NewFilePath(src, newName))
  }

  /** `RenamedFrom`, entry by entry. */
  lemma {:induction false} RenamedFromEach(log: seq<(Path, Path)>, sources: seq<Path>, newName: string, k: int)
    requires RenamedFrom(log, sources, newName) && 0 <= k < |log|
    ensures log[k].0 in sources && log[k].1 == NewFilePath(log[k].0, newName)
  {
    if k < |log| - 1 {
      RenamedFromEach(log[..|log| - 1], sources, newName, k);
    }
  }

  /** The `(source, target)` pairs of renaming `renamed`, in order, under `newName`. */
  function RenameLog(renamed: seq<Path>, newName: string): seq<(Path, Path)>
  {
    if renamed == [] then []
    else
      var src := renamed[|renamed| - 1];
      RenameLog(renamed[..|renamed| - 1], newName) + [(src, NewFilePath(src, newName))]
  }

  lemma RenameLogStep(renamed: seq<Path>, newName: string, src: Path)
    ensures RenameLog(renamed + [src], newName) == RenameLog(renamed, newName) + [(src, NewFilePath(src, newName))]
  {
    assert (renamed + [src])[..|renamed|] == renamed;
  }

  lemma {:induction false} RenameLogFrom(renamed: seq<Path>, sources: seq<Path>, newName: string)
    requires forall x :: x in renamed ==> x in sources
    ensures RenamedFrom(RenameLog(renamed, newName), sources, newName)
  {
    if renamed != [] {
      var init := renamed[..|renamed| - 1];
      var src := renamed[|renamed| - 1];
      assert forall x :: x in init ==> x in renamed;
      RenameLogFrom(init, sources, newName);
      var prev := RenameLog(init, newName);
      assert (prev + [(src, NewFilePath(src, newName))])[..|prev|] == prev;
    }
  }

  /**
   * `picked` lists, in order, members of `sources` taken at the strictly
   * increasing positions `idx`, each below `bound`: at most one pick per
   * position, so no more picks than positions.
   */
  ghost predicate PickedInOrder(picked: seq<Path>, idx: seq<int>, sources: seq<Path>, bound: int)
  {
    && |picked| == |idx| <= bound <= |sources|
    && (forall k :: 0 <= k < |idx| ==> 0 <= idx[k] < bound && picked[k] == sources[idx[k]])
    && (forall j, k :: 0 <= j < k < |idx| ==> idx[j] < idx[k])
  }

  /** Picking position `i` after positions below `i` keeps the picks in order. */
  lemma PickedNext(picked: seq<Path>, idx: seq<int>, sources: seq<Path>, i: int)
    requires PickedInOrder(picked, idx, sources, i) && 0 <= i < |sources|
    ensures PickedInOrder(picked + [sources[i]], idx + [i], sources, i + 1)
  {
  }

  /** From distinct sources, nothing is picked twice. */
  lemma PickedOnce(picked: seq<Path>, idx: seq<int>, sources: seq<Path>, bound: int)
    requires PickedInOrder(picked, idx, sources, bound)
    requires forall j, k :: 0 <= j < k < |sources| ==> sources[j] != sources[k]
    ensures forall j, k :: 0 <= j < k < |picked| ==> picked[j] != picked[k]
  {
    forall j, k | 0 <= j < k < |picked| ensures picked[j] != picked[k] {
      assert idx[j] < idx[k];
    }
  }

  /** What is picked in order is drawn from `sources`. */
  lemma PickedFrom(picked: seq<Path>, idx: seq<int>, sources: seq<Path>, bound: int)
    requires PickedInOrder(picked, idx, sources, bound)
    ensures forall x :: x in picked ==> x in sources
  {
    forall x | x in picked ensures x in sources {
      var k :| 0 <= k < |picked| && picked[k] == x;
      assert sources[idx[k]] == x;
    }
  }

  /**
   * The loop of `rename_files` over the confirmed candidates: each is tried once,
   * in order; a failure is reported and skipped. The renames that succeeded are
   * those of `renamed`, the candidates at the strictly increasing positions
   * `idx`, and `log` records them in that order. A missing `new_name` makes every
   * attempt fail before `os.rename` is reached, since `new_name + file_ext`
   * raises a TypeError that the loop catches.
   */
  method RenameEach(fs: FileSystem, filesToRename: seq<Path>, newName: Option<string>)
    returns (filesRenamed: nat, ghost log: seq<(Path, Path)>, ghost renamed: seq<Path>, ghost idx: seq<int>)
    modifies fs
    ensures filesRenamed == |log| == |renamed| <= |filesToRename|
    ensures PickedInOrder(renamed, idx, filesToRename, |filesToRename|)
    ensures newName.None? ==> log == []
    ensures newName.Some? ==> log == RenameLog(renamed, newName.value)
    ensures newName.Some? ==> RenamedFrom(log, filesToRename, newName.value)
    ensures fs.files == ApplyRenames(old(fs.files), log)
    ensures SourcesPresent(old(fs.files), log)
  {
    filesRenamed := 0;
    log := [];
    renamed := [];
    idx := [];
    for i := 0 to |filesToRename|
      invariant filesRenamed == |log| == |renamed|
      invariant PickedInOrder(renamed, idx, filesToRename, i)
      invariant newName.None? ==> log == []
      invariant newName.Some? ==> log == RenameLog(renamed, newName.value)
      invariant fs.files == ApplyRenames(old(fs.files), log)
      invariant SourcesPresent(old(fs.files), log)
    {
      var filePath := filesToRename[i];
      if newName.Some? {
        var newFilePath := NewFilePath(filePath, newName.value);
        var ok := fs.Rename(filePath, newFilePath);
        if ok {
          ApplyRenamesStep(old(fs.files), log, filePath, newFilePath);
          SourcesPresentStep(old(fs.files), log, filePath, newFilePath);
          RenameLogStep(renamed, newName.value, filePath);
          PickedNext(renamed, idx, filesToRename, i);
          renamed := renamed + [filePath];
          idx := idx + [i];
          log := log + [(filePath, newFilePath)];
          filesRenamed := filesRenamed + 1;
        }
      }
    }
    if newName.Some? {
      PickedFrom(renamed, idx, filesToRename, |filesToRename|);
      RenameLogFrom(renamed, filesToRename, newName.value);
    }
  }

  /**
   * `rename_files`. Candidates are collected from the walk; with none, nothing
   * is asked and nothing renamed. Otherwise nothing is renamed unless the answer
   * confirms; then every candidate is tried in turn. Besides the sources and
   * targets of the successful renames, no path changes. The successful renames
   * are those of the candidates at the strictly increasing positions `idx`, in
   * that order.
   */
  method RenameFiles(fs: FileSystem, w: Walk, c: Criteria, newName: Option<string>, answer: string)
    returns (out: Outcome, ghost log: seq<(Path, Path)>, ghost renamed: seq<Path>, ghost idx: seq<int>)
    modifies fs
    ensures out == NoMatches <==> Candidates(w, c) == []
    ensures c == Criteria(None, None, None) ==> out == NoMatches && fs.files == old(fs.files)
    ensures out.Aborted? <==> Candidates(w, c) != [] && !Confirms(answer)
    ensures out.Aborted? ==> out.found == |Candidates(w, c)|
    ensures out.Completed? ==> out.found == |Candidates(w, c)| && out.succeeded == |log| <= out.found
    ensures !out.Completed? || newName.None? ==> log == []
    ensures |renamed| == |log| && PickedInOrder(renamed, idx, Candidates(w, c), |Candidates(w, c)|)
    ensures newName.Some? ==> log == RenameLog(renamed, newName.value)
    ensures newName.Some? ==> RenamedFrom(log, Candidates(w, c), newName.value)
    ensures fs.files == ApplyRenames(old(fs.files), log)
    ensures SourcesPresent(old(fs.files), log) && |fs.files| <= |old(fs.files)|
    ensures forall q :: q !in Candidates(w, c) && (forall k :: 0 <= k < |log| ==> q != log[k].1) ==>
              (q in fs.files <==> q in old(fs.files))
  {
    var filesToRename := CollectMatching(w, Matcher(c));
    var numFiles := |filesToRename|;
    log, renamed, idx := [], [], [];
    if numFiles == 0 {
      return NoMatches, log, renamed, idx;
    }
    assert c != Criteria(None, None, None) by {
      if c == Criteria(None, None, None) {
        NoCriteriaNoCandidates(w);
      }
    }
    if !Confirms(answer) {
      return Aborted(numFiles), log, renamed, idx;
    }
    var filesRenamed;
    filesRenamed, log, renamed, idx := RenameEach(fs, filesToRename, newName);
    out := Completed(numFiles, filesRenamed);
    RenamesNeverGrow(old(fs.files), log);
    forall q | q !in Candidates(w, c) && (forall k :: 0 <= k < |log| ==> q != log[k].1)
      ensures q in fs.files <==> q in old(fs.files)
    {
      forall k | 0 <= k < |log| ensures q != log[k].0 {
        RenamedFromEach(log, filesToRename, newName.value, k);
      }
      RenamesTouchOnlyTheirPaths(old(fs.files), log, q);
    }
  }
}
