/**
 * The duplicate finder: every walked file is hashed by streaming it through
 * a hash accumulator in 4096-byte chunks, the paths are bucketed by hash in
 * walk order, and the buckets holding more than one path are reported.
 *
 * The hash (MD5 in the program) is a parameter: any deterministic function
 * from the bytes absorbed to a hex string. Nothing here assumes that different
 * contents give different hashes; the program keys on the hash alone.
 */
module FindDuplicate {
  import opened Wrappers
  import opened Paths
  import opened Walk

  newtype byte = x: int | 0 <= x < 256

  type Bytes = seq<byte>

  type HexDigest = string

  /** The digest of everything fed to the accumulator, as a hex string. */
  type Hasher = Bytes -> HexDigest

  /** The files as they are at scan time; a path missing from the map cannot be opened. */
  type FileContents = map<Path, Bytes>

  /** The exception `open` raises; nothing in the duplicate finder catches it. */
  datatype IOError = CannotOpen(path: Path)

  /** The dictionary from hash to the paths having it. */
  type HashTable = map<HexDigest, seq<Path>>

  const ChunkSize: nat := 4096

  /** A file opened for binary reading, with its read position. */
  class BinaryFile {
    const content: Bytes
    var pos: nat

    ghost predicate Valid()
      reads this
    {
      pos <= |content|
    }

    constructor Open(content: Bytes)
      ensures Valid() && this.content == content && pos == 0
    {
      this.content := content;
      pos := 0;
    }

    /** `file.read(n)`: the next `n` bytes, fewer only at the end of the file. */
    method Read(n: nat) returns (data: Bytes)
      requires Valid()
      modifies this
      ensures Valid()
      ensures pos == if old(pos) + n <= |content| then old(pos) + n else |content|
      ensures data == content[old(pos)..pos]
    {
      var end := if pos + n <= |content| then pos + n else |content|;
      data := content[pos..end];
      pos := end;
    }
  }

  /** The running hash: it has absorbed every byte passed to `Update`, in order. */
  class HashAccumulator {
    const hash: Hasher
    var absorbed: Bytes

    constructor (hash: Hasher)
      ensures this.hash == hash && absorbed == []
    {
      this.hash := hash;
      absorbed := [];
    }

    method Update(data: Bytes)
      modifies this
      ensures absorbed == old(absorbed) + data
    {
      absorbed := absorbed + data;
    }

    method HexDigest() returns (h: HexDigest)
      ensures h == hash(absorbed)
    {
      h := hash(absorbed);
    }
  }

  /** The chunks, concatenated in the order they were read. */
  function Concat(chunks: seq<Bytes>): Bytes
  {
    if chunks == [] then [] else Concat(chunks[..|chunks| - 1]) + chunks[|chunks| - 1]
  }

  /** What hashing one path gives: the hash of its whole content, or the error `open` raises. */
  function FileDigest(files: FileContents, path: Path, hash: Hasher): Result<HexDigest, IOError>
  {
    if path in files then Success(hash(files[path])) else Failure(CannotOpen(path))
  }

  /**
   * `get_file_hash`: reads the file in chunks of `ChunkSize` bytes until a read
   * comes back empty, feeding each chunk to the accumulator. The chunks read
   * are returned as a ghost: together they are the file's content, once each
   * and in order, and all but the last are full.
   */
  method GetFileHash(files: FileContents, path: Path, hash: Hasher) returns (r: Result<HexDigest, IOError>, ghost chunks: seq<Bytes>)
    ensures r == FileDigest(files, path, hash)
    ensures path in files ==> Concat(chunks) == files[path]
    ensures forall k :: 0 <= k < |chunks| ==> 0 < |chunks[k]| <= ChunkSize
    ensures forall k :: 0 <= k < |chunks| - 1 ==> |chunks[k]| == ChunkSize
  {
    chunks := [];
    if path !in files {
      return Failure(CannotOpen(path)), chunks;
    }
    var file := new BinaryFile.Open(files[path]);
    var md5Hash := new HashAccumulator(hash);
    while true
      invariant file.Valid() && file.content == files[path]
      invariant md5Hash.hash == hash
      invariant md5Hash.absorbed == Concat(chunks) == file.content[..file.pos]
      invariant forall k :: 0 <= k < |chunks| ==> 0 < |chunks[k]| <= ChunkSize
      invariant forall k :: 0 <= k < |chunks| - 1 ==> |chunks[k]| == ChunkSize
      invariant file.pos < |file.content| ==> forall k :: 0 <= k < |chunks| ==> |chunks[k]| == ChunkSize
      decreases |file.content| - file.pos
    {
      var data := file.Read(ChunkSize);
      if data == [] {
        break;
      }
      md5Hash.Update(data);
      assert Concat(chunks + [data]) == Concat(chunks) + data by {
        assert (chunks + [data])[..|chunks|] == chunks;
      }
      chunks := chunks + [data];
    }
    assert file.content[..file.pos] == file.content;
    var h := md5Hash.HexDigest();
    r := Success(h);
  }

  /** `process_file`: the path, unchanged, paired with its hash. */
  method ProcessFile(files: FileContents, path: Path, hash: Hasher) returns (r: Result<(Path, HexDigest), IOError>)
    ensures r.Failure? <==> path !in files
    ensures r.Failure? ==> r.error == CannotOpen(path)
    ensures r.Success? ==> r.value.0 == path && r.value.1 == hash(files[path])
  {
    var fileHash;
    ghost var chunks;
    fileHash, chunks := GetFileHash(files, path, hash);
    if fileHash.Failure? {
      return Failure(fileHash.error);
    }
    r := Success((path, fileHash.value));
  }

  /**
   * Hashing the paths one after another: the `(path, hash)` pairs in order, or the
   * error raised for the first path that cannot be opened.
   */
  function HashAll(paths: seq<Path>, files: FileContents, hash: Hasher): Result<seq<(Path, HexDigest)>, IOError>
  {
    if paths == [] then Success([])
    else
      match HashAll(paths[..|paths| - 1], files, hash)
      case Failure(e) => Failure(e)
      case Success(pairs) =>
        var p := paths[|paths| - 1];
        if p in files then Success(pairs + [(p, hash(files[p]))]) else Failure(CannotOpen(p))
  }

  /** `file_hashes[h]` of a `defaultdict(list)`: the empty list for a hash not seen yet. */
  function Lookup(table: HashTable, h: HexDigest): seq<Path>
  {
    if h in table then table[h] else []
  }

  /** The table built by appending each path to the list of its hash, pair by pair. */
  function Groups(pairs: seq<(Path, HexDigest)>): HashTable
  {
    if pairs == [] then map[]
    else
      var table := Groups(pairs[..|pairs| - 1]);
      var (p, h) := pairs[|pairs| - 1];
      table[h := Lookup(table, h) + [p]]
  }

  /** The dictionary comprehension keeping only the hashes with more than one path. */
  function Duplicates(table: HashTable): HashTable
  {
    map h | h in table && |table[h]| > 1 :: table[h]
  }

  /** The paths, in their order, whose content hashes to `h`. */
  function SameDigest(paths: seq<Path>, files: FileContents, hash: Hasher, h: HexDigest): seq<Path>
  {
    if paths == [] then []
    else
      var p := paths[|paths| - 1];
      SameDigest(paths[..|paths| - 1], files, hash, h) + (if p in files && hash(files[p]) == h then [p] else [])
  }

  /** What either finder returns for a walk: the duplicate table, or the error that escaped. */
  function Scan(w: Walk, files: FileContents, hash: Hasher): Result<HashTable, IOError>
  {
    match HashAll(WalkPaths(w), files, hash)
    case Success(pairs) => Success(Duplicates(Groups(pairs)))
    case Failure(e) => Failure(e)
  }

  /**
   * Hashing succeeds exactly when every path can be opened, and then pairs each
   * path with the hash of its content, in order; otherwise the error names the
   * first path that cannot be opened.
   */
  lemma {:induction false} HashAllSpec(paths: seq<Path>, files: FileContents, hash: Hasher)
    ensures HashAll(paths, files, hash).Success? <==> forall i :: 0 <= i < |paths| ==> paths[i] in files
    ensures HashAll(paths, files, hash).Success? ==>
              var pairs := HashAll(paths, files, hash).value;
              |pairs| == |paths| &&
              forall i :: 0 <= i < |paths| ==> pairs[i] == (paths[i], hash(files[paths[i]]))
    ensures HashAll(paths, files, hash).Failure? ==>
              exists i :: 0 <= i < |paths| && paths[i] !in files &&
                          (forall j :: 0 <= j < i ==> paths[j] in files) &&
                          HashAll(paths, files, hash).error == CannotOpen(paths[i])
  {
    if paths != [] {
      var init := paths[..|paths| - 1];
      HashAllSpec(init, files, hash);
      assert forall i :: 0 <= i < |init| ==> init[i] == paths[i];
      if HashAll(init, files, hash).Failure? {
        var i :| 0 <= i < |init| && init[i] !in files &&
                 (forall j :: 0 <= j < i ==> init[j] in files) &&
                 HashAll(init, files, hash).error == CannotOpen(init[i]);
        assert paths[i] !in files;
      }
    }
  }

  /** Once a prefix of the paths has raised, hashing more paths raises the same error. */
  lemma {:induction false} HashAllKeepsFailure(a: seq<Path>, b: seq<Path>, files: FileContents, hash: Hasher)
    requires a <= b
    requires HashAll(a, files, hash).Failure?
    ensures HashAll(b, files, hash) == HashAll(a, files, hash)
  {
    if |b| > |a| {
      var init := b[..|b| - 1];
      assert a <= init;
      HashAllKeepsFailure(a, init, files, hash);
    } else {
      assert a == b;
    }
  }

  lemma {:induction false} SameDigestMembership(paths: seq<Path>, files: FileContents, hash: Hasher, h: HexDigest, q: Path)
    ensures q in SameDigest(paths, files, hash, h) <==> q in paths && q in files && hash(files[q]) == h
  {
    if paths != [] {
      var init := paths[..|paths| - 1];
      SameDigestMembership(init, files, hash, h, q);
      assert paths == init + [paths[|paths| - 1]];
    }
  }

  /**
   * Before filtering, the table holds for each hash exactly the paths having
   * that hash, in walk order, and a hash is a key exactly when some path has it.
   */
  lemma {:induction false} GroupsBySameDigest(paths: seq<Path>, files: FileContents, hash: Hasher, pairs: seq<(Path, HexDigest)>)
    requires HashAll(paths, files, hash) == Success(pairs)
    ensures forall h :: Lookup(Groups(pairs), h) == SameDigest(paths, files, hash, h)
    ensures forall h :: h in Groups(pairs) <==> SameDigest(paths, files, hash, h) != []
  {
    if paths != [] {
      var init := paths[..|paths| - 1];
      var p := paths[|paths| - 1];
      var initPairs := HashAll(init, files, hash).value;
      GroupsBySameDigest(init, files, hash, initPairs);
      assert pairs == initPairs + [(p, hash(files[p]))];
      assert pairs[..|pairs| - 1] == initPairs;
    }
  }

  /**
   * The table before filtering partitions the walked paths: each walked path is in
   * the list of its own content's hash and in no other list.
   */
  lemma EveryPathInItsOwnGroup(paths: seq<Path>, files: FileContents, hash: Hasher, pairs: seq<(Path, HexDigest)>, i: int, h: HexDigest)
    requires HashAll(paths, files, hash) == Success(pairs)
    requires 0 <= i < |paths|
    ensures paths[i] in files
    ensures paths[i] in Lookup(Groups(pairs), h) <==> h == hash(files[paths[i]])
  {
    HashAllSpec(paths, files, hash);
    GroupsBySameDigest(paths, files, hash, pairs);
    SameDigestMembership(paths, files, hash, h, paths[i]);
  }

  /**
   * The reported table holds exactly the hashes shared by more than one walked path,
   * each with all the walked paths having it, in walk order.
   */
  lemma ScanReportsSharedDigests(w: Walk, files: FileContents, hash: Hasher, d: HashTable)
    requires Scan(w, files, hash) == Success(d)
    ensures forall h :: h in d <==> |SameDigest(WalkPaths(w), files, hash, h)| > 1
    ensures forall h :: h in d ==> d[h] == SameDigest(WalkPaths(w), files, hash, h)
  {
    var pairs := HashAll(WalkPaths(w), files, hash).value;
    GroupsBySameDigest(WalkPaths(w), files, hash, pairs);
    forall h ensures h in d <==> |SameDigest(WalkPaths(w), files, hash, h)| > 1 {
      assert Lookup(Groups(pairs), h) == SameDigest(WalkPaths(w), files, hash, h);
    }
  }

  /** A file whose hash no other walked file shares appears in no reported list. */
  lemma UniqueDigestNotReported(w: Walk, files: FileContents, hash: Hasher, d: HashTable, p: Path)
    requires Scan(w, files, hash) == Success(d)
    requires p in files && |SameDigest(WalkPaths(w), files, hash, hash(files[p]))| == 1
    ensures forall h :: h in d ==> p !in d[h]
  {
    ScanReportsSharedDigests(w, files, hash, d);
    forall h | h in d ensures p !in d[h] {
      SameDigestMembership(WalkPaths(w), files, hash, h, p);
    }
  }

  lemma {:induction false} TwoPathsSameDigest(paths: seq<Path>, files: FileContents, hash: Hasher, h: HexDigest, i: int, j: int)
    requires 0 <= i < j < |paths|
    requires paths[i] in files && hash(files[paths[i]]) == h
    requires paths[j] in files && hash(files[paths[j]]) == h
    ensures |SameDigest(paths, files, hash, h)| >= 2
  {
    var init := paths[..|paths| - 1];
    if j < |paths| - 1 {
      TwoPathsSameDigest(init, files, hash, h, i, j);
    } else {
      SameDigestMembership(init, files, hash, h, paths[i]);
      assert paths[i] == init[i];
    }
  }

  /** Two walked files with identical contents always land in the same reported group. */
  lemma IdenticalContentsGrouped(w: Walk, files: FileContents, hash: Hasher, d: HashTable, i: int, j: int)
    requires Scan(w, files, hash) == Success(d)
    requires 0 <= i < |WalkPaths(w)| && 0 <= j < |WalkPaths(w)| && i != j
    requires WalkPaths(w)[i] in files && WalkPaths(w)[j] in files
    requires files[WalkPaths(w)[i]] == files[WalkPaths(w)[j]]
    ensures hash(files[WalkPaths(w)[i]]) in d
    ensures WalkPaths(w)[i] in d[hash(files[WalkPaths(w)[i]])]
    ensures WalkPaths(w)[j] in d[hash(files[WalkPaths(w)[i]])]
  {
    var paths := WalkPaths(w);
    var h := hash(files[paths[i]]);
    if i < j {
      TwoPathsSameDigest(paths, files, hash, h, i, j);
    } else {
      TwoPathsSameDigest(paths, files, hash, h, j, i);
    }
    ScanReportsSharedDigests(w, files, hash, d);
    SameDigestMembership(paths, files, hash, h, paths[i]);
    SameDigestMembership(paths, files, hash, h, paths[j]);
  }

  /** A walk that yields no file (an empty directory, or a root that does not exist) reports nothing. */
  lemma NoFilesNoDuplicates(w: Walk, files: FileContents, hash: Hasher)
    requires WalkPaths(w) == []
    ensures Scan(w, files, hash) == Success(map[])
  {
  }

  const Hello: Bytes := [104, 101, 108, 108, 111]
  const World: Bytes := [119, 111, 114, 108, 100]
  const ExampleWalk: Walk := [Listing("d", ["a.txt", "b.txt", "c.txt"])]
  const ExamplePaths: seq<Path> := ["d/a.txt", "d/b.txt", "d/c.txt"]
  const ExampleFiles: FileContents := map["d/a.txt" := Hello, "d/b.txt" := Hello, "d/c.txt" := World]

  lemma ExampleWalkPaths()
    ensures WalkPaths(ExampleWalk) == ExamplePaths
  {
    var names := ExampleWalk[0].files;
    forall k | 0 <= k < 3 ensures Join("d", names[k]) == ExamplePaths[k] {
      JoinPlain("d", names[k]);
    }
    SelectInStep("d", names, 0, AnyName);
    SelectInStep("d", names, 1, AnyName);
    SelectInStep("d", names, 2, AnyName);
    assert names[..0] == [] && names[..3] == names;
    assert ExampleWalk[..0] == [];
  }

  lemma ExampleHashes(hash: Hasher)
    ensures HashAll(ExamplePaths, ExampleFiles, hash) ==
            Success([("d/a.txt", hash(Hello)), ("d/b.txt", hash(Hello)), ("d/c.txt", hash(World))])
  {
    var paths, files := ExamplePaths, ExampleFiles;
    var pairs := [("d/a.txt", hash(Hello)), ("d/b.txt", hash(Hello)), ("d/c.txt", hash(World))];
    HashStep([], paths[0], files, hash);
    HashStep(paths[..1], paths[1], files, hash);
    HashStep(paths[..2], paths[2], files, hash);
    assert [] + [paths[0]] == paths[..1] && paths[..1] + [paths[1]] == paths[..2] && paths[..2] + [paths[2]] == paths;
    assert HashAll([], files, hash) == Success([]);
    assert [] + [(paths[0], hash(Hello))] == pairs[..1];
    assert pairs[..1] + [(paths[1], hash(Hello))] == pairs[..2];
    assert pairs[..2] + [(paths[2], hash(World))] == pairs;
    assert HashAll(paths[..1], files, hash) == Success(pairs[..1]);
    assert HashAll(paths[..2], files, hash) == Success(pairs[..2]);
  }

  lemma ExampleGroups(hash: Hasher)
    requires hash(Hello) != hash(World)
    ensures Groups([("d/a.txt", hash(Hello)), ("d/b.txt", hash(Hello)), ("d/c.txt", hash(World))]) ==
            map[hash(Hello) := ["d/a.txt", "d/b.txt"], hash(World) := ["d/c.txt"]]
  {
    var pairs := [("d/a.txt", hash(Hello)), ("d/b.txt", hash(Hello)), ("d/c.txt", hash(World))];
    assert pairs[..0] + [pairs[0]] == pairs[..1] && pairs[..0] == [] && pairs[..1] + [pairs[1]] == pairs[..2] && pairs[..2] + [pairs[2]] == pairs;
    GroupsStep(pairs[..0], "d/a.txt", hash(Hello));
    GroupsStep(pairs[..1], "d/b.txt", hash(Hello));
    GroupsStep(pairs[..2], "d/c.txt", hash(World));
    var h, g := hash(Hello), hash(World);
    assert Groups(pairs[..0]) == map[];
    assert [] + ["d/a.txt"] == ["d/a.txt"] && ["d/a.txt"] + ["d/b.txt"] == ["d/a.txt", "d/b.txt"];
    assert Groups(pairs[..1]) == map[h := ["d/a.txt"]];
    assert Groups(pairs[..2]) == map[h := ["d/a.txt", "d/b.txt"]];
    assert [] + ["d/c.txt"] == ["d/c.txt"];
    assert Groups(pairs) == map[h := ["d/a.txt", "d/b.txt"], g := ["d/c.txt"]];
  }

  /**
   * A directory holding two files with the same content and one with different
   * content: exactly one group, the first two files in walk order, provided the
   * two contents hash differently.
   */
  lemma TwoCopiesAndOneOther(hash: Hasher)
    requires hash(Hello) != hash(World)
    ensures Scan(ExampleWalk, ExampleFiles, hash) == Success(map[hash(Hello) := ["d/a.txt", "d/b.txt"]])
  {
    ExampleWalkPaths();
    ExampleHashes(hash);
    ExampleGroups(hash);
    var table := map[hash(Hello) := ["d/a.txt", "d/b.txt"], hash(World) := ["d/c.txt"]];
    assert Duplicates(table) == map[hash(Hello) := ["d/a.txt", "d/b.txt"]];
  }

  lemma HashStep(before: seq<Path>, p: Path, files: FileContents, hash: Hasher)
    ensures HashAll(before + [p], files, hash) ==
            match HashAll(before, files, hash)
            case Failure(e) => Failure(e)
            case Success(pairs) => if p in files then Success(pairs + [(p, hash(files[p]))]) else Failure(CannotOpen(p))
  {
    assert (before + [p])[..|before|] == before;
  }

  lemma GroupsStep(pairs: seq<(Path, HexDigest)>, p: Path, h: HexDigest)
    ensures Groups(pairs + [(p, h)]) == Groups(pairs)[h := Lookup(Groups(pairs), h) + [p]]
  {
    assert (pairs + [(p, h)])[..|pairs|] == pairs;
  }

  /** An error raised while hashing the walked files read so far is the error the whole scan raises. */
  lemma FailureEscapes(w: Walk, i: nat, j: nat, files: FileContents, hash: Hasher)
    requires i < |w| && j < |w[i].files|
    requires HashAll(Select(w[..i], AnyName) + SelectIn(w[i].root, w[i].files[..j + 1], AnyName), files, hash).Failure?
    ensures Scan(w, files, hash) ==
            Failure(HashAll(Select(w[..i], AnyName) + SelectIn(w[i].root, w[i].files[..j + 1], AnyName), files, hash).error)
  {
    SelectInIsPrefix(w[i].root, w[i].files, j + 1, AnyName);
    SelectStep(w, i, AnyName);
    SelectIsPrefix(w, i + 1, AnyName);
    HashAllKeepsFailure(Select(w[..i], AnyName) + SelectIn(w[i].root, w[i].files[..j + 1], AnyName), WalkPaths(w), files, hash);
  }

  /**
   * `find_duplicate_files_single`: walks the tree, hashing each file as it is
   * reached and appending its path to the list of its hash, then keeps the
   * hashes with more than one path. An unreadable file ends the scan with its error.
   */
  method FindDuplicateFilesSingle(w: Walk, files: FileContents, hash: Hasher) returns (r: Result<HashTable, IOError>)
    ensures r == Scan(w, files, hash)
  {
    var fileHashes: HashTable := map[];
    ghost var pairs: seq<(Path, HexDigest)> := [];
    for i := 0 to |w|
      invariant HashAll(Select(w[..i], AnyName), files, hash) == Success(pairs)
      invariant fileHashes == Groups(pairs)
    {
      var root, names := w[i].root, w[i].files;
      assert Select(w[..i], AnyName) + SelectIn(root, names[..0], AnyName) == Select(w[..i], AnyName);
      for j := 0 to |names|
        invariant HashAll(Select(w[..i], AnyName) + SelectIn(root, names[..j], AnyName), files, hash) == Success(pairs)
        invariant fileHashes == Groups(pairs)
      {
        var filePath := Join(root, names[j]);
        var fileHash;
        ghost var chunks;
        fileHash, chunks := GetFileHash(files, filePath, hash);
        ghost var before := Select(w[..i], AnyName) + SelectIn(root, names[..j], AnyName);
        WalkStep(w, i, j);
        HashStep(before, filePath, files, hash);
        if fileHash.Failure? {
          FailureEscapes(w, i, j, files, hash);
          return Failure(fileHash.error);
        }
        GroupsStep(pairs, filePath, fileHash.value);
        pairs := pairs + [(filePath, fileHash.value)];
        fileHashes := fileHashes[fileHash.value := Lookup(fileHashes, fileHash.value) + [filePath]];
      }
      assert names[..|names|] == names;
      SelectStep(w, i, AnyName);
    }
    assert w[..|w|] == w;
    r := Success(Duplicates(fileHashes));
  }

  /** `pool.map(process_file, file_paths)`: the results in input order; the first failure is raised. */
  method PoolMap(paths: seq<Path>, files: FileContents, hash: Hasher) returns (results: Result<seq<(Path, HexDigest)>, IOError>)
    ensures results == HashAll(paths, files, hash)
  {
    var done: seq<(Path, HexDigest)> := [];
    for k := 0 to |paths|
      invariant HashAll(paths[..k], files, hash) == Success(done)
    {
      var res := ProcessFile(files, paths[k], hash);
      assert paths[..k + 1][..k] == paths[..k];
      if res.Failure? {
        HashAllKeepsFailure(paths[..k + 1], paths, files, hash);
        return Failure(res.error);
      }
      done := done + [res.value];
    }
    assert paths[..|paths|] == paths;
    results := Success(done);
  }

  /**
   * `find_duplicate_files_multi`: collects every walked path first, hashes them
   * with an order-preserving map, then buckets the results. It returns what the
   * single-process finder returns, down to the order within each list.
   */
  method FindDuplicateFilesMulti(w: Walk, files: FileContents, hash: Hasher) returns (r: Result<HashTable, IOError>)
    ensures r == Scan(w, files, hash)
  {
    var filePaths := CollectMatching(w, AnyName);
    var results := PoolMap(filePaths, files, hash);
    if results.Failure? {
      return Failure(results.error);
    }
    var pairs := results.value;
    var fileHashes: HashTable := map[];
    for k := 0 to |pairs|
      invariant fileHashes == Groups(pairs[..k])
    {
      var (filePath, fileHash) := pairs[k];
      assert pairs[..k + 1] == pairs[..k] + [(filePath, fileHash)];
      GroupsStep(pairs[..k], filePath, fileHash);
      fileHashes := fileHashes[fileHash := Lookup(fileHashes, fileHash) + [filePath]];
    }
    assert pairs[..|pairs|] == pairs;
    r := Success(Duplicates(fileHashes));
  }

  /** What `main` ends with: the duplicates printed, the "no duplicates" line, or an escaped error. */
  datatype Report = DuplicatesFound(groups: HashTable) | NoDuplicatesFound | Raised(error: IOError)

  /**
   * `main`: runs either finder and prints the groups when the table is non-empty,
   * the "no duplicate files" line otherwise.
   */
  method FindAndReport(w: Walk, files: FileContents, hash: Hasher, useMultiprocessing: bool) returns (report: Report)
    ensures Scan(w, files, hash).Failure? ==> report == Raised(Scan(w, files, hash).error)
    ensures Scan(w, files, hash).Success? ==>
              report == if Scan(w, files, hash).value == map[] then NoDuplicatesFound
                        else DuplicatesFound(Scan(w, files, hash).value)
    ensures WalkPaths(w) == [] ==> report == NoDuplicatesFound
  {
    var duplicateFiles;
    if useMultiprocessing {
      duplicateFiles := FindDuplicateFilesMulti(w, files, hash);
    } else {
      duplicateFiles := FindDuplicateFilesSingle(w, files, hash);
    }
    if duplicateFiles.Failure? {
      return Raised(duplicateFiles.error);
    }
    if duplicateFiles.value != map[] {
      report := DuplicatesFound(duplicateFiles.value);
    } else {
      report := NoDuplicatesFound;
    }
  }
}
